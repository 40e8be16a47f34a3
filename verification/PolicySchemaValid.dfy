/** The schema interpreter decides a declarative notion of validity. */
module PolicySchemaValid {
  import opened Wrappers
  import opened PolicySchema
  import opened PolicySchemaValues
  import Decimal

  /**
   What a schema means, with no order of evaluation, no paths and no failure list. The keywords are those of JSON
   Schema 2020-12 (Core sections 10.2.1.1, 10.2.2, 10.3.1 and 10.3.2, Validation sections 6.1 to 6.5), over the values
   as PolicySchemaValues takes them; a schema that is not an object accepts everything.
   */
  ghost predicate Valid(s: Schema, v: Value)
    decreases s, 1
  {
    s.Node? ==>
      && (s.types.Some? ==> HasOneOf(v, s.types.value))
      && (s.enumOf.Some? ==> ListedIn(s.enumOf.value, v))
      && (s.minLength.Some? && v.Str? ==> s.minLength.value <= |v.s|)
      && (s.minimum.Some? ==> forall n :: StandsFor(v, n) ==> s.minimum.value <= n)
      && (v.Obj? ==> ValidMembers(s, v.fields))
      && (v.Arr? && s.items.Some? ==> forall i :: 0 <= i < |v.items| ==> Valid(s.items.value, v.items[i]))
      && (v.Arr? && s.contains.Some? ==> exists i :: 0 <= i < |v.items| && Valid(s.contains.value, v.items[i]))
      && (forall i :: 0 <= i < |s.allOf| ==> Valid(s.allOf[i], v))
      && (s.condition.Some? && Valid(s.condition.value, v) && s.thenBranch.Some? ==> Valid(s.thenBranch.value, v))
      && (s.condition.Some? && !Valid(s.condition.value, v) && s.elseBranch.Some? ==> Valid(s.elseBranch.value, v))
  }

  ghost predicate ValidMembers(s: Schema, fields: seq<Field>)
    requires s.Node?
    decreases s, 0
  {
    && (s.required.Some? ==>
          forall i :: 0 <= i < |s.required.value| ==> Present(fields, s.required.value[i]))
    && (s.properties.Listed? ==> forall i :: 0 <= i < |s.properties.list| ==> ValidMember(s.properties.list[i], fields))
    && (s.closed && s.properties.Listed? ==>
          forall i :: 0 <= i < |fields| ==> Declares(s.properties.list, fields[i].key))
  }

  ghost predicate Declares(properties: seq<Property>, key: string) {
    exists p :: p in properties && p.key == key
  }

  ghost predicate ValidMember(p: Property, fields: seq<Field>)
    decreases p.schema, 2
  {
    forall x :: Has(fields, p.key, x) ==> Valid(p.schema, x)
  }

  // ---------------------------------------------------------------- part by part

  lemma {:induction false} RequiredExactly(s: Schema, required: seq<string>, fields: seq<Field>, sp: string, n: nat)
    requires s.Node? && n <= |required|
    ensures RequiredFailures(s, required, fields, sp, n) == [] <==>
      forall i :: 0 <= i < n ==> Present(fields, required[i])
  {
    hide Lookup, Present;
    if n > 0 {
      PresentExactly(fields, required[n - 1]);
      RequiredExactly(s, required, fields, sp, n - 1);
    }
  }

  lemma DeclaredExactly(properties: seq<Property>, key: string)
    ensures Declared(properties, key) <==> Declares(properties, key)
  {
  }

  lemma {:induction false} UnknownExactly(s: Schema, fields: seq<Field>, path: string, sp: string, n: nat)
    requires s.Node? && s.properties.Listed? && n <= |fields|
    ensures UnknownFailures(s, fields, path, sp, n) == [] <==>
      forall i :: 0 <= i < n ==> Declares(s.properties.list, fields[i].key)
  {
    hide Declared, Declares;
    if n > 0 {
      DeclaredExactly(s.properties.list, fields[n - 1].key);
      UnknownExactly(s, fields, path, sp, n - 1);
    }
  }

  lemma {:induction false} PropertiesExactly(s: Schema, fields: seq<Field>, path: string, sp: string, n: nat)
    requires s.Node? && s.properties.Listed? && n <= |s.properties.list|
    ensures PropertyFailures(s, fields, path, sp, n) == [] <==>
      forall i :: 0 <= i < n ==> ValidMember(s.properties.list[i], fields)
    decreases s, 0, n
  {
    hide MemberFailures, ValidMember;
    if n > 0 {
      PropertiesExactly(s, fields, path, sp, n - 1);
      MemberExactly(s.properties.list[n - 1], fields, path, sp);
    }
  }

  lemma MemberExactly(p: Property, fields: seq<Field>, path: string, sp: string)
    ensures MemberFailures(p, fields, path, sp) == [] <==> ValidMember(p, fields)
    decreases p.schema, 3, 0
  {
    hide Lookup, Has, Failures, Valid;
    PresentExactly(fields, p.key);
    var member := Lookup(fields, p.key);
    if member != Undefined {
      NoFailuresExactlyWhenValid(p.schema, member, MemberPath(path, p.key), sp + "/properties/" + p.key);
      forall x | Has(fields, p.key, x)
        ensures x == member
      {
        LookupExactly(fields, p.key, x);
      }
    }
  }

  ghost predicate AllValid(s: Schema, values: seq<Value>, n: nat)
    requires n <= |values|
    decreases s, 2, n
  {
    n > 0 ==> AllValid(s, values, n - 1) && Valid(s, values[n - 1])
  }

  ghost predicate AnyValid(s: Schema, values: seq<Value>, n: nat)
    requires n <= |values|
    decreases s, 2, n
  {
    n > 0 && (AnyValid(s, values, n - 1) || Valid(s, values[n - 1]))
  }

  lemma {:induction false} AllAndAny(s: Schema, values: seq<Value>, n: nat)
    requires n <= |values|
    ensures AllValid(s, values, n) <==> forall i :: 0 <= i < n ==> Valid(s, values[i])
    ensures AnyValid(s, values, n) <==> exists i :: 0 <= i < n && Valid(s, values[i])
  {
    if n > 0 {
      AllAndAny(s, values, n - 1);
    }
  }

  lemma {:induction false} ItemsExactly(items: Schema, values: seq<Value>, path: string, sp: string, n: nat)
    requires n <= |values|
    ensures ItemFailures(items, values, path, sp, n) == [] <==> AllValid(items, values, n)
    decreases items, 3, n
  {
    hide Failures, Valid, ItemPath;
    if n > 0 {
      ItemsExactly(items, values, path, sp, n - 1);
      NoFailuresExactlyWhenValid(items, values[n - 1], ItemPath(path, n - 1), sp + "/items");
    }
  }

  lemma {:induction false} ContainsExactly(condition: Schema, values: seq<Value>, n: nat)
    requires n <= |values|
    ensures AnyHolds(condition, values, n) <==> AnyValid(condition, values, n)
    decreases condition, 3, n
  {
    if n > 0 {
      ContainsExactly(condition, values, n - 1);
      NoFailuresExactlyWhenValid(condition, values[n - 1], "", "");
    }
  }

  ghost predicate ValidBranches(branches: seq<Schema>, v: Value, n: nat)
    requires n <= |branches|
  {
    forall i :: 0 <= i < n ==> Valid(branches[i], v)
  }

  lemma OneMoreBranch(branches: seq<Schema>, v: Value, n: nat)
    requires 0 < n <= |branches|
    ensures ValidBranches(branches, v, n) <==> ValidBranches(branches, v, n - 1) && Valid(branches[n - 1], v)
  {}

  lemma {:induction false} BranchesExactly(s: Schema, v: Value, path: string, sp: string, n: nat)
    requires s.Node? && n <= |s.allOf|
    ensures BranchFailures(s, v, path, sp, n) == [] <==> ValidBranches(s.allOf, v, n)
    decreases s, 0, n
  {
    if n > 0 {
      var location := sp + "/allOf/" + Decimal.PrintNat(n - 1);
      BranchesExactly(s, v, path, sp, n - 1);
      NoFailuresExactlyWhenValid(s.allOf[n - 1], v, path, location);
      OneMoreBranch(s.allOf, v, n);
      assert BranchFailures(s, v, path, sp, n)
          == BranchFailures(s, v, path, sp, n - 1) + Failures(s.allOf[n - 1], v, path, location);
    }
  }

  lemma ScalarExactly(s: Schema, v: Value, path: string, sp: string)
    requires s.Node?
    ensures ScalarFailures(s, v, path, sp) == [] <==>
      && (s.enumOf.Some? ==> ListedIn(s.enumOf.value, v))
      && (s.minLength.Some? && v.Str? ==> s.minLength.value <= |v.s|)
      && (s.minimum.Some? ==> forall n :: StandsFor(v, n) ==> s.minimum.value <= n)
  {
    hide InEnum, ListedIn, ToIntegerLike, StandsFor, Shown;
    if s.enumOf.Some? {
      EnumExactly(s.enumOf.value, v);
    }
    forall n
      ensures ToIntegerLike(v) == Some(n) <==> StandsFor(v, n)
    {
      IntegerExactly(v, n);
    }
  }

  lemma {:induction false} ObjectExactly(s: Schema, v: Value, path: string, sp: string)
    requires s.Node?
    ensures ObjectFailures(s, v, path, sp) == [] <==> (v.Obj? ==> ValidMembers(s, v.fields))
    decreases s, 1, 0
  {
    hide RequiredFailures, PropertyFailures, UnknownFailures, Present, Declares, ValidMember;
    if v.Obj? {
      if s.required.Some? {
        RequiredExactly(s, s.required.value, v.fields, sp, |s.required.value|);
      }
      if s.properties.Listed? {
        PropertiesExactly(s, v.fields, path, sp, |s.properties.list|);
        UnknownExactly(s, v.fields, path, sp, |v.fields|);
      }
    }
  }

  lemma {:induction false} ArrayExactly(s: Schema, v: Value, path: string, sp: string)
    requires s.Node?
    ensures ArrayFailures(s, v, path, sp) == [] <==>
      && (v.Arr? && s.items.Some? ==> forall i :: 0 <= i < |v.items| ==> Valid(s.items.value, v.items[i]))
      && (v.Arr? && s.contains.Some? ==> exists i :: 0 <= i < |v.items| && Valid(s.contains.value, v.items[i]))
    decreases s, 1, 0
  {
    if v.Arr? {
      if s.items.Some? {
        ItemsExactly(s.items.value, v.items, path, sp, |v.items|);
        AllAndAny(s.items.value, v.items, |v.items|);
      }
      if s.contains.Some? {
        ContainsExactly(s.contains.value, v.items, |v.items|);
        AllAndAny(s.contains.value, v.items, |v.items|);
      }
    }
  }

  lemma {:induction false} ConditionalExactly(s: Schema, v: Value, path: string, sp: string)
    requires s.Node?
    ensures ConditionalFailures(s, v, path, sp) == [] <==>
      && (s.condition.Some? && Valid(s.condition.value, v) && s.thenBranch.Some? ==> Valid(s.thenBranch.value, v))
      && (s.condition.Some? && !Valid(s.condition.value, v) && s.elseBranch.Some? ==> Valid(s.elseBranch.value, v))
    decreases s, 1, 0
  {
    if s.condition.Some? {
      NoFailuresExactlyWhenValid(s.condition.value, v, "", "");
      if s.thenBranch.Some? {
        NoFailuresExactlyWhenValid(s.thenBranch.value, v, path, sp + "/then");
      }
      if s.elseBranch.Some? {
        NoFailuresExactlyWhenValid(s.elseBranch.value, v, path, sp + "/else");
      }
    }
  }

  /** Soundness and completeness: no failure is pushed exactly when the value is valid, wherever it sits. */
  lemma {:induction false} NoFailuresExactlyWhenValid(s: Schema, v: Value, path: string, sp: string)
    ensures Failures(s, v, path, sp) == [] <==> Valid(s, v)
    decreases s, 2, 0
  {
    hide ObjectFailures, ArrayFailures, BranchFailures, ConditionalFailures, ValidMembers;
    hide ScalarFailures, MatchesAnyType, HasOneOf, ListedIn, StandsFor, Shown;
    if s.Node? {
      if s.types.Some? {
        TypeExactly(v, s.types.value);
      }
      ScalarExactly(s, v, path, sp);
      ObjectExactly(s, v, path, sp);
      ArrayExactly(s, v, path, sp);
      BranchesExactly(s, v, path, sp, |s.allOf|);
      ConditionalExactly(s, v, path, sp);
    }
  }

  /** So the verdict does not depend on the paths passed in. */
  lemma VerdictIgnoresPaths(s: Schema, v: Value, path: string, sp: string, path': string, sp': string)
    ensures Failures(s, v, path, sp) == [] <==> Failures(s, v, path', sp') == []
  {
    NoFailuresExactlyWhenValid(s, v, path, sp);
    NoFailuresExactlyWhenValid(s, v, path', sp');
  }

  /**
   A condition acts on the failures of its node through its verdict alone: replacing an `if` and a `contains` by
   schemas that accept the same values leaves every failure as it was, so none of theirs are among them.
   */
  lemma ConditionsDoNotLeak(s: Schema, v: Value, path: string, sp: string, c: Option<Schema>, k: Option<Schema>)
    requires s.Node? && (c.Some? <==> s.condition.Some?) && (k.Some? <==> s.contains.Some?)
    requires c.Some? ==> (Valid(c.value, v) <==> Valid(s.condition.value, v))
    requires k.Some? && v.Arr? ==>
      forall i :: 0 <= i < |v.items| ==> (Valid(k.value, v.items[i]) <==> Valid(s.contains.value, v.items[i]))
    ensures Failures(s, v, path, sp) == Failures(s.(condition := c, contains := k), v, path, sp)
  {
    hide Valid, ScalarFailures, ObjectFailures, ArrayFailures, BranchFailures, ConditionalFailures, MatchesAnyType;
    var t := s.(condition := c, contains := k);
    SameScalar(s, t, v, path, sp);
    SameObject(s, t, v, path, sp);
    SameArray(s, t, v, path, sp);
    SameBranches(s, t, v, path, sp, |s.allOf|);
    SameConditional(s, t, v, path, sp);
  }

  lemma SameScalar(s: Schema, t: Schema, v: Value, path: string, sp: string)
    requires Differ(s, t)
    ensures ScalarFailures(s, v, path, sp) == ScalarFailures(t, v, path, sp)
  {
    hide InEnum, ToIntegerLike;
  }

  lemma SameObject(s: Schema, t: Schema, v: Value, path: string, sp: string)
    requires Differ(s, t)
    ensures ObjectFailures(s, v, path, sp) == ObjectFailures(t, v, path, sp)
  {
    hide RequiredPart, PropertiesPart, UnknownPart;
    if v.Obj? {
      SameMembers(s, t, v.fields, path, sp);
    }
  }

  lemma SameArray(s: Schema, t: Schema, v: Value, path: string, sp: string)
    requires Differ(s, t) && (s.contains.Some? <==> t.contains.Some?)
    requires s.contains.Some? && v.Arr? ==>
      forall i :: 0 <= i < |v.items| ==> (Valid(t.contains.value, v.items[i]) <==> Valid(s.contains.value, v.items[i]))
    ensures ArrayFailures(s, v, path, sp) == ArrayFailures(t, v, path, sp)
  {
    if s.contains.Some? && v.Arr? {
      ContainsExactly(t.contains.value, v.items, |v.items|);
      ContainsExactly(s.contains.value, v.items, |v.items|);
      AllAndAny(t.contains.value, v.items, |v.items|);
      AllAndAny(s.contains.value, v.items, |v.items|);
    }
  }

  lemma SameConditional(s: Schema, t: Schema, v: Value, path: string, sp: string)
    requires Differ(s, t) && (s.condition.Some? <==> t.condition.Some?)
    requires s.condition.Some? ==> (Valid(t.condition.value, v) <==> Valid(s.condition.value, v))
    ensures ConditionalFailures(s, v, path, sp) == ConditionalFailures(t, v, path, sp)
  {
    if s.condition.Some? {
      NoFailuresExactlyWhenValid(s.condition.value, v, "", "");
      NoFailuresExactlyWhenValid(t.condition.value, v, "", "");
    }
  }

  /** The node differs in its conditions only. */
  ghost predicate Differ(s: Schema, t: Schema) {
    s.Node? && t.Node? && t == s.(condition := t.condition, contains := t.contains)
  }

  lemma {:induction false} SameBranches(s: Schema, t: Schema, v: Value, path: string, sp: string, n: nat)
    requires Differ(s, t) && n <= |s.allOf|
    ensures BranchFailures(s, v, path, sp, n) == BranchFailures(t, v, path, sp, n)
  {
    if n > 0 {
      SameBranches(s, t, v, path, sp, n - 1);
    }
  }

  lemma {:induction false} SameProperties(s: Schema, t: Schema, fields: seq<Field>, path: string, sp: string, n: nat)
    requires Differ(s, t) && s.properties.Listed? && n <= |s.properties.list|
    ensures PropertyFailures(s, fields, path, sp, n) == PropertyFailures(t, fields, path, sp, n)
  {
    if n > 0 {
      SameProperties(s, t, fields, path, sp, n - 1);
    }
  }

  lemma {:induction false} SameUnknown(s: Schema, t: Schema, fields: seq<Field>, path: string, sp: string, n: nat)
    requires Differ(s, t) && s.properties.Listed? && n <= |fields|
    ensures UnknownFailures(s, fields, path, sp, n) == UnknownFailures(t, fields, path, sp, n)
  {
    if n > 0 {
      SameUnknown(s, t, fields, path, sp, n - 1);
    }
  }

  lemma {:induction false} SameRequired(s: Schema, t: Schema, required: seq<string>, fields: seq<Field>, sp: string,
          n: nat)
    requires Differ(s, t) && n <= |required|
    ensures RequiredFailures(s, required, fields, sp, n) == RequiredFailures(t, required, fields, sp, n)
  {
    if n > 0 {
      SameRequired(s, t, required, fields, sp, n - 1);
    }
  }

  lemma SameMembers(s: Schema, t: Schema, fields: seq<Field>, path: string, sp: string)
    requires Differ(s, t)
    ensures RequiredPart(s, fields, sp) == RequiredPart(t, fields, sp)
    ensures PropertiesPart(s, fields, path, sp) == PropertiesPart(t, fields, path, sp)
    ensures UnknownPart(s, fields, path, sp) == UnknownPart(t, fields, path, sp)
  {
    if s.required.Some? {
      SameRequired(s, t, s.required.value, fields, sp, |s.required.value|);
    }
    if s.properties.Listed? {
      SameProperties(s, t, fields, path, sp, |s.properties.list|);
      SameUnknown(s, t, fields, path, sp, |fields|);
    }
  }
}
