/** Which failures the schema interpreter reports: exactly the violations at the nodes its evaluation reaches. */
module PolicySchemaReport {
  import opened PolicySchema
  import opened PolicySchemaValues
  import opened PolicySchemaValid
  import Decimal

  /** A schema node applied to a value, with where both were found. */
  datatype Visit = Visit(schema: Schema, value: Value, path: string, sp: string)

  ghost function Reported(a: Visit): seq<Failure> {
    Failures(a.schema, a.value, a.path, a.sp)
  }

  ghost predicate TypeHolds(a: Visit)
    requires a.schema.Node?
  {
    a.schema.types.Some? ==> HasOneOf(a.value, a.schema.types.value)
  }

  /** The failure names the value by its path, and the root as the policy. */
  ghost predicate Names(a: Visit, f: Failure) {
    f.path == if a.path == "" then "policy" else a.path
  }

  // ---------------------------------------------------------------- one node

  /** The failure names this node and a keyword of it that the value violates; a wrong type hides the other keywords. */
  ghost predicate Violates(a: Visit, f: Failure) {
    && a.schema.Node? && f.schemaPath == a.sp && f.rule == a.schema.ruleId
    && if !TypeHolds(a) then f.keyword == "type" && Names(a, f)
       else ViolatesScalar(a, f) || ViolatesObject(a, f) || ViolatesArray(a, f)
  }

  ghost predicate ViolatesScalar(a: Visit, f: Failure)
    requires a.schema.Node?
  {
    var s, v := a.schema, a.value;
    && Names(a, f)
    && (|| (f.keyword == "enum" && s.enumOf.Some? && !ListedIn(s.enumOf.value, v))
        || (f.keyword == "minLength" && s.minLength.Some? && v.Str? && |v.s| < s.minLength.value)
        || (f.keyword == "minimum" && s.minimum.Some? && exists n :: StandsFor(v, n) && n < s.minimum.value))
  }

  ghost predicate ViolatesObject(a: Visit, f: Failure)
    requires a.schema.Node?
  {
    && a.value.Obj?
    && (|| (f.keyword == "required" && a.schema.required.Some?
            && f.path in a.schema.required.value && !Present(a.value.fields, f.path))
        || (f.keyword == "additionalProperties" && a.schema.closed && a.schema.properties.Listed?
            && exists i :: 0 <= i < |a.value.fields| && UnknownAt(a, a.value.fields[i].key, f.path)))
  }

  /** The property is not declared; it is named by itself at the root and by its parent elsewhere. */
  ghost predicate UnknownAt(a: Visit, key: string, path: string)
    requires a.schema.Node? && a.schema.properties.Listed?
  {
    !Declares(a.schema.properties.list, key) && path == if a.path == "" then key else a.path
  }

  ghost predicate ViolatesArray(a: Visit, f: Failure)
    requires a.schema.Node?
  {
    && a.value.Arr? && f.keyword == "contains" && Names(a, f) && a.schema.contains.Some?
    && forall i :: 0 <= i < |a.value.items| ==> !Valid(a.schema.contains.value, a.value.items[i])
  }

  // ---------------------------------------------------------------- from node to node

  ghost function MemberVisit(a: Visit, p: Property, x: Value): Visit {
    Visit(p.schema, x, if a.path == "" then p.key else a.path + "." + p.key, a.sp + "/properties/" + p.key)
  }

  ghost function ItemVisit(a: Visit, i: nat): Visit
    requires a.schema.Node? && a.schema.items.Some? && a.value.Arr? && i < |a.value.items|
  {
    Visit(a.schema.items.value, a.value.items[i], a.path + "[" + Decimal.PrintNat(i) + "]", a.sp + "/items")
  }

  ghost function BranchVisit(a: Visit, i: nat): Visit
    requires a.schema.Node? && i < |a.schema.allOf|
  {
    Visit(a.schema.allOf[i], a.value, a.path, a.sp + "/allOf/" + Decimal.PrintNat(i))
  }

  /** Evaluating a goes on to evaluate b: a present property, an item, a branch, or the chosen side of an `if`. */
  ghost predicate Leads(a: Visit, b: Visit) {
    && a.schema.Node? && TypeHolds(a)
    && (LeadsToMember(a, b) || LeadsToItem(a, b) || LeadsToBranch(a, b) || LeadsToSide(a, b))
  }

  ghost predicate LeadsToMember(a: Visit, b: Visit)
    requires a.schema.Node?
  {
    && a.value.Obj? && a.schema.properties.Listed?
    && exists p, x :: p in a.schema.properties.list && Has(a.value.fields, p.key, x) && b == MemberVisit(a, p, x)
  }

  ghost predicate LeadsToItem(a: Visit, b: Visit)
    requires a.schema.Node?
  {
    && a.value.Arr? && a.schema.items.Some?
    && exists i: nat :: i < |a.value.items| && b == ItemVisit(a, i)
  }

  ghost predicate LeadsToBranch(a: Visit, b: Visit)
    requires a.schema.Node?
  {
    exists i: nat :: i < |a.schema.allOf| && b == BranchVisit(a, i)
  }

  ghost predicate LeadsToSide(a: Visit, b: Visit)
    requires a.schema.Node?
  {
    var s := a.schema;
    && s.condition.Some?
    && if Valid(s.condition.value, a.value)
       then s.thenBranch.Some? && b == Visit(s.thenBranch.value, a.value, a.path, a.sp + "/then")
       else s.elseBranch.Some? && b == Visit(s.elseBranch.value, a.value, a.path, a.sp + "/else")
  }

  /** A way the evaluation takes from node to node. */
  ghost predicate Trail(t: seq<Visit>) {
    t != [] && forall i, j :: 0 <= i < j < |t| && j == i + 1 ==> Leads(t[i], t[j])
  }

  // ---------------------------------------------------------------- what each part reports

  lemma {:induction false} RequiredReports(s: Schema, required: seq<string>, fields: seq<Field>, sp: string, n: nat,
          f: Failure)
    requires s.Node? && n <= |required|
    ensures f in RequiredFailures(s, required, fields, sp, n) <==>
      exists i ::
        0 <= i < n && Lookup(fields, required[i]).Undefined? && f == Failure(required[i], "required", sp, s.ruleId)
  {
    if n > 0 {
      RequiredReports(s, required, fields, sp, n - 1, f);
    }
  }

  lemma {:induction false} UnknownReports(s: Schema, fields: seq<Field>, path: string, sp: string, n: nat, f: Failure)
    requires s.Node? && s.properties.Listed? && n <= |fields|
    ensures f in UnknownFailures(s, fields, path, sp, n) <==>
      exists i :: 0 <= i < n && !Declared(s.properties.list, fields[i].key)
        && f == Failure(if path == "" then fields[i].key else path, "additionalProperties", sp, s.ruleId)
  {
    if n > 0 {
      UnknownReports(s, fields, path, sp, n - 1, f);
    }
  }

  lemma {:induction false} PropertiesReport(s: Schema, fields: seq<Field>, path: string, sp: string, n: nat, f: Failure)
    requires s.Node? && s.properties.Listed? && n <= |s.properties.list|
    ensures f in PropertyFailures(s, fields, path, sp, n) <==>
      exists i :: 0 <= i < n && f in MemberFailures(s.properties.list[i], fields, path, sp)
  {
    hide MemberFailures;
    if n > 0 {
      PropertiesReport(s, fields, path, sp, n - 1, f);
    }
  }

  lemma {:induction false} ItemsReport(items: Schema, values: seq<Value>, path: string, sp: string, n: nat, f: Failure)
    requires n <= |values|
    ensures f in ItemFailures(items, values, path, sp, n) <==>
      exists i: nat :: i < n && f in Failures(items, values[i], ItemPath(path, i), sp + "/items")
  {
    hide Failures, ItemPath;
    if n > 0 {
      ItemsReport(items, values, path, sp, n - 1, f);
    }
  }

  lemma {:induction false} BranchesReport(s: Schema, v: Value, path: string, sp: string, n: nat, f: Failure)
    requires s.Node? && n <= |s.allOf|
    ensures f in BranchFailures(s, v, path, sp, n) <==>
      exists i: nat :: i < n && f in Failures(s.allOf[i], v, path, sp + "/allOf/" + Decimal.PrintNat(i))
  {
    hide Failures, Decimal.PrintNat;
    if n > 0 {
      BranchesReport(s, v, path, sp, n - 1, f);
    }
  }

  /** The failure carries the node's own location and rule. */
  ghost predicate Signed(a: Visit, f: Failure)
    requires a.schema.Node?
  {
    f.schemaPath == a.sp && f.rule == a.schema.ruleId
  }

  lemma BelowExactly(v: Value, minimum: int)
    ensures ToIntegerLike(v).Some? && ToIntegerLike(v).value < minimum <==> exists n :: StandsFor(v, n) && n < minimum
  {
    hide ToIntegerLike, StandsFor;
    if ToIntegerLike(v).Some? {
      IntegerExactly(v, ToIntegerLike(v).value);
    }
    if n :| StandsFor(v, n) && n < minimum {
      IntegerExactly(v, n);
    }
  }

  lemma ScalarReports(a: Visit, f: Failure)
    requires a.schema.Node?
    ensures f in ScalarFailures(a.schema, a.value, a.path, a.sp) <==> Signed(a, f) && ViolatesScalar(a, f)
  {
    hide InEnum, ListedIn, ToIntegerLike, StandsFor;
    if a.schema.enumOf.Some? {
      EnumExactly(a.schema.enumOf.value, a.value);
    }
    BelowExactly(a.value, if a.schema.minimum.Some? then a.schema.minimum.value else 0);
  }

  lemma ObjectReports(a: Visit, f: Failure)
    requires a.schema.Node?
    ensures f in ObjectFailures(a.schema, a.value, a.path, a.sp) <==>
      (Signed(a, f) && ViolatesObject(a, f)) || exists b :: LeadsToMember(a, b) && f in Reported(b)
  {
    if a.value.Obj? {
      var s, fields := a.schema, a.value.fields;
      RequiredPartReports(a, f);
      UnknownPartReports(a, f);
      MembersReport(a, f);
      hide Failures, RequiredPart, PropertiesPart, UnknownPart;
      assert f in ObjectFailures(s, a.value, a.path, a.sp) <==>
        || f in RequiredPart(s, fields, a.sp)
        || f in PropertiesPart(s, fields, a.path, a.sp)
        || f in UnknownPart(s, fields, a.path, a.sp);
    }
  }

  lemma RequiredPartReports(a: Visit, f: Failure)
    requires a.schema.Node? && a.value.Obj?
    ensures f in RequiredPart(a.schema, a.value.fields, a.sp) <==>
      && Signed(a, f) && f.keyword == "required" && a.schema.required.Some?
      && f.path in a.schema.required.value && !Present(a.value.fields, f.path)
  {
    hide Lookup, Present;
    PresentExactly(a.value.fields, f.path);
    if a.schema.required.Some? {
      RequiredReports(a.schema, a.schema.required.value, a.value.fields, a.sp, |a.schema.required.value|, f);
    }
  }

  lemma UnknownPartReports(a: Visit, f: Failure)
    requires a.schema.Node? && a.value.Obj?
    ensures f in UnknownPart(a.schema, a.value.fields, a.path, a.sp) <==>
      && Signed(a, f) && f.keyword == "additionalProperties" && a.schema.closed && a.schema.properties.Listed?
      && exists i :: 0 <= i < |a.value.fields| && UnknownAt(a, a.value.fields[i].key, f.path)
  {
    if a.schema.closed && a.schema.properties.Listed? {
      UnknownReports(a.schema, a.value.fields, a.path, a.sp, |a.value.fields|, f);
    }
  }

  lemma MembersReport(a: Visit, f: Failure)
    requires a.schema.Node? && a.value.Obj?
    ensures f in PropertiesPart(a.schema, a.value.fields, a.path, a.sp) <==>
      exists b :: LeadsToMember(a, b) && f in Reported(b)
  {
    if a.schema.properties.Listed? {
      var list, fields := a.schema.properties.list, a.value.fields;
      hide Failures, Has, Present, Lookup;
      PropertiesReport(a.schema, fields, a.path, a.sp, |list|, f);
      if i :| 0 <= i < |list| && f in MemberFailures(list[i], fields, a.path, a.sp) {
        var x := Lookup(fields, list[i].key);
        LookupExactly(fields, list[i].key, x);
        assert LeadsToMember(a, MemberVisit(a, list[i], x)) && f in Reported(MemberVisit(a, list[i], x));
      }
      if b :| LeadsToMember(a, b) && f in Reported(b) {
        var p, x :| p in list && Has(fields, p.key, x) && b == MemberVisit(a, p, x);
        LookupExactly(fields, p.key, x);
        assert f in MemberFailures(p, fields, a.path, a.sp);
      }
    }
  }

  lemma ArrayReports(a: Visit, f: Failure)
    requires a.schema.Node?
    ensures f in ArrayFailures(a.schema, a.value, a.path, a.sp) <==>
      (Signed(a, f) && ViolatesArray(a, f)) || exists b :: LeadsToItem(a, b) && f in Reported(b)
  {
    if a.value.Arr? {
      ContainsReports(a);
      AllItemsReport(a, f);
      hide Failures, Valid, AnyHolds;
    }
  }

  lemma ContainsReports(a: Visit)
    requires a.schema.Node? && a.value.Arr?
    ensures a.schema.contains.Some? ==>
      (AnyHolds(a.schema.contains.value, a.value.items, |a.value.items|) <==>
        exists i :: 0 <= i < |a.value.items| && Valid(a.schema.contains.value, a.value.items[i]))
  {
    if a.schema.contains.Some? {
      ContainsExactly(a.schema.contains.value, a.value.items, |a.value.items|);
      AllAndAny(a.schema.contains.value, a.value.items, |a.value.items|);
    }
  }

  lemma AllItemsReport(a: Visit, f: Failure)
    requires a.schema.Node? && a.value.Arr?
    ensures a.schema.items.Some? ==>
      (f in ItemFailures(a.schema.items.value, a.value.items, a.path, a.sp, |a.value.items|) <==>
        exists b :: LeadsToItem(a, b) && f in Reported(b))
  {
    if a.schema.items.Some? {
      hide Failures;
      ItemsReport(a.schema.items.value, a.value.items, a.path, a.sp, |a.value.items|, f);
      if i: nat :| i < |a.value.items|
                   && f in Failures(a.schema.items.value, a.value.items[i], ItemPath(a.path, i), a.sp + "/items") {
        assert LeadsToItem(a, ItemVisit(a, i)) && f in Reported(ItemVisit(a, i));
      }
    }
  }

  lemma AllBranchesReport(a: Visit, f: Failure)
    requires a.schema.Node?
    ensures f in BranchFailures(a.schema, a.value, a.path, a.sp, |a.schema.allOf|) <==>
      exists b :: LeadsToBranch(a, b) && f in Reported(b)
  {
    hide Failures, Decimal.PrintNat;
    BranchesReport(a.schema, a.value, a.path, a.sp, |a.schema.allOf|, f);
    if i: nat :| i < |a.schema.allOf|
                 && f in Failures(a.schema.allOf[i], a.value, a.path, a.sp + "/allOf/" + Decimal.PrintNat(i)) {
      assert LeadsToBranch(a, BranchVisit(a, i)) && f in Reported(BranchVisit(a, i));
    }
  }

  lemma SideReports(a: Visit, f: Failure)
    requires a.schema.Node?
    ensures f in ConditionalFailures(a.schema, a.value, a.path, a.sp) <==>
      exists b :: LeadsToSide(a, b) && f in Reported(b)
  {
    var s := a.schema;
    if s.condition.Some? {
      NoFailuresExactlyWhenValid(s.condition.value, a.value, "", "");
      hide Failures, Valid;
      var holds := Valid(s.condition.value, a.value);
      var side := if holds then s.thenBranch else s.elseBranch;
      if side.Some? {
        var b := Visit(side.value, a.value, a.path, a.sp + if holds then "/then" else "/else");
        assert LeadsToSide(a, b);
      }
    }
  }

  /** A node reports its own violations and what the nodes it leads to report. */
  lemma NodeReports(a: Visit, f: Failure)
    requires a.schema.Node?
    ensures f in Reported(a) <==> Violates(a, f) || exists b :: Leads(a, b) && f in Reported(b)
  {
    ScalarReports(a, f);
    ObjectReports(a, f);
    ArrayReports(a, f);
    AllBranchesReport(a, f);
    SideReports(a, f);
    SplitsIntoParts(a, f);
    hide Failures, ScalarFailures, ObjectFailures, ArrayFailures, BranchFailures, ConditionalFailures;
    hide ViolatesScalar, ViolatesObject, ViolatesArray, LeadsToMember, LeadsToItem, LeadsToBranch, LeadsToSide;
    hide Reported, HasOneOf;
    assert forall b :: Leads(a, b) <==>
      TypeHolds(a) && (LeadsToMember(a, b) || LeadsToItem(a, b) || LeadsToBranch(a, b) || LeadsToSide(a, b));
  }

  lemma SplitsIntoParts(a: Visit, f: Failure)
    requires a.schema.Node?
    ensures f in Reported(a) <==>
      if !TypeHolds(a) then Signed(a, f) && f.keyword == "type" && Names(a, f)
      else || f in ScalarFailures(a.schema, a.value, a.path, a.sp)
           || f in ObjectFailures(a.schema, a.value, a.path, a.sp)
           || f in ArrayFailures(a.schema, a.value, a.path, a.sp)
           || f in BranchFailures(a.schema, a.value, a.path, a.sp, |a.schema.allOf|)
           || f in ConditionalFailures(a.schema, a.value, a.path, a.sp)
  {
    hide ScalarFailures, ObjectFailures, ArrayFailures, BranchFailures, ConditionalFailures, MatchesAnyType, HasOneOf;
    if a.schema.types.Some? {
      TypeExactly(a.value, a.schema.types.value);
    }
  }

  // ---------------------------------------------------------------- the report

  lemma LeadsDown(a: Visit, b: Visit)
    requires Leads(a, b)
    ensures a.schema decreases to b.schema
  {
    hide HasOneOf, Valid, Has;
  }

  lemma LooseIsSilent(a: Visit, f: Failure)
    requires f in Reported(a)
    ensures a.schema.Node?
  {
  }

  lemma TrailOfOne(a: Visit)
    ensures Trail([a])
  {
  }

  lemma TrailBehind(a: Visit, rest: seq<Visit>)
    requires Trail(rest) && Leads(a, rest[0])
    ensures Trail([a] + rest)
  {
    hide Leads;
  }

  /** Every failure is genuine: the evaluation led to the node it names, and that node's keyword is violated there. */
  lemma {:induction false} FailureHasTrail(a: Visit, f: Failure) returns (t: seq<Visit>)
    requires f in Reported(a)
    ensures Trail(t) && t[0] == a && Violates(t[|t| - 1], f)
    decreases a.schema
  {
    LooseIsSilent(a, f);
    NodeReports(a, f);
    hide Failures, Leads, Violates, Reported, Trail;
    if Violates(a, f) {
      t := [a];
      TrailOfOne(a);
    } else {
      var b :| Leads(a, b) && f in Reported(b);
      LeadsDown(a, b);
      var rest := FailureHasTrail(b, f);
      t := [a] + rest;
      TrailBehind(a, rest);
    }
  }

  /** No violation is missed: whatever is wrong at a node the evaluation reaches is reported. */
  lemma {:induction false} TrailReports(t: seq<Visit>, f: Failure)
    requires Trail(t) && Violates(t[|t| - 1], f)
    ensures f in Reported(t[0])
    decreases |t|
  {
    if |t| == 1 {
      NodeReports(t[0], f);
    } else {
      var rest := t[1..];
      assert Trail(rest) by {
        forall i, j | 0 <= i < j < |rest| && j == i + 1 ensures Leads(rest[i], rest[j]) {
          assert rest[i] == t[i + 1] && rest[j] == t[j + 1];
        }
      }
      TrailReports(rest, f);
      assert Leads(t[0], t[1]);
      NodeReports(t[0], f);
    }
  }

  /**
   The report is exact: a failure is pushed exactly when the evaluation reaches a node, along present properties,
   items, branches and the chosen side of each `if`, whose keyword the value there violates, and the failure carries
   that node's location in the schema, the location of the value, the keyword and the node's rule annotation.
   */
  lemma {:induction false} ReportIsExact(a: Visit, f: Failure)
    ensures f in Failures(a.schema, a.value, a.path, a.sp) <==>
      exists t :: Trail(t) && t[0] == a && Violates(t[|t| - 1], f)
  {
    hide Failures, Leads, Violates;
    if f in Reported(a) {
      var t := FailureHasTrail(a, f);
    }
    if t :| Trail(t) && t[0] == a && Violates(t[|t| - 1], f) {
      TrailReports(t, f);
    }
  }
}
