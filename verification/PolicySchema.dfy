/**
 The JSON-Schema interpreter of the policy validator (src/policy-schema.ts): `type`, `enum`, `minLength`,
 `minimum`, `required`, `properties`, `additionalProperties`, `items`, `contains`, `allOf` and
 `if`/`then`/`else`, over the JavaScript values a draft can hold.
 */
module PolicySchema {
  import opened Wrappers
  import Decimal

  datatype Num = Finite(value: real) | Infinite(negative: bool) | NaN

  datatype Value =
    | Undefined
    | Null
    | Bool(b: bool)
    | Number(n: Num)
    | Big(i: int)
    | Str(s: string)
    | Arr(items: seq<Value>)
    | Obj(fields: seq<Field>)

  /** An own property; Object.keys lists them in this order. */
  datatype Field = Field(key: string, value: Value)

  datatype Property = Property(key: string, schema: Schema)

  datatype Properties = Absent | Listed(list: seq<Property>)

  /**
   A schema node. A schema that is not an object, `true` and `false` included, constrains nothing: Loose.
   `types` is the list form of `type`; `closed` is `additionalProperties: false`; an absent keyword is None, an
   absent `allOf` the empty list.
   */
  datatype Schema =
    | Loose
    | Node(
        types: Option<seq<string>>,
        enumOf: Option<seq<Value>>,
        minLength: Option<int>,
        minimum: Option<int>,
        required: Option<seq<string>>,
        properties: Properties,
        closed: bool,
        items: Option<Schema>,
        contains: Option<Schema>,
        allOf: seq<Schema>,
        condition: Option<Schema>,
        thenBranch: Option<Schema>,
        elseBranch: Option<Schema>,
        ruleId: Option<string>)

  datatype Failure = Failure(path: string, keyword: string, schemaPath: string, rule: Option<string>)

  // ---------------------------------------------------------------- values

  const MAX_SAFE_INTEGER := 0x1f_ffff_ffff_ffff

  /** White space and line terminators, which String.prototype.trim removes. */
  predicate IsSpace(c: char) {
    var n := c as int;
    || 0x9 <= n <= 0xd || n == 0x20 || n == 0xa0 || n == 0x1680 || 0x2000 <= n <= 0x200a
    || n == 0x2028 || n == 0x2029 || n == 0x202f || n == 0x205f || n == 0x3000 || n == 0xfeff
  }

  function Trim(s: string): string
    decreases |s|
  {
    if s != "" && IsSpace(s[0]) then Trim(s[1..])
    else if s != "" && IsSpace(s[|s| - 1]) then Trim(s[..|s| - 1])
    else s
  }

  function ToIntegerLike(v: Value): Option<int> {
    match v
    case Big(i) => Some(i)
    case Number(Finite(r)) =>
      if r == r.Floor as real && -MAX_SAFE_INTEGER <= r.Floor <= MAX_SAFE_INTEGER then Some(r.Floor) else None
    case Str(s) => Decimal.ParseInt(Trim(s))
    case _ => None
  }

  predicate MatchesType(v: Value, expected: string) {
    match expected
    case "object" => v.Obj?
    case "array" => v.Arr?
    case "string" => v.Str?
    case "boolean" => v.Bool?
    case "null" => v.Null?
    case "integer" => ToIntegerLike(v).Some?
    case _ => false
  }

  /** `===` between an enum candidate and a value: two objects are never the same one, and NaN equals nothing. */
  predicate StrictlyEqual(a: Value, b: Value) {
    match a
    case Arr(_) => false
    case Obj(_) => false
    case Number(NaN) => false
    case _ => a == b
  }

  /** `record[key]`. */
  function Lookup(fields: seq<Field>, key: string): Value {
    if fields == [] then Undefined
    else if fields[0].key == key then fields[0].value
    else Lookup(fields[1..], key)
  }

  predicate MatchesAnyType(types: seq<string>, v: Value) {
    exists i :: 0 <= i < |types| && MatchesType(v, types[i])
  }

  predicate InEnum(candidates: seq<Value>, v: Value) {
    exists i :: 0 <= i < |candidates| && StrictlyEqual(candidates[i], v)
  }

  predicate Declared(properties: seq<Property>, key: string) {
    exists i :: 0 <= i < |properties| && properties[i].key == key
  }

  // ---------------------------------------------------------------- the failures of a value, in the order pushed

  function Shown(path: string): string {
    if path == "" then "policy" else path
  }

  function MemberPath(path: string, key: string): string {
    if path == "" then key else path + "." + key
  }

  function ItemPath(path: string, i: nat): string {
    path + "[" + Decimal.PrintNat(i) + "]"
  }

  function If(b: bool, path: string, keyword: string, schemaPath: string, rule: Option<string>): seq<Failure> {
    if b then [Failure(path, keyword, schemaPath, rule)] else []
  }

  function ScalarFailures(s: Schema, v: Value, path: string, sp: string): seq<Failure>
    requires s.Node?
  {
    If(s.enumOf.Some? && !InEnum(s.enumOf.value, v), Shown(path), "enum", sp, s.ruleId)
    + (If(s.minLength.Some? && v.Str? && |v.s| < s.minLength.value, Shown(path), "minLength", sp, s.ruleId)
       + If(s.minimum.Some? && ToIntegerLike(v).Some? && ToIntegerLike(v).value < s.minimum.value,
            Shown(path), "minimum", sp, s.ruleId))
  }

  function RequiredFailures(s: Schema, required: seq<string>, fields: seq<Field>, sp: string, n: nat): seq<Failure>
    requires s.Node? && n <= |required|
  {
    if n == 0 then []
    else RequiredFailures(s, required, fields, sp, n - 1)
         + If(Lookup(fields, required[n - 1]).Undefined?, required[n - 1], "required", sp, s.ruleId)
  }

  function UnknownFailures(s: Schema, fields: seq<Field>, path: string, sp: string, n: nat): seq<Failure>
    requires s.Node? && s.properties.Listed? && n <= |fields|
  {
    if n == 0 then []
    else UnknownFailures(s, fields, path, sp, n - 1)
         + If(!Declared(s.properties.list, fields[n - 1].key), if path == "" then fields[n - 1].key else path,
              "additionalProperties", sp, s.ruleId)
  }

  function Failures(s: Schema, v: Value, path: string, sp: string): seq<Failure>
    decreases s, 2, 0
  {
    if s.Loose? then []
    else if s.types.Some? && !MatchesAnyType(s.types.value, v) then [Failure(Shown(path), "type", sp, s.ruleId)]
    else ScalarFailures(s, v, path, sp)
         + (ObjectFailures(s, v, path, sp)
            + (ArrayFailures(s, v, path, sp)
               + (BranchFailures(s, v, path, sp, |s.allOf|)
                  + ConditionalFailures(s, v, path, sp))))
  }

  function ObjectFailures(s: Schema, v: Value, path: string, sp: string): seq<Failure>
    requires s.Node?
    decreases s, 1, 1
  {
    if !v.Obj? then []
    else RequiredPart(s, v.fields, sp) + (PropertiesPart(s, v.fields, path, sp) + UnknownPart(s, v.fields, path, sp))
  }

  function RequiredPart(s: Schema, fields: seq<Field>, sp: string): seq<Failure>
    requires s.Node?
    decreases s, 0, 0
  {
    if s.required.Some? then RequiredFailures(s, s.required.value, fields, sp, |s.required.value|) else []
  }

  function PropertiesPart(s: Schema, fields: seq<Field>, path: string, sp: string): seq<Failure>
    requires s.Node?
    decreases s, 1, 0
  {
    if s.properties.Listed? then PropertyFailures(s, fields, path, sp, |s.properties.list|) else []
  }

  function UnknownPart(s: Schema, fields: seq<Field>, path: string, sp: string): seq<Failure>
    requires s.Node?
    decreases s, 0, 0
  {
    if s.closed && s.properties.Listed? then UnknownFailures(s, fields, path, sp, |fields|) else []
  }

  function PropertyFailures(s: Schema, fields: seq<Field>, path: string, sp: string, n: nat): seq<Failure>
    requires s.Node? && s.properties.Listed? && n <= |s.properties.list|
    decreases s, 0, n
  {
    if n == 0 then []
    else PropertyFailures(s, fields, path, sp, n - 1) + MemberFailures(s.properties.list[n - 1], fields, path, sp)
  }

  function MemberFailures(p: Property, fields: seq<Field>, path: string, sp: string): seq<Failure>
    decreases p.schema, 3, 0
  {
    var member := Lookup(fields, p.key);
    if member.Undefined? then []
    else Failures(p.schema, member, MemberPath(path, p.key), sp + "/properties/" + p.key)
  }

  function ArrayFailures(s: Schema, v: Value, path: string, sp: string): seq<Failure>
    requires s.Node?
    decreases s, 1, 0
  {
    if !v.Arr? then []
    else
      (if s.items.Some? then ItemFailures(s.items.value, v.items, path, sp, |v.items|) else [])
      + If(s.contains.Some? && !AnyHolds(s.contains.value, v.items, |v.items|), Shown(path), "contains", sp, s.ruleId)
  }

  function ItemFailures(items: Schema, values: seq<Value>, path: string, sp: string, n: nat): seq<Failure>
    requires n <= |values|
    decreases items, 3, n
  {
    if n == 0 then []
    else
      ItemFailures(items, values, path, sp, n - 1) + Failures(items, values[n - 1], ItemPath(path, n - 1),
          sp + "/items")
  }

  /** conditionHolds for one of the first n values. */
  predicate AnyHolds(condition: Schema, values: seq<Value>, n: nat)
    requires n <= |values|
    decreases condition, 3, n
  {
    n > 0 && (AnyHolds(condition, values, n - 1) || Failures(condition, values[n - 1], "", "") == [])
  }

  function BranchFailures(s: Schema, v: Value, path: string, sp: string, n: nat): seq<Failure>
    requires s.Node? && n <= |s.allOf|
    decreases s, 0, n
  {
    if n == 0 then []
    else
      BranchFailures(s, v, path, sp, n - 1)
      + Failures(s.allOf[n - 1], v, path, sp + "/allOf/" + Decimal.PrintNat(n - 1))
  }

  function ConditionalFailures(s: Schema, v: Value, path: string, sp: string): seq<Failure>
    requires s.Node?
    decreases s, 1, 0
  {
    if s.condition.None? then []
    else if Failures(s.condition.value, v, "", "") == [] then
      if s.thenBranch.Some? then Failures(s.thenBranch.value, v, path, sp + "/then") else []
    else
      if s.elseBranch.Some? then Failures(s.elseBranch.value, v, path, sp + "/else") else []
  }

  // ---------------------------------------------------------------- the interpreter

  class FailureSink {
    var failures: seq<Failure>

    constructor ()
      ensures failures == []
    {
      failures := [];
    }

    method Push(path: string, keyword: string, schemaPath: string, rule: Option<string>)
      modifies this
      ensures failures == old(failures) + [Failure(path, keyword, schemaPath, rule)]
    {
      failures := failures + [Failure(path, keyword, schemaPath, rule)];
    }

    method PushIf(b: bool, path: string, keyword: string, schemaPath: string, rule: Option<string>)
      modifies this
      ensures failures == old(failures) + If(b, path, keyword, schemaPath, rule)
    {
      if b {
        Push(path, keyword, schemaPath, rule);
      }
    }
  }

  lemma Assoc(a: seq<Failure>, b: seq<Failure>, c: seq<Failure>)
    ensures (a + b) + c == a + (b + c)
  {}

  method EvaluateSchema(s: Schema, v: Value, path: string, sp: string, out: FailureSink)
    modifies out
    ensures out.failures == old(out.failures) + Failures(s, v, path, sp)
    decreases s, 2
  {
    if s.Loose? {
      return;
    }
    if s.types.Some? && !MatchesAnyType(s.types.value, v) {
      out.Push(Shown(path), "type", sp, s.ruleId);
      return;
    }
    ghost var before := out.failures;
    ghost var a, b, c := ScalarFailures(s, v, path, sp), ObjectFailures(s, v, path, sp), ArrayFailures(s, v, path, sp);
    ghost var d, e := BranchFailures(s, v, path, sp, |s.allOf|), ConditionalFailures(s, v, path, sp);
    EvaluateScalar(s, v, path, sp, out);
    EvaluateObject(s, v, path, sp, out);
    EvaluateArray(s, v, path, sp, out);
    EvaluateBranches(s, v, path, sp, out);
    EvaluateConditional(s, v, path, sp, out);
    Regroup(before, a, b, c, d, e);
  }

  lemma Regroup(before: seq<Failure>, a: seq<Failure>, b: seq<Failure>, c: seq<Failure>, d: seq<Failure>,
          e: seq<Failure>)
    ensures before + a + b + c + d + e == before + (a + (b + (c + (d + e))))
  {
    Assoc(before + a + b + c, d, e);
    Assoc(before + a + b, c, d + e);
    Assoc(before + a, b, c + (d + e));
    Assoc(before, a, b + (c + (d + e)));
  }

  method EvaluateScalar(s: Schema, v: Value, path: string, sp: string, out: FailureSink)
    requires s.Node?
    modifies out
    ensures out.failures == old(out.failures) + ScalarFailures(s, v, path, sp)
    decreases s, 0
  {
    out.PushIf(s.enumOf.Some? && !InEnum(s.enumOf.value, v), Shown(path), "enum", sp, s.ruleId);
    out.PushIf(s.minLength.Some? && v.Str? && |v.s| < s.minLength.value, Shown(path), "minLength", sp, s.ruleId);
    if s.minimum.Some? {
      var integer := ToIntegerLike(v);
      out.PushIf(integer.Some? && integer.value < s.minimum.value, Shown(path), "minimum", sp, s.ruleId);
    }
  }

  method EvaluateObject(s: Schema, v: Value, path: string, sp: string, out: FailureSink)
    requires s.Node?
    modifies out
    ensures out.failures == old(out.failures) + ObjectFailures(s, v, path, sp)
    decreases s, 1
  {
    if !v.Obj? {
      return;
    }
    ghost var before := out.failures;
    EvaluateRequired(s, v.fields, sp, out);
    EvaluateProperties(s, v.fields, path, sp, out);
    EvaluateUnknown(s, v.fields, path, sp, out);
    ghost var a, b, c := RequiredPart(s, v.fields, sp), PropertiesPart(s, v.fields, path, sp), UnknownPart(s,
        v.fields, path, sp);
    Assoc(before + a, b, c);
    Assoc(before, a, b + c);
  }

  method EvaluateRequired(s: Schema, fields: seq<Field>, sp: string, out: FailureSink)
    requires s.Node?
    modifies out
    ensures out.failures == old(out.failures) + RequiredPart(s, fields, sp)
    decreases s, 0
  {
    if s.required.Some? {
      for i := 0 to |s.required.value|
        invariant out.failures == old(out.failures) + RequiredFailures(s, s.required.value, fields, sp, i)
      {
        var key := s.required.value[i];
        out.PushIf(Lookup(fields, key).Undefined?, key, "required", sp, s.ruleId);
      }
    }
  }

  method EvaluateProperties(s: Schema, fields: seq<Field>, path: string, sp: string, out: FailureSink)
    requires s.Node?
    modifies out
    ensures out.failures == old(out.failures) + PropertiesPart(s, fields, path, sp)
    decreases s, 0
  {
    if s.properties.Listed? {
      ghost var before := out.failures;
      for i := 0 to |s.properties.list|
        invariant out.failures == before + PropertyFailures(s, fields, path, sp, i)
      {
        var p := s.properties.list[i];
        EvaluateMember(p, fields, path, sp, out);
        Assoc(before, PropertyFailures(s, fields, path, sp, i), MemberFailures(p, fields, path, sp));
      }
    }
  }

  method EvaluateMember(p: Property, fields: seq<Field>, path: string, sp: string, out: FailureSink)
    modifies out
    ensures out.failures == old(out.failures) + MemberFailures(p, fields, path, sp)
    decreases p.schema, 3
  {
    var member := Lookup(fields, p.key);
    if !member.Undefined? {
      EvaluateSchema(p.schema, member, MemberPath(path, p.key), sp + "/properties/" + p.key, out);
    }
  }

  method EvaluateUnknown(s: Schema, fields: seq<Field>, path: string, sp: string, out: FailureSink)
    requires s.Node?
    modifies out
    ensures out.failures == old(out.failures) + UnknownPart(s, fields, path, sp)
    decreases s, 0
  {
    if s.closed && s.properties.Listed? {
      for i := 0 to |fields|
        invariant out.failures == old(out.failures) + UnknownFailures(s, fields, path, sp, i)
      {
        var key := fields[i].key;
        out.PushIf(!Declared(s.properties.list, key), if path == "" then key else path,
                   "additionalProperties", sp, s.ruleId);
      }
    }
  }

  method EvaluateBranches(s: Schema, v: Value, path: string, sp: string, out: FailureSink)
    requires s.Node?
    modifies out
    ensures out.failures == old(out.failures) + BranchFailures(s, v, path, sp, |s.allOf|)
    decreases s, 1
  {
    ghost var before := out.failures;
    for i := 0 to |s.allOf|
      invariant out.failures == before + BranchFailures(s, v, path, sp, i)
    {
      var location := sp + "/allOf/" + Decimal.PrintNat(i);
      EvaluateSchema(s.allOf[i], v, path, location, out);
      Assoc(before, BranchFailures(s, v, path, sp, i), Failures(s.allOf[i], v, path, location));
    }
  }

  method EvaluateArray(s: Schema, v: Value, path: string, sp: string, out: FailureSink)
    requires s.Node?
    modifies out
    ensures out.failures == old(out.failures) + ArrayFailures(s, v, path, sp)
    decreases s, 1
  {
    if !v.Arr? {
      return;
    }
    if s.items.Some? {
      EvaluateItems(s.items.value, v.items, path, sp, out);
    }
    if s.contains.Some? {
      var anyMatch := AnyMatch(s.contains.value, v.items);
      out.PushIf(!anyMatch, Shown(path), "contains", sp, s.ruleId);
    }
  }

  method EvaluateItems(items: Schema, values: seq<Value>, path: string, sp: string, out: FailureSink)
    modifies out
    ensures out.failures == old(out.failures) + ItemFailures(items, values, path, sp, |values|)
    decreases items, 3
  {
    ghost var before := out.failures;
    for i := 0 to |values|
      invariant out.failures == before + ItemFailures(items, values, path, sp, i)
    {
      EvaluateSchema(items, values[i], ItemPath(path, i), sp + "/items", out);
      Assoc(before, ItemFailures(items, values, path, sp, i),
            Failures(items, values[i], ItemPath(path, i), sp + "/items"));
    }
  }

  /** `value.some(item => conditionHolds(...))`. */
  method AnyMatch(condition: Schema, values: seq<Value>) returns (any: bool)
    ensures any == AnyHolds(condition, values, |values|)
    decreases condition, 4
  {
    any := false;
    for i := 0 to |values|
      invariant any == AnyHolds(condition, values, i)
    {
      var holds := ConditionHolds(condition, values[i]);
      any := any || holds;
    }
  }

  method EvaluateConditional(s: Schema, v: Value, path: string, sp: string, out: FailureSink)
    requires s.Node?
    modifies out
    ensures out.failures == old(out.failures) + ConditionalFailures(s, v, path, sp)
    decreases s, 1
  {
    if s.condition.Some? {
      var holds := ConditionHolds(s.condition.value, v);
      var branch := if holds then s.thenBranch else s.elseBranch;
      if branch.Some? {
        EvaluateSchema(branch.value, v, path, sp + (if holds then "/then" else "/else"), out);
      }
    }
  }

  /** Evaluates into a sink of its own: nothing that exists already is changed. */
  method ConditionHolds(condition: Schema, v: Value) returns (holds: bool)
    ensures holds == (Failures(condition, v, "", "") == [])
    decreases condition, 3
  {
    var sink := new FailureSink();
    EvaluateSchema(condition, v, "", "", sink);
    holds := sink.failures == [];
  }
}
