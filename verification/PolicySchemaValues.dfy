/**
 What the schema interpreter takes JavaScript values for, said by the shape of the value: its types, the integer it
 stands for, when it is the same as another, and which of its properties counts.
 */
module PolicySchemaValues {
  import opened Wrappers
  import opened PolicySchema
  import Decimal

  // ---------------------------------------------------------------- integers

  /** The white space and line terminators of ECMA-262, sections 12.2 and 12.3. */
  const WHITE_SPACE: string :=
    "\t\n\U{B}\U{C}\r \U{A0}\U{1680}\U{2000}\U{2001}\U{2002}\U{2003}\U{2004}\U{2005}\U{2006}\U{2007}\U{2008}\U{2009}"
    + "\U{200A}\U{2028}\U{2029}\U{202F}\U{205F}\U{3000}\U{FEFF}"

  ghost predicate IsWhite(c: char) {
    c in WHITE_SPACE
  }

  ghost predicate Blank(s: string) {
    forall i :: 0 <= i < |s| ==> IsWhite(s[i])
  }

  /** A base-10 numeral with white space around it. */
  ghost predicate PaddedNumeral(text: string, n: int) {
    exists before, core, after :: text == before + core + after && Padding(before, after) && Decimal.Numeral(core, n)
  }

  ghost predicate Padding(before: string, after: string) {
    Blank(before) && Blank(after)
  }

  /** The value stands for this integer: a bigint, a safe whole number, or a numeral. */
  ghost predicate StandsFor(v: Value, n: int) {
    match v
    case Big(i) => i == n
    case Number(Finite(r)) => r == n as real && -9007199254740991 <= n <= 9007199254740991
    case Str(s) => PaddedNumeral(s, n)
    case _ => false
  }

  lemma SpaceExactly(c: char)
    ensures IsSpace(c) <==> IsWhite(c)
  {
  }

  lemma {:induction false} TrimSplits(s: string) returns (before: string, after: string)
    ensures s == before + Trim(s) + after && Blank(before) && Blank(after)
    decreases |s|
  {
    hide IsSpace, IsWhite;
    if s != "" && IsSpace(s[0]) {
      SpaceExactly(s[0]);
      var front;
      front, after := TrimSplits(s[1..]);
      before := [s[0]] + front;
      assert s == [s[0]] + s[1..];
    } else if s != "" && IsSpace(s[|s| - 1]) {
      SpaceExactly(s[|s| - 1]);
      var back;
      before, back := TrimSplits(s[..|s| - 1]);
      after := back + [s[|s| - 1]];
      assert s == s[..|s| - 1] + [s[|s| - 1]];
    } else {
      before, after := "", "";
    }
  }

  /** Trimming takes all the white space off a text that neither begins nor ends with any. */
  lemma {:induction false} TrimStrips(before: string, core: string, after: string)
    requires Blank(before) && Blank(after)
    requires core != "" && !IsSpace(core[0]) && !IsSpace(core[|core| - 1])
    ensures Trim(before + core + after) == core
    decreases |before| + |after|
  {
    hide IsSpace, IsWhite;
    var s := before + core + after;
    if before != "" {
      SpaceExactly(before[0]);
      assert s[1..] == before[1..] + core + after;
      TrimStrips(before[1..], core, after);
    } else if after != "" {
      SpaceExactly(after[|after| - 1]);
      assert s[..|s| - 1] == before + core + after[..|after| - 1];
      assert s[0] == core[0];
      TrimStrips(before, core, after[..|after| - 1]);
    } else {
      assert s == core;
    }
  }

  lemma NoSpaceAround(core: string, n: int)
    requires Decimal.Numeral(core, n)
    ensures core != "" && !IsSpace(core[0]) && !IsSpace(core[|core| - 1])
  {
    hide Decimal.Value;
    var sign, digits :| Decimal.Spells(core, sign, digits, n);
    assert core[|core| - 1] == digits[|digits| - 1] && Decimal.IsDigit(digits[|digits| - 1]);
    assert sign == "" ==> core[0] == digits[0];
  }

  lemma PaddedExactly(text: string, n: int)
    ensures Decimal.ParseInt(Trim(text)) == Some(n) <==> PaddedNumeral(text, n)
  {
    hide IsWhite, IsSpace, Trim, Decimal.ParseInt, Decimal.Numeral;
    Decimal.ParseExactly(Trim(text), n);
    var before, after := TrimSplits(text);
    assert Padding(before, after);
    if PaddedNumeral(text, n) {
      var before, core, after :| text == before + core + after && Padding(before, after) && Decimal.Numeral(core, n);
      NoSpaceAround(core, n);
      TrimStrips(before, core, after);
    }
  }

  lemma IntegerExactly(v: Value, n: int)
    ensures ToIntegerLike(v) == Some(n) <==> StandsFor(v, n)
  {
    if v.Str? {
      PaddedExactly(v.s, n);
    }
  }

  // ---------------------------------------------------------------- types

  /** The type names a value answers to, by its shape. */
  ghost predicate HasType(v: Value, t: string) {
    match v
    case Undefined => false
    case Null => t == "null"
    case Bool(_) => t == "boolean"
    case Number(_) => t == "integer" && exists n :: StandsFor(v, n)
    case Big(_) => t == "integer"
    case Str(_) => t == "string" || (t == "integer" && exists n :: StandsFor(v, n))
    case Arr(_) => t == "array"
    case Obj(_) => t == "object"
  }

  ghost predicate HasOneOf(v: Value, types: seq<string>) {
    exists i :: 0 <= i < |types| && HasType(v, types[i])
  }

  lemma IsInteger(v: Value)
    ensures ToIntegerLike(v).Some? <==> exists n :: StandsFor(v, n)
  {
    hide ToIntegerLike, StandsFor;
    if ToIntegerLike(v).Some? {
      IntegerExactly(v, ToIntegerLike(v).value);
    }
    if n :| StandsFor(v, n) {
      IntegerExactly(v, n);
    }
  }

  /** A type keyword accepts a value exactly when it names one of the value's types. */
  lemma TypeExactly(v: Value, types: seq<string>)
    ensures MatchesAnyType(types, v) <==> HasOneOf(v, types)
  {
    forall i | 0 <= i < |types|
      ensures MatchesType(v, types[i]) <==> HasType(v, types[i])
    {
      OneTypeExactly(v, types[i]);
    }
  }

  lemma OneTypeExactly(v: Value, t: string)
    ensures MatchesType(v, t) <==> HasType(v, t)
  {
    IsInteger(v);
    if v.Big? {
      assert StandsFor(v, v.i);
    }
  }

  // ---------------------------------------------------------------- identity

  /** `a === b`: primitives of one kind and value; NaN, arrays and objects are the same as nothing. */
  ghost predicate SamePrimitive(a: Value, b: Value) {
    match (a, b)
    case (Undefined, Undefined) => true
    case (Null, Null) => true
    case (Bool(x), Bool(y)) => x == y
    case (Number(Finite(x)), Number(Finite(y))) => x == y
    case (Number(Infinite(x)), Number(Infinite(y))) => x == y
    case (Big(x), Big(y)) => x == y
    case (Str(x), Str(y)) => x == y
    case _ => false
  }

  ghost predicate ListedIn(candidates: seq<Value>, v: Value) {
    exists i :: 0 <= i < |candidates| && SamePrimitive(candidates[i], v)
  }

  lemma EnumExactly(candidates: seq<Value>, v: Value)
    ensures InEnum(candidates, v) <==> ListedIn(candidates, v)
  {
    assert forall a :: StrictlyEqual(a, v) <==> SamePrimitive(a, v);
  }

  // ---------------------------------------------------------------- properties

  /** x is the value of an own property of this name, the first one of that name, and not undefined. */
  ghost predicate Has(fields: seq<Field>, key: string, x: Value) {
    && x != Undefined
    && exists i :: 0 <= i < |fields| && fields[i] == Field(key, x) && NoneBefore(fields, key, i)
  }

  ghost predicate NoneBefore(fields: seq<Field>, key: string, i: int)
    requires 0 <= i <= |fields|
  {
    forall j :: 0 <= j < i ==> fields[j].key != key
  }

  ghost predicate Present(fields: seq<Field>, key: string) {
    exists x :: Has(fields, key, x)
  }

  lemma {:induction false} LookupExactly(fields: seq<Field>, key: string, x: Value)
    ensures Has(fields, key, x) <==> x != Undefined && Lookup(fields, key) == x
  {
    if fields != [] {
      var rest := fields[1..];
      LookupExactly(rest, key, x);
      if fields[0].key == key {
        assert x != Undefined && fields[0].value == x ==> fields[0] == Field(key, x) && NoneBefore(fields, key, 0);
        assert forall i :: 0 < i < |fields| ==> !NoneBefore(fields, key, i);
      } else {
        assert forall i :: 0 <= i < |rest| ==> (NoneBefore(rest, key, i) <==> NoneBefore(fields, key, i + 1));
        if i :| 0 <= i < |rest| && rest[i] == Field(key, x) && NoneBefore(rest, key, i) {
          assert fields[i + 1] == Field(key, x);
        }
        if i :| 0 <= i < |fields| && fields[i] == Field(key, x) && NoneBefore(fields, key, i) {
          assert i > 0 && rest[i - 1] == Field(key, x);
        }
      }
    }
  }

  lemma PresentExactly(fields: seq<Field>, key: string)
    ensures Present(fields, key) <==> Lookup(fields, key) != Undefined
    ensures Present(fields, key) ==> Has(fields, key, Lookup(fields, key))
  {
    hide Has, Lookup;
    LookupExactly(fields, key, Lookup(fields, key));
    if x :| Has(fields, key, x) {
      LookupExactly(fields, key, x);
    }
  }
}
