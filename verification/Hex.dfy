/** Hex rendering and byte concatenation (src/hash.ts); base16 as in section 8 of RFC 4648. */
module Hex {
  import opened Wrappers
  import Decimal

  type Byte = b: nat | b < 256

  datatype HexError = InvalidHex

  function HexDigit(n: nat): (c: char)
    requires n < 16
    ensures IsHexDigit(c) && DigitValue(c) == n && Lower(c) == c
  {
    if n < 10 then ('0' as int + n) as char else ('a' as int + n - 10) as char
  }

  predicate IsHexDigit(c: char) {
    '0' <= c <= '9' || 'a' <= c <= 'f' || 'A' <= c <= 'F'
  }

  function DigitValue(c: char): (n: nat)
    requires IsHexDigit(c)
    ensures n < 16
  {
    if c <= '9' then c as int - '0' as int
    else if c <= 'F' then c as int - 'A' as int + 10
    else c as int - 'a' as int + 10
  }

  /** The lower-case form of an ASCII letter; every other character unchanged. */
  function Lower(c: char): char {
    if 'A' <= c <= 'Z' then (c as int + 32) as char else c
  }

  function LowerCase(s: string): (t: string)
    ensures |t| == |s|
  {
    seq(|s|, i requires 0 <= i < |s| => Lower(s[i]))
  }

  /** `byte.toString(16)`. */
  function Base16(b: Byte): string {
    if b < 16 then [HexDigit(b)] else [HexDigit(b / 16), HexDigit(b % 16)]
  }

  function Render(bytes: seq<Byte>): string {
    if bytes == [] then ""
    else Render(bytes[..|bytes| - 1]) + Decimal.PadStart(Base16(bytes[|bytes| - 1]), 2)
  }

  ghost predicate WellFormed(hex: string) {
    |hex| % 2 == 0 && forall i :: 0 <= i < |hex| ==> IsHexDigit(hex[i])
  }

  function Pair(hex: string, i: nat): Byte
    requires 2 * i + 1 < |hex| && IsHexDigit(hex[2 * i]) && IsHexDigit(hex[2 * i + 1])
  {
    DigitValue(hex[2 * i]) * 16 + DigitValue(hex[2 * i + 1])
  }

  function Bytes(hex: string): (bytes: seq<Byte>)
    requires WellFormed(hex)
    ensures |bytes| == |hex| / 2
  {
    seq(|hex| / 2, i requires 0 <= i < |hex| / 2 => Pair(hex, i))
  }

  method BytesToHex(bytes: seq<Byte>) returns (hex: string)
    ensures |hex| == 2 * |bytes| && WellFormed(hex) && LowerCase(hex) == hex
    ensures Bytes(hex) == bytes
    ensures hex == Render(bytes)
  {
    hex := "";
    for i := 0 to |bytes|
      invariant hex == Render(bytes[..i])
    {
      hex := hex + Decimal.PadStart(Base16(bytes[i]), 2);
      assert bytes[..i + 1][..i] == bytes[..i];
    }
    assert bytes[..|bytes|] == bytes;
    RenderShape(bytes);
    RenderThenParse(bytes);
  }

  method HexToBytes(hex: string) returns (r: Result<array<Byte>, HexError>)
    ensures r.Ok? <==> WellFormed(hex)
    ensures r.Ok? ==> fresh(r.value) && r.value[..] == Bytes(hex)
  {
    var digits := true;
    for i := 0 to |hex|
      invariant digits <==> forall k :: 0 <= k < i ==> IsHexDigit(hex[k])
    {
      digits := digits && IsHexDigit(hex[i]);
    }
    if |hex| % 2 != 0 || !digits {
      return Err(InvalidHex);
    }
    var out := new Byte[|hex| / 2];
    for i := 0 to out.Length
      invariant forall k :: 0 <= k < i ==> out[k] == Pair(hex, k)
    {
      out[i] := Pair(hex, i);
    }
    return Ok(out);
  }

  lemma PaddedByte(b: Byte)
    ensures Decimal.PadStart(Base16(b), 2) == [HexDigit(b / 16), HexDigit(b % 16)]
  {
    if b < 16 {
      assert Decimal.Zeros(1) == "0";
    }
  }

  lemma {:induction false} RenderLength(bytes: seq<Byte>)
    ensures |Render(bytes)| == 2 * |bytes|
  {
    if bytes != [] {
      RenderLength(bytes[..|bytes| - 1]);
      PaddedByte(bytes[|bytes| - 1]);
    }
  }

  /** Every byte takes two lower-case digits, high half first. */
  lemma {:induction false} DigitsOfByte(bytes: seq<Byte>, i: nat)
    requires i < |bytes|
    ensures |Render(bytes)| == 2 * |bytes|
    ensures Render(bytes)[2 * i] == HexDigit(bytes[i] / 16)
    ensures Render(bytes)[2 * i + 1] == HexDigit(bytes[i] % 16)
  {
    var n := |bytes| - 1;
    RenderLength(bytes);
    RenderLength(bytes[..n]);
    PaddedByte(bytes[n]);
    if i < n {
      DigitsOfByte(bytes[..n], i);
    }
  }

  lemma RenderShape(bytes: seq<Byte>)
    ensures |Render(bytes)| == 2 * |bytes|
    ensures WellFormed(Render(bytes)) && LowerCase(Render(bytes)) == Render(bytes)
  {
    RenderLength(bytes);
    var hex := Render(bytes);
    forall k | 0 <= k < |hex| ensures IsHexDigit(hex[k]) && Lower(hex[k]) == hex[k] {
      var i := k / 2;
      DigitsOfByte(bytes, i);
      assert k == 2 * i || k == 2 * i + 1;
    }
  }

  /** Parsing undoes rendering. */
  lemma {:induction false} RenderThenParse(bytes: seq<Byte>)
    ensures WellFormed(Render(bytes)) && Bytes(Render(bytes)) == bytes
  {
    RenderShape(bytes);
    var hex := Render(bytes);
    forall i | 0 <= i < |bytes| ensures Bytes(hex)[i] == bytes[i] {
      DigitsOfByte(bytes, i);
    }
  }

  /** Rendering undoes parsing up to letter case. */
  lemma ParseThenRender(hex: string)
    requires WellFormed(hex)
    ensures Render(Bytes(hex)) == LowerCase(hex)
  {
    var bytes := Bytes(hex);
    RenderLength(bytes);
    forall k | 0 <= k < |hex| ensures Render(bytes)[k] == LowerCase(hex)[k] {
      var i := k / 2;
      DigitsOfByte(bytes, i);
      HalvesOfPair(hex, i);
      assert k == 2 * i || k == 2 * i + 1;
    }
  }

  lemma HalvesOfPair(hex: string, i: nat)
    requires 2 * i + 1 < |hex| && IsHexDigit(hex[2 * i]) && IsHexDigit(hex[2 * i + 1])
    ensures HexDigit(Pair(hex, i) / 16) == Lower(hex[2 * i])
    ensures HexDigit(Pair(hex, i) % 16) == Lower(hex[2 * i + 1])
  {}

  /** Two well-formed hex strings denote the same bytes exactly when they differ in letter case only. */
  lemma SameBytes(a: string, b: string)
    requires WellFormed(a) && WellFormed(b)
    ensures Bytes(a) == Bytes(b) <==> LowerCase(a) == LowerCase(b)
  {
    ParseThenRender(a);
    ParseThenRender(b);
    if LowerCase(a) == LowerCase(b) {
      assert |LowerCase(a)| == |LowerCase(b)|;
      RenderIsInjective(Bytes(a), Bytes(b));
    }
  }

  /** So a fingerprint of fixed length is a fixed number of characters, and different digests differ in hex. */
  lemma RenderIsInjective(a: seq<Byte>, b: seq<Byte>)
    ensures Render(a) == Render(b) <==> a == b
  {
    RenderThenParse(a);
    RenderThenParse(b);
  }

  // ---- concatBytes ----

  function Flatten(parts: seq<seq<Byte>>): seq<Byte> {
    if parts == [] then [] else Flatten(parts[..|parts| - 1]) + parts[|parts| - 1]
  }

  /** `out.set(part, offset)`. */
  method SetAt(out: array<Byte>, part: seq<Byte>, offset: nat)
    requires offset + |part| <= out.Length
    modifies out
    ensures out[..offset] == old(out[..offset])
    ensures out[offset..offset + |part|] == part
    ensures out[offset + |part|..] == old(out[offset + |part|..])
  {
    for i := 0 to |part|
      invariant out[..offset] == old(out[..offset])
      invariant out[offset..offset + i] == part[..i]
      invariant out[offset + i..] == old(out[offset + i..])
    {
      out[offset + i] := part[i];
      assert out[offset..offset + (i + 1)] == out[offset..offset + i] + [part[i]];
      assert out[offset + (i + 1)..] == old(out[offset + i..])[1..] == old(out[offset + (i + 1)..]);
    }
    assert part[..|part|] == part;
  }

  method ConcatBytes(parts: seq<seq<Byte>>) returns (out: array<Byte>)
    ensures fresh(out) && out[..] == Flatten(parts)
  {
    var length := 0;
    for i := 0 to |parts|
      invariant length == |Flatten(parts[..i])|
    {
      length := length + |parts[i]|;
      assert parts[..i + 1][..i] == parts[..i];
    }
    assert parts[..|parts|] == parts;
    out := new Byte[length];
    var offset := 0;
    for i := 0 to |parts|
      invariant offset == |Flatten(parts[..i])| <= out.Length
      invariant out[..offset] == Flatten(parts[..i])
    {
      FlattenGrows(parts, i + 1);
      assert parts[..i + 1][..i] == parts[..i];
      SetAt(out, parts[i], offset);
      assert out[..offset + |parts[i]|] == out[..offset] + out[offset..offset + |parts[i]|];
      offset := offset + |parts[i]|;
    }
    assert out[..] == out[..offset];
  }

  lemma {:induction false} FlattenGrows(parts: seq<seq<Byte>>, i: nat)
    requires i <= |parts|
    ensures |Flatten(parts[..i])| <= |Flatten(parts)|
    decreases |parts| - i
  {
    if i == |parts| {
      assert parts[..i] == parts;
    } else {
      FlattenGrows(parts, i + 1);
      assert parts[..i + 1][..i] == parts[..i];
    }
  }

  lemma {:induction false} FlattenCons(x: seq<Byte>, rest: seq<seq<Byte>>)
    ensures Flatten([x] + rest) == x + Flatten(rest)
  {
    if rest == [] {
      assert [x] + rest == [x] && [x][..0] == [];
    } else {
      var n := |rest| - 1;
      FlattenCons(x, rest[..n]);
      assert ([x] + rest)[..n + 1] == [x] + rest[..n];
    }
  }
}
