/**
 Fingerprint framing (src/preflight.ts): every item is preceded by its length as four big-endian bytes, and the
 digest of the concatenation is rendered in hex. Text enters as its UTF-8 bytes; SHA-256 is a parameter.
 */
module Framing {
  import opened Wrappers
  import opened Hex
  import Lex

  type Bytes = seq<Byte>

  const U32_RANGE := 0x1_0000_0000

  /** DataView.setUint32, big-endian: the value is taken modulo 2^32. */
  function Uint32(n: nat): (b: Bytes)
    ensures |b| == 4
  {
    var m := n % U32_RANGE;
    [m / 0x100_0000, m / 0x1_0000 % 256, m / 256 % 256, m % 256]
  }

  function Frame(item: Bytes): Bytes {
    Uint32(|item|) + item
  }

  /** What is hashed for a list of items. */
  function Framed(items: seq<Bytes>): Bytes {
    if items == [] then [] else Frame(items[0]) + Framed(items[1..])
  }

  /** The array of byte arrays that hashPart pushes onto. */
  class PartList {
    var parts: seq<Bytes>

    constructor ()
      ensures parts == []
    {
      parts := [];
    }

    method HashPart(bytes: Bytes)
      modifies this
      ensures parts == old(parts) + [Uint32(|bytes|), bytes]
      ensures Flatten(parts) == Flatten(old(parts)) + Frame(bytes)
    {
      parts := parts + [Uint32(|bytes|), bytes];
      FlattenTwo(old(parts), Uint32(|bytes|), bytes);
    }
  }

  lemma FlattenTwo(parts: seq<Bytes>, a: Bytes, b: Bytes)
    ensures Flatten(parts + [a, b]) == Flatten(parts) + (a + b)
  {
    assert (parts + [a, b])[..|parts| + 1] == parts + [a];
    assert (parts + [a])[..|parts|] == parts;
    assert Flatten(parts + [a, b]) == Flatten(parts) + a + b;
  }

  lemma {:induction false} FramedSnoc(items: seq<Bytes>, x: Bytes)
    ensures Framed(items + [x]) == Framed(items) + Frame(x)
  {
    if items == [] {
      assert [x][1..] == [];
    } else {
      assert (items + [x])[1..] == items[1..] + [x];
      FramedSnoc(items[1..], x);
    }
  }

  datatype Call = Call(contract: Bytes, fn: Bytes, args: seq<Bytes>)

  function CallItems(call: Call): seq<Bytes> {
    [call.contract, call.fn] + call.args
  }

  datatype Config = Config(networkPassphrase: Bytes, guard: Bytes, source: Bytes, agentKey: Bytes,
                           accountSigners: Option<seq<Bytes>>)

  function Signers(config: Config): seq<Bytes> {
    match config.accountSigners
    case None => []
    case Some(signers) => signers
  }

  function Self(b: Bytes): seq<nat> {
    b
  }

  function ConfigItems(config: Config): seq<Bytes> {
    [config.networkPassphrase, config.guard, config.source, config.agentKey] + Lex.Sort(Signers(config), Self)
  }

  method CallFingerprint(call: Call, sha256: Bytes -> Bytes) returns (fingerprint: string)
    ensures fingerprint == Render(sha256(Framed(CallItems(call))))
  {
    var list := new PartList();
    assert list.parts == [];
    list.HashPart(call.contract);
    FramedSnoc([], call.contract);
    list.HashPart(call.fn);
    FramedSnoc([call.contract], call.fn);
    assert [] + [call.contract] + [call.fn] == [call.contract, call.fn];
    ghost var items := [call.contract, call.fn];
    for i := 0 to |call.args|
      invariant items == [call.contract, call.fn] + call.args[..i]
      invariant Flatten(list.parts) == Framed(items)
    {
      FramedSnoc(items, call.args[i]);
      items := items + [call.args[i]];
      list.HashPart(call.args[i]);
    }
    assert items == CallItems(call);
    var preimage := ConcatBytes(list.parts);
    fingerprint := BytesToHex(sha256(preimage[..]));
  }

  method ConfigFingerprint(config: Config, sha256: Bytes -> Bytes) returns (fingerprint: string)
    ensures fingerprint == Render(sha256(Framed(ConfigItems(config))))
  {
    var list := new PartList();
    var fixedParts := [config.networkPassphrase, config.guard, config.source, config.agentKey];
    var signers := Lex.Sort(Signers(config), Self);
    ghost var items := [];
    for i := 0 to 4
      invariant items == fixedParts[..i]
      invariant Flatten(list.parts) == Framed(items)
    {
      FramedSnoc(items, fixedParts[i]);
      items := items + [fixedParts[i]];
      list.HashPart(fixedParts[i]);
    }
    for i := 0 to |signers|
      invariant items == fixedParts + signers[..i]
      invariant Flatten(list.parts) == Framed(items)
    {
      FramedSnoc(items, signers[i]);
      items := items + [signers[i]];
      list.HashPart(signers[i]);
    }
    assert items == ConfigItems(config);
    var preimage := ConcatBytes(list.parts);
    fingerprint := BytesToHex(sha256(preimage[..]));
  }

  // ---- Injectivity ----

  ghost predicate Short(items: seq<Bytes>) {
    forall i :: 0 <= i < |items| ==> |items[i]| < U32_RANGE
  }

  lemma BelowRange(m: nat)
    requires m < U32_RANGE
    ensures m % U32_RANGE == m
  {
  }

  lemma Uint32Digits(m: nat)
    requires m < U32_RANGE
    ensures Uint32(m) == [m / 0x100_0000, m / 0x1_0000 % 256, m / 256 % 256, m % 256]
  {
    BelowRange(m);
  }

  lemma LowDigit(x: nat)
    ensures x == x / 256 * 256 + x % 256
  {
  }

  lemma DivTwice(m: nat)
    ensures m / 256 / 256 == m / 0x1_0000 && m / 0x1_0000 / 256 == m / 0x100_0000
  {
  }

  lemma DigitsAddUp(m: nat, q1: nat, q2: nat, q3: nat)
    requires m == q1 * 256 + m % 256 && q1 == q2 * 256 + q1 % 256 && q2 == q3 * 256 + q2 % 256
    ensures m == q3 * 0x100_0000 + q2 % 256 * 0x1_0000 + q1 % 256 * 256 + m % 256
  {
  }

  lemma Uint32Value(m: nat)
    requires m < U32_RANGE
    ensures var b: seq<int> := Uint32(m); m == b[0] * 0x100_0000 + b[1] * 0x1_0000 + b[2] * 256 + b[3]
  {
    hide Uint32;
    Uint32Digits(m);
    DivTwice(m);
    LowDigit(m);
    LowDigit(m / 256);
    LowDigit(m / 0x1_0000);
    DigitsAddUp(m, m / 256, m / 0x1_0000, m / 0x100_0000);
  }

  lemma Uint32IsInjective(m: nat, n: nat)
    requires m < U32_RANGE && n < U32_RANGE && Uint32(m) == Uint32(n)
    ensures m == n
  {
    Uint32Value(m);
    Uint32Value(n);
  }

  lemma SplitFrame(x: Bytes, rest: Bytes)
    ensures (Frame(x) + rest)[..4] == Uint32(|x|)
    ensures (Frame(x) + rest)[4..][..|x|] == x
    ensures (Frame(x) + rest)[4..][|x|..] == rest
  {}

  /** The framing is uniquely decodable: equal bytes come from equal lists only. */
  lemma {:induction false} FramingIsInjective(a: seq<Bytes>, b: seq<Bytes>)
    requires Short(a) && Short(b)
    ensures Framed(a) == Framed(b) <==> a == b
  {
    if a != [] && b != [] && Framed(a) == Framed(b) {
      SplitFrame(a[0], Framed(a[1..]));
      SplitFrame(b[0], Framed(b[1..]));
      Uint32IsInjective(|a[0]|, |b[0]|);
      FramingIsInjective(a[1..], b[1..]);
      assert a == [a[0]] + a[1..] && b == [b[0]] + b[1..];
    }
  }

  lemma {:induction false} CallFramingIsInjective(a: Call, b: Call)
    requires Short(CallItems(a)) && Short(CallItems(b))
    ensures Framed(CallItems(a)) == Framed(CallItems(b)) <==> a == b
  {
    FramingIsInjective(CallItems(a), CallItems(b));
    if CallItems(a) == CallItems(b) {
      assert CallItems(a)[0] == CallItems(b)[0] && CallItems(a)[1] == CallItems(b)[1];
      assert CallItems(a)[2..] == a.args && CallItems(b)[2..] == b.args;
    }
  }

  /** Two configurations are framed alike exactly when they differ in the order of the account signers only. */
  lemma ConfigFramingIsInjective(a: Config, b: Config)
    requires Short(ConfigItems(a)) && Short(ConfigItems(b))
    ensures Framed(ConfigItems(a)) == Framed(ConfigItems(b)) <==>
      && a.networkPassphrase == b.networkPassphrase && a.guard == b.guard
      && a.source == b.source && a.agentKey == b.agentKey
      && multiset(Signers(a)) == multiset(Signers(b))
  {
    FramingIsInjective(ConfigItems(a), ConfigItems(b));
    Lex.SortForgetsOrder(Signers(a), Signers(b), Self);
    if ConfigItems(a) == ConfigItems(b) {
      assert ConfigItems(a)[0] == ConfigItems(b)[0] && ConfigItems(a)[1] == ConfigItems(b)[1];
      assert ConfigItems(a)[2] == ConfigItems(b)[2] && ConfigItems(a)[3] == ConfigItems(b)[3];
      assert ConfigItems(a)[4..] == Lex.Sort(Signers(a), Self) && ConfigItems(b)[4..] == Lex.Sort(Signers(b), Self);
    }
  }

  /** The fingerprints of two calls agree exactly when the calls do, as long as the digest tells their bytes apart. */
  lemma FingerprintIdentifiesCall(a: Call, b: Call, sha256: Bytes -> Bytes)
    requires Short(CallItems(a)) && Short(CallItems(b))
    requires sha256(Framed(CallItems(a))) == sha256(Framed(CallItems(b))) ==>
      Framed(CallItems(a)) == Framed(CallItems(b))
    ensures Render(sha256(Framed(CallItems(a)))) == Render(sha256(Framed(CallItems(b)))) <==> a == b
  {
    CallFramingIsInjective(a, b);
    RenderIsInjective(sha256(Framed(CallItems(a))), sha256(Framed(CallItems(b))));
  }

  // ---- The length bound is needed ----

  function ZeroBytes(n: nat): (b: Bytes)
    ensures |b| == n
  {
    seq(n, _ => 0)
  }

  function EmptyItems(n: nat): (items: seq<Bytes>)
    ensures |items| == n
  {
    seq(n, _ => [])
  }

  lemma {:induction false} EmptyFrames(n: nat)
    ensures Framed(EmptyItems(n)) == ZeroBytes(4 * n)
  {
    if n > 0 {
      EmptyFrames(n - 1);
      assert EmptyItems(n)[1..] == EmptyItems(n - 1);
      assert Uint32(0) == ZeroBytes(4);
      assert ZeroBytes(4) + ZeroBytes(4 * (n - 1)) == ZeroBytes(4 * n);
    }
  }

  /**
   A remark on the framing alone: an item of 2^32 zero bytes has the length prefix of an empty one, so without the
   bound two lists of items share their bytes.  A check never frames these two calls, it refuses both beforehand.
   */
  lemma LengthBoundIsNeeded()
    ensures exists a: Call, b: Call :: a != b && Framed(CallItems(a)) == Framed(CallItems(b))
  {
    var a := Call(ZeroBytes(U32_RANGE), [], []);
    var b := Call([], [], EmptyItems(0x4000_0000));
    assert CallItems(b) == EmptyItems(0x4000_0002);
    EmptyFrames(0x4000_0002);
    assert CallItems(a)[1..] == EmptyItems(1) by {
      assert CallItems(a)[1..] == [[]];
    }
    EmptyFrames(1);
    assert Uint32(U32_RANGE) == ZeroBytes(4);
    assert Framed(CallItems(a)) == ZeroBytes(4) + ZeroBytes(U32_RANGE) + ZeroBytes(4);
    assert ZeroBytes(4) + ZeroBytes(U32_RANGE) + ZeroBytes(4) == ZeroBytes(4 * 0x4000_0002);
    assert a != b;
  }
}
