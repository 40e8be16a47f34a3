/** The structured difference of two policies (src/policy-diff.ts). */
module PolicyDiff {
  import opened Wrappers
  import opened Policy

  datatype Field =
    | PerTxCap | WindowSecs | WindowCap | Assets | Protocols | Recipients | AllowAnyRecipient
    | ActiveFrom | ActiveUntil | Paused | DmsGraceSecs | RecipientWindowCaps | BlockedRecipients

  datatype Value = Number(n: int) | Flag(b: bool) | Text(s: string) | Names(fns: Option<seq<string>>)

  /** `field`, `field[i]`, `field[i].fns`, `field[i].fns[j]` or `field[i].cap`. */
  datatype Path = Whole | Member(i: nat) | Fns(i: nat) | Fn(i: nat, j: nat) | Cap(i: nat)

  datatype Change =
    | Removed(field: Field, path: Path, before: Value)
    | Added(field: Field, path: Path, after: Value)
    | Changed(field: Field, path: Path, before: Value, after: Value)

  // ---------------------------------------------------------------- keyed lists

  /** Entry i is the first with its key; later ones are ignored. */
  predicate First(keys: seq<string>, i: nat)
    requires i < |keys|
  {
    keys[i] !in keys[..i]
  }

  function IndexOf(keys: seq<string>, k: string): (i: nat)
    requires k in keys
    ensures i < |keys| && keys[i] == k && First(keys, i)
  {
    if keys[0] == k then 0
    else
      var i := 1 + IndexOf(keys[1..], k);
      assert keys[..i] == [keys[0]] + keys[1..][..i - 1];
      i
  }

  /** How the members of a list are named in a change. */
  datatype Listing = Listing(field: Field, path: PathTo, values: seq<string>) {
    function PathAt(i: nat): Path {
      match path
      case ToMember => Member(i)
      case ToFn(m) => Fn(m, i)
    }

    function RemovedAt(i: nat): Change
      requires i < |values|
    {
      Removed(field, PathAt(i), Text(values[i]))
    }

    function AddedAt(i: nat): Change
      requires i < |values|
    {
      Added(field, PathAt(i), Text(values[i]))
    }
  }

  datatype PathTo = ToMember | ToFn(m: nat)

  /** What is compared inside two entries with the same key. */
  datatype Inner = Nothing | Rules(a: seq<ProtocolRule>, b: seq<ProtocolRule>) | Caps(a': seq<RecipientCap>,
      b': seq<RecipientCap>) {
    /** The two sides have na and nb entries. */
    predicate Fits(na: nat, nb: nat) {
      match this
      case Nothing => true
      case Rules(a, b) => |a| == na && |b| == nb
      case Caps(a, b) => |a| == na && |b| == nb
    }

    predicate Covers(i: nat, m: nat) {
      match this
      case Nothing => true
      case Rules(a, b) => i < |a| && m < |b|
      case Caps(a, b) => i < |a| && m < |b|
    }
  }

  /** How members are compared: as they are, or by canonical address. */
  datatype Comparison = ByText | ByAddress(book: AddressBook) {
    function KeyFor(v: string): string {
      match this
      case ByText => v
      case ByAddress(book) => AddressKey(book, v)
    }
  }

  function Keys(cmp: Comparison, values: seq<string>): (ks: seq<string>)
    ensures |ks| == |values| && forall i :: 0 <= i < |values| ==> ks[i] == cmp.KeyFor(values[i])
  {
    seq(|values|, i requires 0 <= i < |values| => cmp.KeyFor(values[i]))
  }

  /** The first entries among keys[..n] whose key is not in `others`. */
  function Missing(keys: seq<string>, others: seq<string>, n: nat): (r: seq<nat>)
    requires n <= |keys|
    ensures forall k :: 0 <= k < |r| ==> r[k] < n
  {
    if n == 0 then []
    else Missing(keys, others, n - 1) + if First(keys, n - 1) && keys[n - 1] !in others then [n - 1] else []
  }

  function AllRemoved(list: Listing, at: seq<nat>): (r: seq<Change>)
    requires forall k :: 0 <= k < |at| ==> at[k] < |list.values|
    ensures |r| == |at| && forall k :: 0 <= k < |at| ==> r[k] == list.RemovedAt(at[k])
  {
    seq(|at|, k requires 0 <= k < |at| => list.RemovedAt(at[k]))
  }

  function AllAdded(list: Listing, at: seq<nat>): (r: seq<Change>)
    requires forall k :: 0 <= k < |at| ==> at[k] < |list.values|
    ensures |r| == |at| && forall k :: 0 <= k < |at| ==> r[k] == list.AddedAt(at[k])
  {
    seq(|at|, k requires 0 <= k < |at| => list.AddedAt(at[k]))
  }

  function SetDiffOf(field: Field, path: PathTo, before: seq<string>, after: seq<string>,
          cmp: Comparison): seq<Change> {
    var ka, kb := Keys(cmp, before), Keys(cmp, after);
    AllRemoved(Listing(field, path, before), Missing(ka, kb, |ka|))
    + AllAdded(Listing(field, path, after), Missing(kb, ka, |kb|))
  }

  /** The changes between two matched rules, reported under index m of the newer policy. */
  function FnsDiff(before: Option<seq<string>>, after: Option<seq<string>>, m: nat): seq<Change> {
    if before.None? || after.None? then
      if before != after then [Changed(Protocols, Fns(m), Names(before), Names(after))] else []
    else SetDiffOf(Protocols, ToFn(m), before.value, after.value, ByText)
  }

  function CapDiff(before: int, after: int, m: nat): seq<Change> {
    if before != after then [Changed(RecipientWindowCaps, Cap(m), Number(before), Number(after))] else []
  }

  function InnerDiff(inner: Inner, i: nat, m: nat): seq<Change>
    requires inner.Covers(i, m)
  {
    match inner
    case Nothing => []
    case Rules(a, b) => FnsDiff(a[i].fns, b[m].fns, m)
    case Caps(a, b) => CapDiff(a[i].cap, b[m].cap, m)
  }

  /** Removals, and the inner changes of matched entries, for the first entries among ka[..n]. */
  function Matched(ka: seq<string>, kb: seq<string>, list: Listing, inner: Inner, n: nat): seq<Change>
    requires n <= |ka| == |list.values| && inner.Fits(|ka|, |kb|)
  {
    if n == 0 then []
    else
      var i := n - 1;
      Matched(ka, kb, list, inner, i)
      + if !First(ka, i) then []
        else if ka[i] in kb then InnerDiff(inner, i, IndexOf(kb, ka[i]))
        else [list.RemovedAt(i)]
  }

  // ---------------------------------------------------------------- policies

  function AddressKey(book: AddressBook, value: string): string {
    match book(value)
    case None => "invalid:" + value
    case Some(k) => "valid:" + k
  }

  function AddressSetDiff(book: AddressBook, field: Field, before: seq<string>, after: seq<string>): seq<Change> {
    SetDiffOf(field, ToMember, before, after, ByAddress(book))
  }

  function KeyedDiff(book: AddressBook, field: Field, before: seq<string>, after: seq<string>,
          inner: Inner): seq<Change>
    requires inner.Fits(|before|, |after|)
  {
    var ka, kb := Keys(ByAddress(book), before), Keys(ByAddress(book), after);
    Matched(ka, kb, Listing(field, ToMember, before), inner, |ka|)
    + AllAdded(Listing(field, ToMember, after), Missing(kb, ka, |kb|))
  }

  function ProtocolsDiff(book: AddressBook, a: seq<ProtocolRule>, b: seq<ProtocolRule>): seq<Change> {
    KeyedDiff(book, Protocols, ContractsOf(a), ContractsOf(b), Rules(a, b))
  }

  function CapsDiff(book: AddressBook, a: seq<RecipientCap>, b: seq<RecipientCap>): seq<Change> {
    KeyedDiff(book, RecipientWindowCaps, RecipientsOf(a), RecipientsOf(b), Caps(a, b))
  }

  function ScalarDiff(field: Field, before: Value, after: Value): seq<Change> {
    if before != after then [Changed(field, Whole, before, after)] else []
  }

  function AmountsDiff(a: Policy, b: Policy): seq<Change> {
    ScalarDiff(PerTxCap, Number(a.perTxCap), Number(b.perTxCap))
    + ScalarDiff(WindowSecs, Number(a.windowSecs), Number(b.windowSecs))
    + ScalarDiff(WindowCap, Number(a.windowCap), Number(b.windowCap))
  }

  function ConditionsDiff(a: Policy, b: Policy): seq<Change> {
    ScalarDiff(AllowAnyRecipient, Flag(a.allowAnyRecipient), Flag(b.allowAnyRecipient))
    + ScalarDiff(ActiveFrom, Number(a.activeFrom), Number(b.activeFrom))
    + ScalarDiff(ActiveUntil, Number(a.activeUntil), Number(b.activeUntil))
    + ScalarDiff(Paused, Flag(a.paused), Flag(b.paused))
    + ScalarDiff(DmsGraceSecs, Number(a.dmsGraceSecs), Number(b.dmsGraceSecs))
  }

  function Diff(book: AddressBook, a: Policy, b: Policy): seq<Change> {
    AmountsDiff(a, b)
    + AddressSetDiff(book, Assets, a.assets, b.assets)
    + ProtocolsDiff(book, a.protocols, b.protocols)
    + AddressSetDiff(book, Recipients, a.recipients, b.recipients)
    + ConditionsDiff(a, b)
    + CapsDiff(book, OrEmpty(a.recipientWindowCaps), OrEmpty(b.recipientWindowCaps))
    + AddressSetDiff(book, BlockedRecipients, OrEmpty(a.blockedRecipients), OrEmpty(b.blockedRecipients))
  }

  // ---------------------------------------------------------------- the helpers that push changes

  /** The `changes` array every helper appends to. */
  class ChangeList {
    var items: seq<Change>

    constructor ()
      ensures items == []
    {
      items := [];
    }

    method Push(c: Change)
      modifies this
      ensures items == old(items) + [c]
    {
      items := items + [c];
    }
  }

  lemma Assoc(a: seq<Change>, b: seq<Change>, c: seq<Change>)
    ensures (a + b) + c == a + (b + c)
  {
  }

  method Scalar(changes: ChangeList, field: Field, before: Value, after: Value)
    modifies changes
    ensures changes.items == old(changes.items) + ScalarDiff(field, before, after)
  {
    if before != after {
      changes.Push(Changed(field, Whole, before, after));
    }
  }

  lemma TakeNext(keys: seq<string>, i: nat)
    requires i < |keys|
    ensures forall k :: k in keys[..i + 1] <==> k in keys[..i] || k == keys[i]
  {
    assert keys[..i + 1] == keys[..i] + [keys[i]];
  }

  /** The first entries whose key is not in `others`, found with a `seen` set. */
  method FindMissing(keys: seq<string>, others: set<string>, ghost otherKeys: seq<string>) returns (at: seq<nat>)
    requires others == set k | k in otherKeys
    ensures at == Missing(keys, otherKeys, |keys|)
  {
    at := [];
    var seen: set<string> := {};
    for i := 0 to |keys|
      invariant seen == set k | k in keys[..i]
      invariant at == Missing(keys, otherKeys, i)
    {
      TakeNext(keys, i);
      if keys[i] in seen {
        continue;
      }
      seen := seen + {keys[i]};
      if keys[i] !in others {
        at := at + [i];
      }
    }
  }

  method PushRemoved(changes: ChangeList, list: Listing, at: seq<nat>)
    requires forall k :: 0 <= k < |at| ==> at[k] < |list.values|
    modifies changes
    ensures changes.items == old(changes.items) + AllRemoved(list, at)
  {
    ghost var all := AllRemoved(list, at);
    for n := 0 to |at|
      invariant changes.items == old(changes.items) + all[..n]
    {
      assert all[..n + 1] == all[..n] + [all[n]];
      changes.Push(list.RemovedAt(at[n]));
    }
    assert all[..|at|] == all;
  }

  method PushAdded(changes: ChangeList, list: Listing, at: seq<nat>)
    requires forall k :: 0 <= k < |at| ==> at[k] < |list.values|
    modifies changes
    ensures changes.items == old(changes.items) + AllAdded(list, at)
  {
    ghost var all := AllAdded(list, at);
    for n := 0 to |at|
      invariant changes.items == old(changes.items) + all[..n]
    {
      assert all[..n + 1] == all[..n] + [all[n]];
      changes.Push(list.AddedAt(at[n]));
    }
    assert all[..|at|] == all;
  }

  method SetDiff(changes: ChangeList, field: Field, path: PathTo, before: seq<string>, after: seq<string>,
          cmp: Comparison)
    modifies changes
    ensures changes.items == old(changes.items) + SetDiffOf(field, path, before, after, cmp)
  {
    var ka, kb := Keys(cmp, before), Keys(cmp, after);
    var inAfter := set k | k in kb;
    var inBefore := set k | k in ka;
    var gone := FindMissing(ka, inAfter, kb);
    var come := FindMissing(kb, inBefore, ka);
    var left, right := Listing(field, path, before), Listing(field, path, after);
    Assoc(changes.items, AllRemoved(left, gone), AllAdded(right, come));
    PushRemoved(changes, left, gone);
    PushAdded(changes, right, come);
  }

  /** The index map of the newer list: the first entry of each key wins. */
  method IndexByKey(keys: seq<string>) returns (index: map<string, nat>)
    ensures forall k :: k in index <==> k in keys
    ensures forall k :: k in index ==> index[k] == IndexOf(keys, k)
  {
    index := map[];
    for i := 0 to |keys|
      invariant forall k :: k in index <==> k in keys[..i]
      invariant forall k :: k in index ==> k in keys && index[k] == IndexOf(keys, k)
    {
      TakeNext(keys, i);
      if keys[i] !in index {
        FirstIsIndexOf(keys, i);
        index := index[keys[i] := i];
      }
    }
    assert keys[..|keys|] == keys;
  }

  lemma FirstIsIndexOf(keys: seq<string>, i: nat)
    requires i < |keys| && First(keys, i)
    ensures IndexOf(keys, keys[i]) == i
  {
    var j := IndexOf(keys, keys[i]);
    assert keys[i] !in keys[..i] && keys[i] !in keys[..j];
    assert forall k :: 0 <= k < i ==> keys[..i][k] == keys[k];
    assert forall k :: 0 <= k < j ==> keys[..j][k] == keys[k];
  }

  method PushFnsDiff(changes: ChangeList, before: Option<seq<string>>, after: Option<seq<string>>, m: nat)
    modifies changes
    ensures changes.items == old(changes.items) + FnsDiff(before, after, m)
  {
    if before.None? || after.None? {
      if before != after {
        changes.Push(Changed(Protocols, Fns(m), Names(before), Names(after)));
      }
      return;
    }
    SetDiff(changes, Protocols, ToFn(m), before.value, after.value, ByText);
  }

  /** What entry i adds to the changes reported so far. */
  lemma MatchedStep(was: seq<Change>, ka: seq<string>, kb: seq<string>, list: Listing, inner: Inner, i: nat)
    requires i < |ka| == |list.values| && inner.Fits(|ka|, |kb|)
    ensures !First(ka, i) ==> Matched(ka, kb, list, inner, i + 1) == Matched(ka, kb, list, inner, i)
    ensures First(ka, i) ==>
              was + Matched(ka, kb, list, inner, i + 1)
              == (was + Matched(ka, kb, list, inner, i))
                 + if ka[i] in kb then InnerDiff(inner, i, IndexOf(kb, ka[i])) else [list.RemovedAt(i)]
  {
    if First(ka, i) {
      Assoc(was, Matched(ka, kb, list, inner, i),
            if ka[i] in kb then InnerDiff(inner, i, IndexOf(kb, ka[i])) else [list.RemovedAt(i)]);
    }
  }

  lemma MatchedNone(ka: seq<string>, kb: seq<string>, list: Listing, inner: Inner)
    requires |ka| == |list.values| && inner.Fits(|ka|, |kb|)
    ensures Matched(ka, kb, list, inner, 0) == []
  {
  }

  method PushRule(changes: ChangeList, list: Listing, a: seq<ProtocolRule>, b: seq<ProtocolRule>, i: nat,
          m: Option<nat>)
    requires i < |a| == |list.values| && (m.Some? ==> m.value < |b|)
    modifies changes
    ensures changes.items == old(changes.items)
                             + if m.Some? then InnerDiff(Rules(a, b), i, m.value) else [list.RemovedAt(i)]
  {
    if m.None? {
      changes.Push(list.RemovedAt(i));
    } else {
      PushFnsDiff(changes, a[i].fns, b[m.value].fns, m.value);
    }
  }

  method PushProtocols(changes: ChangeList, book: AddressBook, a: seq<ProtocolRule>, b: seq<ProtocolRule>)
    modifies changes
    ensures changes.items == old(changes.items) + ProtocolsDiff(book, a, b)
  {
    hide Matched, AllAdded, Missing, InnerDiff, AddressKey, ContractsOf, Keys;
    var ka, kb := Keys(ByAddress(book), ContractsOf(a)), Keys(ByAddress(book), ContractsOf(b));
    var list := Listing(Protocols, ToMember, ContractsOf(a));
    var afterIndex := IndexByKey(kb);
    var beforeContracts: set<string> := {};
    MatchedNone(ka, kb, list, Rules(a, b));
    ghost var was := changes.items;
    for i := 0 to |a|
      invariant beforeContracts == set k | k in ka[..i]
      invariant changes.items == was + Matched(ka, kb, list, Rules(a, b), i)
    {
      TakeNext(ka, i);
      MatchedStep(was, ka, kb, list, Rules(a, b), i);
      if ka[i] in beforeContracts {
        continue;
      }
      beforeContracts := beforeContracts + {ka[i]};
      var m := if ka[i] in afterIndex then Some(afterIndex[ka[i]]) else None;
      PushRule(changes, list, a, b, i, m);
    }
    assert ka[..|a|] == ka;
    var come := FindMissing(kb, beforeContracts, ka);
    var right := Listing(Protocols, ToMember, ContractsOf(b));
    Assoc(was, Matched(ka, kb, list, Rules(a, b), |a|), AllAdded(right, come));
    PushAdded(changes, right, come);
  }

  method PushCap(changes: ChangeList, list: Listing, a: seq<RecipientCap>, b: seq<RecipientCap>, i: nat, m: Option<nat>)
    requires i < |a| == |list.values| && (m.Some? ==> m.value < |b|)
    modifies changes
    ensures changes.items == old(changes.items)
                             + if m.Some? then InnerDiff(Caps(a, b), i, m.value) else [list.RemovedAt(i)]
  {
    if m.None? {
      changes.Push(list.RemovedAt(i));
    } else if b[m.value].cap != a[i].cap {
      changes.Push(Changed(RecipientWindowCaps, Cap(m.value), Number(a[i].cap), Number(b[m.value].cap)));
    }
  }

  method PushWindowCaps(changes: ChangeList, book: AddressBook, a: seq<RecipientCap>, b: seq<RecipientCap>)
    modifies changes
    ensures changes.items == old(changes.items) + CapsDiff(book, a, b)
  {
    hide Matched, AllAdded, Missing, InnerDiff, AddressKey, RecipientsOf, Keys;
    var ka, kb := Keys(ByAddress(book), RecipientsOf(a)), Keys(ByAddress(book), RecipientsOf(b));
    var list := Listing(RecipientWindowCaps, ToMember, RecipientsOf(a));
    var afterIndex := IndexByKey(kb);
    var beforeRecipients: set<string> := {};
    MatchedNone(ka, kb, list, Caps(a, b));
    ghost var was := changes.items;
    for i := 0 to |a|
      invariant beforeRecipients == set k | k in ka[..i]
      invariant changes.items == was + Matched(ka, kb, list, Caps(a, b), i)
    {
      TakeNext(ka, i);
      MatchedStep(was, ka, kb, list, Caps(a, b), i);
      if ka[i] in beforeRecipients {
        continue;
      }
      beforeRecipients := beforeRecipients + {ka[i]};
      var m := if ka[i] in afterIndex then Some(afterIndex[ka[i]]) else None;
      PushCap(changes, list, a, b, i, m);
    }
    assert ka[..|a|] == ka;
    var come := FindMissing(kb, beforeRecipients, ka);
    var right := Listing(RecipientWindowCaps, ToMember, RecipientsOf(b));
    Assoc(was, Matched(ka, kb, list, Caps(a, b), |a|), AllAdded(right, come));
    PushAdded(changes, right, come);
  }

  method PushAmounts(changes: ChangeList, a: Policy, b: Policy)
    requires changes.items == []
    modifies changes
    ensures changes.items == AmountsDiff(a, b)
  {
    Scalar(changes, PerTxCap, Number(a.perTxCap), Number(b.perTxCap));
    Scalar(changes, WindowSecs, Number(a.windowSecs), Number(b.windowSecs));
    Scalar(changes, WindowCap, Number(a.windowCap), Number(b.windowCap));
  }

  method PushConditions(changes: ChangeList, a: Policy, b: Policy)
    modifies changes
    ensures changes.items == old(changes.items) + ConditionsDiff(a, b)
  {
    ghost var was := changes.items;
    Scalar(changes, AllowAnyRecipient, Flag(a.allowAnyRecipient), Flag(b.allowAnyRecipient));
    Scalar(changes, ActiveFrom, Number(a.activeFrom), Number(b.activeFrom));
    ghost var two := ScalarDiff(AllowAnyRecipient, Flag(a.allowAnyRecipient), Flag(b.allowAnyRecipient))
                     + ScalarDiff(ActiveFrom, Number(a.activeFrom), Number(b.activeFrom));
    assert changes.items == was + two;
    Scalar(changes, ActiveUntil, Number(a.activeUntil), Number(b.activeUntil));
    ghost var three := two + ScalarDiff(ActiveUntil, Number(a.activeUntil), Number(b.activeUntil));
    assert changes.items == was + three;
    Scalar(changes, Paused, Flag(a.paused), Flag(b.paused));
    ghost var four := three + ScalarDiff(Paused, Flag(a.paused), Flag(b.paused));
    assert changes.items == was + four;
    Scalar(changes, DmsGraceSecs, Number(a.dmsGraceSecs), Number(b.dmsGraceSecs));
  }

  method PolicyDiff(book: AddressBook, a: Policy, b: Policy) returns (changes: seq<Change>)
    ensures changes == Diff(book, a, b)
  {
    var list := new ChangeList();
    PushAmounts(list, a, b);
    SetDiff(list, Assets, ToMember, a.assets, b.assets, ByAddress(book));
    PushProtocols(list, book, a.protocols, b.protocols);
    SetDiff(list, Recipients, ToMember, a.recipients, b.recipients, ByAddress(book));
    PushConditions(list, a, b);
    PushWindowCaps(list, book, OrEmpty(a.recipientWindowCaps), OrEmpty(b.recipientWindowCaps));
    SetDiff(list, BlockedRecipients, ToMember, OrEmpty(a.blockedRecipients), OrEmpty(b.blockedRecipients),
            ByAddress(book));
    changes := list.items;
  }
}
