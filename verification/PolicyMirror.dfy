/** The policy difference is symmetric: exchanging the policies mirrors it change by change. */
module PolicyMirror {
  import opened Wrappers
  import opened Policy
  import opened PolicyDiff
  import opened PolicyDiffExact
  import opened PolicyPatch

  /** The same place seen from the other side: matched entries are named by the index in the newer list. */
  ghost predicate SamePlace(book: AddressBook, a: Policy, b: Policy, p: Path, q: Path) {
    match (p, q)
    case (Whole, Whole) => true
    case (Member(i), Member(j)) => i == j
    case (Fns(m), Fns(n)) => SameRuleKey(book, a, b, m, n)
    case (Fn(m, i), Fn(n, j)) => i == j && SameRuleKey(book, a, b, m, n)
    case (Cap(m), Cap(n)) =>
      var ca, cb := OrEmpty(a.recipientWindowCaps), OrEmpty(b.recipientWindowCaps);
      m < |cb| && n < |ca| && AddressKey(book, cb[m].recipient) == AddressKey(book, ca[n].recipient)
    case _ => false
  }

  ghost predicate SameRuleKey(book: AddressBook, a: Policy, b: Policy, m: nat, n: nat) {
    m < |b.protocols| && n < |a.protocols|
    && AddressKey(book, b.protocols[m].contract) == AddressKey(book, a.protocols[n].contract)
  }

  /** d reports the change c with the two policies exchanged. */
  ghost predicate Mirrors(book: AddressBook, a: Policy, b: Policy, c: Change, d: Change) {
    && c.field == d.field
    && SamePlace(book, a, b, c.path, d.path)
    && match (c, d)
       case (Removed(_, _, x), Added(_, _, y)) => x == y
       case (Added(_, _, x), Removed(_, _, y)) => x == y
       case (Changed(_, _, x, y), Changed(_, _, x', y')) => x == y' && y == x'
       case _ => false
  }

  /** A member change with its kind exchanged and its path rebuilt by `path`. */
  function Flip(c: Change, path: PathTo, i: nat): Change
    requires !c.Changed?
  {
    var p := Listing(c.field, path, []).PathAt(i);
    if c.Removed? then Added(c.field, p, c.before) else Removed(c.field, p, c.after)
  }

  lemma SetDiffFlips(field: Field, path: PathTo, back: PathTo, before: seq<string>, after: seq<string>,
          cmp: Comparison, c: Change) returns (i: nat)
    requires c in SetDiffOf(field, path, before, after, cmp)
    ensures !c.Changed? && c.field == field && c.path == Listing(field, path, []).PathAt(i)
    ensures Flip(c, back, i) in SetDiffOf(field, back, after, before, cmp)
  {
    var ka, kb := Keys(cmp, before), Keys(cmp, after);
    var left, right := Listing(field, path, before), Listing(field, path, after);
    RemovedMember(left, ka, kb, c);
    AddedMember(right, kb, ka, c);
    var left', right' := Listing(field, back, before), Listing(field, back, after);
    if c in AllRemoved(left, Missing(ka, kb, |ka|)) {
      i :| i < |ka| && First(ka, i) && ka[i] !in kb && c == left.RemovedAt(i);
      AddedMember(left', ka, kb, left'.AddedAt(i));
    } else {
      i :| i < |kb| && First(kb, i) && kb[i] !in ka && c == right.AddedAt(i);
      RemovedMember(right', kb, ka, right'.RemovedAt(i));
    }
  }

  lemma AddressSetMirror(book: AddressBook, field: Field, before: seq<string>, after: seq<string>, a: Policy,
          b: Policy, c: Change) returns (d: Change)
    requires c in AddressSetDiff(book, field, before, after)
    ensures d in AddressSetDiff(book, field, after, before) && Mirrors(book, a, b, c, d)
  {
    var i := SetDiffFlips(field, ToMember, ToMember, before, after, ByAddress(book), c);
    d := Flip(c, ToMember, i);
  }

  lemma FnsMirror(book: AddressBook, a: Policy, b: Policy, n: nat, m: nat, c: Change) returns (d: Change)
    requires SameRuleKey(book, a, b, m, n)
    requires c in FnsDiff(a.protocols[n].fns, b.protocols[m].fns, m)
    ensures d in FnsDiff(b.protocols[m].fns, a.protocols[n].fns, n) && Mirrors(book, a, b, c, d)
  {
    var x, y := a.protocols[n].fns, b.protocols[m].fns;
    if x.None? || y.None? {
      d := Changed(Protocols, Fns(n), Names(y), Names(x));
    } else {
      var i := SetDiffFlips(Protocols, ToFn(m), ToFn(n), x.value, y.value, ByText, c);
      d := Flip(c, ToFn(n), i);
    }
  }

  /** A keyed change is a removal, an addition, or inside a matched pair; each has its counterpart. */
  lemma KeyedMirror(book: AddressBook, field: Field, before: seq<string>, after: seq<string>, inner: Inner,
          back: Inner, c: Change)
    returns (d: Change, pair: Option<(nat, nat)>)
    requires inner.Fits(|before|, |after|) && back.Fits(|after|, |before|)
    requires c in KeyedDiff(book, field, before, after, inner)
    ensures pair.None? ==>
              && d in KeyedDiff(book, field, after, before, back)
              && !c.Changed? && !d.Changed? && c.field == d.field == field && c.path.Member? && c.path == d.path
              && (if c.Removed? then d.Added? && c.before == d.after else d.Removed? && c.after == d.before)
    ensures pair.Some? ==>
              && pair.value.0 < |before| && pair.value.1 < |after|
              && AddressKey(book, before[pair.value.0]) == AddressKey(book, after[pair.value.1])
              && c in InnerDiff(inner, pair.value.0, pair.value.1)
              && forall x :: x in InnerDiff(back, pair.value.1, pair.value.0) ==>
                               x in KeyedDiff(book, field, after, before, back)
  {
    var ka, kb := Keys(ByAddress(book), before), Keys(ByAddress(book), after);
    var left, right := Listing(field, ToMember, before), Listing(field, ToMember, after);
    d := c;
    if c in Matched(ka, kb, left, inner, |ka|) {
      var i := MatchedMember(ka, kb, left, inner, |ka|, c);
      if ka[i] in kb {
        var m := IndexOf(kb, ka[i]);
        pair := Some((i, m));
        FirstIsIndexOf(ka, i);
        forall x | x in InnerDiff(back, m, i)
          ensures x in KeyedDiff(book, field, after, before, back)
        {
          MatchedHas(kb, ka, right, back, |kb|, m, x);
        }
      } else {
        pair := None;
        d := left.AddedAt(i);
        AddedMember(left, ka, kb, d);
      }
    } else {
      pair := None;
      AddedMember(right, kb, ka, c);
      var i: nat :| i < |kb| && First(kb, i) && kb[i] !in ka && c == right.AddedAt(i);
      d := right.RemovedAt(i);
      MatchedHas(kb, ka, right, back, |kb|, i, d);
    }
  }

  lemma {:induction false} RulesMirror(book: AddressBook, a: Policy, b: Policy, c: Change) returns (d: Change)
    requires c in ProtocolsDiff(book, a.protocols, b.protocols)
    ensures d in ProtocolsDiff(book, b.protocols, a.protocols) && Mirrors(book, a, b, c, d)
  {
    var pair;
    d, pair := KeyedMirror(book, Protocols, ContractsOf(a.protocols), ContractsOf(b.protocols),
                           Rules(a.protocols, b.protocols), Rules(b.protocols, a.protocols), c);
    if pair.Some? {
      d := FnsMirror(book, a, b, pair.value.0, pair.value.1, c);
    }
  }

  lemma CapsMirror(book: AddressBook, a: Policy, b: Policy, c: Change) returns (d: Change)
    requires c in CapsDiff(book, OrEmpty(a.recipientWindowCaps), OrEmpty(b.recipientWindowCaps))
    ensures d in CapsDiff(book, OrEmpty(b.recipientWindowCaps), OrEmpty(a.recipientWindowCaps))
    ensures Mirrors(book, a, b, c, d)
  {
    hide KeyedDiff, Keys, AddressKey;
    var ca, cb := OrEmpty(a.recipientWindowCaps), OrEmpty(b.recipientWindowCaps);
    var pair;
    d, pair := KeyedMirror(book, RecipientWindowCaps, RecipientsOf(ca), RecipientsOf(cb), Caps(ca, cb), Caps(cb, ca),
        c);
    if pair.Some? {
      var (i, m) := pair.value;
      d := Changed(RecipientWindowCaps, Cap(i), Number(cb[m].cap), Number(ca[i].cap));
      assert d in InnerDiff(Caps(cb, ca), m, i);
    }
  }

  lemma ScalarMirror(book: AddressBook, a: Policy, b: Policy, c: Change) returns (d: Change)
    requires c in AmountsDiff(a, b) || c in ConditionsDiff(a, b)
    ensures if c in AmountsDiff(a, b) then d in AmountsDiff(b, a) else d in ConditionsDiff(b, a)
    ensures Mirrors(book, a, b, c, d)
  {
    d := Changed(c.field, Whole, c.after, c.before);
    assert d in ScalarDiff(c.field, c.after, c.before);
  }

  /** The mirror image of one change. */
  lemma {:induction false} MirrorOf(book: AddressBook, a: Policy, b: Policy, c: Change) returns (d: Change)
    requires c in Diff(book, a, b)
    ensures d in Diff(book, b, a) && Mirrors(book, a, b, c, d)
  {
    if c in AmountsDiff(a, b) || c in ConditionsDiff(a, b) {
      d := ScalarMirror(book, a, b, c);
    } else if c in AddressSetDiff(book, Assets, a.assets, b.assets) {
      d := AddressSetMirror(book, Assets, a.assets, b.assets, a, b, c);
    } else if c in ProtocolsDiff(book, a.protocols, b.protocols) {
      d := RulesMirror(book, a, b, c);
    } else if c in AddressSetDiff(book, Recipients, a.recipients, b.recipients) {
      d := AddressSetMirror(book, Recipients, a.recipients, b.recipients, a, b, c);
    } else if c in CapsDiff(book, OrEmpty(a.recipientWindowCaps), OrEmpty(b.recipientWindowCaps)) {
      d := CapsMirror(book, a, b, c);
    } else {
      d := AddressSetMirror(book, BlockedRecipients, OrEmpty(a.blockedRecipients), OrEmpty(b.blockedRecipients), a, b,
          c);
    }
  }

  // ---------------------------------------------------------------- one to one

  /** The entry a change lies inside is the first one of the newer list with its key. */
  ghost predicate InFirst(book: AddressBook, a: Policy, b: Policy, c: Change) {
    var kr, kc := Keys(ByAddress(book), ContractsOf(b.protocols)),
        Keys(ByAddress(book), RecipientsOf(OrEmpty(b.recipientWindowCaps)));
    && (c.path.Fns? || c.path.Fn? ==> c.path.i < |kr| && First(kr, c.path.i))
    && (c.path.Cap? ==> c.path.i < |kc| && First(kc, c.path.i))
  }

  lemma DiffInFirst(book: AddressBook, a: Policy, b: Policy, c: Change)
    requires c in Diff(book, a, b)
    ensures InFirst(book, a, b, c)
  {
    hide KeyedDiff, SetDiffOf, First, Keys, ContractsOf, RecipientsOf;
    var ca, cb := OrEmpty(a.recipientWindowCaps), OrEmpty(b.recipientWindowCaps);
    SetDiffFields(Assets, ToMember, a.assets, b.assets, ByAddress(book));
    SetDiffFields(Recipients, ToMember, a.recipients, b.recipients, ByAddress(book));
    SetDiffFields(BlockedRecipients, ToMember, OrEmpty(a.blockedRecipients), OrEmpty(b.blockedRecipients),
                  ByAddress(book));
    if c.path.Fns? || c.path.Fn? || c.path.Cap? {
      if c in ProtocolsDiff(book, a.protocols, b.protocols) {
        KeyedInFirst(book, Protocols, ContractsOf(a.protocols), ContractsOf(b.protocols),
                     Rules(a.protocols, b.protocols), c);
      } else {
        KeyedInFirst(book, RecipientWindowCaps, RecipientsOf(ca), RecipientsOf(cb), Caps(ca, cb), c);
      }
    }
  }

  /** A change has one mirror image only. */
  lemma UniqueMirror(book: AddressBook, a: Policy, b: Policy, c: Change, d: Change, e: Change)
    requires d in Diff(book, b, a) && e in Diff(book, b, a)
    requires Mirrors(book, a, b, c, d) && Mirrors(book, a, b, c, e)
    ensures d == e
  {
    hide Diff, AddressKey, First;
    DiffInFirst(book, b, a, d);
    DiffInFirst(book, b, a, e);
    var kr, kc := Keys(ByAddress(book), ContractsOf(a.protocols)),
        Keys(ByAddress(book), RecipientsOf(OrEmpty(a.recipientWindowCaps)));
    if c.path.Fns? || c.path.Fn? {
      FirstsAreEqual(kr, d.path.i, e.path.i);
    } else if c.path.Cap? {
      FirstsAreEqual(kc, d.path.i, e.path.i);
    }
  }

  lemma MirrorsBack(book: AddressBook, a: Policy, b: Policy, c: Change, d: Change)
    requires Mirrors(book, a, b, c, d)
    ensures Mirrors(book, b, a, d, c)
  {
  }

  /** Change d of the swapped difference is the image of change c. */
  ghost predicate ImageIn(book: AddressBook, a: Policy, b: Policy, c: Change, d: Change) {
    c in Diff(book, a, b) && d in Diff(book, b, a) && Mirrors(book, a, b, c, d)
  }

  /**
   Exchanging the policies exchanges additions and removals, and before and after, change by change: every change of
   one difference has exactly one mirror image in the other, and is the only one with that image.
   */
  lemma {:induction false} SwapMirrors(book: AddressBook, a: Policy, b: Policy)
    ensures forall c :: c in Diff(book, a, b) ==> exists d :: d in Diff(book, b, a) && Mirrors(book, a, b, c, d)
    ensures forall c, d, e :: ImageIn(book, a, b, c, d) && ImageIn(book, a, b, c, e) ==> d == e
    ensures forall c, c', d :: ImageIn(book, a, b, c, d) && ImageIn(book, a, b, c', d) ==> c == c'
  {
    hide Diff, Mirrors;
    forall c | c in Diff(book, a, b) ensures exists d :: d in Diff(book, b, a) && Mirrors(book, a, b, c, d) {
      var d := MirrorOf(book, a, b, c);
    }
    forall c, d, e | ImageIn(book, a, b, c, d) && ImageIn(book, a, b, c, e)
      ensures d == e
    {
      UniqueMirror(book, a, b, c, d, e);
    }
    forall c, c', d | ImageIn(book, a, b, c, d) && ImageIn(book, a, b, c', d)
      ensures c == c'
    {
      MirrorsBack(book, a, b, c, d);
      MirrorsBack(book, a, b, c', d);
      UniqueMirror(book, b, a, d, c, c');
    }
  }
}
