/** The order of a policy difference: field after field, in every list removals before additions, each in list order. */
module PolicyDiffOrder {
  import opened Policy
  import opened PolicyDiff

  function Rank(f: Field): nat {
    match f
    case PerTxCap => 0
    case WindowSecs => 1
    case WindowCap => 2
    case Assets => 3
    case Protocols => 4
    case Recipients => 5
    case AllowAnyRecipient => 6
    case ActiveFrom => 7
    case ActiveUntil => 8
    case Paused => 9
    case DmsGraceSecs => 10
    case RecipientWindowCaps => 11
    case BlockedRecipients => 12
  }

  /** An earlier change of the same field: no removal after an addition, no earlier index after a later one. */
  ghost predicate ListOrder(c: Change, d: Change) {
    c.path.Member? && d.path.Member? ==>
      && (c.Added? ==> d.Added?)
      && ((c.Added? && d.Added?) || (c.Removed? && d.Removed?) ==> c.path.i < d.path.i)
  }

  /** A change of a member comes only after everything else about the list when it is an addition. */
  ghost predicate AdditionsLast(c: Change, d: Change) {
    c.path.Member? && c.Added? ==> d.path.Member? && d.Added?
  }

  ghost predicate Precedes(c: Change, d: Change) {
    Rank(c.field) < Rank(d.field) || (c.field == d.field && ListOrder(c, d) && AdditionsLast(c, d))
  }

  ghost predicate InOrder(s: seq<Change>) {
    forall i, j :: 0 <= i < j < |s| ==> Precedes(s[i], s[j])
  }

  /** In order, and about these fields only. */
  ghost predicate Covers(s: seq<Change>, lo: nat, hi: nat) {
    InOrder(s) && forall i :: 0 <= i < |s| ==> lo <= Rank(s[i].field) < hi
  }

  lemma CoversAppend(a: seq<Change>, b: seq<Change>, lo: nat, mid: nat, hi: nat)
    requires Covers(a, lo, mid) && Covers(b, mid, hi) && lo <= mid <= hi
    ensures Covers(a + b, lo, hi)
  {
    hide Rank, ListOrder, AdditionsLast;
  }

  lemma ScalarCovers(field: Field, before: Value, after: Value)
    ensures Covers(ScalarDiff(field, before, after), Rank(field), Rank(field) + 1)
  {
  }

  ghost predicate Ascending(at: seq<nat>) {
    forall i, j :: 0 <= i < j < |at| ==> at[i] < at[j]
  }

  lemma {:induction false} MissingAscends(keys: seq<string>, others: seq<string>, n: nat)
    requires n <= |keys|
    ensures Ascending(Missing(keys, others, n))
  {
    if n > 0 {
      MissingAscends(keys, others, n - 1);
      assert Missing(keys, others, n - 1) + [] == Missing(keys, others, n - 1);
    }
  }

  /** Additions to a list are in order and come after whatever is in order and adds no member. */
  lemma AddedInOrder(front: seq<Change>, list: Listing, keys: seq<string>, others: seq<string>)
    requires |keys| == |list.values| && list.path == ToMember && InOrder(front)
    requires forall c :: c in front ==> c.field == list.field && !(c.path.Member? && c.Added?)
    ensures InOrder(front + AllAdded(list, Missing(keys, others, |keys|)))
  {
    hide Missing;
    MissingAscends(keys, others, |keys|);
    var added := AllAdded(list, Missing(keys, others, |keys|));
    assert forall i :: 0 <= i < |front| ==> front[i] in front;
    assert forall i :: 0 <= i < |added| ==> added[i].Added? && added[i].path.Member? && added[i].field == list.field;
    forall i, j | 0 <= i < j < |added|
      ensures Precedes(added[i], added[j])
    {
      var at := Missing(keys, others, |keys|);
      assert added[i] == list.AddedAt(at[i]) && added[j] == list.AddedAt(at[j]) && at[i] < at[j];
    }
  }

  lemma RemovedInOrder(list: Listing, keys: seq<string>, others: seq<string>)
    requires |keys| == |list.values| && list.path == ToMember
    ensures var removed := AllRemoved(list, Missing(keys, others, |keys|));
            InOrder(removed) && forall c :: c in removed ==> c.field == list.field && c.Removed?
  {
    hide Missing;
    MissingAscends(keys, others, |keys|);
  }

  lemma AddressesCover(book: AddressBook, field: Field, before: seq<string>, after: seq<string>)
    ensures Covers(AddressSetDiff(book, field, before, after), Rank(field), Rank(field) + 1)
  {
    hide InOrder, Missing, Rank;
    var cmp := ByAddress(book);
    var ka, kb := Keys(cmp, before), Keys(cmp, after);
    var left, right := Listing(field, ToMember, before), Listing(field, ToMember, after);
    RemovedInOrder(left, ka, kb);
    AddedInOrder(AllRemoved(left, Missing(ka, kb, |ka|)), right, kb, ka);
  }

  /** The changes inside matched entries are of the field, and add no member. */
  ghost predicate Inside(s: seq<Change>, field: Field) {
    forall c :: c in s ==> c.field == field && !c.path.Member?
  }

  ghost predicate OfField(inner: Inner, field: Field) {
    (inner.Rules? && field == Protocols) || (inner.Caps? && field == RecipientWindowCaps)
  }

  lemma InnerInside(inner: Inner, i: nat, m: nat, field: Field)
    requires inner.Covers(i, m) && OfField(inner, field)
    ensures Inside(InnerDiff(inner, i, m), field)
  {
    if inner.Rules? && inner.a[i].fns.Some? && inner.b[m].fns.Some? {
      var x, y := inner.a[i].fns.value, inner.b[m].fns.value;
      var kx, ky := Keys(ByText, x), Keys(ByText, y);
      var one, two := AllRemoved(Listing(Protocols, ToFn(m), x), Missing(kx, ky, |kx|)),
          AllAdded(Listing(Protocols, ToFn(m), y), Missing(ky, kx, |ky|));
      assert SetDiffOf(Protocols, ToFn(m), x, y, ByText) == one + two;
      assert Inside(one, Protocols) && Inside(two, Protocols);
    }
  }

  lemma {:induction false} MatchedInOrder(ka: seq<string>, kb: seq<string>, list: Listing, inner: Inner, n: nat)
    requires n <= |ka| == |list.values| && inner.Fits(|ka|, |kb|) && list.path == ToMember && OfField(inner, list.field)
    ensures InOrder(Matched(ka, kb, list, inner, n))
    ensures forall c :: c in Matched(ka, kb, list, inner, n) ==>
              c.field == list.field && (c.path.Member? ==> c.Removed? && c.path.i < n)
  {
    if n > 0 {
      var i := n - 1;
      MatchedInOrder(ka, kb, list, inner, i);
      var front := Matched(ka, kb, list, inner, i);
      var last := if !First(ka, i) then []
                  else if ka[i] in kb then InnerDiff(inner, i, IndexOf(kb, ka[i]))
                  else [list.RemovedAt(i)];
      if First(ka, i) && ka[i] in kb {
        InnerInside(inner, i, IndexOf(kb, ka[i]), list.field);
      }
      assert Matched(ka, kb, list, inner, n) == front + last;
      hide Matched, InnerDiff, IndexOf, First, Rank;
      assert forall x, y :: x in front && y in last ==> Precedes(x, y);
      assert InOrder(last);
      Joined(front, last);
    }
  }

  lemma Joined(a: seq<Change>, b: seq<Change>)
    requires InOrder(a) && InOrder(b) && forall x, y :: x in a && y in b ==> Precedes(x, y)
    ensures InOrder(a + b)
  {
    hide Precedes;
  }

  lemma KeyedCovers(book: AddressBook, field: Field, before: seq<string>, after: seq<string>, inner: Inner)
    requires inner.Fits(|before|, |after|) && OfField(inner, field)
    ensures Covers(KeyedDiff(book, field, before, after, inner), Rank(field), Rank(field) + 1)
  {
    hide InOrder, Missing, Rank, Matched;
    var cmp := ByAddress(book);
    var ka, kb := Keys(cmp, before), Keys(cmp, after);
    var list := Listing(field, ToMember, before);
    MatchedInOrder(ka, kb, list, inner, |ka|);
    AddedInOrder(Matched(ka, kb, list, inner, |ka|), Listing(field, ToMember, after), kb, ka);
  }

  lemma AmountsCover(a: Policy, b: Policy)
    ensures Covers(AmountsDiff(a, b), 0, 3)
  {
    hide ScalarDiff, Covers;
    ScalarCovers(PerTxCap, Number(a.perTxCap), Number(b.perTxCap));
    ScalarCovers(WindowSecs, Number(a.windowSecs), Number(b.windowSecs));
    ScalarCovers(WindowCap, Number(a.windowCap), Number(b.windowCap));
    var one, two := ScalarDiff(PerTxCap, Number(a.perTxCap), Number(b.perTxCap)),
        ScalarDiff(WindowSecs, Number(a.windowSecs), Number(b.windowSecs));
    CoversAppend(one, two, 0, 1, 2);
    CoversAppend(one + two, ScalarDiff(WindowCap, Number(a.windowCap), Number(b.windowCap)), 0, 2, 3);
  }

  lemma ConditionsCover(a: Policy, b: Policy)
    ensures Covers(ConditionsDiff(a, b), 6, 11)
  {
    hide ScalarDiff, Covers;
    var one, two := ScalarDiff(AllowAnyRecipient, Flag(a.allowAnyRecipient), Flag(b.allowAnyRecipient)),
        ScalarDiff(ActiveFrom, Number(a.activeFrom), Number(b.activeFrom));
    var three, four := ScalarDiff(ActiveUntil, Number(a.activeUntil), Number(b.activeUntil)),
        ScalarDiff(Paused, Flag(a.paused), Flag(b.paused));
    var five := ScalarDiff(DmsGraceSecs, Number(a.dmsGraceSecs), Number(b.dmsGraceSecs));
    ScalarCovers(AllowAnyRecipient, Flag(a.allowAnyRecipient), Flag(b.allowAnyRecipient));
    ScalarCovers(ActiveFrom, Number(a.activeFrom), Number(b.activeFrom));
    ScalarCovers(ActiveUntil, Number(a.activeUntil), Number(b.activeUntil));
    ScalarCovers(Paused, Flag(a.paused), Flag(b.paused));
    ScalarCovers(DmsGraceSecs, Number(a.dmsGraceSecs), Number(b.dmsGraceSecs));
    CoversAppend(one, two, 6, 7, 8);
    CoversAppend(one + two, three, 6, 8, 9);
    CoversAppend(one + two + three, four, 6, 9, 10);
    CoversAppend(one + two + three + four, five, 6, 10, 11);
  }

  lemma SectionsCover(one: seq<Change>, two: seq<Change>, three: seq<Change>, four: seq<Change>, five: seq<Change>,
                      six: seq<Change>, seven: seq<Change>)
    requires Covers(one, 0, 3) && Covers(two, 3, 4) && Covers(three, 4, 5) && Covers(four, 5, 6)
    requires Covers(five, 6, 11) && Covers(six, 11, 12) && Covers(seven, 12, 13)
    ensures Covers(one + two + three + four + five + six + seven, 0, 13)
  {
    hide Covers;
    CoversAppend(one, two, 0, 3, 4);
    CoversAppend(one + two, three, 0, 4, 5);
    CoversAppend(one + two + three, four, 0, 5, 6);
    CoversAppend(one + two + three + four, five, 0, 6, 11);
    CoversAppend(one + two + three + four + five, six, 0, 11, 12);
    CoversAppend(one + two + three + four + five + six, seven, 0, 12, 13);
  }

  lemma CoversInOrder(s: seq<Change>)
    requires Covers(s, 0, 13)
    ensures InOrder(s)
  {
  }

  /**
   The changes come in the order of the fields; in every list of addresses, rules or caps the removals come in the
   order of the older list, before the additions, which come last and in the order of the newer one.
   */
  lemma {:induction false} DiffInOrder(book: AddressBook, a: Policy, b: Policy)
    ensures InOrder(Diff(book, a, b))
  {
    hide AmountsDiff, AddressSetDiff, ConditionsDiff, KeyedDiff, Covers, ContractsOf, RecipientsOf, InOrder;
    var ca, cb := OrEmpty(a.recipientWindowCaps), OrEmpty(b.recipientWindowCaps);
    var blockedA, blockedB := OrEmpty(a.blockedRecipients), OrEmpty(b.blockedRecipients);
    AmountsCover(a, b);
    AddressesCover(book, Assets, a.assets, b.assets);
    KeyedCovers(book, Protocols, ContractsOf(a.protocols), ContractsOf(b.protocols), Rules(a.protocols, b.protocols));
    AddressesCover(book, Recipients, a.recipients, b.recipients);
    ConditionsCover(a, b);
    KeyedCovers(book, RecipientWindowCaps, RecipientsOf(ca), RecipientsOf(cb), Caps(ca, cb));
    AddressesCover(book, BlockedRecipients, blockedA, blockedB);
    SectionsCover(AmountsDiff(a, b), AddressSetDiff(book, Assets, a.assets, b.assets),
                  ProtocolsDiff(book, a.protocols, b.protocols),
                  AddressSetDiff(book, Recipients, a.recipients, b.recipients), ConditionsDiff(a, b),
                  CapsDiff(book, ca, cb), AddressSetDiff(book, BlockedRecipients, blockedA, blockedB));
    CoversInOrder(Diff(book, a, b));
  }
}
