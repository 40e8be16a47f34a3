/** The policy difference is exact: empty only for equal policies, and each list's changes suffice to patch it. */
module PolicyDiffExact {
  import opened Wrappers
  import opened Policy
  import opened PolicyDiff

  // ---------------------------------------------------------------- membership

  lemma {:induction false} MissingMembers(keys: seq<string>, others: seq<string>, n: nat)
    requires n <= |keys|
    ensures forall i: nat :: i in Missing(keys, others, n) <==> i < n && First(keys, i) && keys[i] !in others
  {
    if n > 0 {
      MissingMembers(keys, others, n - 1);
    }
  }

  ghost predicate Covered(keys: seq<string>, others: seq<string>) {
    forall k :: k in keys ==> k in others
  }

  lemma MissingEmpty(keys: seq<string>, others: seq<string>)
    ensures Missing(keys, others, |keys|) == [] <==> Covered(keys, others)
  {
    MissingMembers(keys, others, |keys|);
    var m := Missing(keys, others, |keys|);
    if m != [] {
      assert m[0] in m;
      assert keys[m[0]] in keys;
    }
    forall k | k in keys && k !in others
      ensures m != []
    {
      assert IndexOf(keys, k) in m;
    }
  }

  ghost predicate MatchedChange(ka: seq<string>, kb: seq<string>, list: Listing, inner: Inner, i: nat, c: Change)
    requires |ka| == |list.values| && inner.Fits(|ka|, |kb|)
  {
    && i < |ka| && First(ka, i)
    && if ka[i] in kb then c in InnerDiff(inner, i, IndexOf(kb, ka[i])) else c == list.RemovedAt(i)
  }

  lemma {:induction false} MatchedMember(ka: seq<string>, kb: seq<string>, list: Listing, inner: Inner, n: nat,
          c: Change) returns (i: nat)
    requires n <= |ka| == |list.values| && inner.Fits(|ka|, |kb|)
    requires c in Matched(ka, kb, list, inner, n)
    ensures i < n && MatchedChange(ka, kb, list, inner, i, c)
  {
    hide InnerDiff, First, IndexOf;
    if c in Matched(ka, kb, list, inner, n - 1) {
      i := MatchedMember(ka, kb, list, inner, n - 1, c);
    } else {
      i := n - 1;
    }
  }

  lemma {:induction false} MatchedHas(ka: seq<string>, kb: seq<string>, list: Listing, inner: Inner, n: nat, i: nat,
          c: Change)
    requires i < n <= |ka| == |list.values| && inner.Fits(|ka|, |kb|)
    requires MatchedChange(ka, kb, list, inner, i, c)
    ensures c in Matched(ka, kb, list, inner, n)
  {
    hide InnerDiff, First, IndexOf;
    if i < n - 1 {
      MatchedHas(ka, kb, list, inner, n - 1, i, c);
    }
  }

  lemma AddedMember(list: Listing, keys: seq<string>, others: seq<string>, c: Change)
    requires |keys| == |list.values|
    ensures c in AllAdded(list, Missing(keys, others, |keys|)) <==>
            exists i: nat :: i < |keys| && First(keys, i) && keys[i] !in others && c == list.AddedAt(i)
  {
    MissingMembers(keys, others, |keys|);
    var at := Missing(keys, others, |keys|);
    var all := AllAdded(list, at);
    if c in all {
      var k :| 0 <= k < |all| && all[k] == c;
      assert at[k] in at;
    }
    forall i: nat | i < |keys| && First(keys, i) && keys[i] !in others && c == list.AddedAt(i)
      ensures c in all
    {
      var k :| 0 <= k < |at| && at[k] == i;
      assert all[k] == c;
    }
  }

  lemma RemovedMember(list: Listing, keys: seq<string>, others: seq<string>, c: Change)
    requires |keys| == |list.values|
    ensures c in AllRemoved(list, Missing(keys, others, |keys|)) <==>
            exists i: nat :: i < |keys| && First(keys, i) && keys[i] !in others && c == list.RemovedAt(i)
  {
    MissingMembers(keys, others, |keys|);
    var at := Missing(keys, others, |keys|);
    var all := AllRemoved(list, at);
    if c in all {
      var k :| 0 <= k < |all| && all[k] == c;
      assert at[k] in at;
    }
    forall i: nat | i < |keys| && First(keys, i) && keys[i] !in others && c == list.RemovedAt(i)
      ensures c in all
    {
      var k :| 0 <= k < |at| && at[k] == i;
      assert all[k] == c;
    }
  }

  // ---------------------------------------------------------------- empty exactly when equal

  /** Two lists denote the same set of keys; order and repetition do not matter. */
  ghost predicate SameSet(ka: seq<string>, kb: seq<string>) {
    Covered(ka, kb) && Covered(kb, ka)
  }

  ghost predicate SameFns(x: Option<seq<string>>, y: Option<seq<string>>) {
    if x.None? || y.None? then x == y else forall f :: f in x.value <==> f in y.value
  }

  ghost predicate SameRules(book: AddressBook, a: seq<ProtocolRule>, b: seq<ProtocolRule>) {
    var ka, kb := Keys(ByAddress(book), ContractsOf(a)), Keys(ByAddress(book), ContractsOf(b));
    SameSet(ka, kb)
    && forall k :: k in ka && k in kb ==> SameFns(a[IndexOf(ka, k)].fns, b[IndexOf(kb, k)].fns)
  }

  ghost predicate SameCaps(book: AddressBook, a: seq<RecipientCap>, b: seq<RecipientCap>) {
    var ka, kb := Keys(ByAddress(book), RecipientsOf(a)), Keys(ByAddress(book), RecipientsOf(b));
    SameSet(ka, kb)
    && forall k :: k in ka && k in kb ==> a[IndexOf(ka, k)].cap == b[IndexOf(kb, k)].cap
  }

  ghost predicate SameAddresses(book: AddressBook, a: seq<string>, b: seq<string>) {
    SameSet(Keys(ByAddress(book), a), Keys(ByAddress(book), b))
  }

  /** Equality as the contract sees it: scalars, address sets, and maps in which the first entry of a key wins. */
  ghost predicate Same(book: AddressBook, a: Policy, b: Policy) {
    && a.perTxCap == b.perTxCap && a.windowSecs == b.windowSecs && a.windowCap == b.windowCap
    && a.allowAnyRecipient == b.allowAnyRecipient && a.activeFrom == b.activeFrom && a.activeUntil == b.activeUntil
    && a.paused == b.paused && a.dmsGraceSecs == b.dmsGraceSecs
    && SameAddresses(book, a.assets, b.assets)
    && SameRules(book, a.protocols, b.protocols)
    && SameAddresses(book, a.recipients, b.recipients)
    && SameCaps(book, OrEmpty(a.recipientWindowCaps), OrEmpty(b.recipientWindowCaps))
    && SameAddresses(book, OrEmpty(a.blockedRecipients), OrEmpty(b.blockedRecipients))
  }

  lemma SetDiffEmpty(field: Field, path: PathTo, before: seq<string>, after: seq<string>, cmp: Comparison)
    ensures SetDiffOf(field, path, before, after, cmp) == [] <==> SameSet(Keys(cmp, before), Keys(cmp, after))
  {
    MissingEmpty(Keys(cmp, before), Keys(cmp, after));
    MissingEmpty(Keys(cmp, after), Keys(cmp, before));
  }

  lemma TextKeys(values: seq<string>)
    ensures Keys(ByText, values) == values
  {
  }

  lemma FnsDiffEmpty(x: Option<seq<string>>, y: Option<seq<string>>, m: nat)
    ensures FnsDiff(x, y, m) == [] <==> SameFns(x, y)
  {
    if x.Some? && y.Some? {
      SetDiffEmpty(Protocols, ToFn(m), x.value, y.value, ByText);
      TextKeys(x.value);
      TextKeys(y.value);
    }
  }

  /** The inner comparison of every matched pair of first entries comes out empty. */
  ghost predicate InnersEmpty(ka: seq<string>, kb: seq<string>, inner: Inner)
    requires inner.Fits(|ka|, |kb|)
  {
    forall k :: k in ka && k in kb ==> InnerDiff(inner, IndexOf(ka, k), IndexOf(kb, k)) == []
  }

  lemma KeyedDiffEmpty(book: AddressBook, field: Field, before: seq<string>, after: seq<string>, inner: Inner)
    requires inner.Fits(|before|, |after|)
    ensures var ka, kb := Keys(ByAddress(book), before), Keys(ByAddress(book), after);
            KeyedDiff(book, field, before, after, inner) == [] <==> SameSet(ka, kb) && InnersEmpty(ka, kb, inner)
  {
    var ka, kb := Keys(ByAddress(book), before), Keys(ByAddress(book), after);
    var list := Listing(field, ToMember, before);
    var changes := Matched(ka, kb, list, inner, |ka|);
    MissingEmpty(kb, ka);
    if changes == [] {
      forall k | k in ka
        ensures k in kb && InnerDiff(inner, IndexOf(ka, k), IndexOf(kb, k)) == []
      {
        var i := IndexOf(ka, k);
        if k !in kb {
          MatchedHas(ka, kb, list, inner, |ka|, i, list.RemovedAt(i));
        } else {
          var d := InnerDiff(inner, i, IndexOf(kb, k));
          if d != [] {
            MatchedHas(ka, kb, list, inner, |ka|, i, d[0]);
          }
        }
      }
    } else {
      var i := MatchedMember(ka, kb, list, inner, |ka|, changes[0]);
      FirstIsIndexOf(ka, i);
      assert ka[i] in ka;
    }
  }

  lemma RulesEmpty(book: AddressBook, a: seq<ProtocolRule>, b: seq<ProtocolRule>)
    ensures ProtocolsDiff(book, a, b) == [] <==> SameRules(book, a, b)
  {
    var ka, kb := Keys(ByAddress(book), ContractsOf(a)), Keys(ByAddress(book), ContractsOf(b));
    KeyedDiffEmpty(book, Protocols, ContractsOf(a), ContractsOf(b), Rules(a, b));
    forall k | k in ka && k in kb
      ensures InnerDiff(Rules(a, b), IndexOf(ka, k), IndexOf(kb, k)) == []
              <==> SameFns(a[IndexOf(ka, k)].fns, b[IndexOf(kb, k)].fns)
    {
      FnsDiffEmpty(a[IndexOf(ka, k)].fns, b[IndexOf(kb, k)].fns, IndexOf(kb, k));
    }
  }

  lemma CapsEmpty(book: AddressBook, a: seq<RecipientCap>, b: seq<RecipientCap>)
    ensures CapsDiff(book, a, b) == [] <==> SameCaps(book, a, b)
  {
    KeyedDiffEmpty(book, RecipientWindowCaps, RecipientsOf(a), RecipientsOf(b), Caps(a, b));
  }

  /** The difference is empty exactly when the policies are equal, malformed drafts with repeated entries included. */
  lemma {:induction false} EmptyExactlyWhenSame(book: AddressBook, a: Policy, b: Policy)
    ensures Diff(book, a, b) == [] <==> Same(book, a, b)
  {
    SetDiffEmpty(Assets, ToMember, a.assets, b.assets, ByAddress(book));
    SetDiffEmpty(Recipients, ToMember, a.recipients, b.recipients, ByAddress(book));
    SetDiffEmpty(BlockedRecipients, ToMember, OrEmpty(a.blockedRecipients), OrEmpty(b.blockedRecipients),
        ByAddress(book));
    RulesEmpty(book, a.protocols, b.protocols);
    CapsEmpty(book, OrEmpty(a.recipientWindowCaps), OrEmpty(b.recipientWindowCaps));
  }

  /** Two addresses have one key exactly when they are canonically equal, or equally invalid. */
  lemma AddressKeyMeaning(book: AddressBook, u: string, v: string)
    ensures AddressKey(book, u) == AddressKey(book, v) <==>
            (book(u).Some? && book(u) == book(v)) || (book(u).None? && book(v).None? && u == v)
  {
    var ku, kv := AddressKey(book, u), AddressKey(book, v);
    assert ku[0] == if book(u).Some? then 'v' else 'i';
    assert kv[0] == if book(v).Some? then 'v' else 'i';
    assert ku == kv && book(u).Some? ==> ku[6..] == book(u).value && kv[6..] == book(v).value;
    assert ku == kv && book(u).None? ==> ku[8..] == u && kv[8..] == v;
  }

  // ---------------------------------------------------------------- applying a difference

  function KeySet(cmp: Comparison, values: seq<string>): set<string> {
    set k | k in Keys(cmp, values)
  }

  function Members(changes: seq<Change>): set<Change> {
    set c | c in changes
  }

  /** The keys of the members a difference removes, and of those it adds. */
  ghost function RemovedKeys(cmp: Comparison, changes: set<Change>): set<string> {
    set c | c in changes && c.Removed? && c.before.Text? :: cmp.KeyFor(c.before.s)
  }

  ghost function AddedKeys(cmp: Comparison, changes: set<Change>): set<string> {
    set c | c in changes && c.Added? && c.after.Text? :: cmp.KeyFor(c.after.s)
  }

  /** A set difference removes exactly the keys only the older list has. */
  lemma RemovedExactly(field: Field, path: PathTo, before: seq<string>, after: seq<string>, cmp: Comparison)
    ensures RemovedKeys(cmp, Members(SetDiffOf(field, path, before, after, cmp)))
         == KeySet(cmp, before) - KeySet(cmp, after)
  {
    hide AllRemoved, AllAdded, Missing, First;
    var ka, kb := Keys(cmp, before), Keys(cmp, after);
    var left, right := Listing(field, path, before), Listing(field, path, after);
    var changes := SetDiffOf(field, path, before, after, cmp);
    forall k
      ensures k in RemovedKeys(cmp, Members(changes)) <==> k in ka && k !in kb
    {
      if k in ka && k !in kb {
        var c := left.RemovedAt(IndexOf(ka, k));
        RemovedMember(left, ka, kb, c);
        assert c in changes;
      }
      if k in RemovedKeys(cmp, Members(changes)) {
        var c :| c in changes && c.Removed? && c.before.Text? && cmp.KeyFor(c.before.s) == k;
        RemovedMember(left, ka, kb, c);
        AddedMember(right, kb, ka, c);
      }
    }
  }

  /** And it adds exactly those only the newer list has. */
  lemma AddedExactly(field: Field, path: PathTo, before: seq<string>, after: seq<string>, cmp: Comparison)
    ensures AddedKeys(cmp, Members(SetDiffOf(field, path, before, after, cmp)))
         == KeySet(cmp, after) - KeySet(cmp, before)
  {
    hide AllRemoved, AllAdded, Missing, First;
    var ka, kb := Keys(cmp, before), Keys(cmp, after);
    var left, right := Listing(field, path, before), Listing(field, path, after);
    var changes := SetDiffOf(field, path, before, after, cmp);
    forall k
      ensures k in AddedKeys(cmp, Members(changes)) <==> k in kb && k !in ka
    {
      if k in kb && k !in ka {
        var c := right.AddedAt(IndexOf(kb, k));
        AddedMember(right, kb, ka, c);
        assert c in changes;
      }
      if k in AddedKeys(cmp, Members(changes)) {
        var c :| c in changes && c.Added? && c.after.Text? && cmp.KeyFor(c.after.s) == k;
        RemovedMember(left, ka, kb, c);
        AddedMember(right, kb, ka, c);
      }
    }
  }

  /** Applying the removals and the additions of a set difference to the older set gives the newer one. */
  lemma ApplySetDiff(field: Field, path: PathTo, before: seq<string>, after: seq<string>, cmp: Comparison)
    ensures var changes := Members(SetDiffOf(field, path, before, after, cmp));
            && RemovedKeys(cmp, changes) == KeySet(cmp, before) - KeySet(cmp, after)
            && AddedKeys(cmp, changes) == KeySet(cmp, after) - KeySet(cmp, before)
            && KeySet(cmp, before) - RemovedKeys(cmp, changes) + AddedKeys(cmp, changes) == KeySet(cmp, after)
  {
    hide KeySet, SetDiffOf, RemovedKeys, AddedKeys;
    RemovedExactly(field, path, before, after, cmp);
    AddedExactly(field, path, before, after, cmp);
  }
}
