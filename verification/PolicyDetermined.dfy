/**
 Which newer policies share a difference: what two policies with the same difference from a third one have in common,
 and exactly when they are equal.
 */
module PolicyDetermined {
  import opened Wrappers
  import opened Policy
  import opened PolicyDiff
  import opened PolicyDiffExact
  import opened PolicyPatch

  // ---------------------------------------------------------------- one difference, two policies

  function EmptyPolicy(): Policy {
    Policy(0, 0, 0, [], [], [], false, 0, 0, false, 0, None, None, None)
  }

  function WithRules(rules: seq<ProtocolRule>): Policy {
    EmptyPolicy().(protocols := rules)
  }

  function WithCaps(caps: seq<RecipientCap>): Policy {
    EmptyPolicy().(recipientWindowCaps := Some(caps))
  }

  /** An added rule is reported by its contract alone: what it allows is not in the difference. */
  lemma {:induction false} AddedContentsAreLeftOut(book: AddressBook)
    ensures exists a: Policy, b: Policy, c: Policy ::
              Diff(book, a, b) == Diff(book, a, c) && !Same(book, b, c)
  {
    var open, closed := ProtocolRule("C", None, None), ProtocolRule("C", Some(["f"]), None);
    var a, b, c := WithRules([]), WithRules([open]), WithRules([closed]);
    var kb, kc := Keys(ByAddress(book), ContractsOf(b.protocols)), Keys(ByAddress(book), ContractsOf(c.protocols));
    assert ContractsOf([open]) == ["C"] == ContractsOf([closed]);
    assert kb == kc == [AddressKey(book, "C")];
    assert ProtocolsDiff(book, [], [open]) == ProtocolsDiff(book, [], [closed]);
    assert Diff(book, a, b) == Diff(book, a, c);
    var k := AddressKey(book, "C");
    assert k in kb && IndexOf(kb, k) == 0 && IndexOf(kc, k) == 0;
    assert !SameFns(open.fns, closed.fns);
  }

  /** Two caps matched with two caps: only the amounts can differ. */
  lemma TwoCapsDiff(book: AddressBook, a: seq<RecipientCap>, b: seq<RecipientCap>, i: nat, j: nat)
    requires |a| == |b| == 2 && i < 2 && j < 2 && i != j
    requires AddressKey(book, a[0].recipient) == AddressKey(book, b[i].recipient)
    requires AddressKey(book, a[1].recipient) == AddressKey(book, b[j].recipient)
    requires AddressKey(book, a[0].recipient) != AddressKey(book, a[1].recipient)
    ensures CapsDiff(book, a, b) == CapDiff(a[0].cap, b[i].cap, i) + CapDiff(a[1].cap, b[j].cap, j)
  {
    hide AddressKey, CapDiff, IndexOf;
    var ka, kb := Keys(ByAddress(book), RecipientsOf(a)), Keys(ByAddress(book), RecipientsOf(b));
    var list := Listing(RecipientWindowCaps, ToMember, RecipientsOf(a));
    assert kb[i] == ka[0] && kb[j] == ka[1];
    assert First(ka, 0) && First(ka, 1) && First(kb, 0) && First(kb, 1);
    FirstIsIndexOf(kb, i);
    FirstIsIndexOf(kb, j);
    assert ka[0] in kb && ka[1] in kb;
    assert Matched(ka, kb, list, Caps(a, b), 0) == [];
    assert Matched(ka, kb, list, Caps(a, b), 1) == CapDiff(a[0].cap, b[i].cap, i);
    MissingEmpty(kb, ka);
    assert Covered(kb, ka) by {
      assert kb[i] in ka && kb[j] in ka;
    }
  }

  lemma CapsOnly(book: AddressBook, a: seq<RecipientCap>, b: seq<RecipientCap>)
    ensures Diff(book, WithCaps(a), WithCaps(b)) == CapsDiff(book, a, b)
  {
    hide CapsDiff;
  }

  /** A path inside an entry names an index of the newer list: the difference does not say whose cap was raised. */
  lemma {:induction false} ChangedEntryIsNotNamed(book: AddressBook, x: string, y: string)
    requires AddressKey(book, x) != AddressKey(book, y)
    ensures exists a: Policy, b: Policy, c: Policy ::
              Diff(book, a, b) == Diff(book, a, c) && !Same(book, b, c)
  {
    hide AddressKey, CapsDiff;
    var ca := [RecipientCap(x, 1), RecipientCap(y, 1)];
    var cb, cc := [RecipientCap(x, 2), RecipientCap(y, 1)], [RecipientCap(y, 2), RecipientCap(x, 1)];
    CapsOnly(book, ca, cb);
    CapsOnly(book, ca, cc);
    TwoCapsDiff(book, ca, cb, 0, 1);
    TwoCapsDiff(book, ca, cc, 1, 0);
    TwoCapsDiff(book, cb, cc, 1, 0);
    EmptyExactlyWhenSame(book, WithCaps(cb), WithCaps(cc));
    CapsOnly(book, cb, cc);
    assert Diff(book, WithCaps(ca), WithCaps(cb)) == Diff(book, WithCaps(ca), WithCaps(cc));
  }

  // ---------------------------------------------------------------- what a difference determines

  /** The same difference from one policy: the same scalars and address sets, and rules and caps for the same keys. */
  lemma {:induction false} DiffDetermines(book: AddressBook, a: Policy, b: Policy, c: Policy)
    requires Diff(book, a, b) == Diff(book, a, c)
    ensures var mb, mc := MeaningOf(book, b), MeaningOf(book, c);
            && mb.scalars == mc.scalars && mb.sets == mc.sets
            && mb.rules.Keys == mc.rules.Keys && mb.caps.Keys == mc.caps.Keys
  {
    hide Diff, PatchScalar, PatchSet, ScalarOf, AddressesOf, KeySet, RuleMap, CapMap, Section, ProtocolsDiff, CapsDiff;
    hide RemovedKeys, AddedKeys, OfEntries, Members;
    forall f | f in SCALARS
      ensures ScalarOf(b, f) == ScalarOf(c, f)
    {
      ScalarsPatched(book, a, b, f);
      ScalarsPatched(book, a, c, f);
    }
    forall f | f in ADDRESS_SETS
      ensures KeySet(ByAddress(book), AddressesOf(b, f)) == KeySet(ByAddress(book), AddressesOf(c, f))
    {
      AddressesPatched(book, a, b, f);
      AddressesPatched(book, a, c, f);
    }
    SameSections(book, a, b, c);
    RuleChanges(book, a.protocols, b.protocols);
    RuleChanges(book, a.protocols, c.protocols);
    var ca, cb, cc := OrEmpty(a.recipientWindowCaps), OrEmpty(b.recipientWindowCaps), OrEmpty(c.recipientWindowCaps);
    CapChanges(book, ca, cb);
    CapChanges(book, ca, cc);
    SameAfter(RuleMap(book, a.protocols).Keys, RuleMap(book, b.protocols).Keys, RuleMap(book, c.protocols).Keys);
    SameAfter(CapMap(book, ca).Keys, CapMap(book, cb).Keys, CapMap(book, cc).Keys);
  }

  lemma SameAfter(x: set<string>, y: set<string>, z: set<string>)
    requires x - y == x - z && y - x == z - x
    ensures y == z
  {
    forall k
      ensures k in y <==> k in z
    {
      assert k in x - y <==> k in x - z;
      assert k in y - x <==> k in z - x;
    }
  }

  // ---------------------------------------------------------------- the changes of one field, in order

  function Only(changes: seq<Change>, f: Field): seq<Change> {
    if changes == [] then []
    else
      var last := changes[|changes| - 1];
      Only(changes[..|changes| - 1], f) + if last.field == f then [last] else []
  }

  lemma {:induction false} OnlyAppend(x: seq<Change>, y: seq<Change>, f: Field)
    ensures Only(x + y, f) == Only(x, f) + Only(y, f)
  {
    if y == [] {
      assert x + y == x;
    } else {
      assert (x + y)[..|x + y| - 1] == x + y[..|y| - 1];
      OnlyAppend(x, y[..|y| - 1], f);
    }
  }

  ghost predicate AllOf(changes: seq<Change>, f: Field) {
    forall c :: c in changes ==> c.field == f
  }

  ghost predicate NoneOf(changes: seq<Change>, f: Field) {
    forall c :: c in changes ==> c.field != f
  }

  lemma {:induction false} OnlyOwn(changes: seq<Change>, f: Field)
    ensures AllOf(changes, f) ==> Only(changes, f) == changes
    ensures NoneOf(changes, f) ==> Only(changes, f) == []
  {
    if changes != [] {
      OnlyOwn(changes[..|changes| - 1], f);
    }
  }

  lemma OnlyOfDiff(book: AddressBook, a: Policy, b: Policy)
    ensures Only(Diff(book, a, b), Protocols) == ProtocolsDiff(book, a.protocols, b.protocols)
    ensures Only(Diff(book, a, b), RecipientWindowCaps)
         == CapsDiff(book, OrEmpty(a.recipientWindowCaps), OrEmpty(b.recipientWindowCaps))
  {
    hide Only, AmountsDiff, AddressSetDiff, ProtocolsDiff, ConditionsDiff, CapsDiff, AllOf, NoneOf;
    OnlySection(book, a, b, Protocols);
    OnlySection(book, a, b, RecipientWindowCaps);
    var ca, cb := OrEmpty(a.recipientWindowCaps), OrEmpty(b.recipientWindowCaps);
    var s1, s2 := AmountsDiff(a, b), AddressSetDiff(book, Assets, a.assets, b.assets);
    var s3, s4 := ProtocolsDiff(book, a.protocols, b.protocols),
        AddressSetDiff(book, Recipients, a.recipients, b.recipients);
    var s5, s6 := ConditionsDiff(a, b), CapsDiff(book, ca, cb);
    var s7 := AddressSetDiff(book, BlockedRecipients, OrEmpty(a.blockedRecipients), OrEmpty(b.blockedRecipients));
    OnlySeven(s1, s2, s3, s4, s5, s6, s7, Protocols);
    OnlySeven(s1, s2, s3, s4, s5, s6, s7, RecipientWindowCaps);
  }

  lemma OnlySeven(s1: seq<Change>, s2: seq<Change>, s3: seq<Change>, s4: seq<Change>, s5: seq<Change>,
      s6: seq<Change>, s7: seq<Change>, f: Field)
    ensures Only(s1 + s2 + s3 + s4 + s5 + s6 + s7, f)
         == Only(s1, f) + Only(s2, f) + Only(s3, f) + Only(s4, f) + Only(s5, f) + Only(s6, f) + Only(s7, f)
  {
    hide Only;
    OnlyAppend(s1, s2, f);
    OnlyAppend(s1 + s2, s3, f);
    OnlyAppend(s1 + s2 + s3, s4, f);
    OnlyAppend(s1 + s2 + s3 + s4, s5, f);
    OnlyAppend(s1 + s2 + s3 + s4 + s5, s6, f);
    OnlyAppend(s1 + s2 + s3 + s4 + s5 + s6, s7, f);
  }

  lemma OnlyScalars(a: Policy, b: Policy, f: Field)
    requires f !in SCALARS
    ensures Only(AmountsDiff(a, b), f) == [] && Only(ConditionsDiff(a, b), f) == []
  {
    hide Only;
    OnlyOwn(AmountsDiff(a, b), f);
    OnlyOwn(ConditionsDiff(a, b), f);
  }

  lemma OnlyAddresses(book: AddressBook, field: Field, before: seq<string>, after: seq<string>, f: Field)
    requires f != field
    ensures Only(AddressSetDiff(book, field, before, after), f) == []
  {
    hide Only, SetDiffOf;
    SetDiffFields(field, ToMember, before, after, ByAddress(book));
    OnlyOwn(AddressSetDiff(book, field, before, after), f);
  }

  lemma OnlyKeyed(book: AddressBook, field: Field, before: seq<string>, after: seq<string>, inner: Inner, f: Field)
    requires inner.Fits(|before|, |after|) && OfField(inner, field)
    ensures Only(KeyedDiff(book, field, before, after, inner), f)
         == if f == field then KeyedDiff(book, field, before, after, inner) else []
  {
    hide Only, KeyedDiff;
    KeyedFields(book, field, before, after, inner);
    OnlyOwn(KeyedDiff(book, field, before, after, inner), f);
  }

  /** What is left of each section when only the changes of a keyed field are kept. */
  lemma OnlySection(book: AddressBook, a: Policy, b: Policy, f: Field)
    requires f == Protocols || f == RecipientWindowCaps
    ensures var ca, cb := OrEmpty(a.recipientWindowCaps), OrEmpty(b.recipientWindowCaps);
            && Only(AmountsDiff(a, b), f) == [] && Only(ConditionsDiff(a, b), f) == []
            && Only(AddressSetDiff(book, Assets, a.assets, b.assets), f) == []
            && Only(AddressSetDiff(book, Recipients, a.recipients, b.recipients), f) == []
            && Only(AddressSetDiff(book, BlockedRecipients, OrEmpty(a.blockedRecipients),
                                   OrEmpty(b.blockedRecipients)), f) == []
            && Only(ProtocolsDiff(book, a.protocols, b.protocols), f)
               == (if f == Protocols then ProtocolsDiff(book, a.protocols, b.protocols) else [])
            && Only(CapsDiff(book, ca, cb), f) == if f == Protocols then [] else CapsDiff(book, ca, cb)
  {
    hide Only, AddressSetDiff, AmountsDiff, ConditionsDiff, KeyedDiff, ContractsOf, RecipientsOf;
    var ca, cb := OrEmpty(a.recipientWindowCaps), OrEmpty(b.recipientWindowCaps);
    OnlyScalars(a, b, f);
    OnlyAddresses(book, Assets, a.assets, b.assets, f);
    OnlyAddresses(book, Recipients, a.recipients, b.recipients, f);
    OnlyAddresses(book, BlockedRecipients, OrEmpty(a.blockedRecipients), OrEmpty(b.blockedRecipients), f);
    OnlyKeyed(book, Protocols, ContractsOf(a.protocols), ContractsOf(b.protocols),
              Rules(a.protocols, b.protocols), f);
    OnlyKeyed(book, RecipientWindowCaps, RecipientsOf(ca), RecipientsOf(cb), Caps(ca, cb), f);
  }

  lemma SameSections(book: AddressBook, a: Policy, b: Policy, c: Policy)
    requires Diff(book, a, b) == Diff(book, a, c)
    ensures ProtocolsDiff(book, a.protocols, b.protocols) == ProtocolsDiff(book, a.protocols, c.protocols)
    ensures CapsDiff(book, OrEmpty(a.recipientWindowCaps), OrEmpty(b.recipientWindowCaps))
         == CapsDiff(book, OrEmpty(a.recipientWindowCaps), OrEmpty(c.recipientWindowCaps))
  {
    hide Diff, ProtocolsDiff, CapsDiff, Only;
    OnlyOfDiff(book, a, b);
    OnlyOfDiff(book, a, c);
  }

  // ---------------------------------------------------------------- equal policies are named alike

  /** The number of missing members depends on the two sets only. */
  lemma {:induction false} MissingCount(keys: seq<string>, others: seq<string>, n: nat)
    requires n <= |keys|
    ensures |Missing(keys, others, n)| == |set k | k in keys[..n] && k !in others|
  {
    var s := set k | k in keys[..n] && k !in others;
    if n > 0 {
      MissingCount(keys, others, n - 1);
      var t := set k | k in keys[..n - 1] && k !in others;
      TakeNext(keys, n - 1);
      if First(keys, n - 1) && keys[n - 1] !in others {
        assert s == t + {keys[n - 1]} && keys[n - 1] !in t;
      } else {
        assert s == t;
      }
    }
  }

  lemma SameMissing(keys: seq<string>, keys': seq<string>, others: seq<string>, others': seq<string>)
    requires SameSet(keys, keys') && SameSet(others, others')
    ensures |Missing(keys, others, |keys|)| == |Missing(keys', others', |keys'|)|
  {
    MissingCount(keys, others, |keys|);
    MissingCount(keys', others', |keys'|);
    assert keys[..|keys|] == keys && keys'[..|keys'|] == keys';
    assert (set k | k in keys && k !in others) == (set k | k in keys' && k !in others');
  }

  lemma FnsDiffLength(x: Option<seq<string>>, y: Option<seq<string>>, y': Option<seq<string>>, m: nat, m': nat)
    requires SameFns(y, y')
    ensures |FnsDiff(x, y, m)| == |FnsDiff(x, y', m')|
  {
    if x.Some? && y.Some? {
      TextKeys(x.value);
      TextKeys(y.value);
      TextKeys(y'.value);
      SameElements(y.value, y'.value);
      SameMissing(x.value, x.value, y.value, y'.value);
      SameMissing(y.value, y'.value, x.value, x.value);
    }
  }

  /** Entry by entry both comparisons report as much. */
  ghost predicate SameLengths(ka: seq<string>, kb: seq<string>, kc: seq<string>, inner: Inner, other: Inner)
    requires inner.Fits(|ka|, |kb|) && other.Fits(|ka|, |kc|)
  {
    && SameSet(kb, kc)
    && forall i: nat :: i < |ka| && ka[i] in kb && ka[i] in kc ==>
                     |InnerDiff(inner, i, IndexOf(kb, ka[i]))| == |InnerDiff(other, i, IndexOf(kc, ka[i]))|
  }

  /** Equal reports of the same lengths are equal entry by entry. */
  lemma {:induction false} SameGroups(ka: seq<string>, kb: seq<string>, kc: seq<string>, list: Listing, inner: Inner,
      other: Inner, n: nat, i: nat)
    requires i < n <= |ka| == |list.values| && inner.Fits(|ka|, |kb|) && other.Fits(|ka|, |kc|)
    requires SameLengths(ka, kb, kc, inner, other)
    requires Matched(ka, kb, list, inner, n) == Matched(ka, kc, list, other, n)
    requires First(ka, i) && ka[i] in kb && ka[i] in kc
    ensures InnerDiff(inner, i, IndexOf(kb, ka[i])) == InnerDiff(other, i, IndexOf(kc, ka[i]))
  {
    hide InnerDiff, IndexOf;
    var j := n - 1;
    var front, front' := Matched(ka, kb, list, inner, j), Matched(ka, kc, list, other, j);
    var group := Matched(ka, kb, list, inner, n)[|front|..];
    var group' := Matched(ka, kc, list, other, n)[|front'|..];
    assert Matched(ka, kb, list, inner, n) == front + group;
    assert Matched(ka, kc, list, other, n) == front' + group';
    if First(ka, j) {
      if ka[j] in kb {
        assert group == InnerDiff(inner, j, IndexOf(kb, ka[j])) && group' == InnerDiff(other, j, IndexOf(kc, ka[j]));
      } else {
        assert group == [list.RemovedAt(j)] && group' == [list.RemovedAt(j)];
      }
    } else {
      assert group == [] && group' == [];
    }
    assert |group| == |group'| && front == front' && group == group';
    if i < j {
      SameGroups(ka, kb, kc, list, inner, other, j, i);
    }
  }

  /** With equal comparisons of equal lists, the index of every change inside an entry stands for one key in both. */
  lemma {:induction false} SameNames(book: AddressBook, field: Field, before: seq<string>, after: seq<string>,
      after': seq<string>, inner: Inner, other: Inner)
    requires inner.Fits(|before|, |after|) && other.Fits(|before|, |after'|)
    requires OfField(inner, field) && OfField(other, field)
    requires KeyedDiff(book, field, before, after, inner) == KeyedDiff(book, field, before, after', other)
    requires SameLengths(Keys(ByAddress(book), before), Keys(ByAddress(book), after), Keys(ByAddress(book), after'),
                         inner, other)
    ensures var changes := Members(KeyedDiff(book, field, before, after, inner));
            NamesIn(Keys(ByAddress(book), after), changes) == NamesIn(Keys(ByAddress(book), after'), changes)
  {
    hide InnerDiff, AddressKey, IndexOf, Matched, Missing;
    var ka, kb, kc := Keys(ByAddress(book), before), Keys(ByAddress(book), after), Keys(ByAddress(book), after');
    var list, diff := Listing(field, ToMember, before), KeyedDiff(book, field, before, after, inner);
    SameMissing(kb, kc, ka, ka);
    assert Matched(ka, kb, list, inner, |ka|) == Matched(ka, kc, list, other, |ka|) by {
      var x, y := Matched(ka, kb, list, inner, |ka|), Matched(ka, kc, list, other, |ka|);
      assert diff[..|x|] == x && diff[..|y|] == y;
    }
    forall c | c in diff && (c.path.Fns? || c.path.Fn? || c.path.Cap?)
      ensures c.path.i < |kb| && c.path.i < |kc| && kb[c.path.i] == kc[c.path.i]
    {
      NamedAlike(book, field, before, after, after', inner, other, c);
    }
  }

  lemma NamedAlike(book: AddressBook, field: Field, before: seq<string>, after: seq<string>, after': seq<string>,
      inner: Inner, other: Inner, c: Change)
    requires inner.Fits(|before|, |after|) && other.Fits(|before|, |after'|)
    requires OfField(inner, field) && OfField(other, field)
    requires c in KeyedDiff(book, field, before, after, inner) && (c.path.Fns? || c.path.Fn? || c.path.Cap?)
    requires var ka, list := Keys(ByAddress(book), before), Listing(field, ToMember, before);
             var kb, kc := Keys(ByAddress(book), after), Keys(ByAddress(book), after');
             && SameLengths(ka, kb, kc, inner, other)
             && Matched(ka, kb, list, inner, |ka|) == Matched(ka, kc, list, other, |ka|)
    ensures var kb, kc := Keys(ByAddress(book), after), Keys(ByAddress(book), after');
            c.path.i < |kb| && c.path.i < |kc| && kb[c.path.i] == kc[c.path.i]
  {
    hide InnerDiff, AddressKey;
    var ka, kb, kc := Keys(ByAddress(book), before), Keys(ByAddress(book), after), Keys(ByAddress(book), after');
    var list := Listing(field, ToMember, before);
    AddedMember(Listing(field, ToMember, after), kb, ka, c);
    var i := MatchedMember(ka, kb, list, inner, |ka|, c);
    SameGroups(ka, kb, kc, list, inner, other, |ka|, i);
    InnerFields(inner, i, IndexOf(kb, ka[i]));
    InnerFields(other, i, IndexOf(kc, ka[i]));
  }

  lemma RulesNamedAlike(book: AddressBook, a: seq<ProtocolRule>, b: seq<ProtocolRule>, c: seq<ProtocolRule>)
    requires ProtocolsDiff(book, a, b) == ProtocolsDiff(book, a, c) && SameRules(book, b, c)
    ensures UnsaidRules(book, a, b) == UnsaidRules(book, a, c)
  {
    hide FnsDiff, SameFns, AddressKey, KeyedDiff, NamesIn, RuleMap, ContractsOf, SameSet;
    var before, after, after' := ContractsOf(a), ContractsOf(b), ContractsOf(c);
    var ka, kb, kc := Keys(ByAddress(book), before), Keys(ByAddress(book), after), Keys(ByAddress(book), after');
    forall i: nat | i < |ka| && ka[i] in kb && ka[i] in kc
      ensures |InnerDiff(Rules(a, b), i, IndexOf(kb, ka[i]))| == |InnerDiff(Rules(a, c), i, IndexOf(kc, ka[i]))|
    {
      FnsDiffLength(a[i].fns, b[IndexOf(kb, ka[i])].fns, c[IndexOf(kc, ka[i])].fns, IndexOf(kb, ka[i]),
                    IndexOf(kc, ka[i]));
    }
    SameNames(book, Protocols, before, after, after', Rules(a, b), Rules(a, c));
    SameRulesMeaning(book, b, c);
  }

  lemma CapsNamedAlike(book: AddressBook, a: seq<RecipientCap>, b: seq<RecipientCap>, c: seq<RecipientCap>)
    requires CapsDiff(book, a, b) == CapsDiff(book, a, c) && SameCaps(book, b, c)
    ensures UnsaidCaps(book, a, b) == UnsaidCaps(book, a, c)
  {
    hide AddressKey, KeyedDiff, NamesIn, CapMap, RecipientsOf, SameSet;
    var before, after, after' := RecipientsOf(a), RecipientsOf(b), RecipientsOf(c);
    SameNames(book, RecipientWindowCaps, before, after, after', Caps(a, b), Caps(a, c));
    SameCapsMeaning(book, b, c);
  }

  /**
   Exactly what is missing.  Two policies with the same difference from a third one are equal if and only if they agree
   on what the difference leaves unsaid: the addresses behind the indices it names, and the content of added entries.
   */
  lemma {:induction false} SameExactly(book: AddressBook, a: Policy, b: Policy, c: Policy)
    requires Diff(book, a, b) == Diff(book, a, c)
    ensures Same(book, b, c) <==> SupplementOf(book, a, b) == SupplementOf(book, a, c)
  {
    hide Diff, MeaningOf, UnsaidRules, UnsaidCaps, SameRules, SameCaps, SameAddresses, Patch;
    if Same(book, b, c) {
      SameSections(book, a, b, c);
      RulesNamedAlike(book, a.protocols, b.protocols, c.protocols);
      CapsNamedAlike(book, OrEmpty(a.recipientWindowCaps), OrEmpty(b.recipientWindowCaps),
                     OrEmpty(c.recipientWindowCaps));
    }
    if SupplementOf(book, a, b) == SupplementOf(book, a, c) {
      EqualSupplements(book, a, b, c);
    }
  }

  lemma EqualSupplements(book: AddressBook, a: Policy, b: Policy, c: Policy)
    requires Diff(book, a, b) == Diff(book, a, c) && SupplementOf(book, a, b) == SupplementOf(book, a, c)
    ensures Same(book, b, c)
  {
    hide Diff, SupplementOf, Patch, Same;
    PatchGivesNewer(book, a, b);
    PatchGivesNewer(book, a, c);
    SameMeaning(book, b, c);
  }

  /** In particular, when the newer lists have the same keys in the same order, only added contents can differ. */
  lemma {:induction false} SameKeysSameUnlessAdded(book: AddressBook, a: Policy, b: Policy, c: Policy)
    requires Diff(book, a, b) == Diff(book, a, c)
    requires Keys(ByAddress(book), ContractsOf(b.protocols)) == Keys(ByAddress(book), ContractsOf(c.protocols))
    requires Keys(ByAddress(book), RecipientsOf(OrEmpty(b.recipientWindowCaps)))
          == Keys(ByAddress(book), RecipientsOf(OrEmpty(c.recipientWindowCaps)))
    ensures Same(book, b, c) <==>
            && SupplementOf(book, a, b).rules.added == SupplementOf(book, a, c).rules.added
            && SupplementOf(book, a, b).caps.added == SupplementOf(book, a, c).caps.added
  {
    hide Diff, Same, NamesIn, RuleMap, CapMap, ProtocolsDiff, CapsDiff;
    SameExactly(book, a, b, c);
    SameSections(book, a, b, c);
  }
}
