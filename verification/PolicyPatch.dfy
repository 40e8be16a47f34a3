/**
 What a policy difference says about the newer policy.  It does not say everything: a path inside a matched entry names
 an index of the newer list and not the address there, and an added entry is reported by its address alone.  With
 exactly that supplied, applying the difference to what the older policy means gives what the newer one means.
 */
module PolicyPatch {
  import opened Wrappers
  import opened Policy
  import opened PolicyDiff
  import opened PolicyDiffExact

  // ---------------------------------------------------------------- what a policy means

  const SCALARS: set<Field> :=
    {PerTxCap, WindowSecs, WindowCap, AllowAnyRecipient, ActiveFrom, ActiveUntil, Paused, DmsGraceSecs}

  const ADDRESS_SETS: set<Field> := {Assets, Recipients, BlockedRecipients}

  function ScalarOf(p: Policy, f: Field): Value
    requires f in SCALARS
  {
    match f
    case PerTxCap => Number(p.perTxCap)
    case WindowSecs => Number(p.windowSecs)
    case WindowCap => Number(p.windowCap)
    case AllowAnyRecipient => Flag(p.allowAnyRecipient)
    case ActiveFrom => Number(p.activeFrom)
    case ActiveUntil => Number(p.activeUntil)
    case Paused => Flag(p.paused)
    case DmsGraceSecs => Number(p.dmsGraceSecs)
  }

  function AddressesOf(p: Policy, f: Field): seq<string>
    requires f in ADDRESS_SETS
  {
    match f
    case Assets => p.assets
    case Recipients => p.recipients
    case BlockedRecipients => OrEmpty(p.blockedRecipients)
  }

  /** The functions a rule allows; None is any function. */
  function FnSet(fns: Option<seq<string>>): Option<set<string>> {
    if fns.None? then None else Some(set f | f in fns.value)
  }

  /** The rule and the cap in force for each address key: the first entry wins. */
  function RuleMap(book: AddressBook, rules: seq<ProtocolRule>): map<string, Option<set<string>>> {
    var ks := Keys(ByAddress(book), ContractsOf(rules));
    map k | k in ks :: FnSet(rules[IndexOf(ks, k)].fns)
  }

  function CapMap(book: AddressBook, caps: seq<RecipientCap>): map<string, int> {
    var ks := Keys(ByAddress(book), RecipientsOf(caps));
    map k | k in ks :: caps[IndexOf(ks, k)].cap
  }

  /** Scalars, address sets, and the rules and caps by address. */
  datatype Meaning = Meaning(
    scalars: map<Field, Value>,
    sets: map<Field, set<string>>,
    rules: map<string, Option<set<string>>>,
    caps: map<string, int>)

  function MeaningOf(book: AddressBook, p: Policy): Meaning {
    Meaning(map f | f in SCALARS :: ScalarOf(p, f),
            map f | f in ADDRESS_SETS :: KeySet(ByAddress(book), AddressesOf(p, f)),
            RuleMap(book, p.protocols),
            CapMap(book, OrEmpty(p.recipientWindowCaps)))
  }

  lemma SameFnsMeaning(x: Option<seq<string>>, y: Option<seq<string>>)
    ensures SameFns(x, y) <==> FnSet(x) == FnSet(y)
  {
    if x.Some? && y.Some? {
      SameElements(x.value, y.value);
    }
  }

  lemma SameElements(a: seq<string>, b: seq<string>)
    ensures SameSet(a, b) <==> (set k | k in a) == (set k | k in b)
    ensures SameSet(a, b) <==> forall k :: k in a <==> k in b
  {
    var sa, sb := set k | k in a, set k | k in b;
    assert forall k :: k in sa <==> k in a;
    assert forall k :: k in sb <==> k in b;
    if SameSet(a, b) {
      assert sa == sb;
    }
  }

  /** Two maps over lists of keys. */
  lemma SameMaps<V>(ka: seq<string>, kb: seq<string>, ma: map<string, V>, mb: map<string, V>)
    requires (forall k :: k in ma <==> k in ka) && (forall k :: k in mb <==> k in kb)
    ensures ma == mb <==> SameSet(ka, kb) && forall k :: k in ka && k in kb ==> ma[k] == mb[k]
  {
  }

  lemma SameRulesMeaning(book: AddressBook, a: seq<ProtocolRule>, b: seq<ProtocolRule>)
    ensures SameRules(book, a, b) <==> RuleMap(book, a) == RuleMap(book, b)
  {
    hide SameFns, FnSet, AddressKey, ContractsOf, SameSet;
    var ka, kb := Keys(ByAddress(book), ContractsOf(a)), Keys(ByAddress(book), ContractsOf(b));
    forall k | k in ka && k in kb
      ensures SameFns(a[IndexOf(ka, k)].fns, b[IndexOf(kb, k)].fns)
              <==> RuleMap(book, a)[k] == RuleMap(book, b)[k]
    {
      SameFnsMeaning(a[IndexOf(ka, k)].fns, b[IndexOf(kb, k)].fns);
    }
    SameMaps(ka, kb, RuleMap(book, a), RuleMap(book, b));
  }

  lemma SameCapsMeaning(book: AddressBook, a: seq<RecipientCap>, b: seq<RecipientCap>)
    ensures SameCaps(book, a, b) <==> CapMap(book, a) == CapMap(book, b)
  {
    hide AddressKey, RecipientsOf, SameSet;
    var ka, kb := Keys(ByAddress(book), RecipientsOf(a)), Keys(ByAddress(book), RecipientsOf(b));
    SameMaps(ka, kb, CapMap(book, a), CapMap(book, b));
  }

  lemma SameScalarsMeaning(a: Policy, b: Policy)
    ensures (map f | f in SCALARS :: ScalarOf(a, f)) == (map f | f in SCALARS :: ScalarOf(b, f)) <==>
            && a.perTxCap == b.perTxCap && a.windowSecs == b.windowSecs && a.windowCap == b.windowCap
            && a.allowAnyRecipient == b.allowAnyRecipient && a.activeFrom == b.activeFrom
            && a.activeUntil == b.activeUntil && a.paused == b.paused && a.dmsGraceSecs == b.dmsGraceSecs
  {
    var ma, mb := map f | f in SCALARS :: ScalarOf(a, f), map f | f in SCALARS :: ScalarOf(b, f);
    if ma == mb {
      assert forall f :: f in SCALARS ==> ScalarOf(a, f) == ma[f] && ScalarOf(b, f) == mb[f];
      assert forall f :: f in SCALARS ==> ScalarOf(a, f) == ScalarOf(b, f);
      assert ScalarOf(a, PerTxCap) == ScalarOf(b, PerTxCap) && ScalarOf(a, WindowSecs) == ScalarOf(b, WindowSecs);
      assert ScalarOf(a, WindowCap) == ScalarOf(b, WindowCap) && ScalarOf(a, Paused) == ScalarOf(b, Paused);
      assert ScalarOf(a, AllowAnyRecipient) == ScalarOf(b, AllowAnyRecipient);
      assert ScalarOf(a, ActiveFrom) == ScalarOf(b, ActiveFrom) && ScalarOf(a, ActiveUntil) == ScalarOf(b, ActiveUntil);
      assert ScalarOf(a, DmsGraceSecs) == ScalarOf(b, DmsGraceSecs);
    }
  }

  lemma SameSetMeaning(cmp: Comparison, a: seq<string>, b: seq<string>)
    ensures SameSet(Keys(cmp, a), Keys(cmp, b)) <==> KeySet(cmp, a) == KeySet(cmp, b)
  {
    SameElements(Keys(cmp, a), Keys(cmp, b));
  }

  lemma SameAddressesMeaning(book: AddressBook, a: Policy, b: Policy)
    ensures (map f | f in ADDRESS_SETS :: KeySet(ByAddress(book), AddressesOf(a, f)))
            == (map f | f in ADDRESS_SETS :: KeySet(ByAddress(book), AddressesOf(b, f))) <==>
            && SameAddresses(book, a.assets, b.assets)
            && SameAddresses(book, a.recipients, b.recipients)
            && SameAddresses(book, OrEmpty(a.blockedRecipients), OrEmpty(b.blockedRecipients))
  {
    hide KeySet, Keys, SameSet;
    var ma := map f | f in ADDRESS_SETS :: KeySet(ByAddress(book), AddressesOf(a, f));
    var mb := map f | f in ADDRESS_SETS :: KeySet(ByAddress(book), AddressesOf(b, f));
    SameSetMeaning(ByAddress(book), a.assets, b.assets);
    SameSetMeaning(ByAddress(book), a.recipients, b.recipients);
    SameSetMeaning(ByAddress(book), OrEmpty(a.blockedRecipients), OrEmpty(b.blockedRecipients));
    assert ma == mb <==> ma[Assets] == mb[Assets] && ma[Recipients] == mb[Recipients]
                         && ma[BlockedRecipients] == mb[BlockedRecipients];
  }

  /** Two policies mean the same exactly when they are equal under the comparison's semantics. */
  lemma {:induction false} SameMeaning(book: AddressBook, a: Policy, b: Policy)
    ensures MeaningOf(book, a) == MeaningOf(book, b) <==> Same(book, a, b)
  {
    hide ScalarOf, AddressesOf, KeySet, RuleMap, CapMap, SameRules, SameCaps, SameAddresses;
    SameScalarsMeaning(a, b);
    SameAddressesMeaning(book, a, b);
    SameRulesMeaning(book, a.protocols, b.protocols);
    SameCapsMeaning(book, OrEmpty(a.recipientWindowCaps), OrEmpty(b.recipientWindowCaps));
  }

  // ---------------------------------------------------------------- applying changes

  function Section(changes: seq<Change>, f: Field): set<Change> {
    set c | c in changes && c.field == f
  }

  ghost predicate Sets(c: Change, path: Path) {
    c.Changed? && c.path == path
  }

  ghost function PatchScalar(before: Value, changes: set<Change>): Value {
    if c :| c in changes && Sets(c, Whole) then c.after else before
  }

  /** Removals and additions of whole members, by address key. */
  ghost function PatchSet(book: AddressBook, before: set<string>, changes: set<Change>): set<string> {
    before - RemovedKeys(ByAddress(book), changes) + AddedKeys(ByAddress(book), changes)
  }

  /** The changes inside the entry that the newer policy lists as its m-th. */
  function Inside(changes: set<Change>, m: nat): set<Change> {
    set c | c in changes && (c.path == Fns(m) || c.path == Cap(m) || (c.path.Fn? && c.path.i == m))
  }

  ghost function PatchFns(before: Option<set<string>>, inside: set<Change>, m: nat): Option<set<string>> {
    if c :| c in inside && Sets(c, Fns(m)) && c.after.Names? then FnSet(c.after.fns)
    else if before.None? then None
    else Some(before.value - RemovedKeys(ByText, inside) + AddedKeys(ByText, inside))
  }

  ghost function PatchCap(before: int, inside: set<Change>, m: nat): int {
    if c :| c in inside && Sets(c, Cap(m)) && c.after.Number? then c.after.n else before
  }

  /** The changes that remove or add a whole entry. */
  function OfEntries(changes: set<Change>): set<Change> {
    set c | c in changes && c.path.Member?
  }

  /** Entries with a key on both sides are patched inside; the others go or come. */
  ghost function PatchMap<V>(before: map<string, V>, gone: set<string>, inside: map<string, V>,
      come: map<string, V>): map<string, V> {
    (map k | k in before.Keys - gone :: if k in inside then inside[k] else before[k]) + come
  }

  /** The indices of the newer list that the changes inside its entries name. */
  function InnerIndices(changes: set<Change>): set<nat> {
    set c | c in changes && (c.path.Fns? || c.path.Fn? || c.path.Cap?) :: c.path.i
  }

  /** What the changes of a keyed list leave unsaid: the keys behind those indices, and the content of added entries. */
  datatype Unsaid<V> = Unsaid(names: map<nat, string>, added: map<string, V>)

  function NamesIn(keys: seq<string>, changes: set<Change>): map<nat, string> {
    map m | m in InnerIndices(changes) && m < |keys| :: keys[m]
  }

  ghost function UnsaidRules(book: AddressBook, a: seq<ProtocolRule>,
      b: seq<ProtocolRule>): Unsaid<Option<set<string>>> {
    Unsaid(NamesIn(Keys(ByAddress(book), ContractsOf(b)), Members(ProtocolsDiff(book, a, b))),
           map k | k in RuleMap(book, b) && k !in RuleMap(book, a) :: RuleMap(book, b)[k])
  }

  ghost function UnsaidCaps(book: AddressBook, a: seq<RecipientCap>, b: seq<RecipientCap>): Unsaid<int> {
    Unsaid(NamesIn(Keys(ByAddress(book), RecipientsOf(b)), Members(CapsDiff(book, a, b))),
           map k | k in CapMap(book, b) && k !in CapMap(book, a) :: CapMap(book, b)[k])
  }

  datatype Supplement = Supplement(rules: Unsaid<Option<set<string>>>, caps: Unsaid<int>)

  /** What a reader of the difference has to look up in the newer policy. */
  ghost function SupplementOf(book: AddressBook, a: Policy, b: Policy): Supplement {
    Supplement(UnsaidRules(book, a.protocols, b.protocols),
               UnsaidCaps(book, OrEmpty(a.recipientWindowCaps), OrEmpty(b.recipientWindowCaps)))
  }

  /** The index that stands for key k. */
  ghost function IndexNamed(names: map<nat, string>, k: string): (m: nat)
    requires k in names.Values
    ensures m in names && names[m] == k
  {
    var m :| m in names && names[m] == k;
    m
  }

  ghost function RulesInside(before: map<string, Option<set<string>>>, changes: set<Change>,
      names: map<nat, string>): map<string, Option<set<string>>> {
    map k | k in before && k in names.Values ::
      PatchFns(before[k], Inside(changes, IndexNamed(names, k)), IndexNamed(names, k))
  }

  ghost function CapsInside(before: map<string, int>, changes: set<Change>,
      names: map<nat, string>): map<string, int> {
    map k | k in before && k in names.Values ::
      PatchCap(before[k], Inside(changes, IndexNamed(names, k)), IndexNamed(names, k))
  }

  ghost function Coming<V>(book: AddressBook, changes: set<Change>, added: map<string, V>): map<string, V> {
    map k | k in AddedKeys(ByAddress(book), OfEntries(changes)) && k in added :: added[k]
  }

  ghost function PatchRules(book: AddressBook, before: map<string, Option<set<string>>>, changes: set<Change>,
      unsaid: Unsaid<Option<set<string>>>): map<string, Option<set<string>>> {
    PatchMap(before, RemovedKeys(ByAddress(book), OfEntries(changes)),
             RulesInside(before, changes, unsaid.names), Coming(book, changes, unsaid.added))
  }

  ghost function PatchCaps(book: AddressBook, before: map<string, int>, changes: set<Change>,
      unsaid: Unsaid<int>): map<string, int> {
    PatchMap(before, RemovedKeys(ByAddress(book), OfEntries(changes)),
             CapsInside(before, changes, unsaid.names), Coming(book, changes, unsaid.added))
  }

  ghost function Patch(book: AddressBook, before: Meaning, changes: seq<Change>, more: Supplement): Meaning
    requires before.scalars.Keys == SCALARS && before.sets.Keys == ADDRESS_SETS
  {
    Meaning(map f | f in SCALARS :: PatchScalar(before.scalars[f], Section(changes, f)),
            map f | f in ADDRESS_SETS :: PatchSet(book, before.sets[f], Section(changes, f)),
            PatchRules(book, before.rules, Section(changes, Protocols), more.rules),
            PatchCaps(book, before.caps, Section(changes, RecipientWindowCaps), more.caps))
  }

  // ---------------------------------------------------------------- which changes belong to which field

  lemma SetDiffFields(field: Field, path: PathTo, before: seq<string>, after: seq<string>, cmp: Comparison)
    ensures forall c :: c in SetDiffOf(field, path, before, after, cmp) ==>
                          && c.field == field && !c.Changed?
                          && match path case ToMember => c.path.Member? case ToFn(m) => c.path.Fn? && c.path.i == m
  {
  }

  lemma InnerFields(inner: Inner, i: nat, m: nat)
    requires inner.Covers(i, m)
    ensures forall c :: c in InnerDiff(inner, i, m) ==>
                          && (inner.Rules? ==>
                                c.field == Protocols && (c.path == Fns(m) || (c.path.Fn? && c.path.i == m)))
                          && (inner.Caps? ==> c.field == RecipientWindowCaps && c.path == Cap(m))
  {
    if inner.Rules? && inner.a[i].fns.Some? && inner.b[m].fns.Some? {
      SetDiffFields(Protocols, ToFn(m), inner.a[i].fns.value, inner.b[m].fns.value, ByText);
    }
  }

  /** The field whose entries are compared by `inner`. */
  predicate OfField(inner: Inner, field: Field) {
    (inner.Rules? && field == Protocols) || (inner.Caps? && field == RecipientWindowCaps)
  }

  lemma KeyedFields(book: AddressBook, field: Field, before: seq<string>, after: seq<string>, inner: Inner)
    requires inner.Fits(|before|, |after|) && OfField(inner, field)
    ensures forall c :: c in KeyedDiff(book, field, before, after, inner) ==> c.field == field
  {
    hide InnerDiff;
    var ka, kb := Keys(ByAddress(book), before), Keys(ByAddress(book), after);
    forall c | c in KeyedDiff(book, field, before, after, inner)
      ensures c.field == field
    {
      if c in Matched(ka, kb, Listing(field, ToMember, before), inner, |ka|) {
        var i := MatchedMember(ka, kb, Listing(field, ToMember, before), inner, |ka|, c);
        if ka[i] in kb {
          InnerFields(inner, i, IndexOf(kb, ka[i]));
        }
      }
    }
  }

  lemma ScalarFields(a: Policy, b: Policy, f: Field)
    requires f in SCALARS
    ensures Section(AmountsDiff(a, b) + ConditionsDiff(a, b), f)
         == Members(ScalarDiff(f, ScalarOf(a, f), ScalarOf(b, f)))
  {
    hide ScalarDiff;
    forall g: Field, x: Value, y: Value
      ensures forall c :: c in ScalarDiff(g, x, y) ==> c.field == g
    {
      ScalarDiffField(g, x, y);
    }
  }

  lemma ScalarDiffField(f: Field, x: Value, y: Value)
    ensures forall c :: c in ScalarDiff(f, x, y) ==> c.field == f
  {
  }

  lemma OtherFields(a: Policy, b: Policy, f: Field)
    requires f !in SCALARS
    ensures Section(AmountsDiff(a, b) + ConditionsDiff(a, b), f) == {}
  {
    hide ScalarDiff;
    forall g: Field, x: Value, y: Value
      ensures forall c :: c in ScalarDiff(g, x, y) ==> c.field == g
    {
      ScalarDiffField(g, x, y);
    }
  }

  /** The changes of one field are those its own comparison reports. */
  lemma {:induction false} SectionOfDiff(book: AddressBook, a: Policy, b: Policy, f: Field)
    ensures f in SCALARS ==>
              Section(Diff(book, a, b), f) == Members(ScalarDiff(f, ScalarOf(a, f), ScalarOf(b, f)))
    ensures f in ADDRESS_SETS ==>
              Section(Diff(book, a, b), f) == Members(AddressSetDiff(book, f, AddressesOf(a, f), AddressesOf(b, f)))
    ensures f == Protocols ==> Section(Diff(book, a, b), f) == Members(ProtocolsDiff(book, a.protocols, b.protocols))
    ensures f == RecipientWindowCaps ==>
              Section(Diff(book, a, b), f)
              == Members(CapsDiff(book, OrEmpty(a.recipientWindowCaps), OrEmpty(b.recipientWindowCaps)))
  {
    hide SetDiffOf, KeyedDiff, AmountsDiff, ConditionsDiff, ContractsOf, RecipientsOf, ScalarDiff;
    var ca, cb := OrEmpty(a.recipientWindowCaps), OrEmpty(b.recipientWindowCaps);
    SetDiffFields(Assets, ToMember, a.assets, b.assets, ByAddress(book));
    SetDiffFields(Recipients, ToMember, a.recipients, b.recipients, ByAddress(book));
    SetDiffFields(BlockedRecipients, ToMember, OrEmpty(a.blockedRecipients), OrEmpty(b.blockedRecipients),
                  ByAddress(book));
    KeyedFields(book, Protocols, ContractsOf(a.protocols), ContractsOf(b.protocols), Rules(a.protocols, b.protocols));
    KeyedFields(book, RecipientWindowCaps, RecipientsOf(ca), RecipientsOf(cb), Caps(ca, cb));
    if f in SCALARS {
      ScalarFields(a, b, f);
    } else {
      OtherFields(a, b, f);
    }
    forall c
      ensures c in Section(AmountsDiff(a, b) + ConditionsDiff(a, b), f) <==>
              c.field == f && (c in AmountsDiff(a, b) || c in ConditionsDiff(a, b))
    {
    }
  }

  // ---------------------------------------------------------------- keyed lists

  lemma EntriesRemoved(book: AddressBook, field: Field, before: seq<string>, after: seq<string>, inner: Inner)
    requires inner.Fits(|before|, |after|) && OfField(inner, field)
    ensures RemovedKeys(ByAddress(book), OfEntries(Members(KeyedDiff(book, field, before, after, inner))))
         == KeySet(ByAddress(book), before) - KeySet(ByAddress(book), after)
  {
    hide InnerDiff, AddressKey, AllAdded, Missing;
    var cmp, left := ByAddress(book), Listing(field, ToMember, before);
    var ka, kb := Keys(cmp, before), Keys(cmp, after);
    var changes := Members(KeyedDiff(book, field, before, after, inner));
    forall k
      ensures k in RemovedKeys(cmp, OfEntries(changes)) <==> k in ka && k !in kb
    {
      if k in ka && k !in kb {
        var i := IndexOf(ka, k);
        MatchedHas(ka, kb, left, inner, |ka|, i, left.RemovedAt(i));
        assert left.RemovedAt(i) in OfEntries(changes);
      }
      if k in RemovedKeys(cmp, OfEntries(changes)) {
        var c :| c in OfEntries(changes) && c.Removed? && c.before.Text? && cmp.KeyFor(c.before.s) == k;
        EntryChange(book, field, before, after, inner, c);
      }
    }
  }

  lemma EntriesAdded(book: AddressBook, field: Field, before: seq<string>, after: seq<string>, inner: Inner)
    requires inner.Fits(|before|, |after|) && OfField(inner, field)
    ensures AddedKeys(ByAddress(book), OfEntries(Members(KeyedDiff(book, field, before, after, inner))))
         == KeySet(ByAddress(book), after) - KeySet(ByAddress(book), before)
  {
    hide InnerDiff, AddressKey, Matched;
    var cmp, right := ByAddress(book), Listing(field, ToMember, after);
    var ka, kb := Keys(cmp, before), Keys(cmp, after);
    var changes := Members(KeyedDiff(book, field, before, after, inner));
    forall k
      ensures k in AddedKeys(cmp, OfEntries(changes)) <==> k in kb && k !in ka
    {
      if k in kb && k !in ka {
        var i := IndexOf(kb, k);
        AddedMember(right, kb, ka, right.AddedAt(i));
        assert right.AddedAt(i) in OfEntries(changes);
      }
      if k in AddedKeys(cmp, OfEntries(changes)) {
        var c :| c in OfEntries(changes) && c.Added? && c.after.Text? && cmp.KeyFor(c.after.s) == k;
        EntryChange(book, field, before, after, inner, c);
      }
    }
  }

  /** Whole entries are removed and added exactly where their key is on one side only. */
  lemma {:induction false} EntriesOfDiff(book: AddressBook, field: Field, before: seq<string>, after: seq<string>,
      inner: Inner)
    requires inner.Fits(|before|, |after|) && OfField(inner, field)
    ensures var cmp, changes := ByAddress(book), Members(KeyedDiff(book, field, before, after, inner));
            && RemovedKeys(cmp, OfEntries(changes)) == KeySet(cmp, before) - KeySet(cmp, after)
            && AddedKeys(cmp, OfEntries(changes)) == KeySet(cmp, after) - KeySet(cmp, before)
  {
    hide KeyedDiff, RemovedKeys, AddedKeys, KeySet, OfEntries, Members;
    EntriesRemoved(book, field, before, after, inner);
    EntriesAdded(book, field, before, after, inner);
  }

  lemma EntryChange(book: AddressBook, field: Field, before: seq<string>, after: seq<string>, inner: Inner, c: Change)
    requires inner.Fits(|before|, |after|) && OfField(inner, field)
    requires c in KeyedDiff(book, field, before, after, inner) && c.path.Member?
    ensures var ka, kb := Keys(ByAddress(book), before), Keys(ByAddress(book), after);
            (exists i: nat :: i < |ka| && ka[i] !in kb && c == Removed(field, Member(i), Text(before[i])))
            || (exists i: nat :: i < |kb| && kb[i] !in ka && c == Added(field, Member(i), Text(after[i])))
  {
    hide InnerDiff, AddressKey;
    var ka, kb := Keys(ByAddress(book), before), Keys(ByAddress(book), after);
    var left, right := Listing(field, ToMember, before), Listing(field, ToMember, after);
    if c in Matched(ka, kb, left, inner, |ka|) {
      var i := MatchedMember(ka, kb, left, inner, |ka|, c);
      if ka[i] in kb {
        InnerFields(inner, i, IndexOf(kb, ka[i]));
      }
    } else {
      AddedMember(right, kb, ka, c);
    }
  }

  /** What is reported inside the entry with a key both lists have is the comparison of the two first entries. */
  lemma {:induction false} InsideOfDiff(book: AddressBook, field: Field, before: seq<string>, after: seq<string>,
      inner: Inner, k: string)
    requires inner.Fits(|before|, |after|) && OfField(inner, field)
    requires k in Keys(ByAddress(book), before) && k in Keys(ByAddress(book), after)
    ensures var ka, kb := Keys(ByAddress(book), before), Keys(ByAddress(book), after);
            Inside(Members(KeyedDiff(book, field, before, after, inner)), IndexOf(kb, k))
            == Members(InnerDiff(inner, IndexOf(ka, k), IndexOf(kb, k)))
  {
    hide InnerDiff, AddressKey;
    var ka, kb := Keys(ByAddress(book), before), Keys(ByAddress(book), after);
    var left, right := Listing(field, ToMember, before), Listing(field, ToMember, after);
    var i, m := IndexOf(ka, k), IndexOf(kb, k);
    var changes := KeyedDiff(book, field, before, after, inner);
    InnerFields(inner, i, m);
    forall c | c in InnerDiff(inner, i, m)
      ensures c in Inside(Members(changes), m)
    {
      MatchedHas(ka, kb, left, inner, |ka|, i, c);
    }
    forall c | c in Inside(Members(changes), m)
      ensures c in InnerDiff(inner, i, m)
    {
      if c in Matched(ka, kb, left, inner, |ka|) {
        var i' := MatchedMember(ka, kb, left, inner, |ka|, c);
        if ka[i'] in kb {
          InnerFields(inner, i', IndexOf(kb, ka[i']));
          assert ka[i'] == kb[m];
          FirstIsIndexOf(ka, i');
        }
      }
    }
  }

  lemma KeyedInFirst(book: AddressBook, field: Field, before: seq<string>, after: seq<string>, inner: Inner, c: Change)
    requires inner.Fits(|before|, |after|) && OfField(inner, field)
    requires c in KeyedDiff(book, field, before, after, inner) && !c.path.Member?
    ensures var kb := Keys(ByAddress(book), after);
            && !c.path.Whole? && (c.path.Cap? <==> inner.Caps?)
            && c.path.i < |kb| && First(kb, c.path.i)
  {
    hide InnerDiff, AddressKey;
    var ka, kb := Keys(ByAddress(book), before), Keys(ByAddress(book), after);
    var left, right := Listing(field, ToMember, before), Listing(field, ToMember, after);
    if c in Matched(ka, kb, left, inner, |ka|) {
      var i := MatchedMember(ka, kb, left, inner, |ka|, c);
      if ka[i] in kb {
        InnerFields(inner, i, IndexOf(kb, ka[i]));
      }
    } else {
      AddedMember(right, kb, ka, c);
    }
  }

  lemma FirstsAreEqual(keys: seq<string>, i: nat, j: nat)
    requires i < |keys| && j < |keys| && First(keys, i) && First(keys, j) && keys[i] == keys[j]
    ensures i == j
  {
    FirstIsIndexOf(keys, i);
    FirstIsIndexOf(keys, j);
  }

  /** A key with changes inside its entry is the one its index names; without, the two entries compare equal. */
  lemma {:induction false} NamesOfDiff(book: AddressBook, field: Field, before: seq<string>, after: seq<string>,
      inner: Inner, k: string)
    requires inner.Fits(|before|, |after|) && OfField(inner, field)
    requires k in Keys(ByAddress(book), before) && k in Keys(ByAddress(book), after)
    ensures var ka, kb := Keys(ByAddress(book), before), Keys(ByAddress(book), after);
            var names := NamesIn(kb, Members(KeyedDiff(book, field, before, after, inner)));
            if k in names.Values then IndexNamed(names, k) == IndexOf(kb, k)
            else InnerDiff(inner, IndexOf(ka, k), IndexOf(kb, k)) == []
  {
    hide InnerDiff, AddressKey, KeyedDiff;
    var ka, kb := Keys(ByAddress(book), before), Keys(ByAddress(book), after);
    var changes := Members(KeyedDiff(book, field, before, after, inner));
    var names, m := NamesIn(kb, changes), IndexOf(kb, k);
    InsideOfDiff(book, field, before, after, inner, k);
    InnerFields(inner, IndexOf(ka, k), m);
    var d := InnerDiff(inner, IndexOf(ka, k), m);
    if d != [] {
      assert d[0] in Inside(changes, m);
      assert m in names && names[m] == k;
    }
    if k in names.Values {
      var i := IndexNamed(names, k);
      assert names[i] == kb[i];
      var c :| c in changes && (c.path.Fns? || c.path.Fn? || c.path.Cap?) && c.path.i == i;
      KeyedInFirst(book, field, before, after, inner, c);
      FirstsAreEqual(kb, i, m);
    }
  }

  // ---------------------------------------------------------------- patching

  lemma ScalarPatched(f: Field, x: Value, y: Value)
    ensures PatchScalar(x, Members(ScalarDiff(f, x, y))) == y
  {
    if x != y {
      assert Changed(f, PolicyDiff.Whole, x, y) in Members(ScalarDiff(f, x, y));
    }
  }

  lemma FnsPatched(x: Option<seq<string>>, y: Option<seq<string>>, m: nat)
    ensures PatchFns(FnSet(x), Members(FnsDiff(x, y, m)), m) == FnSet(y)
  {
    var changes := Members(FnsDiff(x, y, m));
    if x.Some? && y.Some? {
      SetDiffFields(Protocols, ToFn(m), x.value, y.value, ByText);
      ApplySetDiff(Protocols, ToFn(m), x.value, y.value, ByText);
      TextKeys(x.value);
      TextKeys(y.value);
    } else if x != y {
      assert Changed(Protocols, Fns(m), Names(x), Names(y)) in changes;
    }
  }

  lemma CapPatched(x: int, y: int, m: nat)
    ensures PatchCap(x, Members(CapDiff(x, y, m)), m) == y
  {
    if x != y {
      assert Changed(RecipientWindowCaps, Cap(m), Number(x), Number(y)) in Members(CapDiff(x, y, m));
    }
  }

  lemma MapPatched<V>(before: map<string, V>, after: map<string, V>, gone: set<string>, inside: map<string, V>,
      come: map<string, V>)
    requires gone == before.Keys - after.Keys
    requires forall k :: k in before && k in after ==> after[k] == if k in inside then inside[k] else before[k]
    requires come.Keys == after.Keys - before.Keys && forall k :: k in come ==> come[k] == after[k]
    ensures PatchMap(before, gone, inside, come) == after
  {
  }

  /** The removed and added rules are those of keys on one side only; the rules of the other keys are patched. */
  lemma RuleChanges(book: AddressBook, a: seq<ProtocolRule>, b: seq<ProtocolRule>)
    ensures var older, newer, changes := RuleMap(book, a), RuleMap(book, b), Members(ProtocolsDiff(book, a, b));
            && RemovedKeys(ByAddress(book), OfEntries(changes)) == older.Keys - newer.Keys
            && AddedKeys(ByAddress(book), OfEntries(changes)) == newer.Keys - older.Keys
  {
    hide KeyedDiff, FnSet, AddressKey, RemovedKeys, AddedKeys, ContractsOf, OfEntries, Members;
    EntriesOfDiff(book, Protocols, ContractsOf(a), ContractsOf(b), Rules(a, b));
  }

  lemma RuleInside(book: AddressBook, a: seq<ProtocolRule>, b: seq<ProtocolRule>, k: string)
    requires k in RuleMap(book, a) && k in RuleMap(book, b)
    ensures var older, newer, changes := RuleMap(book, a), RuleMap(book, b), Members(ProtocolsDiff(book, a, b));
            var inside := RulesInside(older, changes, UnsaidRules(book, a, b).names);
            newer[k] == if k in inside then inside[k] else older[k]
  {
    hide KeyedDiff, FnSet, PatchFns, FnsDiff, AddressKey, ContractsOf, Inside, Members, IndexNamed, NamesIn;
    var ka, kb := Keys(ByAddress(book), ContractsOf(a)), Keys(ByAddress(book), ContractsOf(b));
    var x, y := a[IndexOf(ka, k)].fns, b[IndexOf(kb, k)].fns;
    InsideOfDiff(book, Protocols, ContractsOf(a), ContractsOf(b), Rules(a, b), k);
    NamesOfDiff(book, Protocols, ContractsOf(a), ContractsOf(b), Rules(a, b), k);
    FnsPatched(x, y, IndexOf(kb, k));
    FnsDiffEmpty(x, y, IndexOf(kb, k));
    SameFnsMeaning(x, y);
  }

  lemma {:induction false} RulesPatched(book: AddressBook, a: seq<ProtocolRule>, b: seq<ProtocolRule>)
    ensures PatchRules(book, RuleMap(book, a), Members(ProtocolsDiff(book, a, b)), UnsaidRules(book, a, b))
         == RuleMap(book, b)
  {
    hide ProtocolsDiff, AddressKey, RemovedKeys, AddedKeys, OfEntries, Members, PatchMap, RulesInside, RuleMap, NamesIn;
    var older, newer, changes := RuleMap(book, a), RuleMap(book, b), Members(ProtocolsDiff(book, a, b));
    var unsaid := UnsaidRules(book, a, b);
    RuleChanges(book, a, b);
    forall k | k in older && k in newer
      ensures var inside := RulesInside(older, changes, unsaid.names);
              newer[k] == if k in inside then inside[k] else older[k]
    {
      RuleInside(book, a, b, k);
    }
    MapPatched(older, newer, RemovedKeys(ByAddress(book), OfEntries(changes)),
               RulesInside(older, changes, unsaid.names), Coming(book, changes, unsaid.added));
  }

  lemma CapChanges(book: AddressBook, a: seq<RecipientCap>, b: seq<RecipientCap>)
    ensures var older, newer, changes := CapMap(book, a), CapMap(book, b), Members(CapsDiff(book, a, b));
            && RemovedKeys(ByAddress(book), OfEntries(changes)) == older.Keys - newer.Keys
            && AddedKeys(ByAddress(book), OfEntries(changes)) == newer.Keys - older.Keys
  {
    hide KeyedDiff, AddressKey, RemovedKeys, AddedKeys, RecipientsOf, OfEntries, Members;
    EntriesOfDiff(book, RecipientWindowCaps, RecipientsOf(a), RecipientsOf(b), Caps(a, b));
  }

  lemma CapInside(book: AddressBook, a: seq<RecipientCap>, b: seq<RecipientCap>, k: string)
    requires k in CapMap(book, a) && k in CapMap(book, b)
    ensures var older, newer, changes := CapMap(book, a), CapMap(book, b), Members(CapsDiff(book, a, b));
            var inside := CapsInside(older, changes, UnsaidCaps(book, a, b).names);
            newer[k] == if k in inside then inside[k] else older[k]
  {
    hide KeyedDiff, PatchCap, AddressKey, RecipientsOf, Inside, Members, IndexNamed, NamesIn;
    var ka, kb := Keys(ByAddress(book), RecipientsOf(a)), Keys(ByAddress(book), RecipientsOf(b));
    InsideOfDiff(book, RecipientWindowCaps, RecipientsOf(a), RecipientsOf(b), Caps(a, b), k);
    NamesOfDiff(book, RecipientWindowCaps, RecipientsOf(a), RecipientsOf(b), Caps(a, b), k);
    CapPatched(a[IndexOf(ka, k)].cap, b[IndexOf(kb, k)].cap, IndexOf(kb, k));
  }

  lemma {:induction false} CapsPatched(book: AddressBook, a: seq<RecipientCap>, b: seq<RecipientCap>)
    ensures PatchCaps(book, CapMap(book, a), Members(CapsDiff(book, a, b)), UnsaidCaps(book, a, b)) == CapMap(book, b)
  {
    hide CapsDiff, AddressKey, RemovedKeys, AddedKeys, OfEntries, Members, PatchMap, CapsInside, CapMap, NamesIn;
    var older, newer, changes := CapMap(book, a), CapMap(book, b), Members(CapsDiff(book, a, b));
    var unsaid := UnsaidCaps(book, a, b);
    CapChanges(book, a, b);
    forall k | k in older && k in newer
      ensures var inside := CapsInside(older, changes, unsaid.names);
              newer[k] == if k in inside then inside[k] else older[k]
    {
      CapInside(book, a, b, k);
    }
    MapPatched(older, newer, RemovedKeys(ByAddress(book), OfEntries(changes)),
               CapsInside(older, changes, unsaid.names), Coming(book, changes, unsaid.added));
  }

  lemma ScalarsPatched(book: AddressBook, a: Policy, b: Policy, f: Field)
    requires f in SCALARS
    ensures PatchScalar(ScalarOf(a, f), Section(Diff(book, a, b), f)) == ScalarOf(b, f)
  {
    hide Diff, PatchScalar, ScalarDiff, ScalarOf;
    SectionOfDiff(book, a, b, f);
    ScalarPatched(f, ScalarOf(a, f), ScalarOf(b, f));
  }

  lemma AddressesPatched(book: AddressBook, a: Policy, b: Policy, f: Field)
    requires f in ADDRESS_SETS
    ensures PatchSet(book, KeySet(ByAddress(book), AddressesOf(a, f)), Section(Diff(book, a, b), f))
         == KeySet(ByAddress(book), AddressesOf(b, f))
  {
    hide Diff, KeySet, AddressesOf;
    SectionOfDiff(book, a, b, f);
    ApplySetDiff(f, ToMember, AddressesOf(a, f), AddressesOf(b, f), ByAddress(book));
  }

  /**
   Applying the difference of a and b to what a means gives what b means, field by field, once the keys behind the
   indices it names and the content of the added entries are looked up in b.
   */
  lemma {:induction false} PatchGivesNewer(book: AddressBook, a: Policy, b: Policy)
    ensures Patch(book, MeaningOf(book, a), Diff(book, a, b), SupplementOf(book, a, b)) == MeaningOf(book, b)
  {
    hide Diff, UnsaidRules, UnsaidCaps, PatchScalar, PatchSet, PatchRules, PatchCaps, ScalarOf, AddressesOf, KeySet;
    hide RuleMap, CapMap, Section;
    forall f | f in SCALARS
      ensures PatchScalar(ScalarOf(a, f), Section(Diff(book, a, b), f)) == ScalarOf(b, f)
    {
      ScalarsPatched(book, a, b, f);
    }
    forall f | f in ADDRESS_SETS
      ensures PatchSet(book, KeySet(ByAddress(book), AddressesOf(a, f)), Section(Diff(book, a, b), f))
           == KeySet(ByAddress(book), AddressesOf(b, f))
    {
      AddressesPatched(book, a, b, f);
    }
    SectionOfDiff(book, a, b, Protocols);
    SectionOfDiff(book, a, b, RecipientWindowCaps);
    RulesPatched(book, a.protocols, b.protocols);
    CapsPatched(book, OrEmpty(a.recipientWindowCaps), OrEmpty(b.recipientWindowCaps));
  }

  /** The policies the patch stands for are exactly those equal to the newer one under the comparison's semantics. */
  lemma {:induction false} PatchedPolicies(book: AddressBook, a: Policy, b: Policy, p: Policy)
    ensures MeaningOf(book, p) == Patch(book, MeaningOf(book, a), Diff(book, a, b), SupplementOf(book, a, b)) <==>
            Same(book, p, b)
  {
    hide Patch, Diff, SupplementOf, Same;
    PatchGivesNewer(book, a, b);
    SameMeaning(book, p, b);
  }
}
