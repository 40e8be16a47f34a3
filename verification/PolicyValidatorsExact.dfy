/**
 Exactly what the two policy validators report, in terms of the draft's own fields, the address book and the options:
 which (path, rule) pairs, each of them once, and in which order.
 */
module PolicyValidatorsExact {
  import opened Wrappers
  import opened Policy
  import opened PolicyValidators

  // ---------------------------------------------------------------- what a rule asks

  const MAX_I128 := 170141183460469231731687303715884105727
  const MAX_U64 := 18446744073709551615

  /** The number a path points to, if any. */
  function NumberAt(p: Policy, path: Path): Option<int> {
    match path
    case PerTxCap => Some(p.perTxCap)
    case WindowSecs => Some(p.windowSecs)
    case WindowCap => Some(p.windowCap)
    case ActiveFrom => Some(p.activeFrom)
    case ActiveUntil => Some(p.activeUntil)
    case DmsGraceSecs => Some(p.dmsGraceSecs)
    case CapValue(i) =>
      if p.recipientWindowCaps.Some? && i < |p.recipientWindowCaps.value| then Some(p.recipientWindowCaps.value[i].cap)
      else None
    case _ => None
  }

  function GreatestAt(path: Path): int {
    if path in {PerTxCap, WindowCap} || path.CapValue? then MAX_I128 else MAX_U64
  }

  /** Entry i of a list of addresses, if there is one. */
  function EntryAt(p: Policy, list: List, i: nat): Option<string> {
    match list
    case Assets => if i < |p.assets| then Some(p.assets[i]) else None
    case Recipients => if i < |p.recipients| then Some(p.recipients[i]) else None
    case Blocked =>
      if p.blockedRecipients.Some? && i < |p.blockedRecipients.value| then Some(p.blockedRecipients.value[i]) else None
    case CapRecipients =>
      if p.recipientWindowCaps.Some? && i < |p.recipientWindowCaps.value|
      then Some(p.recipientWindowCaps.value[i].recipient) else None
    case Contracts => if i < |p.protocols| then Some(p.protocols[i].contract) else None
  }

  /** The canonical address of entry i, if there is such an entry and it is an address. */
  function KeyAt(book: AddressBook, p: Policy, list: List, i: nat): Option<string> {
    if EntryAt(p, list, i).Some? then book(EntryAt(p, list, i).value) else None
  }

  ghost predicate RepeatsEarlier(book: AddressBook, p: Policy, list: List, i: nat) {
    KeyAt(book, p, list, i).Some? && exists j: nat :: j < i && KeyAt(book, p, list, j) == KeyAt(book, p, list, i)
  }

  /** The entry is the guard itself; `truthy` says that an empty canonical guard address counts as none. */
  ghost predicate IsGuardAt(book: AddressBook, o: Options, truthy: bool, p: Policy, list: List, i: nat) {
    && o.guardAddress != "" && book(o.guardAddress).Some? && (truthy ==> book(o.guardAddress) != Some(""))
    && KeyAt(book, p, list, i) == book(o.guardAddress)
  }

  /** The length of a list that is limited in size. */
  function LimitedSize(p: Policy, list: List): int {
    match list
    case Recipients => |p.recipients|
    case Blocked => if p.blockedRecipients.Some? then |p.blockedRecipients.value| else 0
    case CapRecipients => if p.recipientWindowCaps.Some? then |p.recipientWindowCaps.value| else 0
    case _ => 0
  }

  predicate HasFn(p: Policy, i: nat, j: nat) {
    i < |p.protocols| && p.protocols[i].fns.Some? && j < |p.protocols[i].fns.value|
  }

  /** Function name j of rule i comes earlier in the same rule. */
  ghost predicate RepeatsName(p: Policy, i: nat, j: nat)
    requires HasFn(p, i, j)
  {
    exists k :: 0 <= k < j && p.protocols[i].fns.value[k] == p.protocols[i].fns.value[j]
  }

  /** The draft breaks the rule at the path. */
  ghost predicate Broken(book: AddressBook, o: Options, truthy: bool, p: Policy, path: Path, rule: Rule) {
    match rule
    case NegativeAmount => NumberAt(p, path).Some? && NumberAt(p, path).value < 0
    case IntegerOutOfRange => NumberAt(p, path).Some? && NumberAt(p, path).value > GreatestAt(path)
    case WindowRequiresSecs => path == WindowCap && p.windowCap > 0 && p.windowSecs == 0
    case RecipientCapRequiresWindow =>
      path.CapValue? && NumberAt(p, path).Some? && NumberAt(p, path).value > 0 && p.windowSecs == 0
    case ActiveWindowInverted => path == ActiveUntil && p.activeUntil != 0 && p.activeUntil <= p.activeFrom
    case MaxRecipientEntriesExceeded =>
      && path in {Whole(Recipients), Whole(Blocked), Whole(CapRecipients)}
      && LimitedSize(p, path.list) > o.maxRecipientEntries
    case EmptyVectorNoop =>
      || (path == Whole(Assets) && p.assets == [])
      || (path == Whole(Recipients) && p.recipients == [] && !p.allowAnyRecipient)
    case InvalidAddress =>
      path.Entry? && EntryAt(p, path.list, path.i).Some? && KeyAt(book, p, path.list, path.i).None?
    case DuplicateAsset => path.Entry? && path.list == Assets && RepeatsEarlier(book, p, Assets, path.i)
    case DuplicateRecipient => path.Entry? && path.list == Recipients && RepeatsEarlier(book, p, Recipients, path.i)
    case DuplicateBlockedRecipient => path.Entry? && path.list == Blocked && RepeatsEarlier(book, p, Blocked, path.i)
    case DuplicateRecipientWindowCap =>
      path.Entry? && path.list == CapRecipients && RepeatsEarlier(book, p, CapRecipients, path.i)
    case DuplicateProtocol => path.Entry? && path.list == Contracts && RepeatsEarlier(book, p, Contracts, path.i)
    case SelfAsAsset => path.Entry? && path.list == Assets && IsGuardAt(book, o, truthy, p, Assets, path.i)
    case SelfAsRecipient =>
      path.Entry? && path.list in {Recipients, Blocked} && IsGuardAt(book, o, truthy, p, path.list, path.i)
    case SelfAsRecipientCap =>
      path.Entry? && path.list == CapRecipients && IsGuardAt(book, o, truthy, p, CapRecipients, path.i)
    case SelfAsProtocol => path.Entry? && path.list == Contracts && IsGuardAt(book, o, truthy, p, Contracts, path.i)
    case RecipientConflict =>
      && path.Entry? && path.list == Blocked && KeyAt(book, p, Blocked, path.i).Some?
      && exists j: nat :: KeyAt(book, p, Recipients, j) == KeyAt(book, p, Blocked, path.i)
    case EmptyProtocolFunctions => path.Fns? && path.i < |p.protocols| && p.protocols[path.i].fns == Some([])
    case InvalidType => path.Fn? && HasFn(p, path.i, path.j) && p.protocols[path.i].fns.value[path.j] == ""
    case DuplicateProtocolFunction =>
      && path.Fn? && HasFn(p, path.i, path.j) && p.protocols[path.i].fns.value[path.j] != ""
      && RepeatsName(p, path.i, path.j)
  }

  // ---------------------------------------------------------------- membership, section by section

  /** f is one of the failures of entry i of a list of addresses. */
  ghost predicate EntryBroken(book: AddressBook, g: Option<string>, r: ListRules, values: seq<string>, i: nat,
                              f: Failure)
    requires i < |values|
  {
    && f.path == Entry(r.list, i)
    && (|| (f.rule == InvalidAddress && book(values[i]).None?)
        || (f.rule == r.duplicate && book(values[i]).Some? && Repeats(book, values, i))
        || (f.rule == r.self && g.Some? && book(values[i]) == g))
  }

  lemma EntryHas(book: AddressBook, g: Option<string>, r: ListRules, values: seq<string>, i: nat, f: Failure)
    requires i < |values|
    ensures f in AddressEntry(book, g, r, values, i) <==> EntryBroken(book, g, r, values, i, f)
  {
    hide Repeats;
  }

  lemma {:induction false} EntriesHave(book: AddressBook, g: Option<string>, r: ListRules, values: seq<string>, n: nat,
          f: Failure)
    requires n <= |values|
    ensures f in AddressEntries(book, g, r, values, n) <==>
            exists i: nat :: i < n && EntryBroken(book, g, r, values, i, f)
  {
    hide AddressEntry, EntryBroken;
    if n > 0 {
      EntriesHave(book, g, r, values, n - 1, f);
      EntryHas(book, g, r, values, n - 1, f);
    }
  }

  ghost predicate ConflictAt(book: AddressBook, recipients: seq<string>, blocked: seq<string>, i: nat, f: Failure)
    requires i < |blocked|
  {
    f == Failure(Entry(Blocked, i), RecipientConflict) && Conflicts(book, recipients, blocked[i])
  }

  lemma ConflictHas(book: AddressBook, recipients: seq<string>, blocked: seq<string>, i: nat, f: Failure)
    requires i < |blocked|
    ensures f in ConflictEntry(book, recipients, blocked, i) <==> ConflictAt(book, recipients, blocked, i, f)
  {
  }

  lemma {:induction false} ConflictsHave(book: AddressBook, recipients: seq<string>, blocked: seq<string>, n: nat,
          f: Failure)
    requires n <= |blocked|
    ensures f in ConflictEntries(book, recipients, blocked, n) <==>
            exists i: nat :: i < n && ConflictAt(book, recipients, blocked, i, f)
  {
    hide ConflictEntry, ConflictAt;
    if n > 0 {
      ConflictHas(book, recipients, blocked, n - 1, f);
      ConflictsHave(book, recipients, blocked, n - 1, f);
    }
  }

  lemma {:induction false} BlockedHave(book: AddressBook, g: Option<string>, recipients: seq<string>,
          blocked: seq<string>, n: nat, f: Failure)
    requires n <= |blocked|
    ensures f in BlockedEntries(book, g, recipients, blocked, n) <==>
            || f in AddressEntries(book, g, BLOCKED_RULES, blocked, n)
            || f in ConflictEntries(book, recipients, blocked, n)
  {
    hide AddressEntry, ConflictEntry;
    if n > 0 {
      BlockedHave(book, g, recipients, blocked, n - 1, f);
    }
  }

  /** f is one of the failures of a number, negative ones included. */
  ghost predicate NumberBroken(path: Path, value: int, f: Failure) {
    && f.path == path
    && ((f.rule == NegativeAmount && value < 0) || (f.rule == IntegerOutOfRange && value > GreatestAt(path)))
  }

  lemma NumberHas(path: Path, value: int, f: Failure)
    ensures f in NumberFailures(path, value, GreatestAt(path)) <==> NumberBroken(path, value, f)
    ensures f in TooLarge(path, value, GreatestAt(path)) <==>
            NumberBroken(path, value, f) && f.rule == IntegerOutOfRange
  {
  }

  ghost predicate CapBroken(caps: seq<RecipientCap>, windowSecs: int, i: nat, f: Failure)
    requires i < |caps|
  {
    || NumberBroken(CapValue(i), caps[i].cap, f)
    || (f == Failure(CapValue(i), RecipientCapRequiresWindow) && caps[i].cap > 0 && windowSecs == 0)
  }

  lemma CapHas(book: AddressBook, g: Option<string>, caps: seq<RecipientCap>, windowSecs: int, i: nat, f: Failure)
    requires i < |caps|
    ensures f in CapEntry(book, g, caps, windowSecs, i) <==>
            f in AddressEntry(book, g, CAP_RULES, RecipientsOf(caps), i) || CapBroken(caps, windowSecs, i, f)
  {
    hide AddressEntry, NumberFailures, NumberBroken;
    NumberHas(CapValue(i), caps[i].cap, f);
  }

  lemma {:induction false} CapsHave(book: AddressBook, g: Option<string>, caps: seq<RecipientCap>, windowSecs: int,
          n: nat, f: Failure)
    requires n <= |caps|
    ensures f in CapEntries(book, g, caps, windowSecs, n) <==>
            || f in AddressEntries(book, g, CAP_RULES, RecipientsOf(caps), n)
            || exists i: nat :: i < n && CapBroken(caps, windowSecs, i, f)
  {
    hide AddressEntry, CapEntry, CapBroken;
    if n > 0 {
      CapsHave(book, g, caps, windowSecs, n - 1, f);
      CapHas(book, g, caps, windowSecs, n - 1, f);
    }
  }

  lemma {:induction false} CapMaximaHave(caps: seq<RecipientCap>, n: nat, f: Failure)
    requires n <= |caps|
    ensures f in CapMaxEntries(caps, n) <==>
            f.rule == IntegerOutOfRange && exists i: nat :: i < n && NumberBroken(CapValue(i), caps[i].cap, f)
  {
    hide TooLarge, NumberBroken;
    if n > 0 {
      CapMaximaHave(caps, n - 1, f);
      NumberHas(CapValue(n - 1), caps[n - 1].cap, f);
    }
  }

  ghost predicate FnBroken(i: nat, fns: seq<string>, j: nat, f: Failure)
    requires j < |fns|
  {
    && f.path == Fn(i, j)
    && if fns[j] == "" then f.rule == InvalidType else f.rule == DuplicateProtocolFunction && RepeatsFn(fns, j)
  }

  lemma FnHas(i: nat, fns: seq<string>, j: nat, f: Failure)
    requires j < |fns|
    ensures f in FnEntry(i, fns, j) <==> FnBroken(i, fns, j, f)
  {
    hide RepeatsFn;
  }

  lemma {:induction false} FnsHave(i: nat, fns: seq<string>, n: nat, f: Failure)
    requires n <= |fns|
    ensures f in FnEntries(i, fns, n) <==> exists j: nat :: j < n && FnBroken(i, fns, j, f)
  {
    hide FnEntry, FnBroken;
    if n > 0 {
      FnHas(i, fns, n - 1, f);
      FnsHave(i, fns, n - 1, f);
    }
  }

  ghost predicate FnsBroken(i: nat, fns: Option<seq<string>>, f: Failure) {
    && fns.Some?
    && (|| (fns.value == [] && f == Failure(Fns(i), EmptyProtocolFunctions))
        || exists j: nat :: j < |fns.value| && FnBroken(i, fns.value, j, f))
  }

  lemma AllFnsHave(i: nat, fns: Option<seq<string>>, f: Failure)
    ensures f in FnsFailures(i, fns) <==> FnsBroken(i, fns, f)
  {
    hide FnEntry, FnBroken;
    if fns.Some? {
      FnsHave(i, fns.value, |fns.value|, f);
    }
  }

  lemma RuleHas(book: AddressBook, g: Option<string>, rules: seq<ProtocolRule>, i: nat, f: Failure)
    requires i < |rules|
    ensures f in RuleEntry(book, g, rules, i) <==>
            f in AddressEntry(book, g, CONTRACT_RULES, ContractsOf(rules), i) || FnsBroken(i, rules[i].fns, f)
  {
    hide AddressEntry, FnsFailures, FnsBroken, ContractsOf;
    AllFnsHave(i, rules[i].fns, f);
  }

  lemma {:induction false} RulesHave(book: AddressBook, g: Option<string>, rules: seq<ProtocolRule>, n: nat, f: Failure)
    requires n <= |rules|
    ensures f in RuleEntries(book, g, rules, n) <==>
            || f in AddressEntries(book, g, CONTRACT_RULES, ContractsOf(rules), n)
            || exists i: nat :: i < n && FnsBroken(i, rules[i].fns, f)
  {
    hide AddressEntry, RuleEntry, FnsBroken, ContractsOf;
    if n > 0 {
      RulesHave(book, g, rules, n - 1, f);
      RuleHas(book, g, rules, n - 1, f);
    }
  }

  // ---------------------------------------------------------------- from sections to rules

  ghost predicate Matches(book: AddressBook, o: Options, truthy: bool, g: Option<string>) {
    forall k :: g == Some(k) <==>
      o.guardAddress != "" && book(o.guardAddress) == Some(k) && (truthy ==> k != "")
  }

  ghost predicate Lists(p: Policy, list: List, values: seq<string>) {
    forall i: nat :: EntryAt(p, list, i) == if i < |values| then Some(values[i]) else None
  }

  lemma EntryMeans(book: AddressBook, o: Options, truthy: bool, g: Option<string>, p: Policy, r: ListRules,
                   values: seq<string>, i: nat)
    requires Matches(book, o, truthy, g) && Lists(p, r.list, values) && i < |values|
    ensures KeyAt(book, p, r.list, i) == book(values[i])
    ensures RepeatsEarlier(book, p, r.list, i) <==> book(values[i]).Some? && Repeats(book, values, i)
    ensures IsGuardAt(book, o, truthy, p, r.list, i) <==> g.Some? && book(values[i]) == g
  {
    if g.Some? {
      assert g == Some(g.value);
    }
    if book(o.guardAddress).Some? {
      assert g == Some(book(o.guardAddress).value) <==>
        o.guardAddress != "" && (truthy ==> book(o.guardAddress).value != "");
    }
    if book(values[i]).Some? && Repeats(book, values, i) {
      var j :| 0 <= j < i && book(values[j]).Some? && book(values[j]) == book(values[i]);
      assert KeyAt(book, p, r.list, j) == KeyAt(book, p, r.list, i);
    }
    if RepeatsEarlier(book, p, r.list, i) {
      var j: nat :| j < i && KeyAt(book, p, r.list, j) == KeyAt(book, p, r.list, i);
      assert book(values[j]) == book(values[i]);
    }
  }

  /** Whether a failure of this rule at an entry of this list belongs to the list's own rules. */
  ghost predicate ListRule(list: List, rule: Rule) {
    match list
    case Assets => rule in {InvalidAddress, DuplicateAsset, SelfAsAsset}
    case Recipients => rule in {InvalidAddress, DuplicateRecipient, SelfAsRecipient}
    case Blocked => rule in {InvalidAddress, DuplicateBlockedRecipient, SelfAsRecipient}
    case CapRecipients => rule in {InvalidAddress, DuplicateRecipientWindowCap, SelfAsRecipientCap}
    case Contracts => rule in {InvalidAddress, DuplicateProtocol, SelfAsProtocol}
  }

  /** Entry i breaks a rule of its list. */
  ghost predicate ListBroken(book: AddressBook, o: Options, truthy: bool, p: Policy, r: ListRules, i: nat, rule: Rule) {
    || (rule == InvalidAddress && EntryAt(p, r.list, i).Some? && KeyAt(book, p, r.list, i).None?)
    || (rule == r.duplicate && RepeatsEarlier(book, p, r.list, i))
    || (rule == r.self && IsGuardAt(book, o, truthy, p, r.list, i))
  }

  ghost predicate IsListRules(r: ListRules) {
    r in {ASSET_RULES, RECIPIENT_RULES, BLOCKED_RULES, CAP_RULES, CONTRACT_RULES}
  }

  lemma ListBrokenMeans(book: AddressBook, o: Options, truthy: bool, p: Policy, r: ListRules, i: nat, rule: Rule)
    requires IsListRules(r)
    ensures ListBroken(book, o, truthy, p, r, i, rule) <==>
            ListRule(r.list, rule) && Broken(book, o, truthy, p, Entry(r.list, i), rule)
  {
    hide KeyAt, EntryAt, IsGuardAt, RepeatsEarlier, NumberAt, LimitedSize, HasFn;
    match r.list {
      case Assets =>
      case Recipients =>
      case Blocked =>
      case CapRecipients =>
      case Contracts =>
    }
  }

  lemma EntryBrokenMeans(book: AddressBook, o: Options, truthy: bool, g: Option<string>, p: Policy, r: ListRules,
                         values: seq<string>, i: nat, f: Failure)
    requires Matches(book, o, truthy, g) && Lists(p, r.list, values) && i < |values|
    ensures EntryBroken(book, g, r, values, i, f) <==>
            f.path == Entry(r.list, i) && ListBroken(book, o, truthy, p, r, i, f.rule)
  {
    hide KeyAt, EntryAt, IsGuardAt, RepeatsEarlier, Repeats, Matches;
    EntryMeans(book, o, truthy, g, p, r, values, i);
  }

  /** A list reports exactly what its own rules find at its entries. */
  lemma ListHas(book: AddressBook, o: Options, truthy: bool, g: Option<string>, p: Policy, r: ListRules,
                values: seq<string>, f: Failure)
    requires Matches(book, o, truthy, g) && Lists(p, r.list, values) && IsListRules(r)
    ensures f in AddressEntries(book, g, r, values, |values|) <==>
            && f.path.Entry? && f.path.list == r.list && ListRule(r.list, f.rule)
            && Broken(book, o, truthy, p, f.path, f.rule)
  {
    hide KeyAt, EntryAt, IsGuardAt, RepeatsEarlier, Matches, AddressEntries, Broken, EntryBroken, ListBroken;
    hide IsListRules, ListRule;
    EntriesHave(book, g, r, values, |values|, f);
    forall i: nat | i < |values|
      ensures EntryBroken(book, g, r, values, i, f) <==>
              f.path == Entry(r.list, i) && ListBroken(book, o, truthy, p, r, i, f.rule)
    {
      EntryBrokenMeans(book, o, truthy, g, p, r, values, i, f);
    }
    if f.path.Entry? && f.path.list == r.list {
      ListBrokenMeans(book, o, truthy, p, r, f.path.i, f.rule);
      if f.path.i >= |values| {
        NoEntry(book, o, truthy, p, r, f.path.i, f.rule);
      }
    }
  }

  lemma NoEntry(book: AddressBook, o: Options, truthy: bool, p: Policy, r: ListRules, i: nat, rule: Rule)
    requires EntryAt(p, r.list, i).None?
    ensures !ListBroken(book, o, truthy, p, r, i, rule)
  {
    hide EntryAt;
  }

  /** The part of validateGuardPolicy that looks after a path, in order. */
  function Section(path: Path): nat {
    match path
    case PerTxCap => 0
    case WindowSecs => 1
    case WindowCap => 2
    case Whole(list) => 3 + SectionOf(list)
    case Entry(list, _) => 3 + SectionOf(list)
    case CapValue(_) => 3 + SectionOf(CapRecipients)
    case Fns(_) => 3 + SectionOf(Contracts)
    case Fn(_, _) => 3 + SectionOf(Contracts)
    case ActiveFrom => 8
    case ActiveUntil => 9
    case DmsGraceSecs => 10
  }

  function SectionOf(list: List): nat {
    match list
    case Assets => 0
    case Contracts => 1
    case Recipients => 2
    case Blocked => 3
    case CapRecipients => 4
  }

  lemma WindowHas(book: AddressBook, o: Options, truthy: bool, p: Policy, f: Failure)
    ensures f in WindowFailures(p) <==> Section(f.path) < 3 && Broken(book, o, truthy, p, f.path, f.rule)
  {
    hide NumberFailures;
    NumberHas(PerTxCap, p.perTxCap, f);
    NumberHas(WindowSecs, p.windowSecs, f);
    NumberHas(WindowCap, p.windowCap, f);
  }

  lemma ActiveHas(book: AddressBook, o: Options, truthy: bool, p: Policy, f: Failure)
    ensures f in ActiveFailures(p) <==> Section(f.path) >= 8 && Broken(book, o, truthy, p, f.path, f.rule)
  {
    hide NumberFailures;
    NumberHas(ActiveFrom, p.activeFrom, f);
    NumberHas(ActiveUntil, p.activeUntil, f);
    NumberHas(DmsGraceSecs, p.dmsGraceSecs, f);
  }

  lemma AssetsHave(book: AddressBook, o: Options, truthy: bool, g: Option<string>, p: Policy, f: Failure)
    requires Matches(book, o, truthy, g)
    ensures f in NoAssets(p) + AddressEntries(book, g, ASSET_RULES, p.assets, |p.assets|) <==>
            Section(f.path) == 3 && Broken(book, o, truthy, p, f.path, f.rule)
  {
    hide Matches, AddressEntries, KeyAt, IsGuardAt, RepeatsEarlier, LimitedSize;
    ListHas(book, o, truthy, g, p, ASSET_RULES, p.assets, f);
  }

  lemma RecipientsHave(book: AddressBook, o: Options, truthy: bool, g: Option<string>, p: Policy, f: Failure)
    requires Matches(book, o, truthy, g)
    ensures f in RecipientFailures(book, g, o, p) <==>
            Section(f.path) == 5 && Broken(book, o, truthy, p, f.path, f.rule)
  {
    hide Matches, AddressEntries, KeyAt, IsGuardAt, RepeatsEarlier;
    ListHas(book, o, truthy, g, p, RECIPIENT_RULES, p.recipients, f);
  }

  ghost predicate ConflictsWith(book: AddressBook, p: Policy, i: nat) {
    && KeyAt(book, p, Blocked, i).Some?
    && exists j: nat :: KeyAt(book, p, Recipients, j) == KeyAt(book, p, Blocked, i)
  }

  lemma ConflictMeans(book: AddressBook, p: Policy, i: nat)
    ensures i < |OrEmpty(p.blockedRecipients)| ==>
              (Conflicts(book, p.recipients, OrEmpty(p.blockedRecipients)[i]) <==> ConflictsWith(book, p, i))
    ensures i >= |OrEmpty(p.blockedRecipients)| ==> !ConflictsWith(book, p, i)
  {
    var blocked := OrEmpty(p.blockedRecipients);
    if i < |blocked| && Conflicts(book, p.recipients, blocked[i]) {
      var j :| 0 <= j < |p.recipients| && book(p.recipients[j]) == book(blocked[i]);
      assert KeyAt(book, p, Recipients, j) == KeyAt(book, p, Blocked, i);
    }
  }

  lemma AllConflictsHave(book: AddressBook, o: Options, truthy: bool, p: Policy, f: Failure)
    ensures f in ConflictEntries(book, p.recipients, OrEmpty(p.blockedRecipients), |OrEmpty(p.blockedRecipients)|) <==>
            f.rule == RecipientConflict && Broken(book, o, truthy, p, f.path, f.rule)
  {
    hide Conflicts, KeyAt, NumberAt, LimitedSize;
    var blocked := OrEmpty(p.blockedRecipients);
    ConflictsHave(book, p.recipients, blocked, |blocked|, f);
    if f.path.Entry? && f.path.list == Blocked {
      ConflictMeans(book, p, f.path.i);
      assert f.rule == RecipientConflict ==>
          (Broken(book, o, truthy, p, f.path, f.rule) <==> ConflictsWith(book, p, f.path.i));
      if f.path.i < |blocked| {
        assert ConflictAt(book, p.recipients, blocked, f.path.i, f) <==>
            f.rule == RecipientConflict && Conflicts(book, p.recipients, blocked[f.path.i]);
      }
    }
  }

  lemma BlockedListHas(book: AddressBook, o: Options, truthy: bool, g: Option<string>, p: Policy, f: Failure)
    requires Matches(book, o, truthy, g)
    ensures f in BlockedFailures(book, g, o, p) <==>
            Section(f.path) == 6 && Broken(book, o, truthy, p, f.path, f.rule)
  {
    hide Matches, AddressEntries, ConflictEntries, BlockedEntries, KeyAt, IsGuardAt, RepeatsEarlier;
    var blocked := OrEmpty(p.blockedRecipients);
    ListHas(book, o, truthy, g, p, BLOCKED_RULES, blocked, f);
    AllConflictsHave(book, o, truthy, p, f);
    BlockedHave(book, g, p.recipients, blocked, |blocked|, f);
  }

  lemma CapValuesHave(book: AddressBook, o: Options, truthy: bool, p: Policy, f: Failure)
    ensures var caps := OrEmpty(p.recipientWindowCaps);
            (exists i: nat :: i < |caps| && CapBroken(caps, p.windowSecs, i, f)) <==>
            f.path.CapValue? && Broken(book, o, truthy, p, f.path, f.rule)
  {
    hide KeyAt, EntryAt, LimitedSize, HasFn;
    var caps := OrEmpty(p.recipientWindowCaps);
    if f.path.CapValue? && f.path.i < |caps| {
      assert CapBroken(caps, p.windowSecs, f.path.i, f) <==> Broken(book, o, truthy, p, f.path, f.rule);
    }
  }

  lemma CapListHas(book: AddressBook, o: Options, truthy: bool, g: Option<string>, p: Policy, f: Failure)
    requires Matches(book, o, truthy, g)
    ensures f in CapFailures(book, g, o, p) <==>
            Section(f.path) == 7 && Broken(book, o, truthy, p, f.path, f.rule)
  {
    hide Matches, AddressEntries, CapEntries, CapBroken, KeyAt, IsGuardAt, RepeatsEarlier;
    var caps := OrEmpty(p.recipientWindowCaps);
    ListHas(book, o, truthy, g, p, CAP_RULES, RecipientsOf(caps), f);
    CapsHave(book, g, caps, p.windowSecs, |caps|, f);
    CapValuesHave(book, o, truthy, p, f);
  }

  lemma FnsPathsHave(book: AddressBook, o: Options, truthy: bool, p: Policy, f: Failure)
    ensures (exists i: nat :: i < |p.protocols| && FnsBroken(i, p.protocols[i].fns, f)) <==>
            (f.path.Fns? || f.path.Fn?) && Broken(book, o, truthy, p, f.path, f.rule)
  {
    hide KeyAt, EntryAt, LimitedSize;
    if (f.path.Fns? || f.path.Fn?) && f.path.i < |p.protocols| {
      var fns := p.protocols[f.path.i].fns;
      if f.path.Fn? && fns.Some? && f.path.j < |fns.value| {
        assert FnBroken(f.path.i, fns.value, f.path.j, f) <==> Broken(book, o, truthy, p, f.path, f.rule);
      }
      assert FnsBroken(f.path.i, fns, f) <==> Broken(book, o, truthy, p, f.path, f.rule);
    }
  }

  lemma RuleListHas(book: AddressBook, o: Options, truthy: bool, g: Option<string>, p: Policy, f: Failure)
    requires Matches(book, o, truthy, g)
    ensures f in RuleEntries(book, g, p.protocols, |p.protocols|) <==>
            Section(f.path) == 4 && Broken(book, o, truthy, p, f.path, f.rule)
  {
    hide Matches, AddressEntries, RuleEntries, FnsBroken, KeyAt, IsGuardAt, RepeatsEarlier;
    ListHas(book, o, truthy, g, p, CONTRACT_RULES, ContractsOf(p.protocols), f);
    RulesHave(book, g, p.protocols, |p.protocols|, f);
    FnsPathsHave(book, o, truthy, p, f);
  }

  lemma GuardMatches(book: AddressBook, o: Options)
    ensures Matches(book, o, true, TruthyGuard(book, o)) && Matches(book, o, false, GuardKey(book, o))
  {
  }

  /** validateGuardPolicy reports a rule at a path exactly when the draft breaks it there. */
  lemma {:induction false} ReportedExactly(book: AddressBook, o: Options, p: Policy, f: Failure)
    ensures f in ValidatorFailures(book, o, p) <==> Broken(book, o, true, p, f.path, f.rule)
  {
    hide Matches, WindowFailures, AddressEntries, NoAssets, RuleEntries, RecipientFailures, BlockedFailures;
    hide CapFailures, ActiveFailures, Broken, TruthyGuard;
    var g := TruthyGuard(book, o);
    GuardMatches(book, o);
    WindowHas(book, o, true, p, f);
    AssetsHave(book, o, true, g, p, f);
    RuleListHas(book, o, true, g, p, f);
    RecipientsHave(book, o, true, g, p, f);
    BlockedListHas(book, o, true, g, p, f);
    CapListHas(book, o, true, g, p, f);
    ActiveHas(book, o, true, p, f);
  }

  // ---------------------------------------------------------------- enforceCodeRules

  /** All but what is left to the schema itself: signs, and the caps that need a window. */
  predicate CodeEnforced(r: Rule) {
    r !in {NegativeAmount, WindowRequiresSecs, RecipientCapRequiresWindow}
  }

  lemma CodeNumbersHave(book: AddressBook, o: Options, truthy: bool, p: Policy, f: Failure)
    ensures f in CodeNumbers(p) <==>
            f.rule == IntegerOutOfRange && !f.path.CapValue? && Broken(book, o, truthy, p, f.path, f.rule)
  {
    hide TooLarge;
    NumberHas(PerTxCap, p.perTxCap, f);
    NumberHas(WindowSecs, p.windowSecs, f);
    NumberHas(WindowCap, p.windowCap, f);
    NumberHas(ActiveFrom, p.activeFrom, f);
    NumberHas(ActiveUntil, p.activeUntil, f);
    NumberHas(DmsGraceSecs, p.dmsGraceSecs, f);
  }

  lemma CodeCapsHave(book: AddressBook, o: Options, truthy: bool, p: Policy, f: Failure)
    ensures f in CapMaxEntries(OrEmpty(p.recipientWindowCaps), |OrEmpty(p.recipientWindowCaps)|) <==>
            f.rule == IntegerOutOfRange && f.path.CapValue? && Broken(book, o, truthy, p, f.path, f.rule)
  {
    hide KeyAt, EntryAt, LimitedSize, HasFn;
    var caps := OrEmpty(p.recipientWindowCaps);
    CapMaximaHave(caps, |caps|, f);
    if f.rule == IntegerOutOfRange && f.path.CapValue? && f.path.i < |caps| {
      assert NumberBroken(CapValue(f.path.i), caps[f.path.i].cap, f) <==> Broken(book, o, truthy, p, f.path, f.rule);
    }
  }

  lemma CodeSizesHave(book: AddressBook, o: Options, truthy: bool, p: Policy, f: Failure)
    ensures f in CodeSizes(o, p) <==>
            f.rule == MaxRecipientEntriesExceeded && Broken(book, o, truthy, p, f.path, f.rule)
  {
    hide KeyAt, EntryAt, NumberAt, HasFn;
  }

  lemma AdvisoriesHave(book: AddressBook, o: Options, truthy: bool, p: Policy, f: Failure)
    ensures f in Inverted(p) + NoAssets(p) + NoRecipients(p) <==>
            f.rule in {ActiveWindowInverted, EmptyVectorNoop} && Broken(book, o, truthy, p, f.path, f.rule)
  {
    hide KeyAt, EntryAt, NumberAt, HasFn, LimitedSize;
  }

  lemma CodeAddressesHave(book: AddressBook, o: Options, p: Policy, f: Failure)
    ensures f in CodeAddresses(book, o, p) <==>
            && f.path.Entry? && f.path.list != Contracts && ListRule(f.path.list, f.rule)
            && Broken(book, o, false, p, f.path, f.rule)
  {
    hide Matches, AddressEntries, ListRule, Broken, GuardKey;
    var g, blocked, caps := GuardKey(book, o), OrEmpty(p.blockedRecipients),
        RecipientsOf(OrEmpty(p.recipientWindowCaps));
    GuardMatches(book, o);
    ListHas(book, o, false, g, p, ASSET_RULES, p.assets, f);
    ListHas(book, o, false, g, p, RECIPIENT_RULES, p.recipients, f);
    ListHas(book, o, false, g, p, BLOCKED_RULES, blocked, f);
    ListHas(book, o, false, g, p, CAP_RULES, caps, f);
  }

  /** Every broken rule that is not the schema's is looked for in one of the parts. */
  lemma SomePartLooks(book: AddressBook, o: Options, truthy: bool, p: Policy, path: Path, rule: Rule)
    requires Broken(book, o, truthy, p, path, rule)
    ensures CodeEnforced(rule) <==>
            || rule in {IntegerOutOfRange, MaxRecipientEntriesExceeded, ActiveWindowInverted, EmptyVectorNoop}
            || rule == RecipientConflict || Section(path) == 4
            || (path.Entry? && path.list != Contracts && ListRule(path.list, rule))
  {
    hide KeyAt, EntryAt, IsGuardAt, RepeatsEarlier, HasFn, LimitedSize;
  }

  /** enforceCodeRules reports a rule at a path exactly when the draft breaks it there and it is not the schema's. */
  lemma {:induction false} CodeReportedExactly(book: AddressBook, o: Options, p: Policy, f: Failure)
    ensures f in CodeFailures(book, o, p) <==>
            CodeEnforced(f.rule) && Broken(book, o, false, p, f.path, f.rule)
  {
    hide Matches, CodeNumbers, CodeSizes, CodeAddresses, CapMaxEntries, RuleEntries, ConflictEntries, GuardKey, Broken;
    hide NoAssets, NoRecipients, Inverted, ListRule;
    GuardMatches(book, o);
    CodeNumbersHave(book, o, false, p, f);
    CodeCapsHave(book, o, false, p, f);
    CodeSizesHave(book, o, false, p, f);
    CodeAddressesHave(book, o, p, f);
    RuleListHas(book, o, false, GuardKey(book, o), p, f);
    AllConflictsHave(book, o, false, p, f);
    AdvisoriesHave(book, o, false, p, f);
    if Broken(book, o, false, p, f.path, f.rule) {
      SomePartLooks(book, o, false, p, f.path, f.rule);
    }
  }

  // ---------------------------------------------------------------- the order of the report

  /** Where a failure stands: its section, its entry there, and its place among the reports of that entry. */
  datatype Place = Place(section: nat, index: nat, detail: nat)

  predicate Precedes(a: Place, b: Place) {
    || a.section < b.section
    || (a.section == b.section && a.index < b.index)
    || (a.section == b.section && a.index == b.index && a.detail < b.detail)
  }

  function Index(path: Path): nat {
    match path
    case Entry(_, i) => i + 1
    case CapValue(i) => i + 1
    case Fns(i) => i + 1
    case Fn(i, _) => i + 1
    case _ => 0
  }

  function Detail(path: Path, rule: Rule): nat {
    match path
    case Fns(_) => 2
    case Fn(_, j) => 3 + j
    case CapValue(_) => if rule == RecipientCapRequiresWindow then 3 else 2
    case Entry(_, _) =>
      if rule == RecipientConflict then 2
      else if rule in {SelfAsAsset, SelfAsRecipient, SelfAsRecipientCap, SelfAsProtocol} then 1 else 0
    case _ => if rule in {WindowRequiresSecs, ActiveWindowInverted, MaxRecipientEntriesExceeded} then 1 else 0
  }

  function PlaceOf(f: Failure): Place {
    Place(Section(f.path), Index(f.path), Detail(f.path, f.rule))
  }

  ghost predicate InOrder(s: seq<Failure>) {
    forall i, j :: 0 <= i < j < |s| ==> Precedes(PlaceOf(s[i]), PlaceOf(s[j]))
  }

  /** The failures are in order and stand from lo on, before hi. */
  ghost predicate Stand(s: seq<Failure>, lo: Place, hi: Place) {
    InOrder(s) && forall i :: 0 <= i < |s| ==> !Precedes(PlaceOf(s[i]), lo) && Precedes(PlaceOf(s[i]), hi)
  }

  lemma StandAppend(a: seq<Failure>, b: seq<Failure>, lo: Place, mid: Place, hi: Place)
    requires Stand(a, lo, mid) && Stand(b, mid, hi)
    requires !Precedes(mid, lo) && !Precedes(hi, mid)
    ensures Stand(a + b, lo, hi)
  {
    hide PlaceOf;
  }

  lemma StandWider(s: seq<Failure>, lo: Place, hi: Place, hi': Place)
    requires Stand(s, lo, hi) && !Precedes(hi', hi)
    ensures Stand(s, lo, hi')
  {
    hide PlaceOf;
  }

  lemma StandNothing(lo: Place, hi: Place)
    ensures Stand([], lo, hi)
  {
  }

  /** One more entry of a section. */
  lemma StandNext(front: seq<Failure>, last: seq<Failure>, section: nat, n: nat)
    requires n > 0
    requires Stand(front, Place(section, 1, 0), Place(section, n, 0))
    requires Stand(last, Place(section, n, 0), Place(section, n + 1, 0))
    ensures Stand(front + last, Place(section, 1, 0), Place(section, n + 1, 0))
  {
    hide Stand;
    StandAppend(front, last, Place(section, 1, 0), Place(section, n, 0), Place(section, n + 1, 0));
  }

  lemma StandIf(b: bool, path: Path, rule: Rule, lo: Place, hi: Place)
    requires !Precedes(PlaceOf(Failure(path, rule)), lo) && Precedes(PlaceOf(Failure(path, rule)), hi)
    ensures Stand(If(b, path, rule), lo, hi)
  {
    hide PlaceOf;
  }

  lemma StandNumber(path: Path, value: int, maximum: int, s: nat, i: nat, d: nat)
    requires PlaceOf(Failure(path, NegativeAmount)) == Place(s, i, d) == PlaceOf(Failure(path, IntegerOutOfRange))
    ensures Stand(NumberFailures(path, value, maximum), Place(s, i, d), Place(s, i, d + 1))
  {
    hide PlaceOf;
  }

  lemma StandEntry(book: AddressBook, g: Option<string>, r: ListRules, values: seq<string>, i: nat)
    requires i < |values| && IsListRules(r)
    ensures Stand(AddressEntry(book, g, r, values, i), Place(3 + SectionOf(r.list), i + 1, 0),
                  Place(3 + SectionOf(r.list), i + 1, 2))
  {
    hide Repeats;
    var s := 3 + SectionOf(r.list);
    if book(values[i]).Some? {
      StandIf(Repeats(book, values, i), Entry(r.list, i), r.duplicate, Place(s, i + 1, 0), Place(s, i + 1, 1));
      StandIf(g.Some? && book(values[i]) == g, Entry(r.list, i), r.self, Place(s, i + 1, 1), Place(s, i + 1, 2));
      StandAppend(If(Repeats(book, values, i), Entry(r.list, i), r.duplicate),
                  If(g.Some? && book(values[i]) == g, Entry(r.list, i), r.self),
                  Place(s, i + 1, 0), Place(s, i + 1, 1), Place(s, i + 1, 2));
    }
  }

  lemma {:induction false} StandEntries(book: AddressBook, g: Option<string>, r: ListRules, values: seq<string>, n: nat)
    requires n <= |values| && IsListRules(r)
    ensures Stand(AddressEntries(book, g, r, values, n), Place(3 + SectionOf(r.list), 1, 0),
                  Place(3 + SectionOf(r.list), n + 1, 0))
  {
    hide Stand, AddressEntry, SectionOf, IsListRules;
    var s := 3 + SectionOf(r.list);
    if n == 0 {
      StandNothing(Place(s, 1, 0), Place(s, 1, 0));
    } else {
      StandEntries(book, g, r, values, n - 1);
      StandEntry(book, g, r, values, n - 1);
      StandWider(AddressEntry(book, g, r, values, n - 1), Place(s, n, 0), Place(s, n, 2), Place(s, n + 1, 0));
      StandNext(AddressEntries(book, g, r, values, n - 1), AddressEntry(book, g, r, values, n - 1), s, n);
    }
  }

  lemma StandBlockedEntry(book: AddressBook, g: Option<string>, recipients: seq<string>, blocked: seq<string>, i: nat)
    requires i < |blocked|
    ensures Stand(BlockedEntry(book, g, recipients, blocked, i), Place(6, i + 1, 0), Place(6, i + 2, 0))
  {
    hide Stand, AddressEntry, Conflicts, If;
    StandEntry(book, g, BLOCKED_RULES, blocked, i);
    StandIf(Conflicts(book, recipients, blocked[i]), Entry(Blocked, i), RecipientConflict, Place(6, i + 1, 2),
            Place(6, i + 2, 0));
    StandAppend(AddressEntry(book, g, BLOCKED_RULES, blocked, i), ConflictEntry(book, recipients, blocked, i),
                Place(6, i + 1, 0), Place(6, i + 1, 2), Place(6, i + 2, 0));
  }

  lemma {:induction false} StandBlocked(book: AddressBook, g: Option<string>, recipients: seq<string>,
          blocked: seq<string>, n: nat)
    requires n <= |blocked|
    ensures Stand(BlockedEntries(book, g, recipients, blocked, n), Place(6, 1, 0), Place(6, n + 1, 0))
  {
    hide Stand, BlockedEntry;
    if n == 0 {
      StandNothing(Place(6, 1, 0), Place(6, 1, 0));
    } else {
      StandBlocked(book, g, recipients, blocked, n - 1);
      StandBlockedEntry(book, g, recipients, blocked, n - 1);
      StandNext(BlockedEntries(book, g, recipients, blocked, n - 1),
                BlockedEntry(book, g, recipients, blocked, n - 1), 6, n);
    }
  }

  lemma StandCapEntry(book: AddressBook, g: Option<string>, caps: seq<RecipientCap>, windowSecs: int, i: nat)
    requires i < |caps|
    ensures Stand(CapEntry(book, g, caps, windowSecs, i), Place(7, i + 1, 0), Place(7, i + 2, 0))
  {
    hide Stand, AddressEntry, NumberFailures, If;
    var address, number := AddressEntry(book, g, CAP_RULES, RecipientsOf(caps), i),
        NumberFailures(CapValue(i), caps[i].cap, I128_MAX);
    var window := If(caps[i].cap > 0 && windowSecs == 0, CapValue(i), RecipientCapRequiresWindow);
    StandEntry(book, g, CAP_RULES, RecipientsOf(caps), i);
    StandNumber(CapValue(i), caps[i].cap, I128_MAX, 7, i + 1, 2);
    StandIf(caps[i].cap > 0 && windowSecs == 0, CapValue(i), RecipientCapRequiresWindow, Place(7, i + 1, 3),
            Place(7, i + 2, 0));
    StandAppend(number, window, Place(7, i + 1, 2), Place(7, i + 1, 3), Place(7, i + 2, 0));
    StandAppend(address, number + window, Place(7, i + 1, 0), Place(7, i + 1, 2), Place(7, i + 2, 0));
  }

  lemma {:induction false} StandCaps(book: AddressBook, g: Option<string>, caps: seq<RecipientCap>, windowSecs: int,
          n: nat)
    requires n <= |caps|
    ensures Stand(CapEntries(book, g, caps, windowSecs, n), Place(7, 1, 0), Place(7, n + 1, 0))
  {
    hide Stand, CapEntry;
    if n == 0 {
      StandNothing(Place(7, 1, 0), Place(7, 1, 0));
    } else {
      StandCaps(book, g, caps, windowSecs, n - 1);
      StandCapEntry(book, g, caps, windowSecs, n - 1);
      StandNext(CapEntries(book, g, caps, windowSecs, n - 1), CapEntry(book, g, caps, windowSecs, n - 1), 7, n);
    }
  }

  lemma {:induction false} StandFns(i: nat, fns: seq<string>, n: nat)
    requires n <= |fns|
    ensures Stand(FnEntries(i, fns, n), Place(4, i + 1, 2), Place(4, i + 1, 3 + n))
  {
    if n > 0 {
      hide Stand, RepeatsFn, If;
      StandFns(i, fns, n - 1);
      StandFn(i, fns, n - 1);
      StandAppend(FnEntries(i, fns, n - 1), FnEntry(i, fns, n - 1), Place(4, i + 1, 2), Place(4, i + 1, 2 + n),
                  Place(4, i + 1, 3 + n));
    }
  }

  lemma StandFn(i: nat, fns: seq<string>, j: nat)
    requires j < |fns|
    ensures Stand(FnEntry(i, fns, j), Place(4, i + 1, 3 + j), Place(4, i + 1, 4 + j))
  {
    hide RepeatsFn;
    StandIf(RepeatsFn(fns, j), Fn(i, j), DuplicateProtocolFunction, Place(4, i + 1, 3 + j), Place(4, i + 1, 4 + j));
  }

  lemma StandRule(book: AddressBook, g: Option<string>, rules: seq<ProtocolRule>, i: nat)
    requires i < |rules|
    ensures Stand(RuleEntry(book, g, rules, i), Place(4, i + 1, 0), Place(4, i + 2, 0))
  {
    hide AddressEntry, FnEntries;
    var address, functions := AddressEntry(book, g, CONTRACT_RULES, ContractsOf(rules), i),
        FnsFailures(i, rules[i].fns);
    StandEntry(book, g, CONTRACT_RULES, ContractsOf(rules), i);
    if rules[i].fns.Some? {
      var fns := rules[i].fns.value;
      StandFns(i, fns, |fns|);
      StandWider(FnEntries(i, fns, |fns|), Place(4, i + 1, 2), Place(4, i + 1, 3 + |fns|), Place(4, i + 2, 0));
    }
    assert Stand(functions, Place(4, i + 1, 2), Place(4, i + 2, 0));
    StandAppend(address, functions, Place(4, i + 1, 0), Place(4, i + 1, 2), Place(4, i + 2, 0));
  }

  lemma {:induction false} StandRules(book: AddressBook, g: Option<string>, rules: seq<ProtocolRule>, n: nat)
    requires n <= |rules|
    ensures Stand(RuleEntries(book, g, rules, n), Place(4, 1, 0), Place(4, n + 1, 0))
  {
    hide Stand, RuleEntry;
    if n == 0 {
      StandNothing(Place(4, 1, 0), Place(4, 1, 0));
    } else {
      StandRules(book, g, rules, n - 1);
      StandRule(book, g, rules, n - 1);
      StandNext(RuleEntries(book, g, rules, n - 1), RuleEntry(book, g, rules, n - 1), 4, n);
    }
  }

  /** The start of a section. */
  function At(section: nat): Place {
    Place(section, 0, 0)
  }

  lemma StandWindow(p: Policy)
    ensures Stand(WindowFailures(p), At(0), At(3))
  {
    hide Stand, NumberFailures, If;
    var one, two := NumberFailures(PerTxCap, p.perTxCap, I128_MAX), NumberFailures(WindowSecs, p.windowSecs, U64_MAX);
    var three := NumberFailures(WindowCap, p.windowCap, I128_MAX);
    var four := If(p.windowCap > 0 && p.windowSecs == 0, WindowCap, WindowRequiresSecs);
    StandNumber(PerTxCap, p.perTxCap, I128_MAX, 0, 0, 0);
    StandNumber(WindowSecs, p.windowSecs, U64_MAX, 1, 0, 0);
    StandNumber(WindowCap, p.windowCap, I128_MAX, 2, 0, 0);
    StandIf(p.windowCap > 0 && p.windowSecs == 0, WindowCap, WindowRequiresSecs, Place(2, 0, 1), At(3));
    StandWider(one, At(0), Place(0, 0, 1), At(1));
    StandWider(two, At(1), Place(1, 0, 1), At(2));
    StandAppend(one, two, At(0), At(1), At(2));
    StandAppend(one + two, three, At(0), At(2), Place(2, 0, 1));
    StandAppend(one + two + three, four, At(0), Place(2, 0, 1), At(3));
  }

  lemma StandActive(p: Policy)
    ensures Stand(ActiveFailures(p), At(8), At(11))
  {
    hide Stand, NumberFailures, If;
    var one, two := NumberFailures(ActiveFrom, p.activeFrom, U64_MAX),
        NumberFailures(ActiveUntil, p.activeUntil, U64_MAX);
    var three, four := Inverted(p), NumberFailures(DmsGraceSecs, p.dmsGraceSecs, U64_MAX);
    StandNumber(ActiveFrom, p.activeFrom, U64_MAX, 8, 0, 0);
    StandNumber(ActiveUntil, p.activeUntil, U64_MAX, 9, 0, 0);
    StandIf(p.activeUntil != 0 && p.activeUntil <= p.activeFrom, ActiveUntil, ActiveWindowInverted, Place(9, 0, 1),
            At(10));
    StandNumber(DmsGraceSecs, p.dmsGraceSecs, U64_MAX, 10, 0, 0);
    StandWider(one, At(8), Place(8, 0, 1), At(9));
    StandWider(four, At(10), Place(10, 0, 1), At(11));
    StandAppend(one, two, At(8), At(9), Place(9, 0, 1));
    StandAppend(one + two, three, At(8), Place(9, 0, 1), At(10));
    StandAppend(one + two + three, four, At(8), At(10), At(11));
  }

  /** The reports about a list as a whole stand before those about its entries. */
  lemma StandList(head: seq<Failure>, entries: seq<Failure>, section: nat, n: nat)
    requires Stand(head, At(section), Place(section, 1, 0))
    requires Stand(entries, Place(section, 1, 0), Place(section, n + 1, 0))
    ensures Stand(head + entries, At(section), At(section + 1))
  {
    hide Stand;
    StandWider(entries, Place(section, 1, 0), Place(section, n + 1, 0), At(section + 1));
    StandAppend(head, entries, At(section), Place(section, 1, 0), At(section + 1));
  }

  lemma StandHeads(o: Options, p: Policy)
    ensures Stand(NoAssets(p), At(3), Place(3, 1, 0))
    ensures Stand(NoRecipients(p) + TooMany(o, Recipients, |p.recipients|), At(5), Place(5, 1, 0))
    ensures Stand(TooMany(o, Blocked, |OrEmpty(p.blockedRecipients)|), At(6), Place(6, 1, 0))
    ensures Stand(TooMany(o, CapRecipients, |OrEmpty(p.recipientWindowCaps)|), At(7), Place(7, 1, 0))
  {
    hide Stand, If;
    StandIf(p.assets == [], Whole(Assets), EmptyVectorNoop, At(3), Place(3, 1, 0));
    StandIf(p.recipients == [] && !p.allowAnyRecipient, Whole(Recipients), EmptyVectorNoop, At(5), Place(5, 0, 1));
    StandIf(|p.recipients| > o.maxRecipientEntries, Whole(Recipients), MaxRecipientEntriesExceeded, Place(5, 0, 1),
            Place(5, 1, 0));
    StandAppend(NoRecipients(p), TooMany(o, Recipients, |p.recipients|), At(5), Place(5, 0, 1), Place(5, 1, 0));
    StandIf(|OrEmpty(p.blockedRecipients)| > o.maxRecipientEntries, Whole(Blocked), MaxRecipientEntriesExceeded, At(6),
            Place(6, 1, 0));
    StandIf(|OrEmpty(p.recipientWindowCaps)| > o.maxRecipientEntries, Whole(CapRecipients),
            MaxRecipientEntriesExceeded, At(7), Place(7, 1, 0));
  }

  /** validateGuardPolicy reports in the order of the fields, entry by entry, and nothing twice. */
  lemma {:induction false} ReportedInOrder(book: AddressBook, o: Options, p: Policy)
    ensures InOrder(ValidatorFailures(book, o, p))
  {
    hide WindowFailures, AddressEntries, NoAssets, NoRecipients, TooMany, RuleEntries, BlockedEntries, CapEntries;
    hide ActiveFailures, TruthyGuard, Stand, InOrder;
    var g, blocked, caps := TruthyGuard(book, o), OrEmpty(p.blockedRecipients), OrEmpty(p.recipientWindowCaps);
    var one, two := NoAssets(p) + AddressEntries(book, g, ASSET_RULES, p.assets, |p.assets|),
        RuleEntries(book, g, p.protocols, |p.protocols|);
    var three, four := RecipientFailures(book, g, o, p), BlockedFailures(book, g, o, p);
    var five := CapFailures(book, g, o, p);
    StandHeads(o, p);
    StandWindow(p);
    StandEntries(book, g, ASSET_RULES, p.assets, |p.assets|);
    StandList(NoAssets(p), AddressEntries(book, g, ASSET_RULES, p.assets, |p.assets|), 3, |p.assets|);
    StandRules(book, g, p.protocols, |p.protocols|);
    StandNothing(At(4), Place(4, 1, 0));
    StandList([], two, 4, |p.protocols|);
    assert [] + two == two;
    StandEntries(book, g, RECIPIENT_RULES, p.recipients, |p.recipients|);
    StandList(NoRecipients(p) + TooMany(o, Recipients, |p.recipients|),
              AddressEntries(book, g, RECIPIENT_RULES, p.recipients, |p.recipients|), 5, |p.recipients|);
    StandBlocked(book, g, p.recipients, blocked, |blocked|);
    StandList(TooMany(o, Blocked, |blocked|), BlockedEntries(book, g, p.recipients, blocked, |blocked|), 6, |blocked|);
    StandCaps(book, g, caps, p.windowSecs, |caps|);
    StandList(TooMany(o, CapRecipients, |caps|), CapEntries(book, g, caps, p.windowSecs, |caps|), 7, |caps|);
    StandActive(p);
    StandTogether(WindowFailures(p), one, two, three, four, five, ActiveFailures(p));
  }

  lemma StandTogether(w: seq<Failure>, one: seq<Failure>, two: seq<Failure>, three: seq<Failure>, four: seq<Failure>,
                      five: seq<Failure>, a: seq<Failure>)
    requires Stand(w, At(0), At(3)) && Stand(one, At(3), At(4)) && Stand(two, At(4), At(5))
    requires Stand(three, At(5), At(6)) && Stand(four, At(6), At(7)) && Stand(five, At(7), At(8))
    requires Stand(a, At(8), At(11))
    ensures InOrder(w + one + two + three + four + five + a)
  {
    assert Stand(w + one + two + three + four + five + a, At(0), At(11)) by {
      hide Stand;
      StandAppend(w, one, At(0), At(3), At(4));
      StandAppend(w + one, two, At(0), At(4), At(5));
      StandAppend(w + one + two, three, At(0), At(5), At(6));
      StandAppend(w + one + two + three, four, At(0), At(6), At(7));
      StandAppend(w + one + two + three + four, five, At(0), At(7), At(8));
      StandAppend(w + one + two + three + four + five, a, At(0), At(8), At(11));
    }
  }

  lemma TailMember(s: seq<Failure>, f: Failure)
    requires InOrder(s) && s != []
    ensures f in s[1..] <==> f in s && f != s[0]
  {
    hide PlaceOf;
    if f in s[1..] {
      var i :| 1 <= i < |s| && s[i] == f;
      assert Precedes(PlaceOf(s[0]), PlaceOf(s[i]));
    }
  }

  /** A report in order is determined by its failures. */
  lemma {:induction false} OneOrder(s: seq<Failure>, t: seq<Failure>)
    requires InOrder(s) && InOrder(t) && forall f :: f in s <==> f in t
    ensures s == t
  {
    hide PlaceOf;
    assert s != [] ==> s[0] in s;
    assert t != [] ==> t[0] in t;
    if s != [] && t != [] {
      assert s[0] == t[0];
      var s', t' := s[1..], t[1..];
      forall f
        ensures f in s' <==> f in t'
      {
        TailMember(s, f);
        TailMember(t, f);
      }
      OneOrder(s', t');
      assert s == [s[0]] + s' && t == [t[0]] + t';
    }
  }

  /** So what validateGuardPolicy returns is the only report, in order, of exactly the rules the draft breaks. */
  lemma {:induction false} ReportIsDetermined(book: AddressBook, o: Options, p: Policy, s: seq<Failure>)
    ensures s == ValidatorFailures(book, o, p) <==>
            InOrder(s) && forall f :: f in s <==> Broken(book, o, true, p, f.path, f.rule)
  {
    hide ValidatorFailures, InOrder, Broken;
    ReportedInOrder(book, o, p);
    forall f
      ensures f in ValidatorFailures(book, o, p) <==> Broken(book, o, true, p, f.path, f.rule)
    {
      ReportedExactly(book, o, p, f);
    }
    if InOrder(s) && forall f :: f in s <==> Broken(book, o, true, p, f.path, f.rule) {
      OneOrder(s, ValidatorFailures(book, o, p));
    }
  }
}
