/**
 What the two policy validators report, entry by entry and without loops, and the code-enforced half of the
 schema-driven one, enforceCodeRules (src/policy-schema.ts), with its loops; those of validateGuardPolicy are in
 GuardPolicyValidator.  Drafts have fields of their declared types.  Failures carry their path and rule; message
 texts are left out.
 */
module PolicyValidators {
  import opened Wrappers
  import opened Policy

  datatype Rule =
    | NegativeAmount | WindowRequiresSecs | RecipientCapRequiresWindow
    | IntegerOutOfRange | MaxRecipientEntriesExceeded | InvalidAddress | InvalidType
    | DuplicateAsset | SelfAsAsset
    | DuplicateRecipient | DuplicateBlockedRecipient | SelfAsRecipient | RecipientConflict
    | DuplicateRecipientWindowCap | SelfAsRecipientCap
    | DuplicateProtocol | SelfAsProtocol | EmptyProtocolFunctions | DuplicateProtocolFunction
    | ActiveWindowInverted | EmptyVectorNoop

  datatype List = Assets | Recipients | Blocked | CapRecipients | Contracts

  /**
   `name`, `list`, `list[i]` (or the address inside entry i), `caps[i].cap`, `protocols[i].fns`,
   `protocols[i].fns[j]`.
   */
  datatype Path =
    | PerTxCap | WindowSecs | WindowCap | ActiveFrom | ActiveUntil | DmsGraceSecs
    | Whole(list: List)
    | Entry(list: List, i: nat)
    | CapValue(i: nat)
    | Fns(i: nat)
    | Fn(i: nat, j: nat)

  datatype Failure = Failure(path: Path, rule: Rule)

  /** What both validators are given besides the draft. */
  datatype Options = Options(guardAddress: string, maxRecipientEntries: int)

  /** The guard's comparison key; an empty option is treated as not supplied. */
  function GuardKey(book: AddressBook, o: Options): Option<string> {
    if o.guardAddress == "" then None else book(o.guardAddress)
  }

  // ---------------------------------------------------------------- rules, entry by entry

  function If(b: bool, path: Path, rule: Rule): seq<Failure> {
    if b then [Failure(path, rule)] else []
  }

  /** The rules for one list of addresses. */
  datatype ListRules = ListRules(list: List, duplicate: Rule, self: Rule)

  const ASSET_RULES := ListRules(Assets, DuplicateAsset, SelfAsAsset)
  const RECIPIENT_RULES := ListRules(Recipients, DuplicateRecipient, SelfAsRecipient)
  const BLOCKED_RULES := ListRules(Blocked, DuplicateBlockedRecipient, SelfAsRecipient)
  const CAP_RULES := ListRules(CapRecipients, DuplicateRecipientWindowCap, SelfAsRecipientCap)
  const CONTRACT_RULES := ListRules(Contracts, DuplicateProtocol, SelfAsProtocol)

  /** An earlier entry has the same canonical address. */
  ghost predicate Repeats(book: AddressBook, values: seq<string>, i: nat)
    requires i < |values|
  {
    exists j :: 0 <= j < i && book(values[j]).Some? && book(values[j]) == book(values[i])
  }

  ghost function AddressEntry(book: AddressBook, guard: Option<string>, r: ListRules, values: seq<string>,
          i: nat): seq<Failure>
    requires i < |values|
  {
    if book(values[i]).None? then [Failure(Entry(r.list, i), InvalidAddress)]
    else If(Repeats(book, values, i), Entry(r.list, i), r.duplicate)
         + If(guard.Some? && book(values[i]) == guard, Entry(r.list, i), r.self)
  }

  ghost function AddressEntries(book: AddressBook, guard: Option<string>, r: ListRules, values: seq<string>,
          n: nat): seq<Failure>
    requires n <= |values|
  {
    if n == 0 then [] else AddressEntries(book, guard, r, values, n - 1) + AddressEntry(book, guard, r, values, n - 1)
  }

  /** The blocked entry is also an allowed recipient. */
  ghost predicate Conflicts(book: AddressBook, recipients: seq<string>, v: string) {
    book(v).Some? && exists j :: 0 <= j < |recipients| && book(recipients[j]) == book(v)
  }

  ghost function ConflictEntry(book: AddressBook, recipients: seq<string>, blocked: seq<string>, i: nat): seq<Failure>
    requires i < |blocked|
  {
    If(Conflicts(book, recipients, blocked[i]), Entry(Blocked, i), RecipientConflict)
  }

  ghost function ConflictEntries(book: AddressBook, recipients: seq<string>, blocked: seq<string>, n: nat): seq<Failure>
    requires n <= |blocked|
  {
    if n == 0 then []
    else ConflictEntries(book, recipients, blocked, n - 1) + ConflictEntry(book, recipients, blocked, n - 1)
  }

  ghost predicate RepeatsFn(fns: seq<string>, j: nat)
    requires j < |fns|
  {
    exists k :: 0 <= k < j && fns[k] == fns[j]
  }

  ghost function FnEntry(i: nat, fns: seq<string>, j: nat): seq<Failure>
    requires j < |fns|
  {
    if fns[j] == "" then [Failure(Fn(i, j), InvalidType)]
    else If(RepeatsFn(fns, j), Fn(i, j), DuplicateProtocolFunction)
  }

  ghost function FnEntries(i: nat, fns: seq<string>, n: nat): seq<Failure>
    requires n <= |fns|
  {
    if n == 0 then [] else FnEntries(i, fns, n - 1) + FnEntry(i, fns, n - 1)
  }

  ghost function FnsFailures(i: nat, fns: Option<seq<string>>): seq<Failure> {
    if fns.None? then []
    else if fns.value == [] then [Failure(Fns(i), EmptyProtocolFunctions)]
    else FnEntries(i, fns.value, |fns.value|)
  }

  ghost function RuleEntry(book: AddressBook, guard: Option<string>, rules: seq<ProtocolRule>, i: nat): seq<Failure>
    requires i < |rules|
  {
    AddressEntry(book, guard, CONTRACT_RULES, ContractsOf(rules), i) + FnsFailures(i, rules[i].fns)
  }

  ghost function RuleEntries(book: AddressBook, guard: Option<string>, rules: seq<ProtocolRule>, n: nat): seq<Failure>
    requires n <= |rules|
  {
    if n == 0 then [] else RuleEntries(book, guard, rules, n - 1) + RuleEntry(book, guard, rules, n - 1)
  }

  function TooLarge(path: Path, value: int, maximum: int): seq<Failure> {
    If(value > maximum, path, IntegerOutOfRange)
  }

  function CapMaxEntries(caps: seq<RecipientCap>, n: nat): seq<Failure>
    requires n <= |caps|
  {
    if n == 0 then [] else CapMaxEntries(caps, n - 1) + TooLarge(CapValue(n - 1), caps[n - 1].cap, I128_MAX)
  }

  function Inverted(p: Policy): seq<Failure> {
    If(p.activeUntil != 0 && p.activeUntil <= p.activeFrom, ActiveUntil, ActiveWindowInverted)
  }

  function TooMany(o: Options, list: List, n: nat): seq<Failure> {
    If(n > o.maxRecipientEntries, Whole(list), MaxRecipientEntriesExceeded)
  }

  function NoAssets(p: Policy): seq<Failure> {
    If(p.assets == [], Whole(Assets), EmptyVectorNoop)
  }

  function NoRecipients(p: Policy): seq<Failure> {
    If(p.recipients == [] && !p.allowAnyRecipient, Whole(Recipients), EmptyVectorNoop)
  }

  // ---------------------------------------------------------------- what enforceCodeRules reports

  function CodeNumbers(p: Policy): seq<Failure> {
    TooLarge(PerTxCap, p.perTxCap, I128_MAX)
    + TooLarge(WindowSecs, p.windowSecs, U64_MAX)
    + TooLarge(WindowCap, p.windowCap, I128_MAX)
    + TooLarge(ActiveFrom, p.activeFrom, U64_MAX)
    + TooLarge(ActiveUntil, p.activeUntil, U64_MAX)
    + TooLarge(DmsGraceSecs, p.dmsGraceSecs, U64_MAX)
  }

  function CodeSizes(o: Options, p: Policy): seq<Failure> {
    TooMany(o, Recipients, |p.recipients|)
    + TooMany(o, Blocked, |OrEmpty(p.blockedRecipients)|)
    + TooMany(o, CapRecipients, |OrEmpty(p.recipientWindowCaps)|)
  }

  ghost function CodeAddresses(book: AddressBook, o: Options, p: Policy): seq<Failure> {
    var g, blocked, caps := GuardKey(book, o), OrEmpty(p.blockedRecipients),
        RecipientsOf(OrEmpty(p.recipientWindowCaps));
    AddressEntries(book, g, ASSET_RULES, p.assets, |p.assets|)
    + AddressEntries(book, g, RECIPIENT_RULES, p.recipients, |p.recipients|)
    + AddressEntries(book, g, BLOCKED_RULES, blocked, |blocked|)
    + AddressEntries(book, g, CAP_RULES, caps, |caps|)
  }

  ghost function CodeFailures(book: AddressBook, o: Options, p: Policy): seq<Failure> {
    var blocked, caps := OrEmpty(p.blockedRecipients), OrEmpty(p.recipientWindowCaps);
    CodeNumbers(p)
    + CapMaxEntries(caps, |caps|)
    + CodeSizes(o, p)
    + CodeAddresses(book, o, p)
    + RuleEntries(book, GuardKey(book, o), p.protocols, |p.protocols|)
    + ConflictEntries(book, p.recipients, blocked, |blocked|)
    + (Inverted(p) + NoAssets(p) + NoRecipients(p))
  }

  // ---------------------------------------------------------------- what validateGuardPolicy reports

  /** A required integer field: non-negative, then at most its wire maximum. */
  function NumberFailures(path: Path, value: int, maximum: int): seq<Failure> {
    if value < 0 then [Failure(path, NegativeAmount)] else TooLarge(path, value, maximum)
  }

  function WindowFailures(p: Policy): seq<Failure> {
    NumberFailures(PerTxCap, p.perTxCap, I128_MAX)
    + NumberFailures(WindowSecs, p.windowSecs, U64_MAX)
    + NumberFailures(WindowCap, p.windowCap, I128_MAX)
    + If(p.windowCap > 0 && p.windowSecs == 0, WindowCap, WindowRequiresSecs)
  }

  ghost function BlockedEntry(book: AddressBook, guard: Option<string>, recipients: seq<string>, blocked: seq<string>,
          i: nat): seq<Failure>
    requires i < |blocked|
  {
    AddressEntry(book, guard, BLOCKED_RULES, blocked, i) + ConflictEntry(book, recipients, blocked, i)
  }

  ghost function BlockedEntries(book: AddressBook, guard: Option<string>, recipients: seq<string>,
          blocked: seq<string>, n: nat): seq<Failure>
    requires n <= |blocked|
  {
    if n == 0 then []
    else BlockedEntries(book, guard, recipients, blocked, n - 1) + BlockedEntry(book, guard, recipients, blocked, n - 1)
  }

  function CapAmount(caps: seq<RecipientCap>, windowSecs: int, i: nat): seq<Failure>
    requires i < |caps|
  {
    NumberFailures(CapValue(i), caps[i].cap, I128_MAX)
    + If(caps[i].cap > 0 && windowSecs == 0, CapValue(i), RecipientCapRequiresWindow)
  }

  ghost function CapEntry(book: AddressBook, guard: Option<string>, caps: seq<RecipientCap>, windowSecs: int,
          i: nat): seq<Failure>
    requires i < |caps|
  {
    AddressEntry(book, guard, CAP_RULES, RecipientsOf(caps), i) + CapAmount(caps, windowSecs, i)
  }

  ghost function CapEntries(book: AddressBook, guard: Option<string>, caps: seq<RecipientCap>, windowSecs: int,
          n: nat): seq<Failure>
    requires n <= |caps|
  {
    if n == 0 then [] else CapEntries(book, guard, caps, windowSecs, n - 1) + CapEntry(book, guard, caps, windowSecs,
        n - 1)
  }

  function ActiveFailures(p: Policy): seq<Failure> {
    NumberFailures(ActiveFrom, p.activeFrom, U64_MAX)
    + NumberFailures(ActiveUntil, p.activeUntil, U64_MAX)
    + Inverted(p)
    + NumberFailures(DmsGraceSecs, p.dmsGraceSecs, U64_MAX)
  }

  ghost function RecipientFailures(book: AddressBook, guard: Option<string>, o: Options, p: Policy): seq<Failure> {
    NoRecipients(p) + TooMany(o, Recipients, |p.recipients|)
    + AddressEntries(book, guard, RECIPIENT_RULES, p.recipients, |p.recipients|)
  }

  ghost function BlockedFailures(book: AddressBook, guard: Option<string>, o: Options, p: Policy): seq<Failure> {
    var blocked := OrEmpty(p.blockedRecipients);
    TooMany(o, Blocked, |blocked|) + BlockedEntries(book, guard, p.recipients, blocked, |blocked|)
  }

  ghost function CapFailures(book: AddressBook, guard: Option<string>, o: Options, p: Policy): seq<Failure> {
    var caps := OrEmpty(p.recipientWindowCaps);
    TooMany(o, CapRecipients, |caps|) + CapEntries(book, guard, caps, p.windowSecs, |caps|)
  }

  /** This validator tests the guard key for truthiness, so an empty key counts as none. */
  function Truthy(key: Option<string>): Option<string> {
    if key == Some("") then None else key
  }

  function TruthyGuard(book: AddressBook, o: Options): Option<string> {
    Truthy(GuardKey(book, o))
  }

  ghost function ValidatorFailures(book: AddressBook, o: Options, p: Policy): seq<Failure> {
    var g := TruthyGuard(book, o);
    WindowFailures(p)
    + (NoAssets(p) + AddressEntries(book, g, ASSET_RULES, p.assets, |p.assets|))
    + RuleEntries(book, g, p.protocols, |p.protocols|)
    + RecipientFailures(book, g, o, p)
    + BlockedFailures(book, g, o, p)
    + CapFailures(book, g, o, p)
    + ActiveFailures(p)
  }

  // ---------------------------------------------------------------- the sink

  class FailureSink {
    var items: seq<Failure>

    constructor ()
      ensures items == []
    {
      items := [];
    }

    method Push(path: Path, rule: Rule)
      modifies this
      ensures items == old(items) + [Failure(path, rule)]
    {
      items := items + [Failure(path, rule)];
    }

    method PushIf(b: bool, path: Path, rule: Rule)
      modifies this
      ensures items == old(items) + If(b, path, rule)
    {
      if b {
        items := items + [Failure(path, rule)];
      }
    }
  }

  lemma Assoc(a: seq<Failure>, b: seq<Failure>, c: seq<Failure>)
    ensures (a + b) + c == a + (b + c)
  {
  }

  /** The keys collected from the valid entries seen so far. */
  ghost function SeenKeys(book: AddressBook, values: seq<string>): set<string> {
    set v | v in values && book(v).Some? :: book(v).value
  }

  lemma SeenNext(book: AddressBook, values: seq<string>, i: nat)
    requires i < |values|
    ensures SeenKeys(book, values[..i + 1])
         == SeenKeys(book, values[..i]) + if book(values[i]).Some? then {book(values[i]).value} else {}
    ensures book(values[i]).Some? ==> (book(values[i]).value in SeenKeys(book, values[..i]) <==> Repeats(book, values,
        i))
  {
    assert values[..i + 1] == values[..i] + [values[i]];
    if book(values[i]).Some? && Repeats(book, values, i) {
      var j :| 0 <= j < i && book(values[j]).Some? && book(values[j]) == book(values[i]);
      assert values[..i][j] == values[j];
    }
  }

  /** What the key set kept by a loop says about entry i. */
  lemma EntryBySeen(book: AddressBook, guard: Option<string>, r: ListRules, values: seq<string>, i: nat,
      seen: set<string>)
    requires i < |values| && seen == SeenKeys(book, values[..i])
    ensures book(values[i]).None? ==>
              && AddressEntry(book, guard, r, values, i) == [Failure(Entry(r.list, i), InvalidAddress)]
              && SeenKeys(book, values[..i + 1]) == seen
    ensures book(values[i]).Some? ==>
              && AddressEntry(book, guard, r, values, i)
                 == If(book(values[i]).value in seen, Entry(r.list, i), r.duplicate)
                    + If(guard == book(values[i]), Entry(r.list, i), r.self)
              && SeenKeys(book, values[..i + 1]) == seen + {book(values[i]).value}
  {
    SeenNext(book, values, i);
  }

  /** What the function names seen so far say about name j. */
  ghost predicate SeenFns(seen: set<string>, fns: seq<string>, j: nat)
    requires j <= |fns|
  {
    forall f :: f in seen <==> f != "" && exists k :: 0 <= k < j && fns[k] == f
  }

  lemma FnBySeen(seen: set<string>, fns: seq<string>, j: nat)
    requires j < |fns| && SeenFns(seen, fns, j)
    ensures fns[j] != "" ==> (fns[j] in seen <==> RepeatsFn(fns, j))
    ensures SeenFns(if fns[j] == "" then seen else seen + {fns[j]}, fns, j + 1)
  {
  }

  lemma FnCases(i: nat, fns: seq<string>, j: nat)
    requires j < |fns|
    ensures FnEntry(i, fns, j) == if |fns[j]| == 0 then [Failure(Fn(i, j), InvalidType)]
                                  else If(RepeatsFn(fns, j), Fn(i, j), DuplicateProtocolFunction)
  {
  }

  lemma NothingSeen(book: AddressBook, values: seq<string>)
    ensures SeenKeys(book, values[..0]) == {}
  {
  }

  lemma NoFnsSeen(fns: seq<string>)
    ensures SeenFns({}, fns, 0)
  {
  }

  lemma NoFns(i: nat)
    ensures FnsFailures(i, None) == []
  {
  }

  lemma ConflictMeansSeen(book: AddressBook, recipients: seq<string>, v: string)
    requires book(v).Some?
    ensures Conflicts(book, recipients, v) <==> book(v).value in SeenKeys(book, recipients)
  {
  }

  // ---------------------------------------------------------------- enforceCodeRules

  method CheckAddressList(out: FailureSink, book: AddressBook, guard: Option<string>, r: ListRules, list: seq<string>)
    modifies out
    ensures out.items == old(out.items) + AddressEntries(book, guard, r, list, |list|)
  {
    hide SeenKeys, AddressEntry, If;
    var seen: set<string> := {};
    ghost var was := out.items;
    assert SeenKeys(book, list[..0]) == {} by { NothingSeen(book, list); }
    for index := 0 to |list|
      invariant seen == SeenKeys(book, list[..index])
      invariant out.items == was + AddressEntries(book, guard, r, list, index)
    {
      ghost var before := out.items;
      EntryBySeen(book, guard, r, list, index, seen);
      Assoc(was, AddressEntries(book, guard, r, list, index), AddressEntry(book, guard, r, list, index));
      var entry := list[index];
      if book(entry).None? {
        out.Push(Entry(r.list, index), InvalidAddress);
        continue;
      }
      var norm := book(entry).value;
      Assoc(before, If(norm in seen, Entry(r.list, index), r.duplicate), If(guard == Some(norm), Entry(r.list, index),
          r.self));
      out.PushIf(norm in seen, Entry(r.list, index), r.duplicate);
      seen := seen + {norm};
      out.PushIf(guard.Some? && norm == guard.value, Entry(r.list, index), r.self);
    }
  }

  method CheckFns(out: FailureSink, i: nat, fns: seq<string>)
    modifies out
    ensures out.items == old(out.items) + FnsFailures(i, Some(fns))
  {
    hide If, SeenFns, RepeatsFn, FnEntry;
    ghost var was := out.items;
    if |fns| == 0 {
      out.Push(Fns(i), EmptyProtocolFunctions);
    }
    ghost var empty := if fns == [] then [Failure(Fns(i), EmptyProtocolFunctions)] else [];
    var seenFns: set<string> := {};
    assert SeenFns({}, fns, 0) by { NoFnsSeen(fns); }
    for fnIndex := 0 to |fns|
      invariant SeenFns(seenFns, fns, fnIndex)
      invariant out.items == was + (empty + FnEntries(i, fns, fnIndex))
    {
      Assoc(empty, FnEntries(i, fns, fnIndex), FnEntry(i, fns, fnIndex));
      Assoc(was, empty + FnEntries(i, fns, fnIndex), FnEntry(i, fns, fnIndex));
      FnBySeen(seenFns, fns, fnIndex);
      FnCases(i, fns, fnIndex);
      var fn := fns[fnIndex];
      if |fn| == 0 {
        out.Push(Fn(i, fnIndex), InvalidType);
        continue;
      }
      out.PushIf(fn in seenFns, Fn(i, fnIndex), DuplicateProtocolFunction);
      seenFns := seenFns + {fn};
    }
  }

  method CheckProtocols(out: FailureSink, book: AddressBook, guard: Option<string>, rules: seq<ProtocolRule>)
    modifies out
    ensures out.items == old(out.items) + RuleEntries(book, guard, rules, |rules|)
  {
    hide SeenKeys, AddressEntry, If, FnsFailures, ContractsOf;
    ghost var was, contracts := out.items, ContractsOf(rules);
    var seenProtocols: set<string> := {};
    assert SeenKeys(book, contracts[..0]) == {} by { NothingSeen(book, contracts); }
    for index := 0 to |rules|
      invariant seenProtocols == SeenKeys(book, contracts[..index])
      invariant out.items == was + RuleEntries(book, guard, rules, index)
    {
      ghost var before, address := out.items, AddressEntry(book, guard, CONTRACT_RULES, contracts, index);
      EntryBySeen(book, guard, CONTRACT_RULES, contracts, index, seenProtocols);
      Assoc(was, RuleEntries(book, guard, rules, index), RuleEntry(book, guard, rules, index));
      Assoc(before, address, FnsFailures(index, rules[index].fns));
      var contract := rules[index].contract;
      if book(contract).Some? {
        var norm := book(contract).value;
        Assoc(before, If(norm in seenProtocols, Entry(Contracts, index), DuplicateProtocol),
              If(guard == Some(norm), Entry(Contracts, index), SelfAsProtocol));
        out.PushIf(norm in seenProtocols, Entry(Contracts, index), DuplicateProtocol);
        seenProtocols := seenProtocols + {norm};
        out.PushIf(guard.Some? && norm == guard.value, Entry(Contracts, index), SelfAsProtocol);
      } else {
        out.Push(Entry(Contracts, index), InvalidAddress);
      }
      if rules[index].fns.Some? {
        CheckFns(out, index, rules[index].fns.value);
      } else {
        NoFns(index);
      }
    }
  }

  method PushNumbers(out: FailureSink, p: Policy)
    requires out.items == []
    modifies out
    ensures out.items == CodeNumbers(p)
  {
    hide If;
    out.PushIf(p.perTxCap > I128_MAX, PerTxCap, IntegerOutOfRange);
    out.PushIf(p.windowSecs > U64_MAX, WindowSecs, IntegerOutOfRange);
    out.PushIf(p.windowCap > I128_MAX, WindowCap, IntegerOutOfRange);
    out.PushIf(p.activeFrom > U64_MAX, ActiveFrom, IntegerOutOfRange);
    out.PushIf(p.activeUntil > U64_MAX, ActiveUntil, IntegerOutOfRange);
    out.PushIf(p.dmsGraceSecs > U64_MAX, DmsGraceSecs, IntegerOutOfRange);
  }

  method PushCapMaxima(out: FailureSink, caps: seq<RecipientCap>)
    modifies out
    ensures out.items == old(out.items) + CapMaxEntries(caps, |caps|)
  {
    ghost var was := out.items;
    for i := 0 to |caps|
      invariant out.items == was + CapMaxEntries(caps, i)
    {
      Assoc(was, CapMaxEntries(caps, i), TooLarge(CapValue(i), caps[i].cap, I128_MAX));
      out.PushIf(caps[i].cap > I128_MAX, CapValue(i), IntegerOutOfRange);
    }
  }

  method PushSizes(out: FailureSink, o: Options, p: Policy)
    modifies out
    ensures out.items == old(out.items) + CodeSizes(o, p)
  {
    ghost var was := out.items;
    ghost var one := TooMany(o, Recipients, |p.recipients|);
    ghost var two := TooMany(o, Blocked, |OrEmpty(p.blockedRecipients)|);
    ghost var three := TooMany(o, CapRecipients, |OrEmpty(p.recipientWindowCaps)|);
    Assoc(was, one, two);
    Assoc(was, one + two, three);
    out.PushIf(|p.recipients| > o.maxRecipientEntries, Whole(Recipients), MaxRecipientEntriesExceeded);
    out.PushIf(|OrEmpty(p.blockedRecipients)| > o.maxRecipientEntries, Whole(Blocked), MaxRecipientEntriesExceeded);
    out.PushIf(|OrEmpty(p.recipientWindowCaps)| > o.maxRecipientEntries, Whole(CapRecipients),
        MaxRecipientEntriesExceeded);
  }

  method PushAddresses(out: FailureSink, book: AddressBook, o: Options, p: Policy)
    modifies out
    ensures out.items == old(out.items) + CodeAddresses(book, o, p)
  {
    var g := GuardKey(book, o);
    var blocked, caps := OrEmpty(p.blockedRecipients), RecipientsOf(OrEmpty(p.recipientWindowCaps));
    ghost var was := out.items;
    ghost var one := AddressEntries(book, g, ASSET_RULES, p.assets, |p.assets|);
    ghost var two := AddressEntries(book, g, RECIPIENT_RULES, p.recipients, |p.recipients|);
    ghost var three := AddressEntries(book, g, BLOCKED_RULES, blocked, |blocked|);
    ghost var four := AddressEntries(book, g, CAP_RULES, caps, |caps|);
    Assoc(was, one, two);
    Assoc(was, one + two, three);
    Assoc(was, one + two + three, four);
    CheckAddressList(out, book, g, ASSET_RULES, p.assets);
    CheckAddressList(out, book, g, RECIPIENT_RULES, p.recipients);
    CheckAddressList(out, book, g, BLOCKED_RULES, blocked);
    CheckAddressList(out, book, g, CAP_RULES, caps);
  }

  method PushConflicts(out: FailureSink, book: AddressBook, recipients: seq<string>, blocked: seq<string>)
    modifies out
    ensures out.items == old(out.items) + ConflictEntries(book, recipients, blocked, |blocked|)
  {
    var recipientSet := set v | v in recipients && book(v).Some? :: book(v).value;
    ghost var was := out.items;
    for i := 0 to |blocked|
      invariant out.items == was + ConflictEntries(book, recipients, blocked, i)
    {
      Assoc(was, ConflictEntries(book, recipients, blocked, i), ConflictEntry(book, recipients, blocked, i));
      if book(blocked[i]).Some? {
        ConflictMeansSeen(book, recipients, blocked[i]);
        out.PushIf(book(blocked[i]).value in recipientSet, Entry(Blocked, i), RecipientConflict);
      }
    }
  }

  method PushAdvisories(out: FailureSink, p: Policy)
    modifies out
    ensures out.items == old(out.items) + (Inverted(p) + NoAssets(p) + NoRecipients(p))
  {
    Assoc(out.items, Inverted(p), NoAssets(p));
    Assoc(out.items, Inverted(p) + NoAssets(p), NoRecipients(p));
    out.PushIf(p.activeUntil != 0 && p.activeUntil <= p.activeFrom, ActiveUntil, ActiveWindowInverted);
    out.PushIf(|p.assets| == 0, Whole(Assets), EmptyVectorNoop);
    out.PushIf(|p.recipients| == 0 && !p.allowAnyRecipient, Whole(Recipients), EmptyVectorNoop);
  }

  method EnforceCodeRules(out: FailureSink, book: AddressBook, o: Options, p: Policy)
    requires out.items == []
    modifies out
    ensures out.items == CodeFailures(book, o, p)
  {
    var blocked, caps := OrEmpty(p.blockedRecipients), OrEmpty(p.recipientWindowCaps);
    PushNumbers(out, p);
    PushCapMaxima(out, caps);
    PushSizes(out, o, p);
    PushAddresses(out, book, o, p);
    CheckProtocols(out, book, GuardKey(book, o), p.protocols);
    PushConflicts(out, book, p.recipients, blocked);
    PushAdvisories(out, p);
  }
}
