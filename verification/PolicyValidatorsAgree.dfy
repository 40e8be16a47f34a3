/** The two validators report the same code-enforced failures, each the same number of times. */
module PolicyValidatorsAgree {
  import opened Wrappers
  import opened Policy
  import opened PolicyValidators
  import opened PolicyValidatorsExact

  /** A weight of reports: how often some failure is among them, for instance. */
  type Measure = seq<Failure> -> int

  ghost predicate Additive(m: Measure) {
    m([]) == 0 && forall a, b :: m(a + b) == m(a) + m(b)
  }

  /** The schema's own rules weigh nothing. */
  ghost predicate CodeOnly(m: Measure) {
    Additive(m) && forall f: Failure :: !CodeEnforced(f.rule) ==> m([f]) == 0
  }

  lemma WeighAppend(a: seq<Failure>, b: seq<Failure>, m: Measure)
    requires CodeOnly(m)
    ensures m(a + b) == m(a) + m(b)
  {
  }

  lemma WeighEmpty(m: Measure)
    requires CodeOnly(m)
    ensures m([]) == 0
  {
  }

  lemma WeighSchemaRule(b: bool, path: Path, rule: Rule, m: Measure)
    requires CodeOnly(m) && !CodeEnforced(rule)
    ensures m(If(b, path, rule)) == 0
  {
    assert b ==> m([Failure(path, rule)]) == 0 by {
      assert !CodeEnforced(Failure(path, rule).rule);
    }
  }

  /** A wire maximum is never negative, so both validators flag the same integers as out of range. */
  lemma WeighNumber(path: Path, value: int, maximum: nat, m: Measure)
    requires CodeOnly(m)
    ensures m(NumberFailures(path, value, maximum)) == m(TooLarge(path, value, maximum))
  {
    if value < 0 {
      assert NumberFailures(path, value, maximum) == If(true, path, NegativeAmount);
      WeighSchemaRule(true, path, NegativeAmount, m);
    }
  }

  /** Reports interleaved entry by entry weigh as much as the two lists they were taken from. */
  lemma WeighZip(both: seq<Failure>, left: seq<Failure>, right: seq<Failure>,
                 l: seq<Failure>, r: seq<Failure>, r': seq<Failure>, m: Measure)
    requires CodeOnly(m) && m(both) == m(left) + m(right) && m(r) == m(r')
    ensures m(both + (l + r)) == m(left + l) + m(right + r')
  {
    WeighAppend(both, l + r, m);
    WeighAppend(l, r, m);
    WeighAppend(left, l, m);
    WeighAppend(right, r', m);
  }

  lemma {:induction false} WeighBlocked(book: AddressBook, g: Option<string>, recipients: seq<string>,
          blocked: seq<string>, n: nat, m: Measure)
    requires CodeOnly(m)
    requires n <= |blocked|
    ensures m(BlockedEntries(book, g, recipients, blocked, n))
         == m(AddressEntries(book, g, BLOCKED_RULES, blocked, n))
            + m(ConflictEntries(book, recipients, blocked, n))
  {
    hide AddressEntry, ConflictEntry, CodeOnly;
    WeighEmpty(m);
    if n > 0 {
      var i := n - 1;
      WeighBlocked(book, g, recipients, blocked, i, m);
      var entry, conflict := AddressEntry(book, g, BLOCKED_RULES, blocked, i), ConflictEntry(book, recipients,
          blocked, i);
      WeighZip(BlockedEntries(book, g, recipients, blocked, i), AddressEntries(book, g, BLOCKED_RULES, blocked, i),
               ConflictEntries(book, recipients, blocked, i), entry, conflict, conflict, m);
    }
  }

  lemma WeighCapAmount(caps: seq<RecipientCap>, windowSecs: int, i: nat, m: Measure)
    requires CodeOnly(m)
    requires i < |caps|
    ensures m(CapAmount(caps, windowSecs, i)) == m(TooLarge(CapValue(i), caps[i].cap, I128_MAX))
  {
    var number := NumberFailures(CapValue(i), caps[i].cap, I128_MAX);
    var window := If(caps[i].cap > 0 && windowSecs == 0, CapValue(i), RecipientCapRequiresWindow);
    WeighAppend(number, window, m);
    WeighNumber(CapValue(i), caps[i].cap, I128_MAX, m);
    WeighSchemaRule(caps[i].cap > 0 && windowSecs == 0, CapValue(i), RecipientCapRequiresWindow, m);
  }

  lemma {:induction false} WeighCaps(book: AddressBook, g: Option<string>, caps: seq<RecipientCap>, windowSecs: int,
          n: nat, m: Measure)
    requires CodeOnly(m)
    requires n <= |caps|
    ensures m(CapEntries(book, g, caps, windowSecs, n))
         == m(AddressEntries(book, g, CAP_RULES, RecipientsOf(caps), n)) + m(CapMaxEntries(caps, n))
  {
    hide AddressEntry, CapAmount, TooLarge, RecipientsOf, CodeOnly;
    WeighEmpty(m);
    if n > 0 {
      var i := n - 1;
      WeighCaps(book, g, caps, windowSecs, i, m);
      var entry, amount := AddressEntry(book, g, CAP_RULES, RecipientsOf(caps), i), CapAmount(caps, windowSecs, i);
      var large := TooLarge(CapValue(i), caps[i].cap, I128_MAX);
      WeighCapAmount(caps, windowSecs, i, m);
      WeighZip(CapEntries(book, g, caps, windowSecs, i), AddressEntries(book, g, CAP_RULES, RecipientsOf(caps), i),
               CapMaxEntries(caps, i), entry, amount, large, m);
    }
  }

  lemma Weigh3(a: seq<Failure>, b: seq<Failure>, c: seq<Failure>, m: Measure)
    requires CodeOnly(m)
    ensures m(a + b + c) == m(a) + m(b) + m(c)
  {
    WeighAppend(a + b, c, m);
    WeighAppend(a, b, m);
  }

  lemma Weigh4(a: seq<Failure>, b: seq<Failure>, c: seq<Failure>, d: seq<Failure>, m: Measure)
    requires CodeOnly(m)
    ensures m(a + b + c + d) == m(a) + m(b) + m(c) + m(d)
  {
    WeighAppend(a + b + c, d, m);
    Weigh3(a, b, c, m);
  }

  lemma Weigh7(a: seq<Failure>, b: seq<Failure>, c: seq<Failure>, d: seq<Failure>, e: seq<Failure>, x: seq<Failure>,
          y: seq<Failure>, m: Measure)
    requires CodeOnly(m)
    ensures m(a + b + c + d + e + x + y)
         == m(a) + m(b) + m(c) + m(d) + m(e) + m(x) + m(y)
  {
    Weigh4(a + b + c + d, e, x, y, m);
    Weigh4(a, b, c, d, m);
  }

  lemma WeighNumbers(p: Policy, m: Measure)
    requires CodeOnly(m)
    ensures m(WindowFailures(p)) + m(ActiveFailures(p)) == m(CodeNumbers(p)) + m(Inverted(p))
  {
    var n1, n2, n3 := TooLarge(PerTxCap, p.perTxCap, I128_MAX), TooLarge(WindowSecs, p.windowSecs, U64_MAX),
        TooLarge(WindowCap, p.windowCap, I128_MAX);
    var n4, n5, n6 := TooLarge(ActiveFrom, p.activeFrom, U64_MAX), TooLarge(ActiveUntil, p.activeUntil, U64_MAX),
        TooLarge(DmsGraceSecs, p.dmsGraceSecs, U64_MAX);
    Weigh4(n1 + n2 + n3, n4, n5, n6, m);
    Weigh3(n1, n2, n3, m);
    WeighNumber(PerTxCap, p.perTxCap, I128_MAX, m);
    WeighNumber(WindowSecs, p.windowSecs, U64_MAX, m);
    WeighNumber(WindowCap, p.windowCap, I128_MAX, m);
    WeighNumber(ActiveFrom, p.activeFrom, U64_MAX, m);
    WeighNumber(ActiveUntil, p.activeUntil, U64_MAX, m);
    WeighNumber(DmsGraceSecs, p.dmsGraceSecs, U64_MAX, m);
    WeighSchemaRule(p.windowCap > 0 && p.windowSecs == 0, WindowCap, WindowRequiresSecs, m);
    Weigh4(NumberFailures(PerTxCap, p.perTxCap, I128_MAX), NumberFailures(WindowSecs, p.windowSecs, U64_MAX),
           NumberFailures(WindowCap, p.windowCap, I128_MAX),
           If(p.windowCap > 0 && p.windowSecs == 0, WindowCap, WindowRequiresSecs), m);
    Weigh4(NumberFailures(ActiveFrom, p.activeFrom, U64_MAX), NumberFailures(ActiveUntil, p.activeUntil, U64_MAX),
           Inverted(p), NumberFailures(DmsGraceSecs, p.dmsGraceSecs, U64_MAX), m);
  }

  /** The total over the sections of enforceCodeRules. */
  lemma WeighCode(book: AddressBook, o: Options, p: Policy, m: Measure)
    requires CodeOnly(m)
    ensures var g, blocked, caps := GuardKey(book, o), OrEmpty(p.blockedRecipients), OrEmpty(p.recipientWindowCaps);
            m(CodeFailures(book, o, p))
            == m(CodeNumbers(p)) + m(CapMaxEntries(caps, |caps|))
               + m(TooMany(o, Recipients, |p.recipients|)) + m(TooMany(o, Blocked, |blocked|))
               + m(TooMany(o, CapRecipients, |caps|))
               + m(AddressEntries(book, g, ASSET_RULES, p.assets, |p.assets|))
               + m(AddressEntries(book, g, RECIPIENT_RULES, p.recipients, |p.recipients|))
               + m(AddressEntries(book, g, BLOCKED_RULES, blocked, |blocked|))
               + m(AddressEntries(book, g, CAP_RULES, RecipientsOf(caps), |caps|))
               + m(RuleEntries(book, g, p.protocols, |p.protocols|))
               + m(ConflictEntries(book, p.recipients, blocked, |blocked|))
               + m(Inverted(p)) + m(NoAssets(p)) + m(NoRecipients(p))
  {
    var g, blocked, caps := GuardKey(book, o), OrEmpty(p.blockedRecipients), OrEmpty(p.recipientWindowCaps);
    Weigh7(CodeNumbers(p), CapMaxEntries(caps, |caps|), CodeSizes(o, p), CodeAddresses(book, o, p),
           RuleEntries(book, g, p.protocols, |p.protocols|), ConflictEntries(book, p.recipients, blocked, |blocked|),
           Inverted(p) + NoAssets(p) + NoRecipients(p), m);
    Weigh3(TooMany(o, Recipients, |p.recipients|), TooMany(o, Blocked, |blocked|), TooMany(o, CapRecipients, |caps|),
        m);
    Weigh4(AddressEntries(book, g, ASSET_RULES, p.assets, |p.assets|),
           AddressEntries(book, g, RECIPIENT_RULES, p.recipients, |p.recipients|),
           AddressEntries(book, g, BLOCKED_RULES, blocked, |blocked|),
           AddressEntries(book, g, CAP_RULES, RecipientsOf(caps), |caps|), m);
    Weigh3(Inverted(p), NoAssets(p), NoRecipients(p), m);
  }

  /** The total over the sections of validateGuardPolicy. */
  lemma WeighValidator(book: AddressBook, o: Options, p: Policy, m: Measure)
    requires CodeOnly(m)
    ensures var g, blocked, caps := TruthyGuard(book, o), OrEmpty(p.blockedRecipients), OrEmpty(p.recipientWindowCaps);
            m(ValidatorFailures(book, o, p))
            == m(WindowFailures(p)) + m(ActiveFailures(p))
               + m(NoAssets(p)) + m(AddressEntries(book, g, ASSET_RULES, p.assets, |p.assets|))
               + m(RuleEntries(book, g, p.protocols, |p.protocols|))
               + m(NoRecipients(p)) + m(TooMany(o, Recipients, |p.recipients|))
               + m(AddressEntries(book, g, RECIPIENT_RULES, p.recipients, |p.recipients|))
               + m(TooMany(o, Blocked, |blocked|))
               + m(BlockedEntries(book, g, p.recipients, blocked, |blocked|))
               + m(TooMany(o, CapRecipients, |caps|))
               + m(CapEntries(book, g, caps, p.windowSecs, |caps|))
  {
    var g, blocked, caps := TruthyGuard(book, o), OrEmpty(p.blockedRecipients), OrEmpty(p.recipientWindowCaps);
    var assets := AddressEntries(book, g, ASSET_RULES, p.assets, |p.assets|);
    Weigh7(WindowFailures(p), NoAssets(p) + assets, RuleEntries(book, g, p.protocols, |p.protocols|),
           RecipientFailures(book, g, o, p), BlockedFailures(book, g, o, p), CapFailures(book, g, o, p),
               ActiveFailures(p), m);
    WeighAppend(NoAssets(p), assets, m);
    Weigh3(NoRecipients(p), TooMany(o, Recipients, |p.recipients|),
           AddressEntries(book, g, RECIPIENT_RULES, p.recipients, |p.recipients|), m);
    WeighAppend(TooMany(o, Blocked, |blocked|), BlockedEntries(book, g, p.recipients, blocked, |blocked|), m);
    WeighAppend(TooMany(o, CapRecipients, |caps|), CapEntries(book, g, caps, p.windowSecs, |caps|), m);
  }

  /** Whatever is weighed, as long as it leaves the schema's own rules out, both validators report the same of it. */
  lemma {:induction false} SameWeight(book: AddressBook, o: Options, p: Policy, m: Measure)
    requires CodeOnly(m) && GuardKey(book, o) != Some("")
    ensures m(ValidatorFailures(book, o, p)) == m(CodeFailures(book, o, p))
  {
    var g, blocked, caps := GuardKey(book, o), OrEmpty(p.blockedRecipients), OrEmpty(p.recipientWindowCaps);
    WeighCode(book, o, p, m);
    WeighValidator(book, o, p, m);
    WeighNumbers(p, m);
    WeighBlocked(book, g, p.recipients, blocked, |blocked|, m);
    WeighCaps(book, g, caps, p.windowSecs, |caps|, m);
  }

  /** How often f is among the code-enforced failures of s. */
  function Count(s: seq<Failure>, f: Failure): nat {
    if CodeEnforced(f.rule) then multiset(s)[f] else 0
  }

  lemma CountIsMeasure(f: Failure)
    ensures CodeOnly(s => Count(s, f))
  {
    var m: Measure := s => Count(s, f);
    forall a, b ensures m(a + b) == m(a) + m(b) {
      assert multiset(a + b) == multiset(a) + multiset(b);
    }
    forall x: Failure | !CodeEnforced(x.rule) ensures m([x]) == 0 {
      assert multiset([x])[f] == if x == f then 1 else 0;
    }
  }

  /**
   The validators agree: for every typed draft and guard address, each code-enforced (path, rule) pair is
   reported by both, equally often.  The only hypothesis is that the guard's canonical address is not the
   empty string.
   */
  lemma {:induction false} ValidatorsAgree(book: AddressBook, o: Options, p: Policy, f: Failure)
    requires GuardKey(book, o) != Some("")
    ensures Count(ValidatorFailures(book, o, p), f) == Count(CodeFailures(book, o, p), f)
  {
    CountIsMeasure(f);
    SameWeight(book, o, p, s => Count(s, f));
  }

  // ---------------------------------------------------------------- a guard whose key is the empty string

  ghost predicate EmptyKeyIn(book: AddressBook, values: seq<string>) {
    exists i :: 0 <= i < |values| && book(values[i]) == Some("")
  }

  /** Some listed address has the empty canonical key. */
  ghost predicate EmptyKeyListed(book: AddressBook, p: Policy) {
    || EmptyKeyIn(book, p.assets) || EmptyKeyIn(book, p.recipients) || EmptyKeyIn(book, OrEmpty(p.blockedRecipients))
    || EmptyKeyIn(book, RecipientsOf(OrEmpty(p.recipientWindowCaps))) || EmptyKeyIn(book, ContractsOf(p.protocols))
  }

  function NoGuard(o: Options): Options {
    o.(guardAddress := "")
  }

  lemma {:induction false} SameEntries(book: AddressBook, r: ListRules, values: seq<string>, n: nat)
    requires n <= |values| && !EmptyKeyIn(book, values)
    ensures AddressEntries(book, Some(""), r, values, n) == AddressEntries(book, None, r, values, n)
  {
    if n > 0 {
      SameEntries(book, r, values, n - 1);
      assert book(values[n - 1]) != Some("");
    }
  }

  lemma {:induction false} SameRuleEntries(book: AddressBook, rules: seq<ProtocolRule>, n: nat)
    requires n <= |rules| && !EmptyKeyIn(book, ContractsOf(rules))
    ensures RuleEntries(book, Some(""), rules, n) == RuleEntries(book, None, rules, n)
  {
    hide FnsFailures, Repeats;
    if n > 0 {
      SameRuleEntries(book, rules, n - 1);
      assert book(ContractsOf(rules)[n - 1]) != Some("");
    }
  }

  /** f is the self-reference of one of the first n entries, which has the empty key. */
  ghost predicate SelfIn(book: AddressBook, r: ListRules, values: seq<string>, n: nat, f: Failure)
    requires n <= |values|
  {
    exists j: nat :: j < n && SelfAt(book, r, values, j, f)
  }

  ghost predicate SelfAt(book: AddressBook, r: ListRules, values: seq<string>, j: nat, f: Failure)
    requires j < |values|
  {
    book(values[j]) == Some("") && f == Failure(Entry(r.list, j), r.self)
  }

  /** Each entry with the empty key adds its self-reference; nothing is taken away. */
  lemma {:induction false} GuardAdds(book: AddressBook, r: ListRules, values: seq<string>, n: nat, f: Failure)
    requires n <= |values|
    ensures Count(AddressEntries(book, Some(""), r, values, n), f) >= Count(AddressEntries(book, None, r, values, n), f)
    ensures CodeEnforced(r.self) && SelfIn(book, r, values, n, f) ==>
              Count(AddressEntries(book, Some(""), r, values, n), f)
              > Count(AddressEntries(book, None, r, values, n), f)
  {
    hide AddressEntry, Count, SelfAt;
    if n > 0 {
      GuardAdds(book, r, values, n - 1, f);
      EntryAdds(book, r, values, n - 1, f);
      SelfHasRule(book, r, values, n - 1, f);
      CountAppend(AddressEntries(book, Some(""), r, values, n - 1), AddressEntry(book, Some(""), r, values, n - 1), f);
      CountAppend(AddressEntries(book, None, r, values, n - 1), AddressEntry(book, None, r, values, n - 1), f);
    }
  }

  lemma SelfHasRule(book: AddressBook, r: ListRules, values: seq<string>, j: nat, f: Failure)
    requires j < |values|
    ensures SelfAt(book, r, values, j, f) ==> f.rule == r.self
  {
  }

  lemma CountAppend(a: seq<Failure>, b: seq<Failure>, f: Failure)
    ensures Count(a + b, f) == Count(a, f) + Count(b, f)
  {
    assert multiset(a + b) == multiset(a) + multiset(b);
  }

  lemma EntryAdds(book: AddressBook, r: ListRules, values: seq<string>, i: nat, f: Failure)
    requires i < |values|
    ensures Count(AddressEntry(book, Some(""), r, values, i), f)
         == Count(AddressEntry(book, None, r, values, i), f)
            + if CodeEnforced(f.rule) && SelfAt(book, r, values, i, f) then 1 else 0
  {
    hide Repeats;
    if book(values[i]).Some? {
      var twice := If(Repeats(book, values, i), Entry(r.list, i), r.duplicate);
      CountAppend(twice, If(book(values[i]) == Some(""), Entry(r.list, i), r.self), f);
      CountAppend(twice, [], f);
      assert twice + [] == twice;
    }
  }

  lemma {:induction false} GuardAddsRules(book: AddressBook, rules: seq<ProtocolRule>, n: nat, f: Failure)
    requires n <= |rules|
    ensures Count(RuleEntries(book, Some(""), rules, n), f) >= Count(RuleEntries(book, None, rules, n), f)
    ensures SelfIn(book, CONTRACT_RULES, ContractsOf(rules), n, f) ==>
              Count(RuleEntries(book, Some(""), rules, n), f) > Count(RuleEntries(book, None, rules, n), f)
  {
    hide RuleEntry, ContractsOf, SelfAt, Count;
    if n > 0 {
      GuardAddsRules(book, rules, n - 1, f);
      RuleAdds(book, rules, n - 1, f);
      CountAppend(RuleEntries(book, Some(""), rules, n - 1), RuleEntry(book, Some(""), rules, n - 1), f);
      CountAppend(RuleEntries(book, None, rules, n - 1), RuleEntry(book, None, rules, n - 1), f);
    }
  }

  lemma RuleAdds(book: AddressBook, rules: seq<ProtocolRule>, i: nat, f: Failure)
    requires i < |rules|
    ensures Count(RuleEntry(book, Some(""), rules, i), f)
         == Count(RuleEntry(book, None, rules, i), f)
            + if SelfAt(book, CONTRACT_RULES, ContractsOf(rules), i, f) then 1 else 0
  {
    hide AddressEntry, FnsFailures, ContractsOf, Count, SelfAt;
    var contracts, fns := ContractsOf(rules), FnsFailures(i, rules[i].fns);
    EntryAdds(book, CONTRACT_RULES, contracts, i, f);
    SelfHasRule(book, CONTRACT_RULES, contracts, i, f);
    CountAppend(AddressEntry(book, Some(""), CONTRACT_RULES, contracts, i), fns, f);
    CountAppend(AddressEntry(book, None, CONTRACT_RULES, contracts, i), fns, f);
  }

  /** Without a guard to compare with, the validator reports the same; enforceCodeRules never reports more. */
  lemma ForgetGuard(book: AddressBook, o: Options, p: Policy, f: Failure)
    requires GuardKey(book, o) == Some("")
    ensures Count(ValidatorFailures(book, o, p), f) == Count(CodeFailures(book, NoGuard(o), p), f)
  {
    hide CodeFailures, WindowFailures, RuleEntries, AddressEntries, BlockedEntries, CapEntries, ActiveFailures;
    assert ValidatorFailures(book, o, p) == ValidatorFailures(book, NoGuard(o), p);
    ValidatorsAgree(book, NoGuard(o), p, f);
  }

  /** What enforceCodeRules reports of f, section by section, with the empty key and without a guard. */
  lemma GuardAddsReports(book: AddressBook, o: Options, p: Policy, f: Failure)
    requires GuardKey(book, o) == Some("")
    ensures var blocked, caps := OrEmpty(p.blockedRecipients), RecipientsOf(OrEmpty(p.recipientWindowCaps));
            Count(CodeFailures(book, o, p), f) - Count(CodeFailures(book, NoGuard(o), p), f)
            == Gain(book, ASSET_RULES, p.assets, f) + Gain(book, RECIPIENT_RULES, p.recipients, f)
               + Gain(book, BLOCKED_RULES, blocked, f) + Gain(book, CAP_RULES, caps, f)
               + Count(RuleEntries(book, Some(""), p.protocols, |p.protocols|), f)
               - Count(RuleEntries(book, None, p.protocols, |p.protocols|), f)
  {
    hide CodeFailures, AddressEntries, RuleEntries, CodeOnly;
    CountIsMeasure(f);
    WeighCode(book, o, p, s => Count(s, f));
    WeighCode(book, NoGuard(o), p, s => Count(s, f));
  }

  ghost function Gain(book: AddressBook, r: ListRules, values: seq<string>, f: Failure): int {
    Count(AddressEntries(book, Some(""), r, values, |values|), f)
    - Count(AddressEntries(book, None, r, values, |values|), f)
  }

  lemma GainOfList(book: AddressBook, r: ListRules, values: seq<string>, f: Failure)
    ensures Gain(book, r, values, f) >= 0
    ensures CodeEnforced(r.self) && SelfIn(book, r, values, |values|, f) ==> Gain(book, r, values, f) > 0
  {
    GuardAdds(book, r, values, |values|, f);
  }

  /** The self-reference of some listed address with the empty key. */
  lemma SelfReference(book: AddressBook, p: Policy) returns (f: Failure)
    requires EmptyKeyListed(book, p)
    ensures var blocked, caps := OrEmpty(p.blockedRecipients), RecipientsOf(OrEmpty(p.recipientWindowCaps));
            || SelfIn(book, ASSET_RULES, p.assets, |p.assets|, f)
            || SelfIn(book, RECIPIENT_RULES, p.recipients, |p.recipients|, f)
            || SelfIn(book, BLOCKED_RULES, blocked, |blocked|, f) || SelfIn(book, CAP_RULES, caps, |caps|, f)
            || SelfIn(book, CONTRACT_RULES, ContractsOf(p.protocols), |p.protocols|, f)
  {
    var blocked, caps := OrEmpty(p.blockedRecipients), RecipientsOf(OrEmpty(p.recipientWindowCaps));
    if EmptyKeyIn(book, p.assets) {
      f := SelfOf(book, ASSET_RULES, p.assets);
    } else if EmptyKeyIn(book, p.recipients) {
      f := SelfOf(book, RECIPIENT_RULES, p.recipients);
    } else if EmptyKeyIn(book, blocked) {
      f := SelfOf(book, BLOCKED_RULES, blocked);
    } else if EmptyKeyIn(book, caps) {
      f := SelfOf(book, CAP_RULES, caps);
    } else {
      f := SelfOf(book, CONTRACT_RULES, ContractsOf(p.protocols));
    }
  }

  lemma SelfOf(book: AddressBook, r: ListRules, values: seq<string>) returns (f: Failure)
    requires EmptyKeyIn(book, values)
    ensures SelfIn(book, r, values, |values|, f)
  {
    var i :| 0 <= i < |values| && book(values[i]) == Some("");
    f := Failure(Entry(r.list, i), r.self);
    assert SelfAt(book, r, values, i, f);
  }

  lemma EmptyKeyDisagrees(book: AddressBook, o: Options, p: Policy) returns (f: Failure)
    requires GuardKey(book, o) == Some("") && EmptyKeyListed(book, p)
    ensures Count(ValidatorFailures(book, o, p), f) < Count(CodeFailures(book, o, p), f)
  {
    hide CodeFailures, ValidatorFailures, AddressEntries, RuleEntries, Gain, EmptyKeyListed, Count;
    f := SelfReference(book, p);
    var blocked, caps := OrEmpty(p.blockedRecipients), RecipientsOf(OrEmpty(p.recipientWindowCaps));
    ForgetGuard(book, o, p, f);
    GuardAddsReports(book, o, p, f);
    GainOfList(book, ASSET_RULES, p.assets, f);
    GainOfList(book, RECIPIENT_RULES, p.recipients, f);
    GainOfList(book, BLOCKED_RULES, blocked, f);
    GainOfList(book, CAP_RULES, caps, f);
    GuardAddsRules(book, p.protocols, |p.protocols|, f);
  }

  lemma NoEmptyKeyAgrees(book: AddressBook, o: Options, p: Policy, f: Failure)
    requires GuardKey(book, o) == Some("") && !EmptyKeyListed(book, p)
    ensures Count(ValidatorFailures(book, o, p), f) == Count(CodeFailures(book, o, p), f)
  {
    hide ValidatorFailures, AddressEntries, RuleEntries, ConflictEntries, CapMaxEntries, CodeNumbers, Count, EmptyKeyIn;
    var blocked, caps := OrEmpty(p.blockedRecipients), RecipientsOf(OrEmpty(p.recipientWindowCaps));
    ForgetGuard(book, o, p, f);
    SameEntries(book, ASSET_RULES, p.assets, |p.assets|);
    SameEntries(book, RECIPIENT_RULES, p.recipients, |p.recipients|);
    SameEntries(book, BLOCKED_RULES, blocked, |blocked|);
    SameEntries(book, CAP_RULES, caps, |caps|);
    SameRuleEntries(book, p.protocols, |p.protocols|);
    assert CodeFailures(book, o, p) == CodeFailures(book, NoGuard(o), p);
  }

  /**
   The validators report every code-enforced (path, rule) pair equally often if and only if the guard's canonical
   address is not the empty string -- which one of them takes for no guard at all -- or no listed address has it.
   */
  lemma {:induction false} AgreeExactly(book: AddressBook, o: Options, p: Policy)
    ensures (forall f :: Count(ValidatorFailures(book, o, p), f) == Count(CodeFailures(book, o, p), f)) <==>
            GuardKey(book, o) != Some("") || !EmptyKeyListed(book, p)
  {
    hide CodeFailures, ValidatorFailures, EmptyKeyListed, Count;
    if GuardKey(book, o) == Some("") && EmptyKeyListed(book, p) {
      var f := EmptyKeyDisagrees(book, o, p);
    } else {
      forall f
        ensures Count(ValidatorFailures(book, o, p), f) == Count(CodeFailures(book, o, p), f)
      {
        if GuardKey(book, o) != Some("") {
          ValidatorsAgree(book, o, p, f);
        } else {
          NoEmptyKeyAgrees(book, o, p, f);
        }
      }
    }
  }

  // ---------------------------------------------------------------- as sets

  /** enforceCodeRules reports nothing outside the rules it is responsible for. */
  lemma {:induction false} CodeReportsOnlyCode(book: AddressBook, o: Options, p: Policy)
    ensures forall f :: f in CodeFailures(book, o, p) ==> CodeEnforced(f.rule)
  {
    hide CodeFailures, Broken;
    forall f | f in CodeFailures(book, o, p)
      ensures CodeEnforced(f.rule)
    {
      CodeReportedExactly(book, o, p, f);
    }
  }

  /** As sets of (path, rule) pairs: enforceCodeRules reports exactly the code-enforced part of validateGuardPolicy. */
  lemma {:induction false} SamePairs(book: AddressBook, o: Options, p: Policy, f: Failure)
    requires GuardKey(book, o) != Some("")
    ensures f in CodeFailures(book, o, p) <==> f in ValidatorFailures(book, o, p) && CodeEnforced(f.rule)
  {
    hide CodeFailures, ValidatorFailures, EntryAt, KeyAt, RepeatsEarlier;
    CodeReportedExactly(book, o, p, f);
    ReportedExactly(book, o, p, f);
  }
}
