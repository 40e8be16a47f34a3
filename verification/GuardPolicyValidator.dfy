/**
 The hand-written policy validator, validateGuardPolicy (src/policy.ts), on drafts whose fields have their declared
 types.  Its loops keep their own sets of what they have seen; nothing here is shared with enforceCodeRules but the
 entries both are specified by.
 */
module GuardPolicyValidator {
  import opened Wrappers
  import opened Policy
  import opened PolicyValidators

  /** The address constructor accepts the text. */
  predicate IsValidStellarAddress(book: AddressBook, address: string) {
    book(address).Some?
  }

  /** `guardAddress && norm === guardAddress`: an empty key is no guard. */
  predicate IsGuard(guardAddress: Option<string>, norm: string) {
    guardAddress.Some? && guardAddress.value != "" && norm == guardAddress.value
  }

  lemma GuardIsTruthy(guardAddress: Option<string>, norm: string)
    ensures IsGuard(guardAddress, norm) <==> Truthy(guardAddress) == Some(norm)
  {
  }

  lemma Extend(was: seq<Failure>, a: seq<Failure>, b: seq<Failure>, c: seq<Failure>)
    ensures was + (a + (b + c)) == was + (a + b) + c
  {
  }

  // ---------------------------------------------------------------- numbers

  method CheckIntegerMaximum(failures: FailureSink, value: int, path: Path, maximum: int)
    modifies failures
    ensures failures.items == old(failures.items) + TooLarge(path, value, maximum)
  {
    if value > maximum {
      failures.Push(path, IntegerOutOfRange);
    }
  }

  method ValidateAmount(failures: FailureSink, path: Path, value: int, maximum: int)
    modifies failures
    ensures failures.items == old(failures.items) + NumberFailures(path, value, maximum)
  {
    if value < 0 {
      failures.Push(path, NegativeAmount);
    } else {
      CheckIntegerMaximum(failures, value, path, maximum);
    }
  }

  method ValidateWindow(failures: FailureSink, p: Policy)
    requires failures.items == []
    modifies failures
    ensures failures.items == WindowFailures(p)
  {
    ValidateAmount(failures, PerTxCap, p.perTxCap, I128_MAX);
    ValidateAmount(failures, WindowSecs, p.windowSecs, U64_MAX);
    ValidateAmount(failures, WindowCap, p.windowCap, I128_MAX);
    if p.windowCap > 0 && p.windowSecs == 0 {
      failures.Push(WindowCap, WindowRequiresSecs);
    }
  }

  // ---------------------------------------------------------------- assets

  method ValidateAssets(failures: FailureSink, book: AddressBook, guardAddress: Option<string>, p: Policy)
    modifies failures
    ensures failures.items
         == old(failures.items)
            + (NoAssets(p) + AddressEntries(book, Truthy(guardAddress), ASSET_RULES, p.assets, |p.assets|))
  {
    hide SeenKeys, AddressEntry, Truthy, IsGuard;
    ghost var was, g, assets := failures.items, Truthy(guardAddress), p.assets;
    if |p.assets| == 0 {
      failures.Push(Whole(Assets), EmptyVectorNoop);
    }
    var seenAssets: set<string> := {};
    NothingSeen(book, assets);
    for i := 0 to |p.assets|
      invariant seenAssets == SeenKeys(book, assets[..i])
      invariant failures.items == was + (NoAssets(p) + AddressEntries(book, g, ASSET_RULES, assets, i))
    {
      var a := p.assets[i];
      EntryBySeen(book, g, ASSET_RULES, assets, i, seenAssets);
      Extend(was, NoAssets(p), AddressEntries(book, g, ASSET_RULES, assets, i),
             AddressEntry(book, g, ASSET_RULES, assets, i));
      if !IsValidStellarAddress(book, a) {
        failures.Push(Entry(Assets, i), InvalidAddress);
        continue;
      }
      var norm := book(a).value;
      GuardIsTruthy(guardAddress, norm);
      if norm in seenAssets {
        failures.Push(Entry(Assets, i), DuplicateAsset);
      }
      seenAssets := seenAssets + {norm};
      if IsGuard(guardAddress, norm) {
        failures.Push(Entry(Assets, i), SelfAsAsset);
      }
    }
  }

  // ---------------------------------------------------------------- protocols

  method ValidateFns(failures: FailureSink, i: nat, fns: seq<string>)
    modifies failures
    ensures failures.items == old(failures.items) + FnsFailures(i, Some(fns))
  {
    hide SeenFns, RepeatsFn;
    ghost var was := failures.items;
    if |fns| == 0 {
      failures.Push(Fns(i), EmptyProtocolFunctions);
      return;
    }
    var seenFns: set<string> := {};
    NoFnsSeen(fns);
    for j := 0 to |fns|
      invariant SeenFns(seenFns, fns, j)
      invariant failures.items == was + FnEntries(i, fns, j)
    {
      var fn := fns[j];
      FnBySeen(seenFns, fns, j);
      Assoc(was, FnEntries(i, fns, j), FnEntry(i, fns, j));
      if |fn| == 0 {
        failures.Push(Fn(i, j), InvalidType);
        continue;
      }
      if fn in seenFns {
        failures.Push(Fn(i, j), DuplicateProtocolFunction);
      }
      seenFns := seenFns + {fn};
    }
  }

  method ValidateProtocols(failures: FailureSink, book: AddressBook, guardAddress: Option<string>,
                           protocols: seq<ProtocolRule>)
    modifies failures
    ensures failures.items
         == old(failures.items) + RuleEntries(book, Truthy(guardAddress), protocols, |protocols|)
  {
    hide SeenKeys, AddressEntry, FnsFailures, Truthy, IsGuard, ContractsOf;
    ghost var was, g, contracts := failures.items, Truthy(guardAddress), ContractsOf(protocols);
    var seenProtocols: set<string> := {};
    NothingSeen(book, contracts);
    for i := 0 to |protocols|
      invariant seenProtocols == SeenKeys(book, contracts[..i])
      invariant failures.items == was + RuleEntries(book, g, protocols, i)
    {
      var rule := protocols[i];
      ghost var before := failures.items;
      ghost var address, functions := AddressEntry(book, g, CONTRACT_RULES, contracts, i), FnsFailures(i, rule.fns);
      EntryBySeen(book, g, CONTRACT_RULES, contracts, i, seenProtocols);
      Assoc(was, RuleEntries(book, g, protocols, i), RuleEntry(book, g, protocols, i));
      Assoc(before, address, functions);
      if !IsValidStellarAddress(book, rule.contract) {
        failures.Push(Entry(Contracts, i), InvalidAddress);
      } else {
        var norm := book(rule.contract).value;
        GuardIsTruthy(guardAddress, norm);
        if norm in seenProtocols {
          failures.Push(Entry(Contracts, i), DuplicateProtocol);
        }
        seenProtocols := seenProtocols + {norm};
        if IsGuard(guardAddress, norm) {
          failures.Push(Entry(Contracts, i), SelfAsProtocol);
        }
      }
      assert failures.items == before + address;
      NoFns(i);
      if rule.fns.Some? {
        ValidateFns(failures, i, rule.fns.value);
      }
    }
  }

  // ---------------------------------------------------------------- recipients

  method ValidateRecipients(failures: FailureSink, book: AddressBook, guardAddress: Option<string>, o: Options,
                            p: Policy)
    returns (seenRecipients: set<string>)
    modifies failures
    ensures seenRecipients == SeenKeys(book, p.recipients)
    ensures failures.items == old(failures.items) + RecipientFailures(book, Truthy(guardAddress), o, p)
  {
    hide SeenKeys, AddressEntry, Truthy, IsGuard;
    ghost var was, g, recipients := failures.items, Truthy(guardAddress), p.recipients;
    seenRecipients := {};
    ghost var head := NoRecipients(p) + TooMany(o, Recipients, |recipients|);
    if |p.recipients| == 0 && p.allowAnyRecipient == false {
      failures.Push(Whole(Recipients), EmptyVectorNoop);
    }
    if |p.recipients| > o.maxRecipientEntries {
      failures.Push(Whole(Recipients), MaxRecipientEntriesExceeded);
    }
    NothingSeen(book, recipients);
    for i := 0 to |p.recipients|
      invariant seenRecipients == SeenKeys(book, recipients[..i])
      invariant failures.items == was + (head + AddressEntries(book, g, RECIPIENT_RULES, recipients, i))
    {
      var r := p.recipients[i];
      EntryBySeen(book, g, RECIPIENT_RULES, recipients, i, seenRecipients);
      Extend(was, head, AddressEntries(book, g, RECIPIENT_RULES, recipients, i),
             AddressEntry(book, g, RECIPIENT_RULES, recipients, i));
      if !IsValidStellarAddress(book, r) {
        failures.Push(Entry(Recipients, i), InvalidAddress);
        continue;
      }
      var norm := book(r).value;
      GuardIsTruthy(guardAddress, norm);
      if norm in seenRecipients {
        failures.Push(Entry(Recipients, i), DuplicateRecipient);
      }
      seenRecipients := seenRecipients + {norm};
      if IsGuard(guardAddress, norm) {
        failures.Push(Entry(Recipients, i), SelfAsRecipient);
      }
    }
    assert recipients[..|recipients|] == recipients;
  }

  // ---------------------------------------------------------------- blocked recipients

  method ValidateBlocked(failures: FailureSink, book: AddressBook, guardAddress: Option<string>, o: Options,
                         p: Policy, seenRecipients: set<string>)
    requires seenRecipients == SeenKeys(book, p.recipients)
    modifies failures
    ensures failures.items == old(failures.items) + BlockedFailures(book, Truthy(guardAddress), o, p)
  {
    hide SeenKeys, AddressEntry, ConflictEntry, Truthy, IsGuard;
    var blocked := OrEmpty(p.blockedRecipients);
    ghost var was, g, head := failures.items, Truthy(guardAddress), TooMany(o, Blocked, |blocked|);
    if |blocked| > o.maxRecipientEntries {
      failures.Push(Whole(Blocked), MaxRecipientEntriesExceeded);
    }
    var seenBlocked: set<string> := {};
    NothingSeen(book, blocked);
    for i := 0 to |blocked|
      invariant seenBlocked == SeenKeys(book, blocked[..i])
      invariant failures.items == was + (head + BlockedEntries(book, g, p.recipients, blocked, i))
    {
      var b := blocked[i];
      EntryBySeen(book, g, BLOCKED_RULES, blocked, i, seenBlocked);
      ConflictBySeen(book, p.recipients, blocked, i);
      Extend(was, head, BlockedEntries(book, g, p.recipients, blocked, i),
             BlockedEntry(book, g, p.recipients, blocked, i));
      ghost var before, address := failures.items, AddressEntry(book, g, BLOCKED_RULES, blocked, i);
      Assoc(before, address, ConflictEntry(book, p.recipients, blocked, i));
      if !IsValidStellarAddress(book, b) {
        failures.Push(Entry(Blocked, i), InvalidAddress);
        continue;
      }
      var norm := book(b).value;
      GuardIsTruthy(guardAddress, norm);
      if norm in seenBlocked {
        failures.Push(Entry(Blocked, i), DuplicateBlockedRecipient);
      }
      seenBlocked := seenBlocked + {norm};
      if IsGuard(guardAddress, norm) {
        failures.Push(Entry(Blocked, i), SelfAsRecipient);
      }
      assert failures.items == before + address;
      if norm in seenRecipients {
        failures.Push(Entry(Blocked, i), RecipientConflict);
      }
    }
  }

  lemma ConflictBySeen(book: AddressBook, recipients: seq<string>, blocked: seq<string>, i: nat)
    requires i < |blocked|
    ensures ConflictEntry(book, recipients, blocked, i)
         == if book(blocked[i]).Some? && book(blocked[i]).value in SeenKeys(book, recipients)
            then [Failure(Entry(Blocked, i), RecipientConflict)] else []
  {
  }

  // ---------------------------------------------------------------- recipient window caps

  method ValidateCapAmount(failures: FailureSink, caps: seq<RecipientCap>, windowSecs: int, i: nat)
    requires i < |caps|
    modifies failures
    ensures failures.items == old(failures.items) + CapAmount(caps, windowSecs, i)
  {
    var cap := caps[i].cap;
    if cap < 0 {
      failures.Push(CapValue(i), NegativeAmount);
    } else {
      CheckIntegerMaximum(failures, cap, CapValue(i), I128_MAX);
    }
    if cap > 0 && windowSecs == 0 {
      failures.Push(CapValue(i), RecipientCapRequiresWindow);
    }
  }

  method ValidateCaps(failures: FailureSink, book: AddressBook, guardAddress: Option<string>, o: Options, p: Policy)
    modifies failures
    ensures failures.items == old(failures.items) + CapFailures(book, Truthy(guardAddress), o, p)
  {
    hide SeenKeys, AddressEntry, Truthy, IsGuard, CapAmount, RecipientsOf;
    var caps := OrEmpty(p.recipientWindowCaps);
    ghost var recipients := RecipientsOf(caps);
    ghost var was, g, head := failures.items, Truthy(guardAddress), TooMany(o, CapRecipients, |caps|);
    if |caps| > o.maxRecipientEntries {
      failures.Push(Whole(CapRecipients), MaxRecipientEntriesExceeded);
    }
    var seenCapRecipients: set<string> := {};
    NothingSeen(book, recipients);
    for i := 0 to |caps|
      invariant seenCapRecipients == SeenKeys(book, recipients[..i])
      invariant failures.items == was + (head + CapEntries(book, g, caps, p.windowSecs, i))
    {
      var rc := caps[i];
      ghost var before, address := failures.items, AddressEntry(book, g, CAP_RULES, recipients, i);
      EntryBySeen(book, g, CAP_RULES, recipients, i, seenCapRecipients);
      Extend(was, head, CapEntries(book, g, caps, p.windowSecs, i), CapEntry(book, g, caps, p.windowSecs, i));
      Assoc(before, address, CapAmount(caps, p.windowSecs, i));
      if !IsValidStellarAddress(book, rc.recipient) {
        failures.Push(Entry(CapRecipients, i), InvalidAddress);
      } else {
        var norm := book(rc.recipient).value;
        GuardIsTruthy(guardAddress, norm);
        if norm in seenCapRecipients {
          failures.Push(Entry(CapRecipients, i), DuplicateRecipientWindowCap);
        }
        seenCapRecipients := seenCapRecipients + {norm};
        if IsGuard(guardAddress, norm) {
          failures.Push(Entry(CapRecipients, i), SelfAsRecipientCap);
        }
      }
      assert failures.items == before + address;
      ValidateCapAmount(failures, caps, p.windowSecs, i);
    }
  }

  // ---------------------------------------------------------------- the active window

  method ValidateActive(failures: FailureSink, p: Policy)
    modifies failures
    ensures failures.items == old(failures.items) + ActiveFailures(p)
  {
    hide NumberFailures;
    ValidateAmount(failures, ActiveFrom, p.activeFrom, U64_MAX);
    ValidateAmount(failures, ActiveUntil, p.activeUntil, U64_MAX);
    if p.activeUntil != 0 && p.activeUntil <= p.activeFrom {
      failures.Push(ActiveUntil, ActiveWindowInverted);
    }
    ValidateAmount(failures, DmsGraceSecs, p.dmsGraceSecs, U64_MAX);
  }

  method ValidateGuardPolicy(book: AddressBook, o: Options, p: Policy) returns (result: seq<Failure>)
    ensures result == ValidatorFailures(book, o, p)
  {
    hide WindowFailures, RuleEntries, AddressEntries, RecipientFailures, BlockedFailures, CapFailures, ActiveFailures;
    var failures := new FailureSink();
    var guardAddress := if o.guardAddress == "" then None else book(o.guardAddress);
    ValidateWindow(failures, p);
    ValidateAssets(failures, book, guardAddress, p);
    ValidateProtocols(failures, book, guardAddress, p.protocols);
    var seenRecipients := ValidateRecipients(failures, book, guardAddress, o, p);
    ValidateBlocked(failures, book, guardAddress, o, p, seenRecipients);
    ValidateCaps(failures, book, guardAddress, o, p);
    ValidateActive(failures, p);
    result := failures.items;
  }
}
