/**
 Which wire values are policies: exactly the values the decoder accepts, and the policy each of them shows, said by
 their entries without decoding anything.
 */
module PolicyScValAccepts {
  import opened Wrappers
  import opened Policy
  import opened PolicyScVal
  import opened PolicyScValExact
  import opened PolicyScValRoundTrip
  import Decimal

  // ---------------------------------------------------------------- single values

  /** A 64-bit unsigned integer, or its decimal text. */
  ghost predicate ShowsU64(v: ScVal, n: int) {
    (v == U64(n) || (v.Str? && Decimal.Numeral(v.text, n))) && 0 <= n <= U64_MAX
  }

  ghost predicate ShowsI128(v: ScVal, n: int) {
    (v == I128(n) || (v.Str? && Decimal.Numeral(v.text, n))) && I128_MIN <= n <= I128_MAX
  }

  /** The text of a 32-bit integer has no sign. */
  ghost predicate ShowsU32(v: ScVal, n: int) {
    (v == U32(n) || (v.Str? && Decimal.Spells(v.text, "", v.text, n))) && 0 <= n <= U32_MAX
  }

  ghost predicate ShowsAddress(book: AddressBook, v: ScVal, a: string) {
    v.Address? && book(v.address) == Some(a)
  }

  ghost predicate ShowsAddresses(book: AddressBook, v: ScVal, addresses: seq<string>) {
    && v.Vec? && |v.items| == |addresses|
    && forall i :: 0 <= i < |addresses| ==> ShowsAddress(book, v.items[i], addresses[i])
  }

  ghost predicate ShowsFns(v: ScVal, fns: Option<seq<string>>) {
    if fns.None? then v == Void
    else v.Vec? && |v.items| == |fns.value| && forall i :: 0 <= i < |fns.value| ==> v.items[i] == Symbol(fns.value[i])
  }

  lemma U64Exactly(v: ScVal, n: int)
    ensures PolicyU64(v) == Ok(n) <==> ShowsU64(v, n)
  {
    hide Decimal.ParseInt, Decimal.Numeral;
    if v.Str? {
      Decimal.ParseExactly(v.text, n);
    }
  }

  lemma I128Exactly(v: ScVal, n: int)
    ensures PolicyI128(v) == Ok(n) <==> ShowsI128(v, n)
  {
    hide Decimal.ParseInt, Decimal.Numeral;
    if v.Str? {
      Decimal.ParseExactly(v.text, n);
    }
  }

  lemma U32Exactly(v: ScVal, n: int)
    ensures PolicyU32(v) == Ok(n) <==> ShowsU32(v, n)
  {
    hide Decimal.Value;
    if v.Str? {
      assert "" + v.text == v.text;
    }
  }

  lemma AddressesExactly(book: AddressBook, v: ScVal, addresses: seq<string>)
    ensures AddressVector(book, v) == Ok(addresses) <==> ShowsAddresses(book, v, addresses)
  {
    if v.Vec? {
      var f := item => PolicyAddress(book, item);
      TryMapExactly(v.items, f);
      assert AddressVector(book, v) == TryMap(v.items, f);
      if ShowsAddresses(book, v, addresses) {
        assert forall i :: 0 <= i < |addresses| ==> f(v.items[i]) == Ok(addresses[i]);
        assert TryMap(v.items, f).value == addresses;
      }
      if TryMap(v.items, f) == Ok(addresses) {
        assert forall i :: 0 <= i < |addresses| ==> Ok(addresses[i]) == f(v.items[i]);
      }
    }
  }

  lemma FnsExactly(v: ScVal, fns: Option<seq<string>>)
    ensures FunctionSymbols(v) == Ok(fns) <==> ShowsFns(v, fns)
  {
    if v.Vec? {
      TryMapExactly(v.items, SymbolText);
      if fns.Some? && ShowsFns(v, fns) {
        assert TryMap(v.items, SymbolText).value == fns.value;
      }
    }
  }

  // ---------------------------------------------------------------- maps

  /** The map has strictly sorted, expected and complete symbol keys, and these are its fields. */
  ghost predicate HasFields(v: ScVal, expected: seq<string>, optional: seq<string>, fields: map<string, ScVal>) {
    CanonicalMap(v, expected, optional) && Holds(fields, v.entries, |v.entries|)
  }

  lemma FieldsExactly(v: ScVal, expected: seq<string>, optional: seq<string>, fields: map<string, ScVal>)
    ensures SymbolFields(v, expected, optional) == Ok(fields) <==> HasFields(v, expected, optional, fields)
  {
    hide SymbolFields, CanonicalKeys, Holds;
    SymbolMapAcceptsExactly(v, expected, optional);
    if HasFields(v, expected, optional, fields) {
      HoldsOnce(fields, SymbolFields(v, expected, optional).value, v.entries);
    }
  }

  lemma HoldsOnce(f: map<string, ScVal>, g: map<string, ScVal>, entries: seq<Entry>)
    requires Holds(f, entries, |entries|) && Holds(g, entries, |entries|)
    ensures f == g
  {
    forall k
      ensures k in f <==> k in g
      ensures k in f ==> f[k] == g[k]
    {
      if k in f {
        var i :| 0 <= i < |entries| && entries[i].key == Symbol(k);
      }
      if k in g {
        var i :| 0 <= i < |entries| && entries[i].key == Symbol(k);
      }
    }
  }

  /** `paused` may be missing; only an explicit true is shown in the rule. */
  ghost predicate ShowsPaused(fields: map<string, ScVal>, paused: Option<bool>) {
    if "paused" in fields then fields["paused"] == Bool(paused == Some(true)) && paused != Some(false)
    else paused == None
  }

  ghost predicate RuleFieldsShow(book: AddressBook, fields: map<string, ScVal>, r: ProtocolRule) {
    && "contract" in fields && ShowsAddress(book, fields["contract"], r.contract)
    && "fns" in fields && ShowsFns(fields["fns"], r.fns)
    && ShowsPaused(fields, r.paused)
  }

  ghost predicate ShowsRule(book: AddressBook, v: ScVal, r: ProtocolRule) {
    exists fields :: HasFields(v, ["contract", "fns", "paused"], ["paused"], fields) && RuleFieldsShow(book, fields, r)
  }

  ghost predicate CapFieldsShow(book: AddressBook, fields: map<string, ScVal>, c: RecipientCap) {
    && "recipient" in fields && ShowsAddress(book, fields["recipient"], c.recipient)
    && "cap" in fields && ShowsI128(fields["cap"], c.cap)
  }

  ghost predicate ShowsCap(book: AddressBook, v: ScVal, c: RecipientCap) {
    exists fields :: HasFields(v, ["recipient", "cap"], [], fields) && CapFieldsShow(book, fields, c)
  }

  lemma PausedExactly(fields: map<string, ScVal>, paused: Option<bool>)
    ensures ShowsPaused(fields, paused) <==>
            if "paused" in fields
            then fields["paused"].Bool? && paused == if fields["paused"].b then Some(true) else None
            else paused == None
  {
    match paused {
      case None =>
      case Some(b) =>
        if b {
          assert paused == Some(true);
        } else {
          assert paused == Some(false);
        }
    }
  }

  lemma RuleExactly(book: AddressBook, v: ScVal, r: ProtocolRule)
    ensures DecodeRule(book, v) == Ok(r) <==> ShowsRule(book, v, r)
  {
    hide SymbolFields, HasFields, FunctionSymbols, ShowsFns, ShowsPaused;
    forall fields
      ensures SymbolFields(v, PROTOCOL_RULE_FIELDS, PROTOCOL_RULE_OPTIONAL_FIELDS) == Ok(fields) <==>
              HasFields(v, ["contract", "fns", "paused"], ["paused"], fields)
    {
      FieldsExactly(v, PROTOCOL_RULE_FIELDS, PROTOCOL_RULE_OPTIONAL_FIELDS, fields);
    }
    var all := SymbolFields(v, PROTOCOL_RULE_FIELDS, PROTOCOL_RULE_OPTIONAL_FIELDS);
    if all.Ok? && "fns" in all.value && "contract" in all.value {
      var fields := all.value;
      FnsExactly(fields["fns"], r.fns);
      PausedExactly(fields, r.paused);
      assert PolicyAddress(book, fields["contract"]) == Ok(r.contract) <==> ShowsAddress(book, fields["contract"],
          r.contract);
      if DecodeRule(book, v) == Ok(r) {
        assert RuleFieldsShow(book, fields, r);
      }
      if RuleFieldsShow(book, fields, r) {
        assert DecodeRule(book, v).value == r;
      }
    }
    assert all.Ok? ==> (DecodeRule(book, v) == Ok(r) <==> RuleFieldsShow(book, all.value, r));
  }

  lemma CapExactly(book: AddressBook, v: ScVal, c: RecipientCap)
    ensures DecodeCap(book, v) == Ok(c) <==> ShowsCap(book, v, c)
  {
    hide SymbolFields, HasFields, PolicyI128, ShowsI128;
    forall fields
      ensures SymbolFields(v, CAP_FIELDS, []) == Ok(fields) <==> HasFields(v, ["recipient", "cap"], [], fields)
    {
      FieldsExactly(v, CAP_FIELDS, [], fields);
    }
    var all := SymbolFields(v, CAP_FIELDS, []);
    if all.Ok? && "cap" in all.value {
      I128Exactly(all.value["cap"], c.cap);
    }
    assert all.Ok? ==> (DecodeCap(book, v) == Ok(c) <==> CapFieldsShow(book, all.value, c));
  }

  ghost predicate ShowsRules(book: AddressBook, v: ScVal, rules: seq<ProtocolRule>) {
    v.Vec? && |v.items| == |rules| && forall i :: 0 <= i < |rules| ==> ShowsRule(book, v.items[i], rules[i])
  }

  ghost predicate ShowsCaps(book: AddressBook, v: ScVal, caps: seq<RecipientCap>) {
    v.Vec? && |v.items| == |caps| && forall i :: 0 <= i < |caps| ==> ShowsCap(book, v.items[i], caps[i])
  }

  lemma RulesExactly(book: AddressBook, v: ScVal, rules: seq<ProtocolRule>)
    ensures ProtocolRules(book, v) == Ok(rules) <==> ShowsRules(book, v, rules)
  {
    hide DecodeRule, ShowsRule;
    if v.Vec? {
      var f := item => DecodeRule(book, item);
      TryMapExactly(v.items, f);
      assert ProtocolRules(book, v) == TryMap(v.items, f);
      if |v.items| == |rules| {
        forall i | 0 <= i < |rules|
          ensures f(v.items[i]) == Ok(rules[i]) <==> ShowsRule(book, v.items[i], rules[i])
        {
          RuleExactly(book, v.items[i], rules[i]);
        }
      }
      if ShowsRules(book, v, rules) {
        assert TryMap(v.items, f).value == rules;
      }
      if TryMap(v.items, f) == Ok(rules) {
        assert forall i :: 0 <= i < |rules| ==> Ok(rules[i]) == f(v.items[i]);
      }
    }
  }

  lemma CapsExactly(book: AddressBook, v: ScVal, caps: seq<RecipientCap>)
    ensures RecipientCaps(book, v) == Ok(caps) <==> ShowsCaps(book, v, caps)
  {
    hide DecodeCap, ShowsCap;
    if v.Vec? {
      var f := item => DecodeCap(book, item);
      TryMapExactly(v.items, f);
      assert RecipientCaps(book, v) == TryMap(v.items, f);
      if |v.items| == |caps| {
        forall i | 0 <= i < |caps|
          ensures f(v.items[i]) == Ok(caps[i]) <==> ShowsCap(book, v.items[i], caps[i])
        {
          CapExactly(book, v.items[i], caps[i]);
        }
      }
      if ShowsCaps(book, v, caps) {
        assert TryMap(v.items, f).value == caps;
      }
      if TryMap(v.items, f) == Ok(caps) {
        assert forall i :: 0 <= i < |caps| ==> Ok(caps[i]) == f(v.items[i]);
      }
    }
  }

  // ---------------------------------------------------------------- whole policies

  ghost predicate LimitsShow(fields: map<string, ScVal>, p: Policy) {
    && "per_tx_cap" in fields && ShowsI128(fields["per_tx_cap"], p.perTxCap)
    && "window_secs" in fields && ShowsU64(fields["window_secs"], p.windowSecs)
    && "window_cap" in fields && ShowsI128(fields["window_cap"], p.windowCap)
  }

  ghost predicate ListsShow(book: AddressBook, fields: map<string, ScVal>, p: Policy) {
    && "assets" in fields && ShowsAddresses(book, fields["assets"], p.assets)
    && "protocols" in fields && ShowsRules(book, fields["protocols"], p.protocols)
    && "recipients" in fields && ShowsAddresses(book, fields["recipients"], p.recipients)
  }

  ghost predicate SwitchesShow(fields: map<string, ScVal>, p: Policy) {
    && "allow_any_recipient" in fields && fields["allow_any_recipient"] == Bool(p.allowAnyRecipient)
    && "active_from" in fields && ShowsU64(fields["active_from"], p.activeFrom)
    && "active_until" in fields && ShowsU64(fields["active_until"], p.activeUntil)
    && "paused" in fields && fields["paused"] == Bool(p.paused)
    && "dms_grace_secs" in fields && ShowsU64(fields["dms_grace_secs"], p.dmsGraceSecs)
  }

  /** The later fields may be missing; the default, an empty list or zero, is shown as no field at all. */
  ghost predicate LaterFieldsShow(book: AddressBook, fields: map<string, ScVal>, p: Policy) {
    && (if "recipient_window_caps" in fields
        then ShowsCaps(book, fields["recipient_window_caps"], OrEmpty(p.recipientWindowCaps))
        else p.recipientWindowCaps == None)
    && p.recipientWindowCaps != Some([])
    && (if "blocked_recipients" in fields
        then ShowsAddresses(book, fields["blocked_recipients"], OrEmpty(p.blockedRecipients))
        else p.blockedRecipients == None)
    && p.blockedRecipients != Some([])
    && (if "protocol_calls_per_window" in fields
        then ShowsU32(fields["protocol_calls_per_window"], CallCap(p))
        else p.protocolCallsPerWindow == None)
    && p.protocolCallsPerWindow != Some(0)
  }

  ghost predicate FieldsShow(book: AddressBook, fields: map<string, ScVal>, p: Policy) {
    && LimitsShow(fields, p) && ListsShow(book, fields, p) && SwitchesShow(fields, p)
    && LaterFieldsShow(book, fields, p)
    && ("asset_caps" in fields ==> fields["asset_caps"] == Vec([]))
  }

  ghost predicate MapShows(book: AddressBook, v: ScVal, p: Policy) {
    exists fields :: HasFields(v, POLICY_FIELDS, POLICY_OPTIONAL_FIELDS, fields) && FieldsShow(book, fields, p)
  }

  /** The value is a policy map, or a vector holding just that, and its entries are the fields of p. */
  ghost predicate Shows(book: AddressBook, v: ScVal, p: Policy) {
    if v.Vec? then |v.items| == 1 && MapShows(book, v.items[0], p) else MapShows(book, v, p)
  }

  lemma LimitsExactly(fields: map<string, ScVal>, p: Policy)
    ensures DecodeLimits(fields) == Ok((p.perTxCap, p.windowSecs, p.windowCap)) <==> LimitsShow(fields, p)
  {
    hide PolicyI128, PolicyU64, ShowsI128, ShowsU64;
    forall k | k in fields
      ensures PolicyI128(fields[k]) == Ok(p.perTxCap) <==> ShowsI128(fields[k], p.perTxCap)
      ensures PolicyI128(fields[k]) == Ok(p.windowCap) <==> ShowsI128(fields[k], p.windowCap)
      ensures PolicyU64(fields[k]) == Ok(p.windowSecs) <==> ShowsU64(fields[k], p.windowSecs)
    {
      I128Exactly(fields[k], p.perTxCap);
      I128Exactly(fields[k], p.windowCap);
      U64Exactly(fields[k], p.windowSecs);
    }
  }

  lemma ListsExactly(book: AddressBook, fields: map<string, ScVal>, p: Policy)
    ensures DecodeLists(book, fields) == Ok((p.assets, p.protocols, p.recipients)) <==> ListsShow(book, fields, p)
  {
    hide AddressVector, ProtocolRules, ShowsAddresses, ShowsRules;
    if "assets" in fields {
      AddressesExactly(book, fields["assets"], p.assets);
    }
    if "protocols" in fields {
      RulesExactly(book, fields["protocols"], p.protocols);
    }
    if "recipients" in fields {
      AddressesExactly(book, fields["recipients"], p.recipients);
    }
  }

  lemma SwitchesExactly(fields: map<string, ScVal>, p: Policy)
    ensures SwitchesShow(fields, p) <==>
            DecodeSwitches(fields) == Ok((p.allowAnyRecipient, p.activeFrom, p.activeUntil, p.paused, p.dmsGraceSecs))
  {
    hide PolicyU64, ShowsU64;
    forall k | k in fields
      ensures PolicyU64(fields[k]) == Ok(p.activeFrom) <==> ShowsU64(fields[k], p.activeFrom)
      ensures PolicyU64(fields[k]) == Ok(p.activeUntil) <==> ShowsU64(fields[k], p.activeUntil)
      ensures PolicyU64(fields[k]) == Ok(p.dmsGraceSecs) <==> ShowsU64(fields[k], p.dmsGraceSecs)
    {
      U64Exactly(fields[k], p.activeFrom);
      U64Exactly(fields[k], p.activeUntil);
      U64Exactly(fields[k], p.dmsGraceSecs);
    }
  }

  function WithoutLater(p: Policy): Policy {
    p.(recipientWindowCaps := None, blockedRecipients := None, protocolCallsPerWindow := None)
  }

  lemma CoreExactly(book: AddressBook, fields: map<string, ScVal>, p: Policy)
    ensures DecodeCore(book, fields) == Ok(WithoutLater(p)) <==>
            LimitsShow(fields, p) && ListsShow(book, fields, p) && SwitchesShow(fields, p)
  {
    hide DecodeLimits, DecodeLists, DecodeSwitches, LimitsShow, ListsShow, SwitchesShow;
    LimitsExactly(fields, p);
    ListsExactly(book, fields, p);
    SwitchesExactly(fields, p);
  }

  lemma LaterExactly(book: AddressBook, fields: map<string, ScVal>, p: Policy)
    ensures DecodeAdditive(book, fields, WithoutLater(p)) == Ok(p) <==> LaterFieldsShow(book, fields, p)
  {
    hide RecipientCaps, AddressVector, PolicyU32, ShowsCaps, ShowsAddresses, ShowsU32;
    if "recipient_window_caps" in fields {
      CapsExactly(book, fields["recipient_window_caps"], OrEmpty(p.recipientWindowCaps));
    }
    if "blocked_recipients" in fields {
      AddressesExactly(book, fields["blocked_recipients"], OrEmpty(p.blockedRecipients));
    }
    if "protocol_calls_per_window" in fields {
      U32Exactly(fields["protocol_calls_per_window"], CallCap(p));
    }
  }

  lemma CoreHasNoLater(book: AddressBook, fields: map<string, ScVal>, p: Policy)
    requires DecodeCore(book, fields).Ok?
    requires DecodeAdditive(book, fields, DecodeCore(book, fields).value) == Ok(p)
    ensures DecodeCore(book, fields).value == WithoutLater(p)
  {
    hide DecodeLimits, DecodeLists, DecodeSwitches, RecipientCaps, AddressVector, PolicyU32;
  }

  lemma MapExactly(book: AddressBook, v: ScVal, p: Policy)
    requires v.Map?
    ensures DecodePolicy(book, v) == Ok(p) <==> MapShows(book, v, p)
  {
    hide SymbolFields, HasFields, DecodeCore, DecodeAdditive, LimitsShow, ListsShow, SwitchesShow, LaterFieldsShow;
    forall fields
      ensures SymbolFields(v, POLICY_FIELDS, POLICY_OPTIONAL_FIELDS) == Ok(fields) <==>
              HasFields(v, POLICY_FIELDS, POLICY_OPTIONAL_FIELDS, fields)
    {
      FieldsExactly(v, POLICY_FIELDS, POLICY_OPTIONAL_FIELDS, fields);
    }
    var all := SymbolFields(v, POLICY_FIELDS, POLICY_OPTIONAL_FIELDS);
    if all.Ok? {
      var fields := all.value;
      CoreExactly(book, fields, p);
      LaterExactly(book, fields, p);
      if DecodePolicy(book, v) == Ok(p) {
        CoreHasNoLater(book, fields, p);
      }
      assert DecodePolicy(book, v) == Ok(p) <==> FieldsShow(book, fields, p);
    }
  }

  /** Exactly the values that show a policy decode, each to the policy it shows. */
  lemma {:induction false} DecodesExactly(book: AddressBook, v: ScVal, p: Policy)
    ensures DecodePolicy(book, v) == Ok(p) <==> Shows(book, v, p)
  {
    hide SymbolFields, HasFields, FieldsShow;
    var m := if v.Vec? && |v.items| == 1 then v.items[0] else v;
    if m.Map? {
      MapExactly(book, m, p);
      assert DecodePolicy(book, v) == DecodePolicy(book, m);
    } else {
      assert forall fields :: !HasFields(m, POLICY_FIELDS, POLICY_OPTIONAL_FIELDS, fields) by {
        NoMapNoFields(m);
      }
    }
  }

  lemma NoMapNoFields(v: ScVal)
    requires !v.Map?
    ensures forall fields :: !HasFields(v, POLICY_FIELDS, POLICY_OPTIONAL_FIELDS, fields)
  {
  }

  // ---------------------------------------------------------------- what the encoder writes

  /** The canonical form of an address, in an address value. */
  ghost predicate WrittenAddress(book: AddressBook, v: ScVal, a: string) {
    v.Address? && book(a) == Some(v.address)
  }

  ghost predicate WrittenAddresses(book: AddressBook, v: ScVal, values: seq<string>) {
    && v.Vec? && |v.items| == |values|
    && forall i :: 0 <= i < |values| ==> WrittenAddress(book, v.items[i], values[i])
  }

  ghost predicate WrittenRuleFields(book: AddressBook, fields: map<string, ScVal>, r: ProtocolRule) {
    && "contract" in fields && WrittenAddress(book, fields["contract"], r.contract)
    && "fns" in fields && ShowsFns(fields["fns"], r.fns)
    && "paused" in fields && fields["paused"] == Bool(r.paused == Some(true))
  }

  /** A rule is written with all its fields, `paused` included. */
  ghost predicate WrittenRule(book: AddressBook, v: ScVal, r: ProtocolRule) {
    exists fields :: HasFields(v, ["contract", "fns", "paused"], [], fields) && WrittenRuleFields(book, fields, r)
  }

  ghost predicate WrittenCapFields(book: AddressBook, fields: map<string, ScVal>, c: RecipientCap) {
    && "recipient" in fields && WrittenAddress(book, fields["recipient"], c.recipient)
    && "cap" in fields && fields["cap"] == I128(c.cap)
  }

  ghost predicate WrittenCap(book: AddressBook, v: ScVal, c: RecipientCap) {
    exists fields :: HasFields(v, ["recipient", "cap"], [], fields) && WrittenCapFields(book, fields, c)
  }

  ghost predicate WrittenRules(book: AddressBook, v: ScVal, rules: seq<ProtocolRule>) {
    v.Vec? && |v.items| == |rules| && forall i :: 0 <= i < |rules| ==> WrittenRule(book, v.items[i], rules[i])
  }

  ghost predicate WrittenCaps(book: AddressBook, v: ScVal, caps: seq<RecipientCap>) {
    v.Vec? && |v.items| == |caps| && forall i :: 0 <= i < |caps| ==> WrittenCap(book, v.items[i], caps[i])
  }

  /** Every field in its own wire type, the absent ones by their defaults. */
  ghost predicate Written(book: AddressBook, fields: map<string, ScVal>, p: Policy) {
    && Get(fields, "per_tx_cap") == Ok(I128(p.perTxCap))
    && Get(fields, "window_secs") == Ok(U64(p.windowSecs))
    && Get(fields, "window_cap") == Ok(I128(p.windowCap))
    && Get(fields, "allow_any_recipient") == Ok(Bool(p.allowAnyRecipient))
    && Get(fields, "active_from") == Ok(U64(p.activeFrom))
    && Get(fields, "active_until") == Ok(U64(p.activeUntil))
    && Get(fields, "paused") == Ok(Bool(p.paused))
    && Get(fields, "dms_grace_secs") == Ok(U64(p.dmsGraceSecs))
    && Get(fields, "protocol_calls_per_window")
       == Ok(U32(if p.protocolCallsPerWindow.Some? then p.protocolCallsPerWindow.value else 0))
    && Get(fields, "asset_caps") == Ok(Vec([]))
  }

  ghost predicate WrittenLists(book: AddressBook, fields: map<string, ScVal>, p: Policy) {
    && "assets" in fields && WrittenAddresses(book, fields["assets"], p.assets)
    && "recipients" in fields && WrittenAddresses(book, fields["recipients"], p.recipients)
    && "blocked_recipients" in fields
    && WrittenAddresses(book, fields["blocked_recipients"], OrEmpty(p.blockedRecipients))
    && "protocols" in fields && WrittenRules(book, fields["protocols"], p.protocols)
    && "recipient_window_caps" in fields
    && WrittenCaps(book, fields["recipient_window_caps"], OrEmpty(p.recipientWindowCaps))
  }

  lemma AddressesWritten(book: AddressBook, values: seq<string>)
    requires AllValid(book, values)
    ensures WrittenAddresses(book, AddressVec(book, values), values)
  {
  }

  lemma RuleMapReads(book: AddressBook, r: ProtocolRule) returns (fields: map<string, ScVal>)
    ensures HasFields(SortedScMap(RuleFields(book, r)), PROTOCOL_RULE_FIELDS, [], fields)
    ensures HasAll(fields, RuleFields(book, r))
  {
    hide SymbolFields, HasFields, SortedScMap, CanonicalMap, FnsVal, Canonical;
    var entries, v := RuleFields(book, r), SortedScMap(RuleFields(book, r));
    assert |entries[0].key| == 8 && |entries[1].key| == 3 && |entries[2].key| == 6;
    assert PROTOCOL_RULE_FIELDS[0] == entries[0].key;
    assert PROTOCOL_RULE_FIELDS[1] == entries[1].key;
    assert PROTOCOL_RULE_FIELDS[2] == entries[2].key;
    SortedReadsBack(entries, PROTOCOL_RULE_FIELDS, []);
    fields := SymbolFields(v, PROTOCOL_RULE_FIELDS, []).value;
    FieldsExactly(v, PROTOCOL_RULE_FIELDS, [], fields);
  }

  lemma RuleFieldsWritten(book: AddressBook, r: ProtocolRule, fields: map<string, ScVal>)
    requires RuleEncodable(book, r) && HasAll(fields, RuleFields(book, r))
    ensures WrittenRuleFields(book, fields, r)
  {
    var e := RuleFields(book, r);
    assert e[0].key == "contract" && e[1].key == "fns" && e[2].key == "paused";
    assert Get(fields, "contract") == Ok(e[0].val) && Get(fields, "fns") == Ok(e[1].val);
    assert Get(fields, "paused") == Ok(e[2].val);
    hide HasAll, RuleFields;
  }

  lemma RuleWritten(book: AddressBook, r: ProtocolRule)
    requires RuleEncodable(book, r)
    ensures WrittenRule(book, SortedScMap(RuleFields(book, r)), r)
  {
    hide HasFields, WrittenRuleFields, SortedScMap, RuleFields;
    var fields := RuleMapReads(book, r);
    RuleFieldsWritten(book, r, fields);
    assert HasFields(SortedScMap(RuleFields(book, r)), ["contract", "fns", "paused"], [], fields);
  }

  lemma CapMapReads(book: AddressBook, c: RecipientCap) returns (fields: map<string, ScVal>)
    ensures HasFields(SortedScMap(CapFields(book, c)), CAP_FIELDS, [], fields)
    ensures HasAll(fields, CapFields(book, c))
  {
    hide SymbolFields, HasFields, SortedScMap, CanonicalMap, Canonical;
    var entries, v := CapFields(book, c), SortedScMap(CapFields(book, c));
    assert |entries[0].key| == 3 && |entries[1].key| == 9;
    assert CAP_FIELDS[0] == entries[1].key && CAP_FIELDS[1] == entries[0].key;
    SortedReadsBack(entries, CAP_FIELDS, []);
    fields := SymbolFields(v, CAP_FIELDS, []).value;
    FieldsExactly(v, CAP_FIELDS, [], fields);
  }

  lemma CapFieldsWritten(book: AddressBook, c: RecipientCap, fields: map<string, ScVal>)
    requires CapEncodable(book, c) && HasAll(fields, CapFields(book, c))
    ensures WrittenCapFields(book, fields, c)
  {
    var e := CapFields(book, c);
    assert e[0].key == "cap" && e[1].key == "recipient";
    assert Get(fields, "cap") == Ok(e[0].val) && Get(fields, "recipient") == Ok(e[1].val);
    hide HasAll, CapFields;
  }

  lemma CapWritten(book: AddressBook, c: RecipientCap)
    requires CapEncodable(book, c)
    ensures WrittenCap(book, SortedScMap(CapFields(book, c)), c)
  {
    hide HasFields, WrittenCapFields, SortedScMap, CapFields;
    var fields := CapMapReads(book, c);
    CapFieldsWritten(book, c, fields);
    assert HasFields(SortedScMap(CapFields(book, c)), ["recipient", "cap"], [], fields);
  }

  lemma ListsWritten(book: AddressBook, p: Policy)
    requires Encodable(book, p)
    ensures WrittenAddresses(book, AddressVec(book, p.assets), p.assets)
    ensures WrittenAddresses(book, AddressVec(book, p.recipients), p.recipients)
    ensures WrittenAddresses(book, AddressVec(book, OrEmpty(p.blockedRecipients)), OrEmpty(p.blockedRecipients))
    ensures WrittenRules(book, RuleVec(book, p.protocols), p.protocols)
    ensures WrittenCaps(book, CapVec(book, OrEmpty(p.recipientWindowCaps)), OrEmpty(p.recipientWindowCaps))
  {
    hide WrittenAddresses, WrittenRule, WrittenCap, RuleEncodable, CapEncodable, SortedScMap;
    AddressesWritten(book, p.assets);
    AddressesWritten(book, p.recipients);
    AddressesWritten(book, OrEmpty(p.blockedRecipients));
    forall i | 0 <= i < |p.protocols|
      ensures WrittenRule(book, RuleVec(book, p.protocols).items[i], p.protocols[i])
    {
      RuleWritten(book, p.protocols[i]);
    }
    var caps := OrEmpty(p.recipientWindowCaps);
    forall i | 0 <= i < |caps|
      ensures WrittenCap(book, CapVec(book, caps).items[i], caps[i])
    {
      CapWritten(book, caps[i]);
    }
  }

  /** The encoder writes all fifteen fields, sorted, each in its own wire type and every address in canonical form. */
  lemma {:induction false} WritesExactly(book: AddressBook, p: Policy)
    requires PolicyToScVal(book, p).Ok?
    ensures exists fields ::
              && HasFields(PolicyToScVal(book, p).value, POLICY_FIELDS, [], fields)
              && Written(book, fields, p) && WrittenLists(book, fields, p)
  {
    hide SymbolFields, CanonicalMap, Holds, AddressVec, RuleVec, CapVec, Encodable, SortedScMap, PolicyEntries;
    hide WrittenAddresses, WrittenRules, WrittenCaps;
    var v := SortedScMap(PolicyEntries(book, p));
    EncodedFields(book, p);
    var fields := SymbolFields(v, POLICY_FIELDS, POLICY_OPTIONAL_FIELDS).value;
    FieldsExactly(v, POLICY_FIELDS, POLICY_OPTIONAL_FIELDS, fields);
    CoreFieldsBack(book, p, fields);
    AdditiveFieldsBack(book, p, fields);
    ListsWritten(book, p);
    assert HasFields(v, POLICY_FIELDS, [], fields);
  }
}
