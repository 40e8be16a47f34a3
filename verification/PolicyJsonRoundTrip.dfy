/** The JSON form of a policy loses nothing but a rule's explicit `paused: false`. */
module PolicyJsonRoundTrip {
  import opened Wrappers
  import opened Policy
  import opened PolicyJson
  import Decimal

  // ---------------------------------------------------------------- which policies the decoder takes back

  ghost predicate AllOfKind(valid: string -> bool, values: seq<string>) {
    forall i :: 0 <= i < |values| ==> valid(values[i])
  }

  ghost predicate RulesReady(kinds: Kinds, rules: seq<ProtocolRule>) {
    forall i :: 0 <= i < |rules| ==> kinds.contract(rules[i].contract)
  }

  predicate CapReady(kinds: Kinds, c: RecipientCap) {
    kinds.account(c.recipient) && I128_MIN <= c.cap <= I128_MAX
  }

  ghost predicate CapsReady(kinds: Kinds, caps: seq<RecipientCap>) {
    forall i :: 0 <= i < |caps| ==> CapReady(kinds, caps[i])
  }

  predicate LimitsReady(p: Policy) {
    I128_MIN <= p.perTxCap <= I128_MAX && 0 <= p.windowSecs <= U64_MAX && I128_MIN <= p.windowCap <= I128_MAX
  }

  predicate SwitchesReady(p: Policy) {
    0 <= p.activeFrom <= U64_MAX && 0 <= p.activeUntil <= U64_MAX && 0 <= p.dmsGraceSecs <= U64_MAX
  }

  predicate CallsReady(calls: Option<int>) {
    calls.Some? ==> 0 <= calls.value <= U32_MAX
  }

  /** Every number fits its wire type and every address is of the required kind. */
  ghost predicate Ready(kinds: Kinds, p: Policy) {
    && LimitsReady(p) && SwitchesReady(p)
    && AllOfKind(kinds.contract, p.assets) && AllOfKind(kinds.account, p.recipients)
    && RulesReady(kinds, p.protocols)
    && CapsReady(kinds, OrEmpty(p.recipientWindowCaps))
    && AllOfKind(kinds.account, OrEmpty(p.blockedRecipients))
    && CallsReady(p.protocolCallsPerWindow)
  }

  /** The policy with an explicit `paused: false` left out. */
  function DropFalse(p: Policy): Policy {
    p.(protocols := DropFalseRules(p.protocols))
  }

  function DropFalseRule(r: ProtocolRule): ProtocolRule {
    if r.paused == Some(false) then r.(paused := None) else r
  }

  function DropFalseRules(rules: seq<ProtocolRule>): (s: seq<ProtocolRule>)
    ensures |s| == |rules|
  {
    seq(|rules|, i requires 0 <= i < |rules| => DropFalseRule(rules[i]))
  }

  // ---------------------------------------------------------------- part by part

  lemma IntegerBack(n: int, min: int, max: int)
    ensures JsonInteger(Str(Decimal.PrintInt(n)), min, max) == if min <= n <= max then Ok(n) else Err(OutOfRange)
  {
    Decimal.PrintParse(n);
  }

  lemma AddressesBack(valid: string -> bool, values: seq<string>)
    ensures Addresses(valid, Strings(values)).Ok? <==> AllOfKind(valid, values)
    ensures Addresses(valid, Strings(values)).Ok? ==> Addresses(valid, Strings(values)) == Ok(values)
  {
    var items := Strings(values).items;
    var f := item => JsonAddress(valid, item);
    TryMapExactly(items, f);
    assert Addresses(valid, Strings(values)) == TryMap(items, f);
    assert forall i :: 0 <= i < |items| ==> items[i] == Str(values[i]);
    assert forall i :: 0 <= i < |items| ==> (f(items[i]).Ok? <==> valid(values[i]));
    if TryMap(items, f).Ok? {
      assert TryMap(items, f).value == values;
    }
  }

  lemma FunctionsBack(fns: Option<seq<string>>)
    ensures JsonFunctions(FnsToJson(fns)) == Ok(fns)
  {
    if fns.Some? {
      var items := FnsToJson(fns).items;
      TryMapExactly(items, JsonString);
      assert TryMap(items, JsonString).value == fns.value;
    }
  }

  lemma RuleBack(kinds: Kinds, r: ProtocolRule)
    ensures RuleFromJson(kinds, RuleToJson(r)) ==
      if kinds.contract(r.contract) then Ok(DropFalseRule(r)) else Err(NotAnAddress)
  {
    FunctionsBack(r.fns);
    assert |"contract"| == 8 && |"fns"| == 3 && |"paused"| == 6;
    var fields := RuleToJson(r).fields;
    assert Member(fields, "contract") == Str(r.contract);
    assert Member(fields, "fns") == FnsToJson(r.fns);
    assert Member(fields, "paused") == if r.paused == Some(true) then Bool(true) else Undefined;
    assert fields.Keys == if r.paused == Some(true) then {"contract", "fns", "paused"} else {"contract", "fns"};
    assert ClosedObject(RuleToJson(r), {"contract", "fns"}, {"paused"}) == Ok(fields);
    match r.paused
    case None => assert r == ProtocolRule(r.contract, r.fns, None);
    case Some(b) => assert r == ProtocolRule(r.contract, r.fns, Some(b));
  }

  lemma CapBack(kinds: Kinds, c: RecipientCap)
    ensures CapFromJson(kinds, CapToJson(c)).Ok? <==> CapReady(kinds, c)
    ensures CapFromJson(kinds, CapToJson(c)).Ok? ==> CapFromJson(kinds, CapToJson(c)) == Ok(c)
  {
    assert |"recipient"| == 9 && |"cap"| == 3;
    var fields := CapToJson(c).fields;
    assert Member(fields, "recipient") == Str(c.recipient);
    assert Member(fields, "cap") == Str(Decimal.PrintInt(c.cap));
    IntegerBack(c.cap, I128_MIN, I128_MAX);
  }

  lemma RulesBack(kinds: Kinds, rules: seq<ProtocolRule>)
    ensures RulesFromJson(kinds, RulesToJson(rules)).Ok? <==> RulesReady(kinds, rules)
    ensures RulesReady(kinds, rules) ==> RulesFromJson(kinds, RulesToJson(rules)) == Ok(DropFalseRules(rules))
  {
    var items := RulesToJson(rules).items;
    var f := item => RuleFromJson(kinds, item);
    TryMapExactly(items, f);
    assert RulesFromJson(kinds, RulesToJson(rules)) == TryMap(items, f);
    forall i | 0 <= i < |items|
      ensures f(items[i]) ==
        if kinds.contract(rules[i].contract) then Ok(DropFalseRules(rules)[i]) else Err(NotAnAddress)
    {
      RuleBack(kinds, rules[i]);
    }
    if TryMap(items, f).Ok? {
      assert TryMap(items, f).value == DropFalseRules(rules);
    }
  }

  lemma CapsBack(kinds: Kinds, caps: seq<RecipientCap>)
    ensures CapsFromJson(kinds, CapsToJson(caps)).Ok? <==> CapsReady(kinds, caps)
    ensures CapsReady(kinds, caps) ==> CapsFromJson(kinds, CapsToJson(caps)) == Ok(caps)
  {
    var items := CapsToJson(caps).items;
    var f := item => CapFromJson(kinds, item);
    TryMapExactly(items, f);
    assert CapsFromJson(kinds, CapsToJson(caps)) == TryMap(items, f);
    forall i | 0 <= i < |items|
      ensures f(items[i]).Ok? <==> CapReady(kinds, caps[i])
      ensures f(items[i]).Ok? ==> f(items[i]) == Ok(caps[i])
    {
      CapBack(kinds, caps[i]);
    }
    if TryMap(items, f).Ok? {
      assert TryMap(items, f).value == caps;
    }
  }

  // ---------------------------------------------------------------- the fields of the object

  /** Names of equal length that differ in their first letter. */
  lemma DistinctNames()
    ensures "per_tx_cap" != "window_cap" && "per_tx_cap" != "recipients" && "window_cap" != "recipients"
    ensures "window_secs" != "active_from" && "assets" != "paused"
  {
    assert "per_tx_cap"[0] == 'p' && "window_cap"[0] == 'w' && "recipients"[0] == 'r';
    assert "window_secs"[0] == 'w' && "active_from"[0] == 'a' && "assets"[0] == 'a' && "paused"[0] == 'p';
  }

  ghost predicate CarriesRequired(p: Policy, f: map<string, Json>) {
    && Member(f, "version") == Number(POLICY_JSON_VERSION)
    && Member(f, "per_tx_cap") == Str(Decimal.PrintInt(p.perTxCap))
    && Member(f, "window_secs") == Str(Decimal.PrintInt(p.windowSecs))
    && Member(f, "window_cap") == Str(Decimal.PrintInt(p.windowCap))
    && Member(f, "assets") == Strings(p.assets)
    && Member(f, "protocols") == RulesToJson(p.protocols)
    && Member(f, "recipients") == Strings(p.recipients)
    && Member(f, "allow_any_recipient") == Bool(p.allowAnyRecipient)
    && Member(f, "active_from") == Str(Decimal.PrintInt(p.activeFrom))
    && Member(f, "active_until") == Str(Decimal.PrintInt(p.activeUntil))
    && Member(f, "paused") == Bool(p.paused)
    && Member(f, "dms_grace_secs") == Str(Decimal.PrintInt(p.dmsGraceSecs))
  }

  lemma RequiredFields(p: Policy)
    ensures CarriesRequired(p, RequiredToJson(p))
    ensures RequiredToJson(p).Keys == REQUIRED_FIELDS
  {
    hide Decimal.PrintInt, Strings, RulesToJson;
    DistinctNames();
  }

  ghost predicate CarriesOptional(p: Policy, f: map<string, Json>) {
    && Member(f, "recipient_window_caps") == Of(CapsField(p))
    && Member(f, "blocked_recipients") == Of(BlockedField(p))
    && Member(f, "protocol_calls_per_window") == Of(CallsField(p))
  }

  function Of(value: Option<Json>): Json {
    match value
    case None => Undefined
    case Some(json) => json
  }

  lemma With3(f0: map<string, Json>, a: string, b: string, c: string, x: Option<Json>, y: Option<Json>, z: Option<Json>)
    requires a != b && a != c && b != c && a !in f0 && b !in f0 && c !in f0
    requires (x.Some? ==> !x.value.Undefined?) && (y.Some? ==> !y.value.Undefined?) && (z.Some? ==> !z.value.Undefined?)
    ensures var f := With(With(With(f0, a, x), b, y), c, z);
      && Member(f, a) == Of(x) && Member(f, b) == Of(y) && Member(f, c) == Of(z)
      && f0.Keys <= f.Keys <= f0.Keys + {a, b, c}
      && forall k :: k != a && k != b && k != c ==> Member(f, k) == Member(f0, k)
  {}

  lemma RequiredIsNotOptional()
    ensures REQUIRED_FIELDS !! OPTIONAL_FIELDS
    ensures "recipient_window_caps" != "blocked_recipients"
    ensures "recipient_window_caps" != "protocol_calls_per_window"
    ensures "blocked_recipients" != "protocol_calls_per_window"
  {
    assert |"recipient_window_caps"| == 21 && |"blocked_recipients"| == 18 && |"protocol_calls_per_window"| == 25;
  }

  function WithOptional(base: map<string, Json>, p: Policy): map<string, Json> {
    With(With(With(base, "recipient_window_caps", CapsField(p)), "blocked_recipients", BlockedField(p)),
         "protocol_calls_per_window", CallsField(p))
  }

  lemma OptionalFields(base: map<string, Json>, p: Policy)
    requires base.Keys == REQUIRED_FIELDS
    ensures CarriesOptional(p, WithOptional(base, p))
    ensures REQUIRED_FIELDS <= WithOptional(base, p).Keys <= REQUIRED_FIELDS + OPTIONAL_FIELDS
    ensures forall k :: k in REQUIRED_FIELDS ==> Member(WithOptional(base, p), k) == Member(base, k)
  {
    RequiredIsNotOptional();
    assert OPTIONAL_FIELDS == {"recipient_window_caps", "blocked_recipients", "protocol_calls_per_window"};
    With3(base, "recipient_window_caps", "blocked_recipients", "protocol_calls_per_window",
          CapsField(p), BlockedField(p), CallsField(p));
  }

  lemma SameRequired(p: Policy, f: map<string, Json>, base: map<string, Json>)
    requires CarriesRequired(p, base) && forall k :: k in REQUIRED_FIELDS ==> Member(f, k) == Member(base, k)
    ensures CarriesRequired(p, f)
  {}

  /** The object is closed, its required properties are those of the policy and its optional ones are there when set. */
  lemma {:induction false} EncodedFields(p: Policy)
    ensures CarriesRequired(p, PolicyToJson(p).fields) && CarriesOptional(p, PolicyToJson(p).fields)
    ensures ClosedObject(PolicyToJson(p), REQUIRED_FIELDS, OPTIONAL_FIELDS) == Ok(PolicyToJson(p).fields)
  {
    var base := RequiredToJson(p);
    RequiredFields(p);
    OptionalFields(base, p);
    SameRequired(p, WithOptional(base, p), base);
  }

  // ---------------------------------------------------------------- the round trip

  lemma LimitsBack(p: Policy, f: map<string, Json>)
    requires CarriesRequired(p, f)
    ensures LimitsFromJson(f).Ok? <==> LimitsReady(p)
    ensures LimitsReady(p) ==> LimitsFromJson(f) == Ok((p.perTxCap, p.windowSecs, p.windowCap))
  {
    IntegerBack(p.perTxCap, I128_MIN, I128_MAX);
    IntegerBack(p.windowSecs, 0, U64_MAX);
    IntegerBack(p.windowCap, I128_MIN, I128_MAX);
  }

  lemma SwitchesBack(p: Policy, f: map<string, Json>)
    requires CarriesRequired(p, f)
    ensures SwitchesFromJson(f).Ok? <==> SwitchesReady(p)
    ensures SwitchesReady(p) ==>
      SwitchesFromJson(f) == Ok((p.allowAnyRecipient, p.activeFrom, p.activeUntil, p.paused, p.dmsGraceSecs))
  {
    IntegerBack(p.activeFrom, 0, U64_MAX);
    IntegerBack(p.activeUntil, 0, U64_MAX);
    IntegerBack(p.dmsGraceSecs, 0, U64_MAX);
  }

  ghost predicate CoreReady(kinds: Kinds, p: Policy) {
    && LimitsReady(p) && SwitchesReady(p) && RulesReady(kinds, p.protocols)
    && AllOfKind(kinds.contract, p.assets) && AllOfKind(kinds.account, p.recipients)
  }

  lemma CoreBack(kinds: Kinds, p: Policy, f: map<string, Json>)
    requires CarriesRequired(p, f)
    ensures CoreFromJson(kinds, f).Ok? <==> CoreReady(kinds, p)
    ensures CoreReady(kinds, p) ==> CoreFromJson(kinds, f) == Ok(
      DropFalse(p).(recipientWindowCaps := None, blockedRecipients := None, protocolCallsPerWindow := None))
  {
    RulesBack(kinds, p.protocols);
    LimitsBack(p, f);
    AddressesBack(kinds.contract, p.assets);
    AddressesBack(kinds.account, p.recipients);
    SwitchesBack(p, f);
  }

  ghost predicate AdditiveReady(kinds: Kinds, p: Policy) {
    && CapsReady(kinds, OrEmpty(p.recipientWindowCaps))
    && AllOfKind(kinds.account, OrEmpty(p.blockedRecipients))
    && CallsReady(p.protocolCallsPerWindow)
  }

  lemma CapsFieldBack(kinds: Kinds, p: Policy)
    ensures var r := OptionalCaps(kinds, Of(CapsField(p)));
      (r.Ok? <==> CapsReady(kinds, OrEmpty(p.recipientWindowCaps))) && (r.Ok? ==> r == Ok(p.recipientWindowCaps))
  {
    CapsBack(kinds, OrEmpty(p.recipientWindowCaps));
  }

  lemma BlockedFieldBack(kinds: Kinds, p: Policy)
    ensures var r := OptionalBlocked(kinds, Of(BlockedField(p)));
      (r.Ok? <==> AllOfKind(kinds.account, OrEmpty(p.blockedRecipients))) && (r.Ok? ==> r == Ok(p.blockedRecipients))
  {
    AddressesBack(kinds.account, OrEmpty(p.blockedRecipients));
  }

  lemma CallsFieldBack(p: Policy)
    ensures var r := OptionalCalls(Of(CallsField(p)));
      (r.Ok? <==> CallsReady(p.protocolCallsPerWindow)) && (r.Ok? ==> r == Ok(p.protocolCallsPerWindow))
  {
    if p.protocolCallsPerWindow.Some? {
      IntegerBack(p.protocolCallsPerWindow.value, 0, U32_MAX);
    }
  }

  lemma AdditiveBack(kinds: Kinds, p: Policy, f: map<string, Json>, core: Policy)
    requires CarriesOptional(p, f)
    ensures AdditiveFromJson(kinds, f, core).Ok? <==> AdditiveReady(kinds, p)
    ensures AdditiveReady(kinds, p) ==> AdditiveFromJson(kinds, f, core) == Ok(
      core.(recipientWindowCaps := p.recipientWindowCaps, blockedRecipients := p.blockedRecipients,
            protocolCallsPerWindow := p.protocolCallsPerWindow))
  {
    CapsFieldBack(kinds, p);
    BlockedFieldBack(kinds, p);
    CallsFieldBack(p);
  }

  /**
   Decoding the JSON form gives the policy back, up to an explicit `paused: false`, exactly when every number is in
   range and every address of the required kind; otherwise the decoder refuses.
   */
  lemma {:induction false} JsonRoundTrip(kinds: Kinds, p: Policy)
    ensures PolicyFromJson(kinds, PolicyToJson(p)).Ok? <==> Ready(kinds, p)
    ensures Ready(kinds, p) ==> PolicyFromJson(kinds, PolicyToJson(p)) == Ok(DropFalse(p))
  {
    var f := PolicyToJson(p).fields;
    EncodedFields(p);
    CoreBack(kinds, p, f);
    if CoreReady(kinds, p) {
      AdditiveBack(kinds, p, f, CoreFromJson(kinds, f).value);
    }
  }

  // ---------------------------------------------------------------- decoded policies

  lemma DecodedAddresses(valid: string -> bool, v: Json)
    requires Addresses(valid, v).Ok?
    ensures AllOfKind(valid, Addresses(valid, v).value)
  {
    var f := item => JsonAddress(valid, item);
    TryMapExactly(v.items, f);
    assert Addresses(valid, v) == TryMap(v.items, f);
    var values := Addresses(valid, v).value;
    forall i | 0 <= i < |values| ensures valid(values[i]) {
      assert Ok(values[i]) == f(v.items[i]);
    }
  }

  lemma DecodedRules(kinds: Kinds, v: Json)
    requires RulesFromJson(kinds, v).Ok?
    ensures RulesReady(kinds, RulesFromJson(kinds, v).value)
  {
    var f := item => RuleFromJson(kinds, item);
    TryMapExactly(v.items, f);
    assert RulesFromJson(kinds, v) == TryMap(v.items, f);
    var rules := RulesFromJson(kinds, v).value;
    forall i | 0 <= i < |rules| ensures kinds.contract(rules[i].contract) {
      assert Ok(rules[i]) == f(v.items[i]) == RuleFromJson(kinds, v.items[i]);
    }
  }

  lemma DecodedCaps(kinds: Kinds, v: Json)
    requires CapsFromJson(kinds, v).Ok?
    ensures CapsReady(kinds, CapsFromJson(kinds, v).value)
  {
    var f := item => CapFromJson(kinds, item);
    TryMapExactly(v.items, f);
    assert CapsFromJson(kinds, v) == TryMap(v.items, f);
    var caps := CapsFromJson(kinds, v).value;
    forall i | 0 <= i < |caps| ensures CapReady(kinds, caps[i]) {
      assert Ok(caps[i]) == f(v.items[i]) == CapFromJson(kinds, v.items[i]);
    }
  }

  lemma CoreDecoded(kinds: Kinds, root: map<string, Json>)
    requires CoreFromJson(kinds, root).Ok?
    ensures CoreReady(kinds, CoreFromJson(kinds, root).value)
  {
    DecodedRules(kinds, Member(root, "protocols"));
    DecodedAddresses(kinds.contract, Member(root, "assets"));
    DecodedAddresses(kinds.account, Member(root, "recipients"));
    assert LimitsFromJson(root).Ok? && SwitchesFromJson(root).Ok?;
  }

  lemma AdditiveDecoded(kinds: Kinds, root: map<string, Json>, core: Policy)
    requires AdditiveFromJson(kinds, root, core).Ok?
    ensures AdditiveReady(kinds, AdditiveFromJson(kinds, root, core).value)
  {
    if !Member(root, "recipient_window_caps").Undefined? {
      DecodedCaps(kinds, Member(root, "recipient_window_caps"));
    }
    if !Member(root, "blocked_recipients").Undefined? {
      DecodedAddresses(kinds.account, Member(root, "blocked_recipients"));
    }
  }

  lemma DecodedIsReady(kinds: Kinds, v: Json)
    requires PolicyFromJson(kinds, v).Ok?
    ensures Ready(kinds, PolicyFromJson(kinds, v).value)
  {
    hide CoreFromJson, AdditiveFromJson;
    CoreDecoded(kinds, v.fields);
    AdditiveDecoded(kinds, v.fields, CoreFromJson(kinds, v.fields).value);
    AdditiveKeepsCore(kinds, v.fields, CoreFromJson(kinds, v.fields).value);
  }

  lemma AdditiveKeepsCore(kinds: Kinds, root: map<string, Json>, core: Policy)
    requires AdditiveFromJson(kinds, root, core).Ok? && CoreReady(kinds, core)
    ensures CoreReady(kinds, AdditiveFromJson(kinds, root, core).value)
  {
    hide OptionalCaps, OptionalBlocked, OptionalCalls;
  }

  /**
   Whatever decodes can be encoded and decoded again, to the same policy up to an explicit `paused: false`: exactly the
   same one when no rule says so, and the JSON itself is the same from then on.
   */
  lemma {:induction false} DecodeEncodeDecode(kinds: Kinds, v: Json)
    requires PolicyFromJson(kinds, v).Ok?
    ensures var p := PolicyFromJson(kinds, v).value;
            && Ready(kinds, p)
            && PolicyFromJson(kinds, PolicyToJson(p)) == Ok(DropFalse(p))
            && (DropFalse(p) == p <==> forall i :: 0 <= i < |p.protocols| ==> p.protocols[i].paused != Some(false))
            && PolicyToJson(DropFalse(p)) == PolicyToJson(p)
  {
    hide PolicyFromJson, Ready, RulesToJson, DropFalseRules;
    var p := PolicyFromJson(kinds, v).value;
    DecodedIsReady(kinds, v);
    JsonRoundTrip(kinds, p);
    SameRules(p.protocols);
    NothingDropped(p.protocols);
  }

  lemma NothingDropped(rules: seq<ProtocolRule>)
    ensures DropFalseRules(rules) == rules <==> forall i :: 0 <= i < |rules| ==> rules[i].paused != Some(false)
  {
    if DropFalseRules(rules) == rules {
      forall i | 0 <= i < |rules|
        ensures rules[i].paused != Some(false)
      {
        assert DropFalseRules(rules)[i] == DropFalseRule(rules[i]);
      }
    }
  }

  /** Two decodable policies have the same JSON exactly when they agree up to an explicit `paused: false`. */
  lemma EqualJson(kinds: Kinds, p: Policy, q: Policy)
    requires Ready(kinds, p) && Ready(kinds, q)
    ensures PolicyToJson(p) == PolicyToJson(q) <==> DropFalse(p) == DropFalse(q)
  {
    JsonRoundTrip(kinds, p);
    JsonRoundTrip(kinds, q);
    SameRules(p.protocols);
    SameRules(q.protocols);
    assert PolicyToJson(p) == PolicyToJson(DropFalse(p));
    assert PolicyToJson(q) == PolicyToJson(DropFalse(q));
  }

  lemma SameRules(rules: seq<ProtocolRule>)
    ensures RulesToJson(DropFalseRules(rules)) == RulesToJson(rules)
  {
    forall i | 0 <= i < |rules| ensures RuleToJson(DropFalseRules(rules)[i]) == RuleToJson(rules[i]) {}
  }
}
