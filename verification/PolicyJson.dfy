/** The lossless JSON form of a policy (src/policy-json.ts): integers as decimal strings, a closed field set. */
module PolicyJson {
  import opened Wrappers
  import opened Policy
  import Decimal

  /** A JavaScript value as JSON.parse or a caller supplies it; a property may also be present and undefined. */
  datatype Json =
    | Undefined
    | Null
    | Bool(b: bool)
    | Number(n: real)
    | Str(s: string)
    | Arr(items: seq<Json>)
    | Obj(fields: map<string, Json>)

  datatype JsonError =
    | NotAnObject | UnknownField | MissingField | WrongVersion | NotAnArray | NotABoolean | NotAnAddress
    | NotAString | NotAnInteger | OutOfRange

  /** isAccountAddress and isContractAddress. */
  datatype Kinds = Kinds(account: string -> bool, contract: string -> bool)

  const POLICY_JSON_VERSION := 1.0

  // ---------------------------------------------------------------- encoding

  function Strings(s: seq<string>): Json {
    Arr(seq(|s|, i requires 0 <= i < |s| => Str(s[i])))
  }

  function FnsToJson(fns: Option<seq<string>>): Json {
    match fns
    case None => Null
    case Some(names) => Strings(names)
  }

  function RuleToJson(r: ProtocolRule): Json {
    var base := map["contract" := Str(r.contract), "fns" := FnsToJson(r.fns)];
    Obj(if r.paused == Some(true) then base["paused" := Bool(true)] else base)
  }

  function CapToJson(c: RecipientCap): Json {
    Obj(map["recipient" := Str(c.recipient), "cap" := Str(Decimal.PrintInt(c.cap))])
  }

  function RulesToJson(rules: seq<ProtocolRule>): Json {
    Arr(seq(|rules|, i requires 0 <= i < |rules| => RuleToJson(rules[i])))
  }

  function CapsToJson(caps: seq<RecipientCap>): Json {
    Arr(seq(|caps|, i requires 0 <= i < |caps| => CapToJson(caps[i])))
  }

  function RequiredToJson(p: Policy): map<string, Json> {
    map[
      "version" := Number(POLICY_JSON_VERSION),
      "per_tx_cap" := Str(Decimal.PrintInt(p.perTxCap)),
      "window_secs" := Str(Decimal.PrintInt(p.windowSecs)),
      "window_cap" := Str(Decimal.PrintInt(p.windowCap)),
      "assets" := Strings(p.assets),
      "protocols" := RulesToJson(p.protocols),
      "recipients" := Strings(p.recipients),
      "allow_any_recipient" := Bool(p.allowAnyRecipient),
      "active_from" := Str(Decimal.PrintInt(p.activeFrom)),
      "active_until" := Str(Decimal.PrintInt(p.activeUntil)),
      "paused" := Bool(p.paused),
      "dms_grace_secs" := Str(Decimal.PrintInt(p.dmsGraceSecs))]
  }

  /** An absent optional field is no property at all. */
  function With(fields: map<string, Json>, key: string, value: Option<Json>): map<string, Json> {
    match value
    case None => fields
    case Some(json) => fields[key := json]
  }

  function CapsField(p: Policy): Option<Json> {
    if p.recipientWindowCaps.None? then None else Some(CapsToJson(p.recipientWindowCaps.value))
  }

  function BlockedField(p: Policy): Option<Json> {
    if p.blockedRecipients.None? then None else Some(Strings(p.blockedRecipients.value))
  }

  function CallsField(p: Policy): Option<Json> {
    if p.protocolCallsPerWindow.None? then None else Some(Str(Decimal.PrintInt(p.protocolCallsPerWindow.value)))
  }

  function PolicyToJson(p: Policy): Json {
    Obj(With(With(With(RequiredToJson(p), "recipient_window_caps", CapsField(p)),
                  "blocked_recipients", BlockedField(p)),
             "protocol_calls_per_window", CallsField(p)))
  }

  // ---------------------------------------------------------------- decoding

  const REQUIRED_FIELDS := {
    "version", "per_tx_cap", "window_secs", "window_cap", "assets", "protocols", "recipients",
    "allow_any_recipient", "active_from", "active_until", "paused", "dms_grace_secs"}
  const OPTIONAL_FIELDS := {"recipient_window_caps", "blocked_recipients", "protocol_calls_per_window"}

  /** `root.name`. */
  function Member(fields: map<string, Json>, name: string): Json {
    if name in fields then fields[name] else Undefined
  }

  /** jsonObject and assertJsonFields: an object with every required and no unknown property. */
  function ClosedObject(v: Json, required: set<string>, optional: set<string>): Result<map<string, Json>, JsonError> {
    if !v.Obj? then Err(NotAnObject)
    else if !(v.fields.Keys <= required + optional) then Err(UnknownField)
    else if !(required <= v.fields.Keys) then Err(MissingField)
    else Ok(v.fields)
  }

  function JsonArray(v: Json): Result<seq<Json>, JsonError> {
    if v.Arr? then Ok(v.items) else Err(NotAnArray)
  }

  function JsonBoolean(v: Json): Result<bool, JsonError> {
    if v.Bool? then Ok(v.b) else Err(NotABoolean)
  }

  function JsonAddress(valid: string -> bool, v: Json): Result<string, JsonError> {
    if v.Str? && valid(v.s) then Ok(v.s) else Err(NotAnAddress)
  }

  function JsonString(v: Json): Result<string, JsonError> {
    if v.Str? then Ok(v.s) else Err(NotAString)
  }

  function JsonFunctions(v: Json): Result<Option<seq<string>>, JsonError> {
    if v.Null? then Ok(None)
    else
      var items :- JsonArray(v);
      var names :- TryMap(items, JsonString);
      Ok(Some(names))
  }

  function JsonInteger(v: Json, min: int, max: int): Result<int, JsonError> {
    if !v.Str? || Decimal.ParseInt(v.s).None? then Err(NotAnInteger)
    else
      var n := Decimal.ParseInt(v.s).value;
      if min <= n <= max then Ok(n) else Err(OutOfRange)
  }

  function Addresses(valid: string -> bool, v: Json): Result<seq<string>, JsonError> {
    var items :- JsonArray(v);
    TryMap(items, item => JsonAddress(valid, item))
  }

  function RuleFromJson(kinds: Kinds, v: Json): Result<ProtocolRule, JsonError> {
    var fields :- ClosedObject(v, {"contract", "fns"}, {"paused"});
    var contract :- JsonAddress(kinds.contract, Member(fields, "contract"));
    var fns :- JsonFunctions(Member(fields, "fns"));
    if Member(fields, "paused").Undefined? then Ok(ProtocolRule(contract, fns, None))
    else
      var paused :- JsonBoolean(Member(fields, "paused"));
      Ok(ProtocolRule(contract, fns, Some(paused)))
  }

  function RulesFromJson(kinds: Kinds, v: Json): Result<seq<ProtocolRule>, JsonError> {
    var items :- JsonArray(v);
    TryMap(items, item => RuleFromJson(kinds, item))
  }

  function CapFromJson(kinds: Kinds, v: Json): Result<RecipientCap, JsonError> {
    var fields :- ClosedObject(v, {"recipient", "cap"}, {});
    var recipient :- JsonAddress(kinds.account, Member(fields, "recipient"));
    var cap :- JsonInteger(Member(fields, "cap"), I128_MIN, I128_MAX);
    Ok(RecipientCap(recipient, cap))
  }

  function CapsFromJson(kinds: Kinds, v: Json): Result<seq<RecipientCap>, JsonError> {
    var items :- JsonArray(v);
    TryMap(items, item => CapFromJson(kinds, item))
  }

  function LimitsFromJson(root: map<string, Json>): Result<(int, int, int), JsonError> {
    var perTxCap :- JsonInteger(Member(root, "per_tx_cap"), I128_MIN, I128_MAX);
    var windowSecs :- JsonInteger(Member(root, "window_secs"), 0, U64_MAX);
    var windowCap :- JsonInteger(Member(root, "window_cap"), I128_MIN, I128_MAX);
    Ok((perTxCap, windowSecs, windowCap))
  }

  function SwitchesFromJson(root: map<string, Json>): Result<(bool, int, int, bool, int), JsonError> {
    var allowAnyRecipient :- JsonBoolean(Member(root, "allow_any_recipient"));
    var activeFrom :- JsonInteger(Member(root, "active_from"), 0, U64_MAX);
    var activeUntil :- JsonInteger(Member(root, "active_until"), 0, U64_MAX);
    var paused :- JsonBoolean(Member(root, "paused"));
    var dmsGraceSecs :- JsonInteger(Member(root, "dms_grace_secs"), 0, U64_MAX);
    Ok((allowAnyRecipient, activeFrom, activeUntil, paused, dmsGraceSecs))
  }

  function CoreFromJson(kinds: Kinds, root: map<string, Json>): Result<Policy, JsonError> {
    var protocols :- RulesFromJson(kinds, Member(root, "protocols"));
    var limits :- LimitsFromJson(root);
    var assets :- Addresses(kinds.contract, Member(root, "assets"));
    var recipients :- Addresses(kinds.account, Member(root, "recipients"));
    var switches :- SwitchesFromJson(root);
    Ok(Policy(limits.0, limits.1, limits.2, assets, protocols, recipients, switches.0, switches.1, switches.2,
              switches.3, switches.4, None, None, None))
  }

  function OptionalCaps(kinds: Kinds, v: Json): Result<Option<seq<RecipientCap>>, JsonError> {
    if v.Undefined? then Ok(None) else var caps :- CapsFromJson(kinds, v); Ok(Some(caps))
  }

  function OptionalBlocked(kinds: Kinds, v: Json): Result<Option<seq<string>>, JsonError> {
    if v.Undefined? then Ok(None) else var blocked :- Addresses(kinds.account, v); Ok(Some(blocked))
  }

  function OptionalCalls(v: Json): Result<Option<int>, JsonError> {
    if v.Undefined? then Ok(None) else var calls :- JsonInteger(v, 0, U32_MAX); Ok(Some(calls))
  }

  function AdditiveFromJson(kinds: Kinds, root: map<string, Json>, core: Policy): Result<Policy, JsonError> {
    var caps :- OptionalCaps(kinds, Member(root, "recipient_window_caps"));
    var blocked :- OptionalBlocked(kinds, Member(root, "blocked_recipients"));
    var calls :- OptionalCalls(Member(root, "protocol_calls_per_window"));
    Ok(core.(recipientWindowCaps := caps, blockedRecipients := blocked, protocolCallsPerWindow := calls))
  }

  function PolicyFromJson(kinds: Kinds, v: Json): Result<Policy, JsonError> {
    var root :- ClosedObject(v, REQUIRED_FIELDS, OPTIONAL_FIELDS);
    if Member(root, "version") != Number(POLICY_JSON_VERSION) then Err(WrongVersion)
    else
      var core :- CoreFromJson(kinds, root);
      AdditiveFromJson(kinds, root, core)
  }

  // ---------------------------------------------------------------- which values are policies

  /** The text of an integer within the bounds. */
  ghost predicate IntegerIs(v: Json, n: int, min: int, max: int) {
    v.Str? && Decimal.Numeral(v.s, n) && min <= n <= max
  }

  lemma IntegerExactly(v: Json, n: int, min: int, max: int)
    ensures JsonInteger(v, min, max) == Ok(n) <==> IntegerIs(v, n, min, max)
  {
    hide Decimal.ParseInt, Decimal.Numeral;
    if v.Str? {
      Decimal.ParseExactly(v.s, n);
    }
  }

  ghost predicate TextsAre(v: Json, texts: seq<string>) {
    v.Arr? && |v.items| == |texts| && forall i :: 0 <= i < |texts| ==> v.items[i] == Str(texts[i])
  }

  ghost predicate AddressesAre(valid: string -> bool, v: Json, addresses: seq<string>) {
    TextsAre(v, addresses) && forall i :: 0 <= i < |addresses| ==> valid(addresses[i])
  }

  ghost predicate FnsAre(v: Json, fns: Option<seq<string>>) {
    match fns
    case None => v.Null?
    case Some(names) => TextsAre(v, names)
  }

  /** Every required property is there and no unknown one. */
  predicate HasFields(v: Json, required: set<string>, optional: set<string>) {
    v.Obj? && required <= v.fields.Keys <= required + optional
  }

  ghost predicate RuleIs(kinds: Kinds, v: Json, r: ProtocolRule) {
    && HasFields(v, {"contract", "fns"}, {"paused"})
    && Member(v.fields, "contract") == Str(r.contract) && kinds.contract(r.contract)
    && FnsAre(Member(v.fields, "fns"), r.fns)
    && Member(v.fields, "paused") == if r.paused.None? then Undefined else Bool(r.paused.value)
  }

  ghost predicate RulesAre(kinds: Kinds, v: Json, rules: seq<ProtocolRule>) {
    v.Arr? && |v.items| == |rules| && forall i :: 0 <= i < |rules| ==> RuleIs(kinds, v.items[i], rules[i])
  }

  ghost predicate CapIs(kinds: Kinds, v: Json, c: RecipientCap) {
    && HasFields(v, {"recipient", "cap"}, {})
    && Member(v.fields, "recipient") == Str(c.recipient) && kinds.account(c.recipient)
    && IntegerIs(Member(v.fields, "cap"), c.cap, I128_MIN, I128_MAX)
  }

  ghost predicate CapsAre(kinds: Kinds, v: Json, caps: seq<RecipientCap>) {
    v.Arr? && |v.items| == |caps| && forall i :: 0 <= i < |caps| ==> CapIs(kinds, v.items[i], caps[i])
  }

  ghost predicate RequiredAre(kinds: Kinds, root: map<string, Json>, p: Policy) {
    && IntegerIs(Member(root, "per_tx_cap"), p.perTxCap, I128_MIN, I128_MAX)
    && IntegerIs(Member(root, "window_secs"), p.windowSecs, 0, U64_MAX)
    && IntegerIs(Member(root, "window_cap"), p.windowCap, I128_MIN, I128_MAX)
    && AddressesAre(kinds.contract, Member(root, "assets"), p.assets)
    && RulesAre(kinds, Member(root, "protocols"), p.protocols)
    && AddressesAre(kinds.account, Member(root, "recipients"), p.recipients)
    && Member(root, "allow_any_recipient") == Bool(p.allowAnyRecipient)
    && IntegerIs(Member(root, "active_from"), p.activeFrom, 0, U64_MAX)
    && IntegerIs(Member(root, "active_until"), p.activeUntil, 0, U64_MAX)
    && Member(root, "paused") == Bool(p.paused)
    && IntegerIs(Member(root, "dms_grace_secs"), p.dmsGraceSecs, 0, U64_MAX)
  }

  /** An optional property is absent exactly when the field is. */
  ghost predicate OptionalCapsAre(kinds: Kinds, v: Json, caps: Option<seq<RecipientCap>>) {
    if caps.None? then v.Undefined? else CapsAre(kinds, v, caps.value)
  }

  ghost predicate OptionalBlockedAre(kinds: Kinds, v: Json, blocked: Option<seq<string>>) {
    if blocked.None? then v.Undefined? else AddressesAre(kinds.account, v, blocked.value)
  }

  ghost predicate OptionalCallsAre(v: Json, calls: Option<int>) {
    if calls.None? then v.Undefined? else IntegerIs(v, calls.value, 0, U32_MAX)
  }

  ghost predicate OptionalAre(kinds: Kinds, root: map<string, Json>, p: Policy) {
    && OptionalCapsAre(kinds, Member(root, "recipient_window_caps"), p.recipientWindowCaps)
    && OptionalBlockedAre(kinds, Member(root, "blocked_recipients"), p.blockedRecipients)
    && OptionalCallsAre(Member(root, "protocol_calls_per_window"), p.protocolCallsPerWindow)
  }

  /** The value is a closed object of version 1 whose properties are the fields of p. */
  ghost predicate Describes(kinds: Kinds, v: Json, p: Policy) {
    && HasFields(v, REQUIRED_FIELDS, OPTIONAL_FIELDS)
    && Member(v.fields, "version") == Number(POLICY_JSON_VERSION)
    && RequiredAre(kinds, v.fields, p)
    && OptionalAre(kinds, v.fields, p)
  }

  lemma TextsExactly(v: Json, texts: seq<string>)
    requires v.Arr?
    ensures TryMap(v.items, JsonString) == Ok(texts) <==> TextsAre(v, texts)
  {
    TryMapExactly(v.items, JsonString);
    if TextsAre(v, texts) {
      assert TryMap(v.items, JsonString).value == texts;
    }
  }

  lemma FnsExactly(v: Json, fns: Option<seq<string>>)
    ensures JsonFunctions(v) == Ok(fns) <==> FnsAre(v, fns)
  {
    if v.Arr? && fns.Some? {
      TextsExactly(v, fns.value);
    }
  }

  lemma AddressesExactly(valid: string -> bool, v: Json, addresses: seq<string>)
    ensures Addresses(valid, v) == Ok(addresses) <==> AddressesAre(valid, v, addresses)
  {
    if v.Arr? {
      var f := item => JsonAddress(valid, item);
      TryMapExactly(v.items, f);
      assert Addresses(valid, v) == TryMap(v.items, f);
      if AddressesAre(valid, v, addresses) {
        assert TryMap(v.items, f).value == addresses;
      }
      if TryMap(v.items, f) == Ok(addresses) {
        assert forall i :: 0 <= i < |addresses| ==> Ok(addresses[i]) == f(v.items[i]);
      }
    }
  }

  lemma RuleExactly(kinds: Kinds, v: Json, r: ProtocolRule)
    ensures RuleFromJson(kinds, v) == Ok(r) <==> RuleIs(kinds, v, r)
  {
    hide JsonFunctions, FnsAre;
    if v.Obj? {
      FnsExactly(Member(v.fields, "fns"), r.fns);
    }
  }

  lemma RulesExactly(kinds: Kinds, v: Json, rules: seq<ProtocolRule>)
    ensures RulesFromJson(kinds, v) == Ok(rules) <==> RulesAre(kinds, v, rules)
  {
    hide RuleFromJson, RuleIs;
    if v.Arr? {
      var f := item => RuleFromJson(kinds, item);
      TryMapExactly(v.items, f);
      assert RulesFromJson(kinds, v) == TryMap(v.items, f);
      if |v.items| == |rules| {
        forall i | 0 <= i < |rules|
          ensures f(v.items[i]) == Ok(rules[i]) <==> RuleIs(kinds, v.items[i], rules[i])
        {
          RuleExactly(kinds, v.items[i], rules[i]);
        }
      }
      if RulesAre(kinds, v, rules) {
        assert TryMap(v.items, f).value == rules;
      }
      if TryMap(v.items, f) == Ok(rules) {
        assert forall i :: 0 <= i < |rules| ==> Ok(rules[i]) == f(v.items[i]);
      }
    }
  }

  lemma CapExactly(kinds: Kinds, v: Json, c: RecipientCap)
    ensures CapFromJson(kinds, v) == Ok(c) <==> CapIs(kinds, v, c)
  {
    hide JsonInteger, IntegerIs;
    if v.Obj? {
      IntegerExactly(Member(v.fields, "cap"), c.cap, I128_MIN, I128_MAX);
    }
  }

  lemma CapsExactly(kinds: Kinds, v: Json, caps: seq<RecipientCap>)
    ensures CapsFromJson(kinds, v) == Ok(caps) <==> CapsAre(kinds, v, caps)
  {
    hide CapFromJson, CapIs;
    if v.Arr? {
      var f := item => CapFromJson(kinds, item);
      TryMapExactly(v.items, f);
      assert CapsFromJson(kinds, v) == TryMap(v.items, f);
      if |v.items| == |caps| {
        forall i | 0 <= i < |caps|
          ensures f(v.items[i]) == Ok(caps[i]) <==> CapIs(kinds, v.items[i], caps[i])
        {
          CapExactly(kinds, v.items[i], caps[i]);
        }
      }
      if CapsAre(kinds, v, caps) {
        assert TryMap(v.items, f).value == caps;
      }
      if TryMap(v.items, f) == Ok(caps) {
        assert forall i :: 0 <= i < |caps| ==> Ok(caps[i]) == f(v.items[i]);
      }
    }
  }

  /** The policy without the optional fields, as it is before they are read. */
  function Core(p: Policy): Policy {
    p.(recipientWindowCaps := None, blockedRecipients := None, protocolCallsPerWindow := None)
  }

  lemma CoreExactly(kinds: Kinds, root: map<string, Json>, p: Policy)
    ensures CoreFromJson(kinds, root) == Ok(Core(p)) <==> RequiredAre(kinds, root, p)
  {
    hide Addresses, AddressesAre, RulesFromJson, RulesAre, JsonInteger, IntegerIs;
    IntegerExactly(Member(root, "per_tx_cap"), p.perTxCap, I128_MIN, I128_MAX);
    IntegerExactly(Member(root, "window_secs"), p.windowSecs, 0, U64_MAX);
    IntegerExactly(Member(root, "window_cap"), p.windowCap, I128_MIN, I128_MAX);
    IntegerExactly(Member(root, "active_from"), p.activeFrom, 0, U64_MAX);
    IntegerExactly(Member(root, "active_until"), p.activeUntil, 0, U64_MAX);
    IntegerExactly(Member(root, "dms_grace_secs"), p.dmsGraceSecs, 0, U64_MAX);
    RulesExactly(kinds, Member(root, "protocols"), p.protocols);
    AddressesExactly(kinds.contract, Member(root, "assets"), p.assets);
    AddressesExactly(kinds.account, Member(root, "recipients"), p.recipients);
  }

  lemma OptionsExactly(kinds: Kinds, v: Json, caps: Option<seq<RecipientCap>>, blocked: Option<seq<string>>,
      calls: Option<int>)
    ensures OptionalCaps(kinds, v) == Ok(caps) <==> OptionalCapsAre(kinds, v, caps)
    ensures OptionalBlocked(kinds, v) == Ok(blocked) <==> OptionalBlockedAre(kinds, v, blocked)
    ensures OptionalCalls(v) == Ok(calls) <==> OptionalCallsAre(v, calls)
  {
    hide Addresses, AddressesAre, CapsFromJson, CapsAre, JsonInteger, IntegerIs;
    if calls.Some? {
      IntegerExactly(v, calls.value, 0, U32_MAX);
    }
    UndefinedIsNoInteger(calls);
    if caps.Some? {
      CapsExactly(kinds, v, caps.value);
    }
    if blocked.Some? {
      AddressesExactly(kinds.account, v, blocked.value);
    }
    UndefinedDescribesNoList(kinds, OrEmpty(caps), OrEmpty(blocked));
  }

  lemma UndefinedDescribesNoList(kinds: Kinds, caps: seq<RecipientCap>, blocked: seq<string>)
    ensures !CapsAre(kinds, Undefined, caps) && !AddressesAre(kinds.account, Undefined, blocked)
  {
  }

  lemma UndefinedIsNoInteger(calls: Option<int>)
    ensures calls.Some? ==> !IntegerIs(Undefined, calls.value, 0, U32_MAX)
  {
  }

  lemma AdditiveExactly(kinds: Kinds, root: map<string, Json>, p: Policy)
    ensures AdditiveFromJson(kinds, root, Core(p)) == Ok(p) <==> OptionalAre(kinds, root, p)
  {
    hide OptionalCaps, OptionalBlocked, OptionalCalls, OptionalCapsAre, OptionalBlockedAre, OptionalCallsAre;
    var caps, blocked, calls := p.recipientWindowCaps, p.blockedRecipients, p.protocolCallsPerWindow;
    OptionsExactly(kinds, Member(root, "recipient_window_caps"), caps, blocked, calls);
    OptionsExactly(kinds, Member(root, "blocked_recipients"), caps, blocked, calls);
    OptionsExactly(kinds, Member(root, "protocol_calls_per_window"), caps, blocked, calls);
  }

  /** Exactly the values that describe a policy decode, each to the policy it describes. */
  lemma {:induction false} DecodesExactly(kinds: Kinds, v: Json, p: Policy)
    ensures PolicyFromJson(kinds, v) == Ok(p) <==> Describes(kinds, v, p)
  {
    hide CoreFromJson, AdditiveFromJson, RequiredAre, OptionalAre;
    if HasFields(v, REQUIRED_FIELDS, OPTIONAL_FIELDS) {
      CoreExactly(kinds, v.fields, p);
      AdditiveExactly(kinds, v.fields, p);
      if PolicyFromJson(kinds, v) == Ok(p) {
        CoreHasNoOptions(kinds, v.fields, p);
      }
    }
  }

  lemma CoreLeavesOptions(kinds: Kinds, root: map<string, Json>)
    ensures var r := CoreFromJson(kinds, root); r.Ok? ==> r.value == Core(r.value)
  {
  }

  lemma CoreHasNoOptions(kinds: Kinds, root: map<string, Json>, p: Policy)
    requires CoreFromJson(kinds, root).Ok?
    requires AdditiveFromJson(kinds, root, CoreFromJson(kinds, root).value) == Ok(p)
    ensures CoreFromJson(kinds, root).value == Core(p)
  {
    hide RulesFromJson, Addresses, LimitsFromJson, SwitchesFromJson, CapsFromJson;
  }

  /** policyFromJson on a parsed value: the optional properties are assigned onto the policy one after the other. */
  method DecodePolicyJson(kinds: Kinds, v: Json) returns (r: Result<Policy, JsonError>)
    ensures r == PolicyFromJson(kinds, v)
    ensures forall p :: r == Ok(p) <==> Describes(kinds, v, p)
  {
    hide Describes, ClosedObject, CoreFromJson, CapsFromJson, Addresses, JsonInteger;
    forall p
      ensures PolicyFromJson(kinds, v) == Ok(p) <==> Describes(kinds, v, p)
    {
      DecodesExactly(kinds, v, p);
    }
    var root :- ClosedObject(v, REQUIRED_FIELDS, OPTIONAL_FIELDS);
    if Member(root, "version") != Number(POLICY_JSON_VERSION) {
      return Err(WrongVersion);
    }
    var policy :- CoreFromJson(kinds, root);
    CoreLeavesOptions(kinds, root);
    if !Member(root, "recipient_window_caps").Undefined? {
      var caps :- CapsFromJson(kinds, Member(root, "recipient_window_caps"));
      policy := policy.(recipientWindowCaps := Some(caps));
    }
    if !Member(root, "blocked_recipients").Undefined? {
      var blocked :- Addresses(kinds.account, Member(root, "blocked_recipients"));
      policy := policy.(blockedRecipients := Some(blocked));
    }
    if !Member(root, "protocol_calls_per_window").Undefined? {
      var calls :- JsonInteger(Member(root, "protocol_calls_per_window"), 0, U32_MAX);
      policy := policy.(protocolCallsPerWindow := Some(calls));
    }
    return Ok(policy);
  }
}
