/** The contract's wire form of a policy (src/policy.ts): policyToScVal and its strict inverse decodePolicy. */
module PolicyScVal {
  import opened Wrappers
  import opened Policy
  import Decimal
  import Lex

  /** The ScVal constructors the codec tells apart; every other one is Other. */
  datatype ScVal =
    | Void
    | Bool(b: bool)
    | U32(u32: int)
    | U64(u64: int)
    | I128(i128: int)
    | Str(text: string)
    | Symbol(name: string)
    | Address(address: string)
    | Vec(items: seq<ScVal>)
    | Map(entries: seq<Entry>)
    | Other

  datatype Entry = Entry(key: ScVal, val: ScVal)

  datatype DecodeError =
    | NotAPolicy | NotAMap | KeyNotSymbol | DuplicateField | NotSorted | UnknownField | MissingField
    | WrongType | NotAnInteger | OutOfRange | InvalidAddress | AssetCapsUnsupported | Undecodable

  datatype EncodeError = NotEncodable | CallsOutOfRange

  // ---------------------------------------------------------------- sorted symbol maps

  datatype Named = Named(key: string, val: ScVal)

  /** Code units; all keys of the contract are ASCII. */
  function Codes(s: string): (c: seq<nat>)
    ensures |c| == |s|
  {
    seq(|s|, i requires 0 <= i < |s| => s[i] as nat)
  }

  function KeyOf(n: Named): seq<nat> {
    Codes(n.key)
  }

  function ToEntries(s: seq<Named>): (r: seq<Entry>)
    ensures |r| == |s|
  {
    seq(|s|, i requires 0 <= i < |s| => Entry(Symbol(s[i].key), s[i].val))
  }

  function SortedScMap(entries: seq<Named>): ScVal {
    Map(ToEntries(Lex.Sort(entries, KeyOf)))
  }

  // ---------------------------------------------------------------- the encoder

  predicate SymbolChar(c: char) {
    'A' <= c <= 'Z' || 'a' <= c <= 'z' || '0' <= c <= '9' || c == '_'
  }

  /** `/^[A-Za-z0-9_]{1,32}$/`. */
  predicate SymbolName(s: string) {
    1 <= |s| <= 32 && forall i :: 0 <= i < |s| ==> SymbolChar(s[i])
  }

  predicate SymbolNames(fns: Option<seq<string>>) {
    fns.Some? ==> forall i :: 0 <= i < |fns.value| ==> SymbolName(fns.value[i])
  }

  predicate AllValid(book: AddressBook, values: seq<string>) {
    forall i :: 0 <= i < |values| ==> book(values[i]).Some?
  }

  predicate RuleEncodable(book: AddressBook, r: ProtocolRule) {
    book(r.contract).Some? && SymbolNames(r.fns)
  }

  predicate CapEncodable(book: AddressBook, c: RecipientCap) {
    book(c.recipient).Some? && I128_MIN <= c.cap <= I128_MAX
  }

  /** The numbers fit their wire types. */
  predicate InRange(p: Policy) {
    && I128_MIN <= p.perTxCap <= I128_MAX && 0 <= p.windowSecs <= U64_MAX && I128_MIN <= p.windowCap <= I128_MAX
    && 0 <= p.activeFrom <= U64_MAX && 0 <= p.activeUntil <= U64_MAX && 0 <= p.dmsGraceSecs <= U64_MAX
  }

  /** validatePolicyForEncoding reports nothing; it does not look at the call cap. */
  predicate Encodable(book: AddressBook, p: Policy) {
    && InRange(p)
    && AllValid(book, p.assets) && AllValid(book, p.recipients) && AllValid(book, OrEmpty(p.blockedRecipients))
    && (forall i :: 0 <= i < |p.protocols| ==> RuleEncodable(book, p.protocols[i]))
    && (forall i :: 0 <= i < |OrEmpty(p.recipientWindowCaps)| ==> CapEncodable(book, OrEmpty(p.recipientWindowCaps)[i]))
  }

  function CallCap(p: Policy): int {
    match p.protocolCallsPerWindow
    case None => 0
    case Some(n) => n
  }

  /** `new Address(s).toString()`; an invalid address does not reach it. */
  function Canonical(book: AddressBook, s: string): string {
    match book(s)
    case None => s
    case Some(key) => key
  }

  function AddressVec(book: AddressBook, values: seq<string>): ScVal {
    Vec(seq(|values|, i requires 0 <= i < |values| => Address(Canonical(book, values[i]))))
  }

  function FnsVal(fns: Option<seq<string>>): ScVal {
    match fns
    case None => Void
    case Some(names) => Vec(seq(|names|, i requires 0 <= i < |names| => Symbol(names[i])))
  }

  function RuleFields(book: AddressBook, r: ProtocolRule): seq<Named> {
    [ Named("contract", Address(Canonical(book, r.contract))),
      Named("fns", FnsVal(r.fns)),
      Named("paused", Bool(r.paused == Some(true))) ]
  }

  function CapFields(book: AddressBook, c: RecipientCap): seq<Named> {
    [Named("cap", I128(c.cap)), Named("recipient", Address(Canonical(book, c.recipient)))]
  }

  function RuleVec(book: AddressBook, rules: seq<ProtocolRule>): ScVal {
    Vec(seq(|rules|, i requires 0 <= i < |rules| => SortedScMap(RuleFields(book, rules[i]))))
  }

  function CapVec(book: AddressBook, caps: seq<RecipientCap>): ScVal {
    Vec(seq(|caps|, i requires 0 <= i < |caps| => SortedScMap(CapFields(book, caps[i]))))
  }

  function PolicyEntries(book: AddressBook, p: Policy): seq<Named> {
    [ Named("per_tx_cap", I128(p.perTxCap)),
      Named("window_secs", U64(p.windowSecs)),
      Named("window_cap", I128(p.windowCap)),
      Named("assets", AddressVec(book, p.assets)),
      Named("protocols", RuleVec(book, p.protocols)),
      Named("recipients", AddressVec(book, p.recipients)),
      Named("recipient_window_caps", CapVec(book, OrEmpty(p.recipientWindowCaps))),
      Named("blocked_recipients", AddressVec(book, OrEmpty(p.blockedRecipients))),
      Named("allow_any_recipient", Bool(p.allowAnyRecipient)),
      Named("active_from", U64(p.activeFrom)),
      Named("active_until", U64(p.activeUntil)),
      Named("paused", Bool(p.paused)),
      Named("dms_grace_secs", U64(p.dmsGraceSecs)),
      Named("protocol_calls_per_window", U32(CallCap(p))),
      Named("asset_caps", Vec([])) ]
  }

  function PolicyToScVal(book: AddressBook, p: Policy): Result<ScVal, EncodeError> {
    if !Encodable(book, p) then Err(NotEncodable)
    else if !(0 <= CallCap(p) <= U32_MAX) then Err(CallsOutOfRange)
    else Ok(SortedScMap(PolicyEntries(book, p)))
  }

  // ---------------------------------------------------------------- the decoder

  const POLICY_FIELDS := [
    "active_from", "active_until", "allow_any_recipient", "asset_caps", "assets", "blocked_recipients",
    "dms_grace_secs", "paused", "per_tx_cap", "protocol_calls_per_window", "protocols", "recipient_window_caps",
    "recipients", "window_cap", "window_secs"]
  const POLICY_OPTIONAL_FIELDS := [
    "asset_caps", "blocked_recipients", "protocol_calls_per_window", "recipient_window_caps"]
  const PROTOCOL_RULE_FIELDS := ["contract", "fns", "paused"]
  const PROTOCOL_RULE_OPTIONAL_FIELDS := ["paused"]
  const CAP_FIELDS := ["recipient", "cap"]

  function PolicyMap(v: ScVal): Result<ScVal, DecodeError> {
    if v.Map? then Ok(v)
    else if v.Vec? && |v.items| == 1 && v.items[0].Map? then Ok(v.items[0])
    else Err(NotAPolicy)
  }

  /** What the loop of symbolMap has gathered: the fields and the key it saw last. */
  datatype Reading = Reading(fields: map<string, ScVal>, previous: Option<string>)

  function ReadEntry(r: Reading, e: Entry, expected: seq<string>): Result<Reading, DecodeError> {
    if !e.key.Symbol? then Err(KeyNotSymbol)
    else
      var name := e.key.name;
      if name in r.fields then Err(DuplicateField)
      else if r.previous.Some? && !Lex.Less(Codes(r.previous.value), Codes(name)) then Err(NotSorted)
      else if name !in expected then Err(UnknownField)
      else Ok(Reading(r.fields[name := e.val], Some(name)))
  }

  function ReadEntries(entries: seq<Entry>, expected: seq<string>, n: nat): Result<Reading, DecodeError>
    requires n <= |entries|
  {
    if n == 0 then Ok(Reading(map[], None))
    else
      var r :- ReadEntries(entries, expected, n - 1);
      ReadEntry(r, entries[n - 1], expected)
  }

  predicate HasRequired(fields: map<string, ScVal>, expected: seq<string>, optional: seq<string>) {
    forall i :: 0 <= i < |expected| ==> expected[i] in optional || expected[i] in fields
  }

  function SymbolFields(v: ScVal, expected: seq<string>, optional: seq<string>): Result<map<string, ScVal>,
          DecodeError> {
    if !v.Map? then Err(NotAMap)
    else
      var r :- ReadEntries(v.entries, expected, |v.entries|);
      if HasRequired(r.fields, expected, optional) then Ok(r.fields) else Err(MissingField)
  }

  method SymbolMap(v: ScVal, expected: seq<string>, optional: seq<string>)
    returns (r: Result<map<string, ScVal>, DecodeError>)
    ensures r == SymbolFields(v, expected, optional)
  {
    if !v.Map? {
      return Err(NotAMap);
    }
    var entries := v.entries;
    var fields: map<string, ScVal> := map[];
    var previous: Option<string> := None;
    var i := 0;
    while i < |entries|
      invariant i <= |entries|
      invariant ReadEntries(entries, expected, i) == Ok(Reading(fields, previous))
    {
      var e := entries[i];
      assert ReadEntries(entries, expected, i + 1) == ReadEntry(Reading(fields, previous), e, expected);
      if ReadEntries(entries, expected, i + 1).Err? {
        ErrorSticks(entries, expected, i + 1, |entries|);
      }
      if !e.key.Symbol? {
        return Err(KeyNotSymbol);
      }
      var name := e.key.name;
      if name in fields {
        return Err(DuplicateField);
      }
      if previous.Some? && !Lex.Less(Codes(previous.value), Codes(name)) {
        return Err(NotSorted);
      }
      if name !in expected {
        return Err(UnknownField);
      }
      fields := fields[name := e.val];
      previous := Some(name);
      i := i + 1;
    }
    var complete := HasRequired(fields, expected, optional);
    return if complete then Ok(fields) else Err(MissingField);
  }

  lemma {:induction false} ErrorSticks(entries: seq<Entry>, expected: seq<string>, i: nat, n: nat)
    requires i <= n <= |entries| && ReadEntries(entries, expected, i).Err?
    ensures ReadEntries(entries, expected, n) == ReadEntries(entries, expected, i)
  {
    if i < n {
      ErrorSticks(entries, expected, i, n - 1);
    }
  }

  /** `fields.get(name)!`: an absent field would surface as the catch-all decode failure. */
  function Get(fields: map<string, ScVal>, name: string): Result<ScVal, DecodeError> {
    if name in fields then Ok(fields[name]) else Err(Undecodable)
  }

  predicate Within(n: int, min: int, max: int) {
    min <= n <= max
  }

  function Ranged(n: int, min: int, max: int): Result<int, DecodeError> {
    if Within(n, min, max) then Ok(n) else Err(OutOfRange)
  }

  function DecimalText(text: string): Result<int, DecodeError> {
    match Decimal.ParseInt(text)
    case None => Err(NotAnInteger)
    case Some(n) => Ok(n)
  }

  function PolicyU64(v: ScVal): Result<int, DecodeError> {
    match v
    case U64(n) => Ranged(n, 0, U64_MAX)
    case Str(text) => var n :- DecimalText(text); Ranged(n, 0, U64_MAX)
    case _ => Err(WrongType)
  }

  function PolicyI128(v: ScVal): Result<int, DecodeError> {
    match v
    case I128(n) => Ranged(n, I128_MIN, I128_MAX)
    case Str(text) => var n :- DecimalText(text); Ranged(n, I128_MIN, I128_MAX)
    case _ => Err(WrongType)
  }

  /** Unlike the wider integers, a u32 in a string takes no sign. */
  function PolicyU32(v: ScVal): Result<int, DecodeError> {
    match v
    case U32(n) => Ranged(n, 0, U32_MAX)
    case Str(text) =>
      if text != "" && Decimal.Digits(text) then Ranged(Decimal.Value(text), 0, U32_MAX) else Err(NotAnInteger)
    case _ => Err(WrongType)
  }

  function PolicyBoolean(v: ScVal): Result<bool, DecodeError> {
    if v.Bool? then Ok(v.b) else Err(WrongType)
  }

  function PolicyVec(v: ScVal): Result<seq<ScVal>, DecodeError> {
    if v.Vec? then Ok(v.items) else Err(WrongType)
  }

  function PolicyAddress(book: AddressBook, v: ScVal): Result<string, DecodeError> {
    if !v.Address? then Err(WrongType)
    else
      match book(v.address)
      case None => Err(InvalidAddress)
      case Some(key) => Ok(key)
  }

  function AddressVector(book: AddressBook, v: ScVal): Result<seq<string>, DecodeError> {
    var items :- PolicyVec(v);
    TryMap(items, item => PolicyAddress(book, item))
  }

  function SymbolText(v: ScVal): Result<string, DecodeError> {
    if v.Symbol? then Ok(v.name) else Err(WrongType)
  }

  function FunctionSymbols(v: ScVal): Result<Option<seq<string>>, DecodeError> {
    if v.Void? then Ok(None)
    else
      var items :- PolicyVec(v);
      var names :- TryMap(items, SymbolText);
      Ok(Some(names))
  }

  function DecodeRule(book: AddressBook, v: ScVal): Result<ProtocolRule, DecodeError> {
    var fields :- SymbolFields(v, PROTOCOL_RULE_FIELDS, PROTOCOL_RULE_OPTIONAL_FIELDS);
    var contractVal :- Get(fields, "contract");
    var contract :- PolicyAddress(book, contractVal);
    var fnsVal :- Get(fields, "fns");
    var fns :- FunctionSymbols(fnsVal);
    var paused :- if "paused" in fields then PolicyBoolean(fields["paused"]) else Ok(false);
    Ok(ProtocolRule(contract, fns, if paused then Some(true) else None))
  }

  function ProtocolRules(book: AddressBook, v: ScVal): Result<seq<ProtocolRule>, DecodeError> {
    var items :- PolicyVec(v);
    TryMap(items, item => DecodeRule(book, item))
  }

  function DecodeCap(book: AddressBook, v: ScVal): Result<RecipientCap, DecodeError> {
    var fields :- SymbolFields(v, CAP_FIELDS, []);
    var recipientVal :- Get(fields, "recipient");
    var recipient :- PolicyAddress(book, recipientVal);
    var capVal :- Get(fields, "cap");
    var cap :- PolicyI128(capVal);
    Ok(RecipientCap(recipient, cap))
  }

  function RecipientCaps(book: AddressBook, v: ScVal): Result<seq<RecipientCap>, DecodeError> {
    var items :- PolicyVec(v);
    TryMap(items, item => DecodeCap(book, item))
  }

  function NonEmpty<T>(s: seq<T>): Option<seq<T>> {
    if s == [] then None else Some(s)
  }

  function NonZero(n: int): Option<int> {
    if n == 0 then None else Some(n)
  }

  function DecodeLimits(fields: map<string, ScVal>): Result<(int, int, int), DecodeError> {
    var v1 :- Get(fields, "per_tx_cap");
    var perTxCap :- PolicyI128(v1);
    var v2 :- Get(fields, "window_secs");
    var windowSecs :- PolicyU64(v2);
    var v3 :- Get(fields, "window_cap");
    var windowCap :- PolicyI128(v3);
    Ok((perTxCap, windowSecs, windowCap))
  }

  function DecodeLists(book: AddressBook, fields: map<string, ScVal>)
    : Result<(seq<string>, seq<ProtocolRule>, seq<string>), DecodeError>
  {
    var v1 :- Get(fields, "assets");
    var assets :- AddressVector(book, v1);
    var v2 :- Get(fields, "protocols");
    var protocols :- ProtocolRules(book, v2);
    var v3 :- Get(fields, "recipients");
    var recipients :- AddressVector(book, v3);
    Ok((assets, protocols, recipients))
  }

  function DecodeSwitches(fields: map<string, ScVal>): Result<(bool, int, int, bool, int), DecodeError> {
    var v1 :- Get(fields, "allow_any_recipient");
    var allowAnyRecipient :- PolicyBoolean(v1);
    var v2 :- Get(fields, "active_from");
    var activeFrom :- PolicyU64(v2);
    var v3 :- Get(fields, "active_until");
    var activeUntil :- PolicyU64(v3);
    var v4 :- Get(fields, "paused");
    var paused :- PolicyBoolean(v4);
    var v5 :- Get(fields, "dms_grace_secs");
    var dmsGraceSecs :- PolicyU64(v5);
    Ok((allowAnyRecipient, activeFrom, activeUntil, paused, dmsGraceSecs))
  }

  /** The eleven fields every policy map has; the additive ones are left absent. */
  function DecodeCore(book: AddressBook, fields: map<string, ScVal>): Result<Policy, DecodeError> {
    var limits :- DecodeLimits(fields);
    var lists :- DecodeLists(book, fields);
    var switches :- DecodeSwitches(fields);
    Ok(Policy(limits.0, limits.1, limits.2, lists.0, lists.1, lists.2, switches.0, switches.1, switches.2, switches.3,
              switches.4, None, None, None))
  }

  function DecodeAdditive(book: AddressBook, fields: map<string, ScVal>, core: Policy): Result<Policy, DecodeError> {
    var caps :- if "recipient_window_caps" in fields then RecipientCaps(book,
        fields["recipient_window_caps"]) else Ok([]);
    var blocked :- if "blocked_recipients" in fields then AddressVector(book, fields["blocked_recipients"]) else Ok([]);
    var calls :-
      if "protocol_calls_per_window" in fields then PolicyU32(fields["protocol_calls_per_window"]) else Ok(0);
    Ok(core.(recipientWindowCaps := NonEmpty(caps), blockedRecipients := NonEmpty(blocked),
             protocolCallsPerWindow := NonZero(calls)))
  }

  function DecodePolicy(book: AddressBook, v: ScVal): Result<Policy, DecodeError> {
    var policyMap :- PolicyMap(v);
    var fields :- SymbolFields(policyMap, POLICY_FIELDS, POLICY_OPTIONAL_FIELDS);
    var assetCaps :- if "asset_caps" in fields then PolicyVec(fields["asset_caps"]) else Ok([]);
    if |assetCaps| > 0 then Err(AssetCapsUnsupported)
    else
      var core :- DecodeCore(book, fields);
      DecodeAdditive(book, fields, core)
  }
}
