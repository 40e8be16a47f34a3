/** Encoding and decoding a policy: round trips, injectivity, and the strict shape of the encoded map. */
module PolicyScValRoundTrip {
  import opened Wrappers
  import opened Policy
  import opened PolicyScVal
  import opened PolicyScValExact
  import Decimal

  /** Canonical addresses are their own canonical form. */
  ghost predicate Canonicalizing(book: AddressBook) {
    forall s :: book(s).Some? ==> book(book(s).value) == book(s)
  }

  // ---------------------------------------------------------------- the decoder's normal form

  function CanonicalAll(book: AddressBook, values: seq<string>): (r: seq<string>)
    ensures |r| == |values|
  {
    seq(|values|, i requires 0 <= i < |values| => Canonical(book, values[i]))
  }

  function NormalRule(book: AddressBook, r: ProtocolRule): ProtocolRule {
    ProtocolRule(Canonical(book, r.contract), r.fns, if r.paused == Some(true) then Some(true) else None)
  }

  function NormalRules(book: AddressBook, rules: seq<ProtocolRule>): (r: seq<ProtocolRule>)
    ensures |r| == |rules|
  {
    seq(|rules|, i requires 0 <= i < |rules| => NormalRule(book, rules[i]))
  }

  function NormalCap(book: AddressBook, c: RecipientCap): RecipientCap {
    RecipientCap(Canonical(book, c.recipient), c.cap)
  }

  function NormalCaps(book: AddressBook, caps: seq<RecipientCap>): (r: seq<RecipientCap>)
    ensures |r| == |caps|
  {
    seq(|caps|, i requires 0 <= i < |caps| => NormalCap(book, caps[i]))
  }

  /** Canonical addresses; the optional fields are absent where they hold the contract's default. */
  function Normalize(book: AddressBook, p: Policy): Policy {
    p.(assets := CanonicalAll(book, p.assets),
       protocols := NormalRules(book, p.protocols),
       recipients := CanonicalAll(book, p.recipients),
       recipientWindowCaps := NonEmpty(NormalCaps(book, OrEmpty(p.recipientWindowCaps))),
       blockedRecipients := NonEmpty(CanonicalAll(book, OrEmpty(p.blockedRecipients))),
       protocolCallsPerWindow := NonZero(CallCap(p)))
  }

  // ---------------------------------------------------------------- decoding what was encoded, part by part

  lemma AddressesBack(book: AddressBook, values: seq<string>)
    requires Canonicalizing(book) && AllValid(book, values)
    ensures AddressVector(book, AddressVec(book, values)) == Ok(CanonicalAll(book, values))
  {
    var items := AddressVec(book, values).items;
    var f := item => PolicyAddress(book, item);
    TryMapExactly(items, f);
    forall i | 0 <= i < |items| ensures f(items[i]) == Ok(CanonicalAll(book, values)[i]) {
      assert book(values[i]).Some?;
    }
    assert TryMap(items, f).value == CanonicalAll(book, values);
    assert AddressVector(book, AddressVec(book, values)) == TryMap(items, f);
  }

  lemma FnsBack(fns: Option<seq<string>>)
    ensures FunctionSymbols(FnsVal(fns)) == Ok(fns)
  {
    if fns.Some? {
      var items := FnsVal(fns).items;
      TryMapExactly(items, SymbolText);
      assert TryMap(items, SymbolText).value == fns.value;
    }
  }

  lemma RuleBack(book: AddressBook, r: ProtocolRule)
    requires Canonicalizing(book) && book(r.contract).Some?
    ensures DecodeRule(book, SortedScMap(RuleFields(book, r))) == Ok(NormalRule(book, r))
  {
    var entries := RuleFields(book, r);
    assert |entries[0].key| == 8 && |entries[1].key| == 3 && |entries[2].key| == 6;
    assert PROTOCOL_RULE_FIELDS[0] == entries[0].key;
    assert PROTOCOL_RULE_FIELDS[1] == entries[1].key;
    assert PROTOCOL_RULE_FIELDS[2] == entries[2].key;
    SortedReadsBack(entries, PROTOCOL_RULE_FIELDS, PROTOCOL_RULE_OPTIONAL_FIELDS);
    FnsBack(r.fns);
  }

  lemma CapBack(book: AddressBook, c: RecipientCap)
    requires Canonicalizing(book) && CapEncodable(book, c)
    ensures DecodeCap(book, SortedScMap(CapFields(book, c))) == Ok(NormalCap(book, c))
  {
    var entries := CapFields(book, c);
    assert |entries[0].key| == 3 && |entries[1].key| == 9;
    assert CAP_FIELDS[0] == entries[1].key && CAP_FIELDS[1] == entries[0].key;
    SortedReadsBack(entries, CAP_FIELDS, []);
  }

  lemma RulesBack(book: AddressBook, rules: seq<ProtocolRule>)
    requires Canonicalizing(book) && forall i :: 0 <= i < |rules| ==> RuleEncodable(book, rules[i])
    ensures ProtocolRules(book, RuleVec(book, rules)) == Ok(NormalRules(book, rules))
  {
    var items := RuleVec(book, rules).items;
    var f := item => DecodeRule(book, item);
    TryMapExactly(items, f);
    forall i | 0 <= i < |items| ensures f(items[i]) == Ok(NormalRules(book, rules)[i]) {
      assert RuleEncodable(book, rules[i]);
      RuleBack(book, rules[i]);
    }
    assert TryMap(items, f).value == NormalRules(book, rules);
    assert ProtocolRules(book, RuleVec(book, rules)) == TryMap(items, f);
  }

  lemma CapsBack(book: AddressBook, caps: seq<RecipientCap>)
    requires Canonicalizing(book) && forall i :: 0 <= i < |caps| ==> CapEncodable(book, caps[i])
    ensures RecipientCaps(book, CapVec(book, caps)) == Ok(NormalCaps(book, caps))
  {
    var items := CapVec(book, caps).items;
    var f := item => DecodeCap(book, item);
    TryMapExactly(items, f);
    forall i | 0 <= i < |items| ensures f(items[i]) == Ok(NormalCaps(book, caps)[i]) {
      assert CapEncodable(book, caps[i]);
      CapBack(book, caps[i]);
    }
    assert TryMap(items, f).value == NormalCaps(book, caps);
    assert RecipientCaps(book, CapVec(book, caps)) == TryMap(items, f);
  }

  /** place[i] is where the key of entry i stands among the fields. */
  ghost predicate Placed(entries: seq<Named>, fields: seq<string>, place: seq<nat>) {
    |place| == |entries| && forall i :: 0 <= i < |entries| ==> place[i] < |fields| && entries[i].key == fields[place[i]]
  }

  lemma PolicyPlaced(book: AddressBook, p: Policy)
    ensures Placed(PolicyEntries(book, p), POLICY_FIELDS, [8, 14, 13, 4, 10, 12, 11, 5, 2, 0, 1, 7, 6, 9, 3])
  {
    hide AddressVec, RuleVec, CapVec, CallCap, OrEmpty;
    var e, f := PolicyEntries(book, p), POLICY_FIELDS;
    assert e[0].key == f[8] && e[1].key == f[14] && e[2].key == f[13] && e[3].key == f[4] && e[4].key == f[10];
    assert e[5].key == f[12] && e[6].key == f[11] && e[7].key == f[5] && e[8].key == f[2] && e[9].key == f[0];
    assert e[10].key == f[1] && e[11].key == f[7] && e[12].key == f[6] && e[13].key == f[9] && e[14].key == f[3];
  }

  lemma AllPlaced(entries: seq<Named>, fields: seq<string>, place: seq<nat>, back: seq<nat>)
    requires Placed(entries, fields, place)
    requires |back| == |fields| && forall j :: 0 <= j < |back| ==> back[j] < |place| && place[back[j]] == j
    ensures forall x :: x in entries ==> x.key in fields
    ensures forall k :: k in fields ==> exists i :: 0 <= i < |entries| && entries[i].key == k
  {
    forall k | k in fields ensures exists i :: 0 <= i < |entries| && entries[i].key == k {
      var j :| 0 <= j < |fields| && fields[j] == k;
      assert entries[back[j]].key == k;
    }
  }

  /** The encoded map is strictly sorted and has the full field set, so symbolMap reads every field back. */
  lemma EncodedFields(book: AddressBook, p: Policy)
    ensures CanonicalMap(SortedScMap(PolicyEntries(book, p)), POLICY_FIELDS, [])
    ensures var r := SymbolFields(SortedScMap(PolicyEntries(book, p)), POLICY_FIELDS, POLICY_OPTIONAL_FIELDS);
      r.Ok? && HasAll(r.value, PolicyEntries(book, p))
  {
    var entries := PolicyEntries(book, p);
    PolicyEntriesDistinct(book, p);
    PolicyPlaced(book, p);
    AllPlaced(entries, POLICY_FIELDS, [8, 14, 13, 4, 10, 12, 11, 5, 2, 0, 1, 7, 6, 9, 3],
              [9, 10, 8, 14, 3, 7, 12, 11, 0, 13, 4, 6, 5, 2, 1]);
    SortedReadsBack(entries, POLICY_FIELDS, []);
    SortedReadsBack(entries, POLICY_FIELDS, POLICY_OPTIONAL_FIELDS);
  }

  // ---------------------------------------------------------------- the round trip

  ghost predicate CarriesCore(book: AddressBook, p: Policy, fields: map<string, ScVal>) {
    && Get(fields, "per_tx_cap") == Ok(I128(p.perTxCap))
    && Get(fields, "window_secs") == Ok(U64(p.windowSecs))
    && Get(fields, "window_cap") == Ok(I128(p.windowCap))
    && Get(fields, "assets") == Ok(AddressVec(book, p.assets))
    && Get(fields, "protocols") == Ok(RuleVec(book, p.protocols))
    && Get(fields, "recipients") == Ok(AddressVec(book, p.recipients))
    && Get(fields, "allow_any_recipient") == Ok(Bool(p.allowAnyRecipient))
    && Get(fields, "active_from") == Ok(U64(p.activeFrom))
    && Get(fields, "active_until") == Ok(U64(p.activeUntil))
    && Get(fields, "paused") == Ok(Bool(p.paused))
    && Get(fields, "dms_grace_secs") == Ok(U64(p.dmsGraceSecs))
  }

  ghost predicate CarriesAdditive(book: AddressBook, p: Policy, fields: map<string, ScVal>) {
    && Get(fields, "recipient_window_caps") == Ok(CapVec(book, OrEmpty(p.recipientWindowCaps)))
    && Get(fields, "blocked_recipients") == Ok(AddressVec(book, OrEmpty(p.blockedRecipients)))
    && Get(fields, "protocol_calls_per_window") == Ok(U32(CallCap(p)))
    && Get(fields, "asset_caps") == Ok(Vec([]))
  }

  lemma CoreFieldsBack(book: AddressBook, p: Policy, fields: map<string, ScVal>)
    requires HasAll(fields, PolicyEntries(book, p))
    ensures CarriesCore(book, p, fields)
  {
    var e := PolicyEntries(book, p);
    assert e[0].key == "per_tx_cap";
    assert e[1].key == "window_secs";
    assert e[2].key == "window_cap";
    assert e[3].key == "assets";
    assert e[4].key == "protocols";
    assert e[5].key == "recipients";
    assert e[8].key == "allow_any_recipient";
    assert e[9].key == "active_from";
    assert e[10].key == "active_until";
    assert e[11].key == "paused";
    assert e[12].key == "dms_grace_secs";
  }

  lemma AdditiveFieldsBack(book: AddressBook, p: Policy, fields: map<string, ScVal>)
    requires HasAll(fields, PolicyEntries(book, p))
    ensures CarriesAdditive(book, p, fields)
  {
    var e := PolicyEntries(book, p);
    assert e[6].key == "recipient_window_caps";
    assert e[7].key == "blocked_recipients";
    assert e[13].key == "protocol_calls_per_window";
    assert e[14].key == "asset_caps";
  }

  lemma LimitsBack(book: AddressBook, p: Policy, fields: map<string, ScVal>)
    requires Encodable(book, p) && CarriesCore(book, p, fields)
    ensures DecodeLimits(fields) == Ok((p.perTxCap, p.windowSecs, p.windowCap))
  {
    hide AddressVec, RuleVec;
  }

  lemma SwitchesBack(book: AddressBook, p: Policy, fields: map<string, ScVal>)
    requires Encodable(book, p) && CarriesCore(book, p, fields)
    ensures DecodeSwitches(fields) == Ok((p.allowAnyRecipient, p.activeFrom, p.activeUntil, p.paused, p.dmsGraceSecs))
  {
    hide AddressVec, RuleVec;
  }

  lemma ListsBack(book: AddressBook, p: Policy, fields: map<string, ScVal>)
    requires Canonicalizing(book) && Encodable(book, p) && CarriesCore(book, p, fields)
    ensures var q := Normalize(book, p);
            DecodeLists(book, fields) == Ok((q.assets, q.protocols, q.recipients))
  {
    AddressesBack(book, p.assets);
    RulesBack(book, p.protocols);
    AddressesBack(book, p.recipients);
  }

  lemma CoreBack(book: AddressBook, p: Policy, fields: map<string, ScVal>)
    requires Canonicalizing(book) && Encodable(book, p) && CarriesCore(book, p, fields)
    ensures DecodeCore(book, fields) == Ok(
      Normalize(book, p).(recipientWindowCaps := None, blockedRecipients := None, protocolCallsPerWindow := None))
  {
    hide DecodeLimits, DecodeSwitches, DecodeLists, Encodable, Canonicalizing, CarriesCore;
    LimitsBack(book, p, fields);
    ListsBack(book, p, fields);
    SwitchesBack(book, p, fields);
  }

  lemma AdditiveBack(book: AddressBook, p: Policy, fields: map<string, ScVal>, core: Policy)
    requires Canonicalizing(book) && Encodable(book, p) && 0 <= CallCap(p) <= U32_MAX
    requires CarriesAdditive(book, p, fields)
    ensures DecodeAdditive(book, fields, core) == Ok(
      core.(recipientWindowCaps := Normalize(book, p).recipientWindowCaps,
            blockedRecipients := Normalize(book, p).blockedRecipients,
            protocolCallsPerWindow := Normalize(book, p).protocolCallsPerWindow))
  {
    CapsBack(book, OrEmpty(p.recipientWindowCaps));
    AddressesBack(book, OrEmpty(p.blockedRecipients));
  }

  /** Decoding an encoded policy gives the policy with canonical addresses and default-valued options dropped. */
  lemma DecodeOfEncode(book: AddressBook, p: Policy)
    requires Canonicalizing(book) && PolicyToScVal(book, p).Ok?
    ensures DecodePolicy(book, PolicyToScVal(book, p).value) == Ok(Normalize(book, p))
  {
    EncodedFields(book, p);
    var v := SortedScMap(PolicyEntries(book, p));
    var fields := SymbolFields(v, POLICY_FIELDS, POLICY_OPTIONAL_FIELDS).value;
    CoreFieldsBack(book, p, fields);
    AdditiveFieldsBack(book, p, fields);
    CoreBack(book, p, fields);
    AdditiveBack(book, p, fields, DecodeCore(book, fields).value);
  }

  /** The encoded map carries all fifteen fields, in strictly ascending key order. */
  lemma EncodedMapIsComplete(book: AddressBook, p: Policy)
    requires PolicyToScVal(book, p).Ok?
    ensures CanonicalMap(PolicyToScVal(book, p).value, POLICY_FIELDS, [])
    ensures |PolicyToScVal(book, p).value.entries| == 15
  {
    EncodedFields(book, p);
    PolicyEntriesDistinct(book, p);
    SortedStrictly(PolicyEntries(book, p));
  }

  // ---------------------------------------------------------------- equal encodings

  lemma NormalFormEncodesAlike(book: AddressBook, p: Policy)
    requires Canonicalizing(book) && PolicyToScVal(book, p).Ok?
    ensures PolicyEntries(book, Normalize(book, p)) == PolicyEntries(book, p)
  {
    var q := Normalize(book, p);
    AddressVecOfCanonical(book, p.assets);
    AddressVecOfCanonical(book, p.recipients);
    AddressVecOfCanonical(book, OrEmpty(p.blockedRecipients));
    forall i | 0 <= i < |p.protocols|
      ensures RuleFields(book, q.protocols[i]) == RuleFields(book, p.protocols[i])
    {
      assert RuleEncodable(book, p.protocols[i]);
    }
    assert RuleVec(book, q.protocols) == RuleVec(book, p.protocols);
    var caps := OrEmpty(p.recipientWindowCaps);
    forall i | 0 <= i < |caps| ensures CapFields(book, NormalCap(book, caps[i])) == CapFields(book, caps[i]) {
      assert CapEncodable(book, caps[i]);
    }
    assert CapVec(book, NormalCaps(book, caps)) == CapVec(book, caps);
    assert OrEmpty(q.recipientWindowCaps) == NormalCaps(book, caps);
    assert OrEmpty(q.blockedRecipients) == CanonicalAll(book, OrEmpty(p.blockedRecipients));
  }

  lemma AddressVecOfCanonical(book: AddressBook, values: seq<string>)
    requires Canonicalizing(book) && AllValid(book, values)
    ensures AddressVec(book, CanonicalAll(book, values)) == AddressVec(book, values)
  {
    forall i | 0 <= i < |values| ensures Canonical(book, Canonical(book, values[i])) == Canonical(book, values[i]) {
      assert book(values[i]).Some?;
    }
  }

  /** Two policies have the same encoding exactly when they have the same normal form. */
  lemma EqualEncodings(book: AddressBook, p: Policy, q: Policy)
    requires Canonicalizing(book) && PolicyToScVal(book, p).Ok? && PolicyToScVal(book, q).Ok?
    ensures PolicyToScVal(book, p) == PolicyToScVal(book, q) <==> Normalize(book, p) == Normalize(book, q)
  {
    DecodeOfEncode(book, p);
    DecodeOfEncode(book, q);
    NormalFormEncodesAlike(book, p);
    NormalFormEncodesAlike(book, q);
  }

  // ---------------------------------------------------------------- what the decoder accepts

  lemma IntegerForms(n: int)
    ensures PolicyI128(Str(Decimal.PrintInt(n))) == PolicyI128(I128(n))
    ensures PolicyU64(Str(Decimal.PrintInt(n))) == PolicyU64(U64(n))
    ensures 0 <= n ==> PolicyU32(Str(Decimal.PrintInt(n))) == PolicyU32(U32(n))
  {
    hide Decimal.PrintInt, Decimal.ParseInt, Decimal.Digits, Decimal.Value;
    Decimal.PrintParse(n);
    if n >= 0 {
      PrintedIsNumeral(n);
    }
  }

  lemma PrintedIsNumeral(n: nat)
    ensures Decimal.PrintInt(n) != "" && Decimal.Digits(Decimal.PrintInt(n))
    ensures Decimal.Value(Decimal.PrintInt(n)) == n
  {
    hide Decimal.PrintNat, Decimal.Digits, Decimal.Value;
    Decimal.PrintedValue(n);
  }

  const I128_FIELDS := ["per_tx_cap", "window_cap"]
  const U64_FIELDS := ["window_secs", "active_from", "active_until", "dms_grace_secs"]

  /** y is x, or the decimal text of the integer x in a field of that integer type. */
  predicate TextOf(i128: seq<string>, u64: seq<string>, u32: seq<string>, name: string, x: ScVal, y: ScVal) {
    || x == y
    || (name in i128 && x.I128? && y == Str(Decimal.PrintInt(x.i128)))
    || (name in u64 && x.U64? && y == Str(Decimal.PrintInt(x.u64)))
    || (name in u32 && x.U32? && x.u32 >= 0 && y == Str(Decimal.PrintInt(x.u32)))
  }

  /** Two maps with the same keys whose values are related entry by entry. */
  predicate RelatedMaps(rel: (string, ScVal, ScVal) -> bool, v: ScVal, w: ScVal) {
    && v.Map? && w.Map? && |v.entries| == |w.entries|
    && forall i :: 0 <= i < |v.entries| ==>
                     && v.entries[i].key == w.entries[i].key
                     && (v.entries[i].key.Symbol? ==> rel(v.entries[i].key.name, v.entries[i].val, w.entries[i].val))
  }

  function CapRel(): (string, ScVal, ScVal) -> bool {
    (name, x, y) => TextOf(["cap"], [], [], name, x, y)
  }

  predicate CapLists(x: ScVal, y: ScVal) {
    && x.Vec? && y.Vec? && |x.items| == |y.items|
    && forall i :: 0 <= i < |x.items| ==> RelatedMaps(CapRel(), x.items[i], y.items[i])
  }

  /** An integer field may be given as text, the caps of single recipients included. */
  function PolicyRel(): (string, ScVal, ScVal) -> bool {
    (name, x, y) => || TextOf(I128_FIELDS, U64_FIELDS, ["protocol_calls_per_window"], name, x, y)
                    || (name == "recipient_window_caps" && CapLists(x, y))
  }

  ghost predicate RelatedFields(rel: (string, ScVal, ScVal) -> bool, f: map<string, ScVal>, g: map<string, ScVal>) {
    f.Keys == g.Keys && forall name :: name in f ==> rel(name, f[name], g[name])
  }

  lemma {:induction false} RelatedReadings(rel: (string, ScVal, ScVal) -> bool, v: ScVal, w: ScVal,
      expected: seq<string>, n: nat)
    requires RelatedMaps(rel, v, w) && n <= |v.entries|
    ensures var r, s := ReadEntries(v.entries, expected, n), ReadEntries(w.entries, expected, n);
            if r.Err? then r == s
            else s.Ok? && r.value.previous == s.value.previous && RelatedFields(rel, r.value.fields, s.value.fields)
  {
    if n > 0 {
      RelatedReadings(rel, v, w, expected, n - 1);
      assert v.entries[n - 1].key == w.entries[n - 1].key;
    }
  }

  lemma RelatedSymbolFields(rel: (string, ScVal, ScVal) -> bool, v: ScVal, w: ScVal, expected: seq<string>,
      optional: seq<string>)
    requires RelatedMaps(rel, v, w)
    ensures var f, g := SymbolFields(v, expected, optional), SymbolFields(w, expected, optional);
            if f.Err? then f == g else g.Ok? && RelatedFields(rel, f.value, g.value)
  {
    RelatedReadings(rel, v, w, expected, |v.entries|);
  }

  lemma SameCap(book: AddressBook, v: ScVal, w: ScVal)
    requires RelatedMaps(CapRel(), v, w)
    ensures DecodeCap(book, v) == DecodeCap(book, w)
  {
    hide PolicyI128;
    RelatedSymbolFields(CapRel(), v, w, CAP_FIELDS, []);
    var f, g := SymbolFields(v, CAP_FIELDS, []), SymbolFields(w, CAP_FIELDS, []);
    if f.Ok? {
      RecipientIsNotCap();
      if "cap" in f.value && f.value["cap"].I128? {
        IntegerForms(f.value["cap"].i128);
      }
    }
  }

  lemma RecipientIsNotCap()
    ensures "recipient" != "cap"
  {
    assert |"recipient"| == 9 && |"cap"| == 3;
  }

  lemma SameCaps(book: AddressBook, x: ScVal, y: ScVal)
    requires CapLists(x, y)
    ensures RecipientCaps(book, x) == RecipientCaps(book, y)
  {
    var f := item => DecodeCap(book, item);
    forall i | 0 <= i < |x.items|
      ensures f(x.items[i]) == f(y.items[i])
    {
      SameCap(book, x.items[i], y.items[i]);
    }
    TryMapAlike(x.items, y.items, f);
    assert RecipientCaps(book, x) == TryMap(x.items, f) && RecipientCaps(book, y) == TryMap(y.items, f);
  }

  const PLAIN_FIELDS := [
    "allow_any_recipient", "asset_caps", "assets", "blocked_recipients", "paused", "protocols", "recipients"]

  lemma FieldsApart(name: string)
    ensures name in I128_FIELDS ==> name !in U64_FIELDS && name !in PLAIN_FIELDS
    ensures name in U64_FIELDS ==> name !in PLAIN_FIELDS
    ensures name in I128_FIELDS + U64_FIELDS + PLAIN_FIELDS ==>
              name != "protocol_calls_per_window" && name != "recipient_window_caps"
    ensures "protocol_calls_per_window" != "recipient_window_caps"
  {
    assert |"per_tx_cap"| == |"window_cap"| == |"asset_caps"| == |"recipients"| == 10;
    assert "per_tx_cap"[0] == 'p' && "window_cap"[0] == 'w' && "asset_caps"[0] == 'a' && "recipients"[0] == 'r';
    assert |"window_secs"| == |"active_from"| == 11 && |"active_until"| == 12 && |"dms_grace_secs"| == 14;
    assert |"allow_any_recipient"| == 19 && |"assets"| == |"paused"| == 6 && |"blocked_recipients"| == 18;
    assert |"protocols"| == 9 && |"protocol_calls_per_window"| == 25 && |"recipient_window_caps"| == 21;
  }

  lemma SameValue(name: string, x: ScVal, y: ScVal)
    requires PolicyRel()(name, x, y)
    ensures name in I128_FIELDS ==> PolicyI128(x) == PolicyI128(y)
    ensures name in U64_FIELDS ==> PolicyU64(x) == PolicyU64(y)
    ensures name == "protocol_calls_per_window" ==> PolicyU32(x) == PolicyU32(y)
    ensures name in PLAIN_FIELDS ==> x == y
    ensures name == "recipient_window_caps" ==> x == y || CapLists(x, y)
  {
    hide PolicyI128, PolicyU64, PolicyU32, CapLists;
    FieldsApart(name);
    if x.I128? {
      IntegerForms(x.i128);
    }
    if x.U64? {
      IntegerForms(x.u64);
    }
    if x.U32? {
      IntegerForms(x.u32);
    }
  }

  lemma SameLimits(f: map<string, ScVal>, g: map<string, ScVal>)
    requires RelatedFields(PolicyRel(), f, g)
    ensures DecodeLimits(f) == DecodeLimits(g)
  {
    hide PolicyI128, PolicyU64, PolicyRel;
    forall name | name in f && name in I128_FIELDS + U64_FIELDS
      ensures name in I128_FIELDS ==> PolicyI128(f[name]) == PolicyI128(g[name])
      ensures name in U64_FIELDS ==> PolicyU64(f[name]) == PolicyU64(g[name])
    {
      SameValue(name, f[name], g[name]);
    }
  }

  lemma SamePlain(f: map<string, ScVal>, g: map<string, ScVal>, name: string)
    requires RelatedFields(PolicyRel(), f, g) && name in PLAIN_FIELDS
    ensures Get(f, name) == Get(g, name)
  {
    hide PolicyRel;
    if name in f {
      SameValue(name, f[name], g[name]);
    }
  }

  lemma SameU64(f: map<string, ScVal>, g: map<string, ScVal>, name: string)
    requires RelatedFields(PolicyRel(), f, g) && name in U64_FIELDS
    ensures name in f <==> name in g
    ensures name in f ==> PolicyU64(f[name]) == PolicyU64(g[name])
  {
    hide PolicyRel, PolicyU64;
    if name in f {
      SameValue(name, f[name], g[name]);
    }
  }

  lemma SameSwitches(f: map<string, ScVal>, g: map<string, ScVal>)
    requires RelatedFields(PolicyRel(), f, g)
    ensures DecodeSwitches(f) == DecodeSwitches(g)
  {
    hide PolicyU64, PolicyRel, PolicyBoolean, RelatedFields;
    SamePlain(f, g, "allow_any_recipient");
    SameU64(f, g, "active_from");
    SameU64(f, g, "active_until");
    SamePlain(f, g, "paused");
    SameU64(f, g, "dms_grace_secs");
  }

  lemma SameCore(book: AddressBook, f: map<string, ScVal>, g: map<string, ScVal>)
    requires RelatedFields(PolicyRel(), f, g)
    ensures DecodeCore(book, f) == DecodeCore(book, g)
  {
    hide DecodeLimits, DecodeSwitches, PolicyRel, AddressVector, ProtocolRules, RelatedFields;
    SameLimits(f, g);
    SamePlain(f, g, "assets");
    SamePlain(f, g, "protocols");
    SamePlain(f, g, "recipients");
    SameSwitches(f, g);
  }

  lemma SameAdditive(book: AddressBook, f: map<string, ScVal>, g: map<string, ScVal>, core: Policy)
    requires RelatedFields(PolicyRel(), f, g)
    ensures DecodeAdditive(book, f, core) == DecodeAdditive(book, g, core)
  {
    hide PolicyI128, PolicyU64, PolicyU32, PolicyRel, AddressVector, RecipientCaps, CapLists;
    if "recipient_window_caps" in f {
      var x, y := f["recipient_window_caps"], g["recipient_window_caps"];
      SameValue("recipient_window_caps", x, y);
      if x != y {
        SameCaps(book, x, y);
      }
    }
    if "blocked_recipients" in f {
      SameValue("blocked_recipients", f["blocked_recipients"], g["blocked_recipients"]);
    }
    if "protocol_calls_per_window" in f {
      SameValue("protocol_calls_per_window", f["protocol_calls_per_window"], g["protocol_calls_per_window"]);
    }
  }

  /**
   A one-element vector around the map, and decimal strings for any of the integers of the map or of its caps, decode
   to the same policy or fail alike.
   */
  lemma {:induction false} AlternativeForms(book: AddressBook, v: ScVal, w: ScVal)
    requires RelatedMaps(PolicyRel(), v, w)
    ensures DecodePolicy(book, w) == DecodePolicy(book, v) == DecodePolicy(book, Vec([v]))
  {
    hide PolicyRel, DecodeCore, DecodeAdditive, SymbolFields;
    RelatedSymbolFields(PolicyRel(), v, w, POLICY_FIELDS, POLICY_OPTIONAL_FIELDS);
    var f, g := SymbolFields(v, POLICY_FIELDS, POLICY_OPTIONAL_FIELDS), SymbolFields(w, POLICY_FIELDS,
        POLICY_OPTIONAL_FIELDS);
    if f.Ok? {
      if "asset_caps" in f.value {
        SameValue("asset_caps", f.value["asset_caps"], g.value["asset_caps"]);
      }
      SameCore(book, f.value, g.value);
      if DecodeCore(book, f.value).Ok? {
        SameAdditive(book, f.value, g.value, DecodeCore(book, f.value).value);
      }
    }
  }

  ghost predicate AllCanonical(book: AddressBook, values: seq<string>) {
    forall i :: 0 <= i < |values| ==> book(values[i]) == Some(values[i])
  }

  lemma DecodedAddresses(book: AddressBook, v: ScVal)
    requires Canonicalizing(book) && AddressVector(book, v).Ok?
    ensures AllCanonical(book, AddressVector(book, v).value)
  {
    var f := item => PolicyAddress(book, item);
    TryMapExactly(v.items, f);
    assert AddressVector(book, v) == TryMap(v.items, f);
    var values := AddressVector(book, v).value;
    forall i | 0 <= i < |values| ensures book(values[i]) == Some(values[i]) {
      assert Ok(values[i]) == f(v.items[i]);
    }
  }

  ghost predicate RuleDecoded(book: AddressBook, r: ProtocolRule) {
    book(r.contract) == Some(r.contract) && (r.paused == None || r.paused == Some(true))
  }

  lemma DecodedRule(book: AddressBook, v: ScVal)
    requires Canonicalizing(book) && DecodeRule(book, v).Ok?
    ensures RuleDecoded(book, DecodeRule(book, v).value)
  {}

  lemma DecodedRules(book: AddressBook, v: ScVal)
    requires Canonicalizing(book) && ProtocolRules(book, v).Ok?
    ensures forall i :: 0 <= i < |ProtocolRules(book, v).value| ==> RuleDecoded(book, ProtocolRules(book, v).value[i])
  {
    var f := item => DecodeRule(book, item);
    TryMapExactly(v.items, f);
    assert ProtocolRules(book, v) == TryMap(v.items, f);
    var rules := ProtocolRules(book, v).value;
    forall i | 0 <= i < |rules| ensures RuleDecoded(book, rules[i]) {
      assert Ok(rules[i]) == f(v.items[i]) == DecodeRule(book, v.items[i]);
      DecodedRule(book, v.items[i]);
    }
  }

  ghost predicate CapDecoded(book: AddressBook, c: RecipientCap) {
    book(c.recipient) == Some(c.recipient) && I128_MIN <= c.cap <= I128_MAX
  }

  lemma DecodedCap(book: AddressBook, v: ScVal)
    requires Canonicalizing(book) && DecodeCap(book, v).Ok?
    ensures CapDecoded(book, DecodeCap(book, v).value)
  {}

  lemma DecodedCaps(book: AddressBook, v: ScVal)
    requires Canonicalizing(book) && RecipientCaps(book, v).Ok?
    ensures forall i :: 0 <= i < |RecipientCaps(book, v).value| ==> CapDecoded(book, RecipientCaps(book, v).value[i])
  {
    var f := item => DecodeCap(book, item);
    TryMapExactly(v.items, f);
    assert RecipientCaps(book, v) == TryMap(v.items, f);
    var caps := RecipientCaps(book, v).value;
    forall i | 0 <= i < |caps| ensures CapDecoded(book, caps[i]) {
      assert Ok(caps[i]) == f(v.items[i]) == DecodeCap(book, v.items[i]);
      DecodedCap(book, v.items[i]);
    }
  }

  /** Every decoded policy satisfies these, whatever the map it came from. */
  ghost predicate Decoded(book: AddressBook, p: Policy) {
    && InRange(p)
    && AllCanonical(book, p.assets) && AllCanonical(book, p.recipients)
    && AllCanonical(book, OrEmpty(p.blockedRecipients))
    && (forall i :: 0 <= i < |p.protocols| ==> RuleDecoded(book, p.protocols[i]))
    && (forall i :: 0 <= i < |OrEmpty(p.recipientWindowCaps)| ==> CapDecoded(book, OrEmpty(p.recipientWindowCaps)[i]))
    && p.blockedRecipients != Some([]) && p.recipientWindowCaps != Some([])
    && p.protocolCallsPerWindow != Some(0) && 0 <= CallCap(p) <= U32_MAX
  }

  lemma LimitsInRange(fields: map<string, ScVal>)
    requires DecodeLimits(fields).Ok?
    ensures var d := DecodeLimits(fields).value;
      I128_MIN <= d.0 <= I128_MAX && 0 <= d.1 <= U64_MAX && I128_MIN <= d.2 <= I128_MAX
  {}

  lemma SwitchesInRange(fields: map<string, ScVal>)
    requires DecodeSwitches(fields).Ok?
    ensures var d := DecodeSwitches(fields).value;
      0 <= d.1 <= U64_MAX && 0 <= d.2 <= U64_MAX && 0 <= d.4 <= U64_MAX
  {}

  lemma CoreDecoded(book: AddressBook, fields: map<string, ScVal>)
    requires Canonicalizing(book) && DecodeCore(book, fields).Ok?
    ensures Decoded(book, DecodeCore(book, fields).value)
  {
    LimitsInRange(fields);
    SwitchesInRange(fields);
    DecodedAddresses(book, fields["assets"]);
    DecodedRules(book, fields["protocols"]);
    DecodedAddresses(book, fields["recipients"]);
  }

  lemma {:induction false} PolicyDecoded(book: AddressBook, v: ScVal)
    requires Canonicalizing(book)
    ensures DecodePolicy(book, v).Ok? ==> Decoded(book, DecodePolicy(book, v).value)
  {
    if DecodePolicy(book, v).Ok? {
      var fields := SymbolFields(PolicyMap(v).value, POLICY_FIELDS, POLICY_OPTIONAL_FIELDS).value;
      CoreDecoded(book, fields);
      if "recipient_window_caps" in fields {
        DecodedCaps(book, fields["recipient_window_caps"]);
      }
      if "blocked_recipients" in fields {
        DecodedAddresses(book, fields["blocked_recipients"]);
      }
    }
  }

  lemma DecodedIsNormal(book: AddressBook, p: Policy)
    requires Decoded(book, p)
    ensures Normalize(book, p) == p
    ensures PolicyToScVal(book, p).Ok? <==> forall i :: 0 <= i < |p.protocols| ==> SymbolNames(p.protocols[i].fns)
  {
    assert CanonicalAll(book, p.assets) == p.assets;
    assert CanonicalAll(book, p.recipients) == p.recipients;
    assert CanonicalAll(book, OrEmpty(p.blockedRecipients)) == OrEmpty(p.blockedRecipients);
    forall i | 0 <= i < |p.protocols| ensures NormalRule(book, p.protocols[i]) == p.protocols[i] {
      assert RuleDecoded(book, p.protocols[i]);
    }
    assert NormalRules(book, p.protocols) == p.protocols;
    var caps := OrEmpty(p.recipientWindowCaps);
    forall i | 0 <= i < |caps| ensures NormalCap(book, caps[i]) == caps[i] && CapEncodable(book, caps[i]) {
      assert CapDecoded(book, caps[i]);
    }
    assert NormalCaps(book, caps) == caps;
    if forall i :: 0 <= i < |p.protocols| ==> SymbolNames(p.protocols[i].fns) {
      forall i | 0 <= i < |p.protocols| ensures RuleEncodable(book, p.protocols[i]) {
        assert RuleDecoded(book, p.protocols[i]);
      }
    }
  }

  /**
   A decoded policy can be encoded again exactly when its function names are symbols of 1 to 32 letters, digits and
   underscores, and then decoding it once more changes nothing, whatever form it was first read from.
   */
  lemma {:induction false} DecodeEncodeDecode(book: AddressBook, v: ScVal)
    requires Canonicalizing(book)
    ensures DecodePolicy(book, v).Ok? ==>
      var p := DecodePolicy(book, v).value;
      && (PolicyToScVal(book, p).Ok? <==> forall i :: 0 <= i < |p.protocols| ==> SymbolNames(p.protocols[i].fns))
      && (PolicyToScVal(book, p).Ok? ==> DecodePolicy(book, PolicyToScVal(book, p).value) == Ok(p))
  {
    hide DecodePolicy, PolicyToScVal;
    if DecodePolicy(book, v).Ok? {
      PolicyDecoded(book, v);
      DecodedIsNormal(book, DecodePolicy(book, v).value);
      if PolicyToScVal(book, DecodePolicy(book, v).value).Ok? {
        DecodeOfEncode(book, DecodePolicy(book, v).value);
      }
    }
  }
}
