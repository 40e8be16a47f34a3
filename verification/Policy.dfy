/** The guard policy (src/policy.ts, PolicyConfig); an absent optional field is None. */
module Policy {
  import opened Wrappers

  /** `fns: None` is the source's null: any function of the contract. */
  datatype ProtocolRule = ProtocolRule(contract: string, fns: Option<seq<string>>, paused: Option<bool>)

  datatype RecipientCap = RecipientCap(recipient: string, cap: int)

  datatype Policy = Policy(
    perTxCap: int,
    windowSecs: int,
    windowCap: int,
    assets: seq<string>,
    protocols: seq<ProtocolRule>,
    recipients: seq<string>,
    allowAnyRecipient: bool,
    activeFrom: int,
    activeUntil: int,
    paused: bool,
    dmsGraceSecs: int,
    recipientWindowCaps: Option<seq<RecipientCap>>,
    blockedRecipients: Option<seq<string>>,
    protocolCallsPerWindow: Option<int>)

  const I128_MAX := 0x7fff_ffff_ffff_ffff_ffff_ffff_ffff_ffff
  const I128_MIN := -I128_MAX - 1
  const U64_MAX := 0xffff_ffff_ffff_ffff
  const U32_MAX := 0xffff_ffff

  /**
   The address decoder of the Stellar SDK as far as this package sees it: `key(s)` is the canonical
   rendering of a valid address and None for anything else.
   */
  type AddressBook = string -> Option<string>

  function OrEmpty<T>(o: Option<seq<T>>): seq<T> {
    match o
    case None => []
    case Some(s) => s
  }

  function ContractsOf(rules: seq<ProtocolRule>): (r: seq<string>)
    ensures |r| == |rules| && forall i :: 0 <= i < |rules| ==> r[i] == rules[i].contract
  {
    seq(|rules|, i requires 0 <= i < |rules| => rules[i].contract)
  }

  function RecipientsOf(caps: seq<RecipientCap>): (r: seq<string>)
    ensures |r| == |caps| && forall i :: 0 <= i < |caps| ==> r[i] == caps[i].recipient
  {
    seq(|caps|, i requires 0 <= i < |caps| => caps[i].recipient)
  }
}
