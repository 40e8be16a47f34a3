/** The signing stage of an attempt (src/invoke.ts, signRequiredAuth inside enforceCall). */
module SignStage {
  import opened Wrappers

  /** The credentials of one authorization entry the probe asked for. */
  datatype Credentials =
    | SourceAccount
    | Address(address: string)    // ADDRESS or ADDRESS_V2 with a readable address
    | Unreadable                  // an address credential without a valid address payload
    | Unsupported                 // any other credential type

  datatype Entry = Entry(credentials: Credentials, payload: string)

  /** An entry of the signed list: kept as it came, signed by the agent, or signed by an account key. */
  datatype Signed =
    | Kept(entry: Entry)
    | ByAgent(guard: string, nonce: int)
    | ByAccount(entry: Entry, signer: string)

  /** Who may sign: the guard the call is made for, and the account keys supplied. */
  datatype Keys = Keys(guard: Option<string>, nonce: int, accounts: seq<string>)

  /** The entry is of a kind and an address this call can authorize. */
  predicate Authorizable(k: Keys, e: Entry) {
    e.credentials.SourceAccount?
    || (e.credentials.Address? && (k.guard == Some(e.credentials.address) || e.credentials.address in k.accounts))
  }

  /** The signed entry is the right answer to the one the host asked for. */
  predicate Answers(k: Keys, e: Entry, s: Signed) {
    match e.credentials
    case SourceAccount => s == Kept(e)
    case Address(a) => if k.guard == Some(a) then s == ByAgent(a, k.nonce)
                       else a in k.accounts && s == ByAccount(e, a)
    case _ => false
  }

  /**
   One signed entry per required one, in order; nothing is dropped, the source account's entry included.
   The stage fails exactly when some entry cannot be authorized or its signer refuses, at the first such
   entry.
   */
  method SignRequiredAuth(k: Keys, required: seq<Entry>, signerWorks: nat -> bool)
    returns (r: Result<seq<Signed>, nat>)
    ensures r.Ok? <==> forall i :: 0 <= i < |required| ==>
                                     Authorizable(k, required[i])
                                     && (required[i].credentials.SourceAccount? || signerWorks(i))
    ensures r.Ok? ==> |r.value| == |required|
                      && forall i :: 0 <= i < |required| ==> Answers(k, required[i], r.value[i])
    ensures r.Err? ==> r.error < |required|
                       && (Authorizable(k, required[r.error]) ==> !signerWorks(r.error))
                       && (!Authorizable(k, required[r.error]) || !required[r.error].credentials.SourceAccount?)
                       && forall i :: 0 <= i < r.error ==>
                                        && Authorizable(k, required[i])
                                        && (required[i].credentials.SourceAccount? || signerWorks(i))
  {
    var signed: seq<Signed> := [];
    for n := 0 to |required|
      invariant |signed| == n
      invariant forall i :: 0 <= i < n ==> Answers(k, required[i], signed[i]) && Authorizable(k, required[i])
      invariant forall i :: 0 <= i < n ==> required[i].credentials.SourceAccount? || signerWorks(i)
    {
      var entry := required[n];
      if entry.credentials.SourceAccount? {
        signed := signed + [Kept(entry)];
        continue;
      }
      if !entry.credentials.Address? {
        return Err(n);
      }
      var address := entry.credentials.address;
      if k.guard == Some(address) {
        if !signerWorks(n) {
          return Err(n);
        }
        signed := signed + [ByAgent(address, k.nonce)];
        continue;
      }
      var found := false;
      for j := 0 to |k.accounts|
        invariant found <==> address in k.accounts[..j]
      {
        if k.accounts[j] == address {
          found := true;
        }
      }
      assert k.accounts[..|k.accounts|] == k.accounts;
      if !found || !signerWorks(n) {
        return Err(n);
      }
      signed := signed + [ByAccount(entry, address)];
    }
    r := Ok(signed);
  }
}
