/**
 One invocation (src/invoke.ts): the attempt pipeline invokePipeline and the retry loop invokeWithQueue.

 The environment answers attempt n with `env(n)`: what enforcement, assembly and the network did, and the
 clock readings the code takes on the way.  All of it is arbitrary.
 */
module Invoke {
  import opened Wrappers

  /** The result of enforceCall; `EnforceTimedOut` is a thrown RpcTimeoutError. */
  datatype Enforcement = EnforceAdmissible | EnforceBlocked | EnforceError | EnforceTimedOut

  /** What submitAndPoll came back with. */
  datatype Submission =
    | Succeeded
    | Unconfirmed              // status TIMEOUT or PENDING
    | DeadlineExceeded
    | RequestTimedOut          // RpcTimeoutError
    | RequestFailed            // any other exception: the network's answer is unknown
    | Rejected(guardReason: bool, minFee: bool, staleLedger: bool, badSequence: bool)

  datatype Attempt = Attempt(
    startAt: int,      // clock at the top of the loop
    enforcement: Enforcement,
    approvedAt: int,   // clock once the guard has answered
    assembles: bool,
    sendAt: int,       // clock just before the broadcast
    submission: Submission,
    bumped: int,       // ceil(fee * multiplier)
    sample: real,      // the random sample of the backoff
    doneAt: int,       // clock when the backoff is computed
    sleptAt: int)      // clock after the backoff

  datatype Failure = MinFee | StaleLedger | SequenceCollision

  datatype PipelineOutcome =
    | Allowed
    | Blocked(charged: bool)
    | Pending
    | Error(retryable: Option<Failure>)
    | TimedOut

  // ---------------------------------------------------------------- one attempt

  /** assertWithinDeadline fails. */
  predicate Expired(deadline: Option<int>, now: int) {
    deadline.Some? && deadline.value - now <= 0
  }

  /** What an attempt does, in order: it asks the guard, assembles the transaction, hands it to the network. */
  datatype Event =
    | Enforced(attempt: nat, answer: Enforcement)
    | Assembled(attempt: nat)
    | Broadcast(attempt: nat)

  /** The moment comes before the deadline, if there is one. */
  predicate InTime(deadline: Option<int>, now: int) {
    deadline.Some? ==> now < deadline.value
  }

  /** What it takes to get as far as the broadcast: approved, assembled, and in time at both checks. */
  predicate Sent(deadline: Option<int>, a: Attempt) {
    && a.enforcement == EnforceAdmissible
    && InTime(deadline, a.approvedAt)
    && a.assembles
    && InTime(deadline, a.sendAt)
  }

  /** How a rejected submission is classified: a guard refusal first, then fee, ledger and sequence. */
  function Classify(s: Submission): PipelineOutcome
    requires s.Rejected?
  {
    if s.guardReason then Blocked(true)
    else if s.minFee then Error(Some(MinFee))
    else if s.staleLedger then Error(Some(StaleLedger))
    else if s.badSequence then Error(Some(SequenceCollision))
    else Error(None)
  }

  function Pipeline(deadline: Option<int>, a: Attempt): PipelineOutcome {
    match a.enforcement
    case EnforceTimedOut => TimedOut
    case EnforceError => Error(None)
    case EnforceBlocked => Blocked(false)
    case EnforceAdmissible =>
      if Expired(deadline, a.approvedAt) then TimedOut
      else if !a.assembles then Error(None)
      else if Expired(deadline, a.sendAt) then TimedOut
      else
        match a.submission
        case RequestTimedOut => TimedOut
        case RequestFailed => Error(None)
        case DeadlineExceeded => TimedOut
        case Unconfirmed => Pending
        case Succeeded => Allowed
        case Rejected(_, _, _, _) => Classify(a.submission)
  }

  /**
   Why an attempt has this outcome.  A rejection is put down to the guard first, then to the fee, the ledger and the
   sequence, in this order.
   */
  ghost predicate Cause(deadline: Option<int>, a: Attempt, o: PipelineOutcome) {
    match o
    case Allowed => Sent(deadline, a) && a.submission == Succeeded
    case Pending => Sent(deadline, a) && a.submission == Unconfirmed
    case Blocked(true) => Sent(deadline, a) && a.submission.Rejected? && a.submission.guardReason
    case Blocked(false) => a.enforcement == EnforceBlocked
    case Error(Some(failure)) => Sent(deadline, a) && RejectedFor(a.submission, failure)
    case Error(None) =>
      || a.enforcement == EnforceError
      || (a.enforcement == EnforceAdmissible && InTime(deadline, a.approvedAt) && !a.assembles)
      || (Sent(deadline, a) && a.submission == RequestFailed)
      || (Sent(deadline, a) && a.submission == Rejected(false, false, false, false))
    case TimedOut =>
      || a.enforcement == EnforceTimedOut
      || (a.enforcement == EnforceAdmissible && !InTime(deadline, a.approvedAt))
      || (a.enforcement == EnforceAdmissible && InTime(deadline, a.approvedAt) && a.assembles
          && !InTime(deadline, a.sendAt))
      || (Sent(deadline, a) && a.submission == RequestTimedOut)
      || (Sent(deadline, a) && a.submission == DeadlineExceeded)
  }

  /** The network rejected the transaction, not by the guard's refusal, and this is the first reason that applies. */
  ghost predicate RejectedFor(s: Submission, failure: Failure) {
    && s.Rejected? && !s.guardReason
    && match failure
       case MinFee => s.minFee
       case StaleLedger => s.staleLedger && !s.minFee
       case SequenceCollision => s.badSequence && !s.staleLedger && !s.minFee
  }

  /** An attempt has an outcome exactly for its causes: they exclude each other and leave nothing out. */
  lemma OutcomeExactly(deadline: Option<int>, a: Attempt, o: PipelineOutcome)
    ensures Pipeline(deadline, a) == o <==> Cause(deadline, a, o)
  {
  }

  /** The stages attempt n goes through. */
  function Trace(deadline: Option<int>, a: Attempt, n: nat): seq<Event> {
    [Enforced(n, a.enforcement)]
    + (if !a.enforcement.EnforceAdmissible? || Expired(deadline, a.approvedAt) || !a.assembles then []
       else [Assembled(n)] + if Expired(deadline, a.sendAt) then [] else [Broadcast(n)])
  }

  /** The attempts that broadcast, in order. */
  function Sends(log: seq<Event>): seq<nat> {
    if log == [] then []
    else Sends(log[..|log| - 1]) + if log[|log| - 1].Broadcast? then [log[|log| - 1].attempt] else []
  }

  /** Nothing is broadcast but what the guard has just admitted in the same attempt. */
  ghost predicate Guarded(log: seq<Event>) {
    forall q :: 0 <= q < |log| && log[q].Broadcast? ==>
                  exists p :: 0 <= p < q && log[p] == Enforced(log[q].attempt, EnforceAdmissible)
  }

  lemma {:induction false} SendsAppend(a: seq<Event>, b: seq<Event>)
    ensures Sends(a + b) == Sends(a) + Sends(b)
  {
    if b == [] {
      assert a + b == a;
    } else {
      assert (a + b)[..|a + b| - 1] == a + b[..|b| - 1];
      SendsAppend(a, b[..|b| - 1]);
    }
  }

  lemma {:induction false} SendsAreBroadcasts(log: seq<Event>, k: nat)
    ensures k in Sends(log) <==> Broadcast(k) in log
  {
    if log != [] {
      SendsAreBroadcasts(log[..|log| - 1], k);
      assert log == log[..|log| - 1] + [log[|log| - 1]];
    }
  }

  /**
   An attempt broadcasts, once, exactly when the guard admitted it, the transaction was assembled and the deadline
   had not passed at either check; and the log stays guarded.
   */
  lemma {:induction false} TraceIsSafe(deadline: Option<int>, a: Attempt, n: nat, before: seq<Event>)
    ensures Sends(before + Trace(deadline, a, n)) == Sends(before) + if Sent(deadline, a) then [n] else []
    ensures Guarded(before) ==> Guarded(before + Trace(deadline, a, n))
  {
    TraceSends(deadline, a, n, before);
    if Guarded(before) {
      TraceStaysGuarded(deadline, a, n, before);
    }
  }

  lemma SendsSnoc(log: seq<Event>, e: Event)
    ensures Sends(log + [e]) == Sends(log) + if e.Broadcast? then [e.attempt] else []
  {
    assert (log + [e])[..|log|] == log;
  }

  lemma TraceSends(deadline: Option<int>, a: Attempt, n: nat, before: seq<Event>)
    ensures Sends(before + Trace(deadline, a, n)) == Sends(before) + if Sent(deadline, a) then [n] else []
  {
    hide Sends;
    var one := before + [Enforced(n, a.enforcement)];
    var two := one + [Assembled(n)];
    var after := before + Trace(deadline, a, n);
    SendsSnoc(before, Enforced(n, a.enforcement));
    SendsSnoc(one, Assembled(n));
    SendsSnoc(two, Event.Broadcast(n));
    if |Trace(deadline, a, n)| == 1 {
      assert after == one;
    } else if |Trace(deadline, a, n)| == 2 {
      assert after == two;
    } else {
      assert after == two + [Event.Broadcast(n)];
    }
  }

  lemma TraceStaysGuarded(deadline: Option<int>, a: Attempt, n: nat, before: seq<Event>)
    requires Guarded(before)
    ensures Guarded(before + Trace(deadline, a, n))
  {
    var first := Enforced(n, a.enforcement);
    var log := before + Trace(deadline, a, n);
    forall q | 0 <= q < |log| && log[q].Broadcast?
      ensures exists p :: 0 <= p < q && log[p] == Enforced(log[q].attempt, EnforceAdmissible)
    {
      if q < |before| {
        var p :| 0 <= p < q && before[p] == Enforced(before[q].attempt, EnforceAdmissible);
        assert log[p] == before[p];
      } else {
        assert log[|before|] == first;
      }
    }
  }

  /** invokePipeline: attempt n, stage by stage; `log` is what the earlier attempts did and then what this one does. */
  method InvokePipeline(deadline: Option<int>, a: Attempt, n: nat, before: seq<Event>)
    returns (outcome: PipelineOutcome, log: seq<Event>)
    ensures outcome == Pipeline(deadline, a) && log == before + Trace(deadline, a, n)
    ensures forall o :: o == outcome <==> Cause(deadline, a, o)
    ensures Sends(log) == Sends(before) + if Sent(deadline, a) then [n] else []
    ensures Guarded(before) ==> Guarded(log)
  {
    hide Sends, Guarded, Cause;
    forall o
      ensures Pipeline(deadline, a) == o <==> Cause(deadline, a, o)
    {
      OutcomeExactly(deadline, a, o);
    }
    TraceIsSafe(deadline, a, n, before);
    log := before + [Enforced(n, a.enforcement)];
    if a.enforcement.EnforceTimedOut? {
      return TimedOut, log;
    }
    if a.enforcement.EnforceError? {
      return Error(None), log;
    }
    if !a.enforcement.EnforceAdmissible? {
      return Blocked(false), log;
    }
    if Expired(deadline, a.approvedAt) {
      return TimedOut, log;
    }
    if !a.assembles {
      return Error(None), log;
    }
    log := log + [Assembled(n)];
    if Expired(deadline, a.sendAt) {
      return TimedOut, log;
    }
    log := log + [Broadcast(n)];
    if a.submission.RequestTimedOut? || a.submission.DeadlineExceeded? {
      return TimedOut, log;
    }
    if a.submission.RequestFailed? {
      return Error(None), log;
    }
    if a.submission.Unconfirmed? {
      return Pending, log;
    }
    if a.submission.Rejected? {
      if a.submission.guardReason {
        return Blocked(true), log;
      }
      var isMinFee := a.submission.minFee;
      var staleLedger := !isMinFee && a.submission.staleLedger;
      var sequenceCollision := !isMinFee && !staleLedger && a.submission.badSequence;
      return Error(if staleLedger then Some(StaleLedger)
                   else if sequenceCollision then Some(SequenceCollision)
                   else if isMinFee then Some(MinFee) else None), log;
    }
    outcome := Allowed;
  }

  /** A submission that may have taken effect or been charged: anything but a plain rejection. */
  predicate MayTakeEffect(s: Submission) {
    !(s.Rejected? && !s.guardReason)
  }

  /** Only a definite rejection is ever retried, and every retried attempt had been broadcast. */
  lemma RetryableMeansRejected(deadline: Option<int>, a: Attempt)
    ensures Pipeline(deadline, a).Error? && Pipeline(deadline, a).retryable.Some? ==>
              Sent(deadline, a) && a.submission.Rejected? && !MayTakeEffect(a.submission)
    ensures Pipeline(deadline, a).Allowed? || Pipeline(deadline, a).Pending? ==>
              Sent(deadline, a) && MayTakeEffect(a.submission)
    ensures Pipeline(deadline, a) == Blocked(true) ==> Sent(deadline, a) && MayTakeEffect(a.submission)
  {
  }

  // ---------------------------------------------------------------- budgets and backoff

  datatype Config = Config(
    retryMaxAttempts: nat,
    maxRetries: Option<nat>,
    feeMaxAttempts: int,
    initialFee: int,
    baseDelayMs: real,
    maxDelayMs: real)
  {
    /** What validateInvokeOptions demands. */
    predicate Valid() {
      retryMaxAttempts >= 1 && feeMaxAttempts >= 1 && initialFee > 0 && baseDelayMs >= 0.0 && maxDelayMs >= 0.0
    }

    function GeneralMax(): nat {
      if maxRetries.Some? && maxRetries.value + 1 < retryMaxAttempts then maxRetries.value + 1 else retryMaxAttempts
    }

    function FeeMax(): int {
      var capped := if maxRetries.Some? && maxRetries.value + 1 < feeMaxAttempts then maxRetries.value + 1
                    else feeMaxAttempts;
      if capped < 1 then 1 else capped
    }

    /** The most attempts either budget allows. */
    function Budget(): int {
      if GeneralMax() >= FeeMax() then GeneralMax() else FeeMax()
    }
  }

  function Pow2(n: nat): (r: real)
    ensures r >= 1.0
  {
    if n == 0 then 1.0 else 2.0 * Pow2(n - 1)
  }

  function Window(cfg: Config, attempt: nat): (w: real)
    requires cfg.Valid()
    ensures 0.0 <= w <= cfg.maxDelayMs
  {
    var exponential := cfg.baseDelayMs * Pow2(if attempt >= 1 then attempt - 1 else 0);
    if exponential <= cfg.maxDelayMs then exponential else cfg.maxDelayMs
  }

  /** Full jitter: a sample of the window; a sample outside [0, 1) is refused by the caller. */
  function FullJitterDelay(cfg: Config, attempt: nat, sample: real): (d: int)
    requires cfg.Valid() && 0.0 <= sample < 1.0
    ensures 0 <= d && d as real <= Window(cfg, attempt)
  {
    var w := Window(cfg, attempt);
    assert 0.0 <= w * sample <= w;
    (w * sample).Floor
  }

  predicate GoodSample(x: real) {
    0.0 <= x < 1.0
  }

  /** The backoff asked for after attempt n: the jittered delay, cut to what the deadline leaves. */
  function SleepFor(cfg: Config, deadline: Option<int>, a: Attempt, n: nat): int
    requires cfg.Valid() && GoodSample(a.sample)
  {
    var delay := FullJitterDelay(cfg, n, a.sample);
    if deadline.Some? && deadline.value - a.doneAt < delay then deadline.value - a.doneAt else delay
  }

  function NextFee(fee: int, bumped: int): int {
    if bumped > fee then bumped else fee + 100
  }

  // ---------------------------------------------------------------- the retry loop

  datatype Retry = Retry(attempt: nat, failure: Failure, delayMs: int)

  datatype Ending =
    | Terminal(outcome: PipelineOutcome)  // the pipeline's own answer
    | FeeBudgetSpent                      // BroadcastError after the last fee bump
    | RetryBudgetSpent(failure: Failure)  // InvokeRetryError
    | DeadlineInAttempt                   // RpcTimeoutError out of the pipeline, or before the backoff
    | DeadlineBetween                     // after the backoff, or at the top of the loop
    | BadRandomSource                     // RangeError from the backoff

  /** The outcome with its retry metadata; `fees` and `log` trace the attempts made. */
  datatype Report = Report(
    ending: Ending,
    attempts: nat,
    maxAttempts: int,
    retries: seq<Retry>,
    totalDelayMs: int,
    exhausted: bool,
    fees: seq<int>,   // the inclusion fee of each attempt
    log: seq<Event>)  // what the attempts did

  /** The variables of the loop. */
  datatype Vars = Vars(attempts: nat, fee: int, retries: seq<Retry>, totalDelayMs: int, fees: seq<int>, log: seq<Event>)

  datatype Turn = Continue(vars: Vars) | Stop(report: Report)

  function Finish(cfg: Config, v: Vars, ending: Ending): Report {
    Report(ending, v.attempts,
           if ending.FeeBudgetSpent? then cfg.FeeMax() else cfg.GeneralMax(),
           v.retries, v.totalDelayMs, ending.FeeBudgetSpent? || ending.RetryBudgetSpent?, v.fees, v.log)
  }

  /** One pass of `while (true)`. */
  function Iterate(cfg: Config, deadline: Option<int>, env: nat -> Attempt, v: Vars): Turn
    requires cfg.Valid()
  {
    var n := v.attempts + 1;
    var a := env(n);
    if Expired(deadline, a.startAt) then Stop(Finish(cfg, v, DeadlineBetween))
    else
      var w := v.(attempts := n, fees := v.fees + [v.fee], log := v.log + Trace(deadline, a, n));
      var o := Pipeline(deadline, a);
      if o.TimedOut? then Stop(Finish(cfg, w, DeadlineInAttempt))
      else if !o.Error? || o.retryable.None? then Stop(Finish(cfg, w, Terminal(o)))
      else if o.retryable.value.MinFee? then
        if n < cfg.FeeMax() then
          Continue(w.(retries := w.retries + [Retry(n, MinFee, 0)], fee := NextFee(w.fee, a.bumped)))
        else Stop(Finish(cfg, w, FeeBudgetSpent))
      else if n >= cfg.GeneralMax() then Stop(Finish(cfg, w, RetryBudgetSpent(o.retryable.value)))
      else if !GoodSample(a.sample) then Stop(Finish(cfg, w, BadRandomSource))
      else if Expired(deadline, a.doneAt) then Stop(Finish(cfg, w, DeadlineInAttempt))
      else
        var sleep := SleepFor(cfg, deadline, a, n);
        var x := w.(retries := w.retries + [Retry(n, o.retryable.value, sleep)],
            totalDelayMs := w.totalDelayMs + sleep);
        if deadline.Some? && a.sleptAt >= deadline.value then Stop(Finish(cfg, x, DeadlineBetween))
        else Continue(x)
  }

  function Start(cfg: Config): Vars {
    Vars(0, cfg.initialFee, [], 0, [], [])
  }

  /** The rest of the invocation from loop variables v. */
  function Loop(cfg: Config, deadline: Option<int>, env: nat -> Attempt, v: Vars): Report
    requires cfg.Valid() && v.attempts < cfg.Budget()
    decreases cfg.Budget() - v.attempts
  {
    match Iterate(cfg, deadline, env, v)
    case Stop(r) => r
    case Continue(w) => Loop(cfg, deadline, env, w)
  }

  function Invocation(cfg: Config, deadline: Option<int>, env: nat -> Attempt): Report
    requires cfg.Valid()
  {
    Loop(cfg, deadline, env, Start(cfg))
  }

  lemma LoopTurn(cfg: Config, deadline: Option<int>, env: nat -> Attempt, v: Vars)
    requires cfg.Valid() && v.attempts < cfg.Budget()
    ensures var turn := Iterate(cfg, deadline, env, v);
            if turn.Stop? then Loop(cfg, deadline, env, v) == turn.report
            else turn.vars.attempts < cfg.Budget() && Loop(cfg, deadline, env, v) == Loop(cfg, deadline, env, turn.vars)
  {
    hide Pipeline, Trace, SleepFor, NextFee, Expired;
  }

  method InvokeWithQueue(cfg: Config, deadline: Option<int>, env: nat -> Attempt) returns (r: Report)
    requires cfg.Valid()
    ensures r == Invocation(cfg, deadline, env)
  {
    hide Pipeline, Trace, SleepFor, NextFee, Expired, Sends, Guarded, Sent, Loop, Finish;
    var generalAttempt, feeAttempt := 0, 0;
    var fee := cfg.initialFee;
    var retries: seq<Retry> := [];
    var totalDelayMs := 0;
    var fees: seq<int>, log: seq<Event> := [], [];
    while true
      invariant 0 <= generalAttempt == feeAttempt < cfg.Budget()
      invariant Loop(cfg, deadline, env, Vars(generalAttempt, fee, retries, totalDelayMs, fees, log))
             == Invocation(cfg, deadline, env)
      decreases cfg.Budget() - generalAttempt
    {
      var a := env(generalAttempt + 1);
      LoopTurn(cfg, deadline, env, Vars(generalAttempt, fee, retries, totalDelayMs, fees, log));
      if Expired(deadline, a.startAt) {
        return Finish(cfg, Vars(generalAttempt, fee, retries, totalDelayMs, fees, log), DeadlineBetween);
      }
      generalAttempt := generalAttempt + 1;
      feeAttempt := feeAttempt + 1;
      fees := fees + [fee];
      var outcome;
      outcome, log := InvokePipeline(deadline, a, generalAttempt, log);
      var now := Vars(generalAttempt, fee, retries, totalDelayMs, fees, log);
      if outcome.TimedOut? {
        return Finish(cfg, now, DeadlineInAttempt);
      }
      if !outcome.Error? || outcome.retryable.None? {
        return Finish(cfg, now, Terminal(outcome));
      }
      if outcome.retryable.value.MinFee? {
        if feeAttempt < cfg.FeeMax() {
          retries := retries + [Retry(generalAttempt, MinFee, 0)];
          fee := NextFee(fee, a.bumped);
          continue;
        }
        return Finish(cfg, now, FeeBudgetSpent);
      }
      if generalAttempt >= cfg.GeneralMax() {
        return Finish(cfg, now, RetryBudgetSpent(outcome.retryable.value));
      }
      if !GoodSample(a.sample) {
        return Finish(cfg, now, BadRandomSource);
      }
      if Expired(deadline, a.doneAt) {
        return Finish(cfg, now, DeadlineInAttempt);
      }
      var sleepMs := SleepFor(cfg, deadline, a, generalAttempt);
      retries := retries + [Retry(generalAttempt, outcome.retryable.value, sleepMs)];
      totalDelayMs := totalDelayMs + sleepMs;
      if deadline.Some? && a.sleptAt >= deadline.value {
        return Finish(cfg, Vars(generalAttempt, fee, retries, totalDelayMs, fees, log), DeadlineBetween);
      }
    }
  }
}
