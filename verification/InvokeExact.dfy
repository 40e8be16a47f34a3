/**
 What the retry loop does, put in terms of what happened to its attempts and of the options as given: exactly when
 it goes round again, exactly why it ends, and what the next attempt pays and waits.
 */
module InvokeExact {
  import opened Wrappers
  import opened Invoke

  // ---------------------------------------------------------------- going round

  /** After attempt k the general budget, min(retryMaxAttempts, maxRetries + 1), still has one. */
  predicate MayRetry(cfg: Config, k: nat) {
    k < cfg.retryMaxAttempts && (cfg.maxRetries.Some? ==> k < cfg.maxRetries.value + 1)
  }

  /** After attempt k >= 1 the fee budget, max(1, min(feeMaxAttempts, maxRetries + 1)), still has one. */
  predicate MayBump(cfg: Config, k: nat) {
    k < cfg.feeMaxAttempts && (cfg.maxRetries.Some? ==> k < cfg.maxRetries.value + 1)
  }

  ghost predicate FeeRejected(deadline: Option<int>, a: Attempt) {
    Sent(deadline, a) && RejectedFor(a.submission, MinFee)
  }

  ghost predicate LedgerOrSequenceRejected(deadline: Option<int>, a: Attempt) {
    Sent(deadline, a) && (RejectedFor(a.submission, StaleLedger) || RejectedFor(a.submission, SequenceCollision))
  }

  /** The attempt asks for a backoff, and there is one: the budget lasts and the random source is sound. */
  ghost predicate WantsBackoff(cfg: Config, deadline: Option<int>, a: Attempt, k: nat) {
    LedgerOrSequenceRejected(deadline, a) && MayRetry(cfg, k) && 0.0 <= a.sample < 1.0
  }

  /** Attempt k is to be followed by another one. */
  ghost predicate Repeats(cfg: Config, deadline: Option<int>, a: Attempt, k: nat) {
    || (FeeRejected(deadline, a) && MayBump(cfg, k))
    || (WantsBackoff(cfg, deadline, a, k) && InTime(deadline, a.doneAt) && InTime(deadline, a.sleptAt))
  }

  // ---------------------------------------------------------------- ending

  /** Why an invocation that made n attempts has this ending. */
  ghost predicate EndsBy(cfg: Config, deadline: Option<int>, env: nat -> Attempt, n: nat, e: Ending) {
    match e
    case DeadlineBetween =>
      || (n == 0 && !InTime(deadline, env(1).startAt))
      || (n > 0 && Repeats(cfg, deadline, env(n), n) && !InTime(deadline, env(n + 1).startAt))
      || (n > 0 && WantsBackoff(cfg, deadline, env(n), n) && InTime(deadline, env(n).doneAt)
          && !InTime(deadline, env(n).sleptAt))
    case DeadlineInAttempt =>
      || (n > 0 && Cause(deadline, env(n), TimedOut))
      || (n > 0 && WantsBackoff(cfg, deadline, env(n), n) && !InTime(deadline, env(n).doneAt))
    case FeeBudgetSpent => n > 0 && FeeRejected(deadline, env(n)) && !MayBump(cfg, n)
    case RetryBudgetSpent(failure) =>
      && n > 0 && LedgerOrSequenceRejected(deadline, env(n)) && RejectedFor(env(n).submission, failure)
      && !MayRetry(cfg, n)
    case BadRandomSource =>
      && n > 0 && LedgerOrSequenceRejected(deadline, env(n)) && MayRetry(cfg, n)
      && !(0.0 <= env(n).sample < 1.0)
    case Terminal(Error(Some(_))) => false
    case Terminal(o) => n > 0 && !o.TimedOut? && Cause(deadline, env(n), o)
  }

  lemma OneEnding(cfg: Config, deadline: Option<int>, env: nat -> Attempt, n: nat, e: Ending, e': Ending)
    requires EndsBy(cfg, deadline, env, n, e) && EndsBy(cfg, deadline, env, n, e')
    ensures e == e'
  {
    if n > 0 {
      hide Cause, Sent;
      OutcomeExactly(deadline, env(n), TimedOut);
      OutcomeExactly(deadline, env(n), Error(Some(MinFee)));
      OutcomeExactly(deadline, env(n), Error(Some(StaleLedger)));
      OutcomeExactly(deadline, env(n), Error(Some(SequenceCollision)));
      if e.Terminal? {
        OutcomeExactly(deadline, env(n), e.outcome);
      }
      if e'.Terminal? {
        OutcomeExactly(deadline, env(n), e'.outcome);
      }
    }
  }

  // ---------------------------------------------------------------- fees and delays

  /** The fee of the attempt after a: bumped when the fee was too low, by 100 at least where rounding ate the bump. */
  ghost predicate FeeFollows(a: Attempt, fee: int, next: int) {
    next == if RejectedFor(a.submission, MinFee) then (if a.bumped > fee then a.bumped else fee + 100) else fee
  }

  /** The record of retried attempt n: its class, no delay for a fee bump, the jittered and bounded delay otherwise. */
  ghost predicate RetryFollows(cfg: Config, deadline: Option<int>, a: Attempt, n: nat, x: Retry)
    requires cfg.Valid()
  {
    && x.attempt == n && RejectedFor(a.submission, x.failure)
    && if x.failure == MinFee then x.delayMs == 0
       else
         var jittered := (Window(cfg, n) * a.sample).Floor;
         x.delayMs == if deadline.Some? && deadline.value - a.doneAt < jittered then deadline.value - a.doneAt
                      else jittered
  }

  /** The backoff window starts at the base delay, doubles from attempt to attempt and stops at the maximum. */
  lemma WindowDoubles(cfg: Config, n: nat)
    requires cfg.Valid() && n >= 1
    ensures Window(cfg, 1) == if cfg.baseDelayMs <= cfg.maxDelayMs then cfg.baseDelayMs else cfg.maxDelayMs
    ensures Window(cfg, n + 1)
         == if 2.0 * Window(cfg, n) <= cfg.maxDelayMs then 2.0 * Window(cfg, n) else cfg.maxDelayMs
  {
    assert Pow2(0) == 1.0;
    Doubled(cfg.baseDelayMs, Pow2(n - 1));
  }

  lemma Doubled(base: real, p: real)
    ensures base * (2.0 * p) == 2.0 * (base * p)
  {
  }

  ghost predicate FeesFollow(cfg: Config, env: nat -> Attempt, fees: seq<int>) {
    && (fees != [] ==> fees[0] == cfg.initialFee)
    && forall i :: 1 <= i < |fees| ==> FeeFollows(env(i), fees[i - 1], fees[i])
  }

  ghost predicate RetriesFollow(cfg: Config, deadline: Option<int>, env: nat -> Attempt, retries: seq<Retry>)
    requires cfg.Valid()
  {
    forall i :: 1 <= i <= |retries| ==> RetryFollows(cfg, deadline, env(i), i, retries[i - 1])
  }

  // ---------------------------------------------------------------- the loop

  /** The first n attempts were made, each in time, and every one of them is to be followed by another. */
  ghost predicate AllRepeat(cfg: Config, deadline: Option<int>, env: nat -> Attempt, n: nat) {
    forall i :: 1 <= i <= n ==> InTime(deadline, env(i).startAt) && Repeats(cfg, deadline, env(i), i)
  }

  ghost predicate History(cfg: Config, deadline: Option<int>, env: nat -> Attempt, v: Vars)
    requires cfg.Valid()
  {
    && AllRepeat(cfg, deadline, env, v.attempts)
    && |v.fees| == |v.retries| == v.attempts
    && FeesFollow(cfg, env, v.fees + [v.fee])
    && RetriesFollow(cfg, deadline, env, v.retries)
  }

  /** Everything a report says, but for its log. */
  ghost predicate Explained(cfg: Config, deadline: Option<int>, env: nat -> Attempt, r: Report)
    requires cfg.Valid()
  {
    && (r.attempts > 0 ==> AllRepeat(cfg, deadline, env, r.attempts - 1))
    && (r.attempts > 0 ==> InTime(deadline, env(r.attempts).startAt))
    && EndsBy(cfg, deadline, env, r.attempts, r.ending)
    && |r.fees| == r.attempts && FeesFollow(cfg, env, r.fees)
    && |r.retries| == (if r.ending.DeadlineBetween? then r.attempts else r.attempts - 1)
    && RetriesFollow(cfg, deadline, env, r.retries)
    && (forall k: nat :: 1 <= k ==>
          (k < r.maxAttempts <==> if r.ending.FeeBudgetSpent? then MayBump(cfg, k) else MayRetry(cfg, k)))
  }

  lemma InTimeMeans(deadline: Option<int>, now: int)
    ensures Expired(deadline, now) <==> !InTime(deadline, now)
  {
  }

  lemma BudgetsMean(cfg: Config, k: nat)
    ensures k < cfg.GeneralMax() <==> MayRetry(cfg, k)
    ensures k >= 1 ==> (k < cfg.FeeMax() <==> MayBump(cfg, k))
  {
  }

  /** How attempt n's outcome sorts it. */
  lemma OutcomeSorts(deadline: Option<int>, a: Attempt)
    ensures var o := Pipeline(deadline, a);
            && Cause(deadline, a, o)
            && (FeeRejected(deadline, a) <==> o == Error(Some(MinFee)))
            && (LedgerOrSequenceRejected(deadline, a) <==>
                o == Error(Some(StaleLedger)) || o == Error(Some(SequenceCollision)))
            && (forall f :: o == Error(Some(f)) ==> RejectedFor(a.submission, f))
  {
    hide Pipeline, Sent;
    OutcomeExactly(deadline, a, Pipeline(deadline, a));
    OutcomeExactly(deadline, a, Error(Some(MinFee)));
    OutcomeExactly(deadline, a, Error(Some(StaleLedger)));
    OutcomeExactly(deadline, a, Error(Some(SequenceCollision)));
  }

  /** The backoff is asked for after a rejection for the ledger or the sequence. */
  lemma SleepFollows(cfg: Config, deadline: Option<int>, a: Attempt, n: nat, failure: Failure)
    requires cfg.Valid() && GoodSample(a.sample)
    requires RejectedFor(a.submission, failure) && failure != MinFee
    ensures RetryFollows(cfg, deadline, a, n, Retry(n, failure, SleepFor(cfg, deadline, a, n)))
  {
    hide Window, RejectedFor;
  }

  lemma NoSleepFollows(cfg: Config, deadline: Option<int>, a: Attempt, n: nat)
    requires cfg.Valid() && RejectedFor(a.submission, MinFee)
    ensures RetryFollows(cfg, deadline, a, n, Retry(n, MinFee, 0))
  {
  }

  lemma OneMoreRepeats(cfg: Config, deadline: Option<int>, env: nat -> Attempt, n: nat)
    requires AllRepeat(cfg, deadline, env, n)
    requires InTime(deadline, env(n + 1).startAt) && Repeats(cfg, deadline, env(n + 1), n + 1)
    ensures AllRepeat(cfg, deadline, env, n + 1)
  {
    hide Repeats, InTime;
  }

  lemma OneMoreFee(cfg: Config, env: nat -> Attempt, fees: seq<int>, next: int)
    requires fees != [] && FeesFollow(cfg, env, fees) && FeeFollows(env(|fees|), fees[|fees| - 1], next)
    ensures FeesFollow(cfg, env, fees + [next])
  {
    hide FeeFollows;
  }

  lemma OneMoreRetry(cfg: Config, deadline: Option<int>, env: nat -> Attempt, retries: seq<Retry>, x: Retry)
    requires cfg.Valid() && RetriesFollow(cfg, deadline, env, retries)
    requires RetryFollows(cfg, deadline, env(|retries| + 1), |retries| + 1, x)
    ensures RetriesFollow(cfg, deadline, env, retries + [x])
  {
    hide RetryFollows;
  }

  /** Rejections have one class. */
  lemma OneClass(s: Submission, failure: Failure)
    requires RejectedFor(s, failure)
    ensures RejectedFor(s, MinFee) <==> failure == MinFee
  {
  }

  lemma ContinueFollows(cfg: Config, deadline: Option<int>, env: nat -> Attempt, v: Vars)
    requires cfg.Valid() && History(cfg, deadline, env, v) && Iterate(cfg, deadline, env, v).Continue?
    ensures History(cfg, deadline, env, Iterate(cfg, deadline, env, v).vars)
    ensures Iterate(cfg, deadline, env, v).vars.attempts == v.attempts + 1
  {
    hide Pipeline, Cause, Trace, Sent, RejectedFor, MayRetry, MayBump, SleepFor, Window;
    hide AllRepeat, FeesFollow, RetriesFollow, RetryFollows;
    var n := v.attempts + 1;
    var a := env(n);
    var w := Iterate(cfg, deadline, env, v).vars;
    var failure := Pipeline(deadline, a).retryable.value;
    OutcomeSorts(deadline, a);
    BudgetsMean(cfg, n);
    OneClass(a.submission, failure);
    OneMoreRepeats(cfg, deadline, env, v.attempts);
    OneMoreFee(cfg, env, v.fees + [v.fee], w.fee);
    if failure == MinFee {
      NoSleepFollows(cfg, deadline, a, n);
    } else {
      SleepFollows(cfg, deadline, a, n, failure);
    }
    OneMoreRetry(cfg, deadline, env, v.retries, w.retries[|v.retries|]);
  }

  lemma ShorterFollows(cfg: Config, env: nat -> Attempt, fees: seq<int>, next: int)
    requires FeesFollow(cfg, env, fees + [next])
    ensures FeesFollow(cfg, env, fees)
  {
    hide FeeFollows;
    assert forall i :: 0 <= i < |fees| ==> fees[i] == (fees + [next])[i];
  }

  lemma LastRepeats(cfg: Config, deadline: Option<int>, env: nat -> Attempt, n: nat)
    requires AllRepeat(cfg, deadline, env, n) && n > 0
    ensures AllRepeat(cfg, deadline, env, n - 1)
    ensures InTime(deadline, env(n).startAt) && Repeats(cfg, deadline, env(n), n)
  {
    hide Repeats, InTime;
  }

  lemma MaximumFollows(cfg: Config, v: Vars, e: Ending)
    ensures var r := Finish(cfg, v, e);
            forall k: nat :: 1 <= k ==>
              (k < r.maxAttempts <==> if r.ending.FeeBudgetSpent? then MayBump(cfg, k) else MayRetry(cfg, k))
  {
    forall k: nat
      ensures k < cfg.GeneralMax() <==> MayRetry(cfg, k)
      ensures k >= 1 ==> (k < cfg.FeeMax() <==> MayBump(cfg, k))
    {
      BudgetsMean(cfg, k);
    }
  }

  /** Why the pass that stops stops. */
  lemma StopEndsBy(cfg: Config, deadline: Option<int>, env: nat -> Attempt, v: Vars)
    requires cfg.Valid() && AllRepeat(cfg, deadline, env, v.attempts) && Iterate(cfg, deadline, env, v).Stop?
    ensures var r := Iterate(cfg, deadline, env, v).report; EndsBy(cfg, deadline, env, r.attempts, r.ending)
  {
    hide Pipeline, Cause, Trace, Sent, RejectedFor, MayRetry, MayBump, SleepFor, NextFee;
    var n := v.attempts + 1;
    if v.attempts > 0 {
      LastRepeats(cfg, deadline, env, v.attempts);
    }
    OutcomeSorts(deadline, env(n));
    BudgetsMean(cfg, n);
  }

  lemma StopFollows(cfg: Config, deadline: Option<int>, env: nat -> Attempt, v: Vars)
    requires cfg.Valid() && History(cfg, deadline, env, v) && Iterate(cfg, deadline, env, v).Stop?
    ensures Explained(cfg, deadline, env, Iterate(cfg, deadline, env, v).report)
  {
    hide Pipeline, Trace, NextFee, SleepFor, EndsBy, AllRepeat, FeesFollow, RetriesFollow, RetryFollows;
    hide MayRetry, MayBump, RejectedFor;
    var n := v.attempts + 1;
    var a := env(n);
    var r := Iterate(cfg, deadline, env, v).report;
    StopEndsBy(cfg, deadline, env, v);
    ShorterFollows(cfg, env, v.fees, v.fee);
    MaximumFollows(cfg, v, r.ending);
    if r.attempts == v.attempts && r.attempts > 0 {
      LastRepeats(cfg, deadline, env, r.attempts);
    }
    if r.attempts == n && r.ending.DeadlineBetween? {
      var failure := Pipeline(deadline, a).retryable.value;
      OutcomeSorts(deadline, a);
      OneClass(a.submission, failure);
      SleepFollows(cfg, deadline, a, n, failure);
      OneMoreRetry(cfg, deadline, env, v.retries, Retry(n, failure, SleepFor(cfg, deadline, a, n)));
    }
  }

  lemma {:induction false} LoopFollows(cfg: Config, deadline: Option<int>, env: nat -> Attempt, v: Vars)
    requires cfg.Valid() && v.attempts < cfg.Budget() && History(cfg, deadline, env, v)
    ensures Explained(cfg, deadline, env, Loop(cfg, deadline, env, v))
    decreases cfg.Budget() - v.attempts
  {
    hide History, Explained, Iterate;
    LoopTurn(cfg, deadline, env, v);
    match Iterate(cfg, deadline, env, v) {
      case Stop(_) =>
        StopFollows(cfg, deadline, env, v);
      case Continue(w) =>
        ContinueFollows(cfg, deadline, env, v);
        LoopFollows(cfg, deadline, env, w);
    }
  }

  lemma InvocationFollows(cfg: Config, deadline: Option<int>, env: nat -> Attempt)
    requires cfg.Valid()
    ensures Explained(cfg, deadline, env, Invocation(cfg, deadline, env))
  {
    LoopFollows(cfg, deadline, env, Start(cfg));
  }

  // ---------------------------------------------------------------- the results

  /**
   The loop goes round exactly when it should.  The first attempt is made unless the deadline has passed.  Attempt
   k + 1 is made if and only if attempt k was made and rejected for its fee with fee budget left, or rejected for its
   ledger or its sequence with general budget left, a sound random sample and a deadline that outlasts the backoff --
   and the deadline has not passed at the top of the loop.
   */
  lemma {:induction false} NextAttemptExactly(cfg: Config, deadline: Option<int>, env: nat -> Attempt, k: nat)
    requires cfg.Valid() && k >= 1
    ensures Invocation(cfg, deadline, env).attempts >= 1 <==> InTime(deadline, env(1).startAt)
    ensures k + 1 <= Invocation(cfg, deadline, env).attempts <==>
            && k <= Invocation(cfg, deadline, env).attempts
            && Repeats(cfg, deadline, env(k), k) && InTime(deadline, env(k + 1).startAt)
  {
    hide Invocation, Repeats, EndsBy, InTime, FeesFollow, RetriesFollow;
    InvocationFollows(cfg, deadline, env);
    var r := Invocation(cfg, deadline, env);
    LastDoesNotGoOn(cfg, deadline, env, r.attempts, r.ending);
    if k + 1 <= r.attempts {
      assert InTime(deadline, env(k + 1).startAt) by {
        assert k + 1 <= r.attempts - 1 || k + 1 == r.attempts;
      }
    }
  }

  lemma LastDoesNotGoOn(cfg: Config, deadline: Option<int>, env: nat -> Attempt, n: nat, e: Ending)
    requires EndsBy(cfg, deadline, env, n, e)
    ensures n > 0 ==> !(Repeats(cfg, deadline, env(n), n) && InTime(deadline, env(n + 1).startAt))
    ensures n == 0 ==> !InTime(deadline, env(1).startAt)
  {
    if n > 0 {
      hide Cause, Sent;
      OutcomeExactly(deadline, env(n), TimedOut);
      OutcomeExactly(deadline, env(n), Error(Some(MinFee)));
      OutcomeExactly(deadline, env(n), Error(Some(StaleLedger)));
      OutcomeExactly(deadline, env(n), Error(Some(SequenceCollision)));
      if e.Terminal? {
        OutcomeExactly(deadline, env(n), e.outcome);
      }
    }
  }

  /** An invocation has an ending exactly for its causes; in particular a retryable rejection never ends as such. */
  lemma {:induction false} EndingExactly(cfg: Config, deadline: Option<int>, env: nat -> Attempt, e: Ending)
    requires cfg.Valid()
    ensures var r := Invocation(cfg, deadline, env);
            r.ending == e <==> EndsBy(cfg, deadline, env, r.attempts, e)
  {
    hide Invocation, EndsBy;
    InvocationFollows(cfg, deadline, env);
    var r := Invocation(cfg, deadline, env);
    if EndsBy(cfg, deadline, env, r.attempts, e) {
      OneEnding(cfg, deadline, env, r.attempts, e, r.ending);
    }
  }

  /** An invocation is reported allowed exactly when its last attempt was handed to the network and confirmed. */
  lemma {:induction false} AllowedExactly(cfg: Config, deadline: Option<int>, env: nat -> Attempt)
    requires cfg.Valid()
    ensures var r := Invocation(cfg, deadline, env);
            r.ending == Terminal(Allowed) <==>
            r.attempts > 0 && Sent(deadline, env(r.attempts)) && env(r.attempts).submission == Succeeded
    ensures var r := Invocation(cfg, deadline, env);
            r.ending == Terminal(Pending) <==>
            r.attempts > 0 && Sent(deadline, env(r.attempts)) && env(r.attempts).submission == Unconfirmed
  {
    hide Invocation, Sent;
    EndingExactly(cfg, deadline, env, Terminal(Allowed));
    EndingExactly(cfg, deadline, env, Terminal(Pending));
  }

  /**
   Each attempt pays the fee the one before leaves it, each retry is recorded with its class and waits exactly its
   jittered window cut to what the deadline leaves, and the reported maximum is the budget that ended the loop.
   */
  lemma {:induction false} FeesAndDelaysExactly(cfg: Config, deadline: Option<int>, env: nat -> Attempt)
    requires cfg.Valid()
    ensures var r := Invocation(cfg, deadline, env);
            && |r.fees| == r.attempts && FeesFollow(cfg, env, r.fees)
            && |r.retries| == (if r.ending.DeadlineBetween? then r.attempts else r.attempts - 1)
            && RetriesFollow(cfg, deadline, env, r.retries)
            && (forall k: nat :: 1 <= k ==>
                  (k < r.maxAttempts <==> if r.ending.FeeBudgetSpent? then MayBump(cfg, k) else MayRetry(cfg, k)))
  {
    hide Invocation;
    InvocationFollows(cfg, deadline, env);
  }
}
