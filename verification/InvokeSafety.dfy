/**
 What every run of the invocation loop keeps: the attempt budgets, the retry accounting, the fee ladder,
 the delay budget, and at most one transaction that may have landed.
 */
module InvokeSafety {
  import opened Wrappers
  import opened Invoke

  function TotalDelay(retries: seq<Retry>): int {
    if retries == [] then 0 else TotalDelay(retries[..|retries| - 1]) + retries[|retries| - 1].delayMs
  }

  /** Each fee bump raises the fee; between other attempts it stays. */
  ghost predicate FeeLadder(cfg: Config, fees: seq<int>, retries: seq<Retry>) {
    && (fees != [] ==> fees[0] == cfg.initialFee)
    && (forall i :: 0 <= i < |retries| && i + 1 < |fees| ==>
                      if retries[i].failure.MinFee? then fees[i] < fees[i + 1] else fees[i + 1] == fees[i])
  }

  /** Attempt k was broadcast, was definitely rejected, and the rejection was retryable. */
  ghost predicate RetriedRejection(deadline: Option<int>, a: Attempt) {
    && Sent(deadline, a) && a.submission.Rejected? && !MayTakeEffect(a.submission)
    && Pipeline(deadline, a).Error? && Pipeline(deadline, a).retryable.Some?
  }

  /** The metadata kept across whole attempts, every one of which ended in a retry. */
  ghost predicate BooksInv(cfg: Config, v: Vars) {
    && |v.retries| == v.attempts == |v.fees|
    && (forall i :: 0 <= i < |v.retries| ==> v.retries[i].attempt == i + 1 && v.retries[i].delayMs >= 0)
    && (forall i :: 0 <= i < |v.retries| && v.retries[i].failure.MinFee? ==> v.retries[i].delayMs == 0)
    && v.totalDelayMs == TotalDelay(v.retries)
    && FeeLadder(cfg, v.fees + [v.fee], v.retries)
  }

  /** Each of these attempts was broadcast once, behind the guard's approval, and was rejected. */
  ghost predicate LogInv(deadline: Option<int>, env: nat -> Attempt, v: Vars) {
    && Guarded(v.log)
    && |Sends(v.log)| == v.attempts
    && (forall i :: 0 <= i < |Sends(v.log)| ==> Sends(v.log)[i] == i + 1)
    && (forall i :: 1 <= i <= v.attempts ==> RetriedRejection(deadline, env(i)))
  }

  /** The loop variables after whole attempts, every one of which ended in a retry. */
  ghost predicate VarsInv(cfg: Config, deadline: Option<int>, env: nat -> Attempt, v: Vars)
    requires cfg.Valid()
  {
    v.attempts < cfg.Budget() && BooksInv(cfg, v) && LogInv(deadline, env, v)
  }

  /** What the metadata of a finished invocation says about itself. */
  ghost predicate Accounted(cfg: Config, r: Report)
    requires cfg.Valid()
  {
    && r.attempts <= cfg.Budget()
    && (forall i :: 0 <= i < |r.retries| ==> r.retries[i].attempt == i + 1 && r.retries[i].delayMs >= 0)
    && r.totalDelayMs == TotalDelay(r.retries)
    && |r.retries| == (if r.ending.DeadlineBetween? then r.attempts else r.attempts - 1)
    && (r.exhausted <==> r.ending.FeeBudgetSpent? || r.ending.RetryBudgetSpent?)
    && (r.exhausted ==> r.attempts >= r.maxAttempts)
    && |r.fees| == r.attempts
    && FeeLadder(cfg, r.fees, r.retries)
  }

  /** The broadcasts of a finished invocation, in order. */
  ghost predicate SendsAreSafe(deadline: Option<int>, env: nat -> Attempt, r: Report) {
    var sends := Sends(r.log);
    && Guarded(r.log)
    && |sends| <= r.attempts
    && (forall i :: 0 <= i < |sends| ==> sends[i] == i + 1 && Sent(deadline, env(sends[i])))
    && (forall i :: 0 <= i < |sends| - 1 ==> RetriedRejection(deadline, env(sends[i])))
    && (forall k :: 1 <= k <= r.attempts && Sent(deadline, env(k)) ==> k <= |sends|)
    && (r.ending.Terminal? ==> r.attempts > 0 && r.ending.outcome == Pipeline(deadline, env(r.attempts)))
    && (sends != [] && MayTakeEffect(env(sends[|sends| - 1]).submission) ==>
          r.attempts == |sends| && (r.ending.Terminal? || r.ending.DeadlineInAttempt?))
  }

  lemma SleepIsNonNegative(cfg: Config, deadline: Option<int>, a: Attempt, n: nat)
    requires cfg.Valid() && GoodSample(a.sample) && !Expired(deadline, a.doneAt)
    ensures 0 <= SleepFor(cfg, deadline, a, n)
    ensures deadline.Some? ==> SleepFor(cfg, deadline, a, n) <= deadline.value - a.doneAt
  {
  }

  lemma TotalDelaySnoc(retries: seq<Retry>, x: Retry)
    ensures TotalDelay(retries + [x]) == TotalDelay(retries) + x.delayMs
  {
    assert (retries + [x])[..|retries|] == retries;
  }

  lemma ContinueKeepsBooks(cfg: Config, deadline: Option<int>, env: nat -> Attempt, v: Vars)
    requires cfg.Valid() && BooksInv(cfg, v) && Iterate(cfg, deadline, env, v).Continue?
    ensures BooksInv(cfg, Iterate(cfg, deadline, env, v).vars)
  {
    hide Pipeline, SleepFor, Trace;
    var n := v.attempts + 1;
    var w := Iterate(cfg, deadline, env, v).vars;
    var x := w.retries[|v.retries|];
    assert w.retries == v.retries + [x];
    TotalDelaySnoc(v.retries, x);
    if !x.failure.MinFee? {
      SleepIsNonNegative(cfg, deadline, env(n), n);
    }
    var before, after := v.fees + [v.fee], w.fees + [w.fee];
    assert after == before + [w.fee];
  }

  lemma ContinueKeepsLog(cfg: Config, deadline: Option<int>, env: nat -> Attempt, v: Vars)
    requires cfg.Valid() && LogInv(deadline, env, v) && Iterate(cfg, deadline, env, v).Continue?
    ensures LogInv(deadline, env, Iterate(cfg, deadline, env, v).vars)
  {
    hide Pipeline, Sent, SleepFor, NextFee, Trace, Sends, Guarded, MayTakeEffect;
    var n := v.attempts + 1;
    RetryableMeansRejected(deadline, env(n));
    TraceIsSafe(deadline, env(n), n, v.log);
  }

  /** A pass that continues has made one more retried attempt. */
  lemma ContinueKeepsInv(cfg: Config, deadline: Option<int>, env: nat -> Attempt, v: Vars)
    requires cfg.Valid() && VarsInv(cfg, deadline, env, v) && Iterate(cfg, deadline, env, v).Continue?
    ensures VarsInv(cfg, deadline, env, Iterate(cfg, deadline, env, v).vars)
    ensures Iterate(cfg, deadline, env, v).vars.attempts == v.attempts + 1
  {
    hide BooksInv, LogInv, Pipeline, SleepFor, Trace, NextFee;
    ContinueKeepsBooks(cfg, deadline, env, v);
    ContinueKeepsLog(cfg, deadline, env, v);
  }

  /** The books of loop variables on the way out; `between` says that the last attempt has already been recorded. */
  ghost predicate Settled(cfg: Config, w: Vars, between: bool)
    requires cfg.Valid()
  {
    && w.attempts <= cfg.Budget()
    && (forall i :: 0 <= i < |w.retries| ==> w.retries[i].attempt == i + 1 && w.retries[i].delayMs >= 0)
    && w.totalDelayMs == TotalDelay(w.retries)
    && |w.retries| == (if between then w.attempts else w.attempts - 1)
    && |w.fees| == w.attempts
    && FeeLadder(cfg, w.fees, w.retries)
  }

  lemma FinishIsAccounted(cfg: Config, w: Vars, ending: Ending)
    requires cfg.Valid() && Settled(cfg, w, ending.DeadlineBetween?)
    requires ending.FeeBudgetSpent? ==> w.attempts >= cfg.FeeMax()
    requires ending.RetryBudgetSpent? ==> w.attempts >= cfg.GeneralMax()
    ensures Accounted(cfg, Finish(cfg, w, ending))
  {
  }

  /** Before an attempt, during it, and after its delay has been recorded the books balance. */
  lemma StagesAreSettled(cfg: Config, deadline: Option<int>, env: nat -> Attempt, v: Vars, log: seq<Event>, x: Retry)
    requires cfg.Valid() && VarsInv(cfg, deadline, env, v)
    requires x.attempt == v.attempts + 1
    ensures Settled(cfg, v, true)
    ensures var w := v.(attempts := v.attempts + 1, fees := v.fees + [v.fee], log := log);
            && Settled(cfg, w, false)
            && (x.delayMs >= 0 ==>
                  Settled(cfg, w.(retries := w.retries + [x], totalDelayMs := w.totalDelayMs + x.delayMs), true))
  {
    TotalDelaySnoc(v.retries, x);
    assert forall i :: 0 <= i < |v.fees| ==> (v.fees + [v.fee])[i] == v.fees[i];
  }

  lemma StopIsAccounted(cfg: Config, deadline: Option<int>, env: nat -> Attempt, v: Vars)
    requires cfg.Valid() && VarsInv(cfg, deadline, env, v) && Iterate(cfg, deadline, env, v).Stop?
    ensures Accounted(cfg, Iterate(cfg, deadline, env, v).report)
  {
    hide VarsInv, Settled, Accounted, Pipeline, Sent, SleepFor, NextFee, Trace, Sends;
    var n := v.attempts + 1;
    var a := env(n);
    var r := Iterate(cfg, deadline, env, v).report;
    var log := v.log + Trace(deadline, a, n);
    var w := v.(attempts := n, fees := v.fees + [v.fee], log := log);
    if Expired(deadline, a.startAt) {
      StagesAreSettled(cfg, deadline, env, v, log, Retry(n, MinFee, 0));
      FinishIsAccounted(cfg, v, r.ending);
    } else if r.ending.DeadlineBetween? {
      SleepIsNonNegative(cfg, deadline, a, n);
      var x := Retry(n, Pipeline(deadline, a).retryable.value, SleepFor(cfg, deadline, a, n));
      StagesAreSettled(cfg, deadline, env, v, log, x);
      FinishIsAccounted(cfg, w.(retries := w.retries + [x], totalDelayMs := w.totalDelayMs + x.delayMs), r.ending);
    } else {
      StagesAreSettled(cfg, deadline, env, v, log, Retry(n, MinFee, 0));
      FinishIsAccounted(cfg, w, r.ending);
    }
  }

  lemma StopIsSafe(cfg: Config, deadline: Option<int>, env: nat -> Attempt, v: Vars)
    requires cfg.Valid() && VarsInv(cfg, deadline, env, v) && Iterate(cfg, deadline, env, v).Stop?
    ensures SendsAreSafe(deadline, env, Iterate(cfg, deadline, env, v).report)
  {
    hide Pipeline, SleepFor, NextFee, Trace, Sends, Guarded, MayTakeEffect, BooksInv, Expired;
    RetryableMeansRejected(deadline, env(v.attempts + 1));
    TraceIsSafe(deadline, env(v.attempts + 1), v.attempts + 1, v.log);
  }

  lemma {:induction false} LoopIsAccounted(cfg: Config, deadline: Option<int>, env: nat -> Attempt, v: Vars)
    requires cfg.Valid() && VarsInv(cfg, deadline, env, v)
    ensures Accounted(cfg, Loop(cfg, deadline, env, v))
    ensures SendsAreSafe(deadline, env, Loop(cfg, deadline, env, v))
    decreases cfg.Budget() - v.attempts
  {
    match Iterate(cfg, deadline, env, v) {
      case Stop(r) =>
        StopIsAccounted(cfg, deadline, env, v);
        StopIsSafe(cfg, deadline, env, v);
      case Continue(w) =>
        ContinueKeepsInv(cfg, deadline, env, v);
        LoopIsAccounted(cfg, deadline, env, w);
    }
  }

  /**
   Retry accounting.  An invocation ends after at most max(general, fee) attempts, never more than
   maxRetries + 1; `retries[i]` describes attempt i + 1; the total delay is the sum of the delays; there is
   one retry fewer than attempts, except that they are equal when the deadline ends the run between
   attempts; an exhausted budget was really used up; and each fee bump strictly raises the inclusion fee,
   which otherwise stays the same.
   */
  lemma RetryAccounting(cfg: Config, deadline: Option<int>, env: nat -> Attempt)
    requires cfg.Valid()
    ensures Accounted(cfg, Invocation(cfg, deadline, env))
    ensures cfg.maxRetries.Some? ==> Invocation(cfg, deadline, env).attempts <= cfg.maxRetries.value + 1
  {
    LoopIsAccounted(cfg, deadline, env, Start(cfg));
  }

  lemma InvocationIsSafe(cfg: Config, deadline: Option<int>, env: nat -> Attempt)
    requires cfg.Valid()
    ensures SendsAreSafe(deadline, env, Invocation(cfg, deadline, env))
  {
    LoopIsAccounted(cfg, deadline, env, Start(cfg));
  }

  /** What an invocation hands to the network: attempt k broadcasts exactly when it was made and got that far. */
  lemma {:induction false} BroadcastsExactly(cfg: Config, deadline: Option<int>, env: nat -> Attempt, k: nat)
    requires cfg.Valid()
    ensures var r := Invocation(cfg, deadline, env);
            Broadcast(k) in r.log <==> 1 <= k <= r.attempts && Sent(deadline, env(k))
  {
    hide Invocation, Sent;
    InvocationIsSafe(cfg, deadline, env);
    var r := Invocation(cfg, deadline, env);
    SendsAreBroadcasts(r.log, k);
    if 1 <= k <= |Sends(r.log)| {
      assert Sends(r.log)[k - 1] == k;
    }
  }

  /**
   At most one possibly-landed transaction.  Of the broadcasts in the log of an invocation at most one may have
   taken effect, and it is the last attempt's; before it the log shows the guard admitting that same attempt.
   */
  lemma {:induction false} AtMostOneMayLand(cfg: Config, deadline: Option<int>, env: nat -> Attempt, j: nat, k: nat)
    requires cfg.Valid()
    requires Broadcast(j) in Invocation(cfg, deadline, env).log && MayTakeEffect(env(j).submission)
    requires Broadcast(k) in Invocation(cfg, deadline, env).log && MayTakeEffect(env(k).submission)
    ensures j == k == Invocation(cfg, deadline, env).attempts
    ensures exists p, q :: 0 <= p < q < |Invocation(cfg, deadline, env).log|
                           && Invocation(cfg, deadline, env).log[p] == Enforced(k, EnforceAdmissible)
                           && Invocation(cfg, deadline, env).log[q] == Broadcast(k)
  {
    hide Invocation, Sent, MayTakeEffect;
    InvocationIsSafe(cfg, deadline, env);
    var r := Invocation(cfg, deadline, env);
    SendsAreBroadcasts(r.log, j);
    SendsAreBroadcasts(r.log, k);
    assert Sends(r.log)[j - 1] == j && Sends(r.log)[k - 1] == k;
    var q :| 0 <= q < |r.log| && r.log[q] == Broadcast(k);
    assert r.log[q].Broadcast?;
  }

  /** Every rebroadcast follows a broadcast that the network definitely rejected for a retryable reason. */
  lemma {:induction false} RebroadcastFollowsRejection(cfg: Config, deadline: Option<int>, env: nat -> Attempt, i: nat)
    requires cfg.Valid() && i + 1 < |Sends(Invocation(cfg, deadline, env).log)|
    ensures var sends := Sends(Invocation(cfg, deadline, env).log);
            && RetriedRejection(deadline, env(sends[i]))
            && sends[i + 1] == sends[i] + 1
            && env(sends[i + 1]).enforcement.EnforceAdmissible?
  {
    hide Invocation;
    InvocationIsSafe(cfg, deadline, env);
  }

  // ---------------------------------------------------------------- the shared deadline

  /** The attempt went on to sleep before the next one. */
  predicate Backs(cfg: Config, deadline: Option<int>, a: Attempt, n: nat)
    requires cfg.Valid()
  {
    && Pipeline(deadline, a).Error? && Pipeline(deadline, a).retryable.Some?
    && !Pipeline(deadline, a).retryable.value.MinFee?
    && n < cfg.GeneralMax() && GoodSample(a.sample) && !Expired(deadline, a.doneAt)
  }

  /** The clock never runs backwards and a sleep lasts at least as long as asked. */
  ghost predicate HonestClock(cfg: Config, deadline: Option<int>, env: nat -> Attempt, t0: int)
    requires cfg.Valid()
  {
    && t0 <= env(1).startAt
    && (forall n: nat :: n >= 1 ==>
          && env(n).startAt <= env(n).doneAt
          && if Backs(cfg, deadline, env(n), n)
             then env(n).doneAt + SleepFor(cfg, deadline, env(n), n) <= env(n).sleptAt <= env(n + 1).startAt
             else env(n).doneAt <= env(n + 1).startAt)
  }

  lemma {:induction false} LoopDelay(cfg: Config, at: int, env: nat -> Attempt, t0: int, v: Vars)
    requires cfg.Valid() && HonestClock(cfg, Some(at), env, t0)
    requires v.attempts < cfg.Budget() && t0 + v.totalDelayMs <= env(v.attempts + 1).startAt
    requires t0 + v.totalDelayMs <= at
    ensures t0 + Loop(cfg, Some(at), env, v).totalDelayMs <= at
    decreases cfg.Budget() - v.attempts
  {
    var n := v.attempts + 1;
    var a := env(n);
    assert env(n).startAt <= env(n).doneAt;
    match Iterate(cfg, Some(at), env, v) {
      case Stop(r) =>
      case Continue(w) =>
        if Backs(cfg, Some(at), a, n) {
          SleepIsNonNegative(cfg, Some(at), a, n);
        }
        LoopDelay(cfg, at, env, t0, w);
    }
  }

  /** The backoffs of an invocation together never exceed the deadline it was given. */
  lemma DelayWithinDeadline(cfg: Config, env: nat -> Attempt, t0: int, deadlineMs: nat)
    requires cfg.Valid() && HonestClock(cfg, Some(t0 + deadlineMs), env, t0)
    ensures Invocation(cfg, Some(t0 + deadlineMs), env).totalDelayMs <= deadlineMs
  {
    LoopDelay(cfg, t0 + deadlineMs, env, t0, Start(cfg));
  }
}
