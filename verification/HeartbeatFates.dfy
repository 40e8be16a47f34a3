/**
 What becomes of every heartbeat slot, put in terms of what its submissions answered: which beats are accepted, which
 failures are final and which are tried again, what the last accepted beat is, and what stops the scheduler.
 */
module HeartbeatFates {
  import opened Wrappers
  import opened Heartbeat
  import opened HeartbeatSafety

  // ---------------------------------------------------------------- one beat

  /** The guard took the heartbeat, or `submit` resolved without saying otherwise. */
  predicate Confirmed(o: Outcome) {
    o in {Allowed, NoOutcome}
  }

  predicate TransportFailure(o: Outcome) {
    o in {Threw(true), PipelineError(true)}
  }

  /** An unconfirmed submission is among these: broadcasting it again could beat twice. */
  predicate FinalFailure(o: Outcome) {
    o in {Threw(false), PipelineError(false), Blocked, Pending, DryRun, Unrecognized}
  }

  /** The attempts before n failed in transport, and nobody stopped the scheduler during them or between them. */
  ghost predicate TriedAgain(attempts: nat -> Attempt, n: nat) {
    forall m :: 1 <= m < n ==>
      TransportFailure(attempts(m).outcome) && !attempts(m).stopDuring && !attempts(m).stopInBackoff
  }

  ghost predicate Succeeds(attempts: nat -> Attempt, n: nat) {
    TriedAgain(attempts, n) && Confirmed(attempts(n).outcome) && !attempts(n).stopDuring
  }

  ghost predicate GivesUp(maxAttempts: int, attempts: nat -> Attempt, n: nat) {
    && TriedAgain(attempts, n) && !attempts(n).stopDuring
    && (FinalFailure(attempts(n).outcome) || (TransportFailure(attempts(n).outcome) && n == maxAttempts))
  }

  ghost predicate IsStopped(maxAttempts: int, attempts: nat -> Attempt, n: nat) {
    && TriedAgain(attempts, n)
    && (attempts(n).stopDuring
        || (TransportFailure(attempts(n).outcome) && n < maxAttempts && attempts(n).stopInBackoff))
  }

  /** A beat ends in attempt n, one way or another. */
  ghost predicate EndsAt(maxAttempts: int, attempts: nat -> Attempt, n: nat) {
    Succeeds(attempts, n) || GivesUp(maxAttempts, attempts, n) || IsStopped(maxAttempts, attempts, n)
  }

  lemma EndsOnce(maxAttempts: int, attempts: nat -> Attempt, n: nat, m: nat)
    requires 1 <= n <= maxAttempts && 1 <= m <= maxAttempts
    requires EndsAt(maxAttempts, attempts, n) && EndsAt(maxAttempts, attempts, m)
    ensures n == m
  {
  }

  /** Exactly how the submission loop comes to its result. */
  lemma {:induction false} SubmitExactly(maxAttempts: int, attempts: nat -> Attempt, n: nat)
    requires 1 <= n <= maxAttempts && TriedAgain(attempts, n)
    ensures var r := Submit(maxAttempts, attempts, n);
            && 1 <= r.attempt <= maxAttempts
            && (r.stopped <==> IsStopped(maxAttempts, attempts, r.attempt))
            && (r.ok && !r.stopped <==> Succeeds(attempts, r.attempt))
            && (!r.ok && !r.stopped <==> GivesUp(maxAttempts, attempts, r.attempt))
    decreases maxAttempts - n
  {
    var a := attempts(n);
    if !IsBeat(a.outcome) && Retryable(a.outcome) && n < maxAttempts && !a.stopDuring && !a.stopInBackoff {
      SubmitExactly(maxAttempts, attempts, n + 1);
    }
  }

  // ---------------------------------------------------------------- one slot

  /** When the last accepted beat woke up. */
  function LastAccepted(slots: seq<Slot>): Option<int> {
    if slots == [] then None
    else
      var last := slots[|slots| - 1].fate;
      if last.Accepted? then Some(last.at) else LastAccepted(slots[..|slots| - 1])
  }

  /** An accepted beat has already been made in the second of this reading. */
  predicate Redundant(slots: seq<Slot>, at: int) {
    LastAccepted(slots).Some? && LastAccepted(slots).value / 1000 == at / 1000
  }

  /** Why the slot due at `due` has this fate, when turn t wakes up for it after the given slots. */
  ghost predicate FateBy(cfg: Config, slots: seq<Slot>, due: int, t: Tick, f: Fate) {
    if f.Skipped? then false
    else if f.Deduped? then f.at == t.wake && Redundant(slots, t.wake)
    else
      && f.at == t.wake && !Redundant(slots, t.wake)
      && f.lateMs == (if t.wake > due then t.wake - due else 0)
      && 1 <= f.attempt <= cfg.maxAttempts
      && match f
         case Accepted(_, _, n) => Succeeds(t.attempts, n)
         case Failed(_, _, n) => GivesUp(cfg.maxAttempts, t.attempts, n)
         case Interrupted(_, _, n) => IsStopped(cfg.maxAttempts, t.attempts, n)
  }

  /** The scheduler's own notion of the last beat is the last accepted slot's. */
  ghost predicate RemembersLast(st: State) {
    && st.lastBeatAt == LastAccepted(st.slots)
    && st.lastBeatSecond == if st.lastBeatAt.Some? then Some(st.lastBeatAt.value / 1000) else None
  }

  lemma FateExactly(cfg: Config, st: State, t: Tick, f: Fate)
    requires cfg.Valid() && RemembersLast(st)
    ensures FateOf(cfg, st, t) == f <==> FateBy(cfg, st.slots, st.deadline, t, f)
  {
    hide Submit, Succeeds, GivesUp, IsStopped;
    SubmitExactly(cfg.maxAttempts, t.attempts, 1);
    var r := Submit(cfg.maxAttempts, t.attempts, 1);
    if FateBy(cfg, st.slots, st.deadline, t, f) && !f.Deduped? {
      EndsOnce(cfg.maxAttempts, t.attempts, f.attempt, r.attempt);
      OneWay(cfg.maxAttempts, t.attempts, r.attempt);
    }
  }

  lemma OneWay(maxAttempts: int, attempts: nat -> Attempt, n: nat)
    ensures Succeeds(attempts, n) ==> !GivesUp(maxAttempts, attempts, n) && !IsStopped(maxAttempts, attempts, n)
    ensures GivesUp(maxAttempts, attempts, n) ==> !IsStopped(maxAttempts, attempts, n)
  {
  }

  // ---------------------------------------------------------------- whole runs

  lemma {:induction false} SkippedChangeNothing(slots: seq<Slot>, rest: seq<Slot>)
    requires forall i :: 0 <= i < |rest| ==> rest[i].fate.Skipped?
    ensures LastAccepted(slots + rest) == LastAccepted(slots)
  {
    if rest == [] {
      assert slots + rest == slots;
    } else {
      var front := rest[..|rest| - 1];
      assert (slots + rest)[..|slots + rest| - 1] == slots + front;
      SkippedChangeNothing(slots, front);
    }
  }

  lemma LastSnoc(slots: seq<Slot>, x: Slot)
    ensures LastAccepted(slots + [x]) == if x.fate.Accepted? then Some(x.fate.at) else LastAccepted(slots)
  {
    assert (slots + [x])[..|slots|] == slots;
  }

  lemma TurnRemembers(cfg: Config, st: State, t: Tick)
    requires cfg.Valid() && RemembersLast(st)
    ensures RemembersLast(Turn(cfg, st, t))
  {
    if !st.stopped && !t.stopInWait {
      hide LastAccepted, Submit;
      var x := Slot(st.deadline, FateOf(cfg, st, t));
      var rest := SkippedAfter(cfg, st, t);
      LastSnoc(st.slots, x);
      SkippedChangeNothing(st.slots + [x], rest);
    }
  }

  /** lastBeatAt and lastBeatSecond are those of the last accepted slot; before the first one there are none. */
  lemma {:induction false} LastBeatIsLastAccepted(cfg: Config, now: int, env: seq<Tick>)
    requires cfg.Valid()
    ensures RemembersLast(Run(cfg, now, env))
  {
    if env != [] {
      hide RemembersLast;
      LastBeatIsLastAccepted(cfg, now, env[..|env| - 1]);
      TurnRemembers(cfg, Run(cfg, now, env[..|env| - 1]), env[|env| - 1]);
    } else {
      assert LastAccepted([]) == None;
    }
  }

  /** Turn k of the run finds the scheduler running and wakes it up. */
  ghost predicate Wakes(cfg: Config, now: int, env: seq<Tick>, k: nat)
    requires cfg.Valid() && k < |env|
  {
    !Run(cfg, now, env[..k]).stopped && !env[k].stopInWait
  }

  /** Slot i was taken by turn k, for exactly the reasons its fate has. */
  ghost predicate TakenBy(cfg: Config, now: int, env: seq<Tick>, i: nat, k: nat)
    requires cfg.Valid() && k < |env| && i < |Run(cfg, now, env).slots|
  {
    var slot := Run(cfg, now, env).slots[i];
    var before := Run(cfg, now, env[..k]).slots;
    && Wakes(cfg, now, env, k) && i == |before| && before == Run(cfg, now, env).slots[..i]
    && forall f :: slot.fate == f <==> FateBy(cfg, before, slot.due, env[k], f)
  }

  /** A turn adds the slot it takes, and behind it skipped ones. */
  lemma TurnAdds(cfg: Config, st: State, t: Tick)
    requires cfg.Valid() && RemembersLast(st)
    ensures var after := Turn(cfg, st, t).slots;
            && |st.slots| <= |after| && after[..|st.slots|] == st.slots
            && if st.stopped || t.stopInWait then after == st.slots
               else
                 && |st.slots| < |after| && after[|st.slots|].due == st.deadline
                 && (forall f :: after[|st.slots|].fate == f <==> FateBy(cfg, st.slots, st.deadline, t, f))
                 && (forall i :: |st.slots| < i < |after| ==> after[i].fate.Skipped?)
  {
    hide FateBy, Submit, RemembersLast;
    if !st.stopped && !t.stopInWait {
      var rest := SkippedAfter(cfg, st, t);
      var x := Slot(st.deadline, FateOf(cfg, st, t));
      assert Turn(cfg, st, t).slots == st.slots + [x] + rest;
      forall f
        ensures x.fate == f <==> FateBy(cfg, st.slots, st.deadline, t, f)
      {
        FateExactly(cfg, st, t, f);
      }
    }
  }

  lemma TakenStaysTaken(cfg: Config, now: int, env: seq<Tick>, t: Tick, i: nat, k: nat)
    requires cfg.Valid() && k < |env| && i < |Run(cfg, now, env).slots| && TakenBy(cfg, now, env, i, k)
    requires |Run(cfg, now, env).slots| <= |Run(cfg, now, env + [t]).slots|
    requires Run(cfg, now, env + [t]).slots[..|Run(cfg, now, env).slots|] == Run(cfg, now, env).slots
    ensures TakenBy(cfg, now, env + [t], i, k)
  {
    hide Run, FateBy;
    assert (env + [t])[..k] == env[..k];
    var before, after := Run(cfg, now, env).slots, Run(cfg, now, env + [t]).slots;
    assert after[i] == after[..|before|][i] && after[..i] == after[..|before|][..i];
  }

  /**
   What becomes of every slot.  In every run each slot was either skipped or taken by the turn that woke up for it, and
   then it has its fate for exactly these reasons: it is redundant exactly in the second of the last accepted beat; its
   last attempt was confirmed if it is accepted, failed for good or for the last time if it failed, and was cut short by
   a stop if it was interrupted; every attempt before the last failed in transport.
   */
  lemma {:induction false} FatesExactly(cfg: Config, now: int, env: seq<Tick>, i: nat)
    requires cfg.Valid() && i < |Run(cfg, now, env).slots|
    ensures Run(cfg, now, env).slots[i].fate.Skipped? || exists k: nat :: k < |env| && TakenBy(cfg, now, env, i, k)
  {
    if env != [] {
      var front, t := env[..|env| - 1], env[|env| - 1];
      var st := Run(cfg, now, front);
      assert env == front + [t];
      LastBeatIsLastAccepted(cfg, now, front);
      TurnAdds(cfg, st, t);
      hide Turn, FateBy;
      if i < |st.slots| {
        FatesExactly(cfg, now, front, i);
        assert Run(cfg, now, env).slots[i] == Run(cfg, now, env).slots[..|st.slots|][i];
        if !st.slots[i].fate.Skipped? {
          var k: nat :| k < |front| && TakenBy(cfg, now, front, i, k);
          TakenStaysTaken(cfg, now, front, t, i, k);
        }
      } else if i == |st.slots| {
        assert TakenBy(cfg, now, env, i, |front|);
      }
    }
  }

  /** Every turn that wakes up takes a slot. */
  lemma {:induction false} EveryWakeTakesASlot(cfg: Config, now: int, env: seq<Tick>, k: nat)
    requires cfg.Valid() && k < |env| && Wakes(cfg, now, env, k)
    ensures var i := |Run(cfg, now, env[..k]).slots|;
            i < |Run(cfg, now, env).slots| && TakenBy(cfg, now, env, i, k)
  {
    var front, t := env[..|env| - 1], env[|env| - 1];
    var st := Run(cfg, now, front);
    assert env == front + [t];
    LastBeatIsLastAccepted(cfg, now, front);
    TurnAdds(cfg, st, t);
    hide Turn, FateBy;
    if k < |front| {
      assert front[..k] == env[..k];
      EveryWakeTakesASlot(cfg, now, front, k);
      TakenStaysTaken(cfg, now, front, t, |Run(cfg, now, env[..k]).slots|, k);
    } else {
      assert env[..k] == front;
    }
  }

  // ---------------------------------------------------------------- stopping

  ghost predicate Interruption(slots: seq<Slot>) {
    exists i :: 0 <= i < |slots| && slots[i].fate.Interrupted?
  }

  /** The scheduler is stopped during the wait of turn k. */
  ghost predicate StoppedInWait(cfg: Config, now: int, env: seq<Tick>, k: nat)
    requires cfg.Valid() && k < |env|
  {
    !Run(cfg, now, env[..k]).stopped && env[k].stopInWait
  }

  lemma TurnStops(cfg: Config, st: State, t: Tick)
    requires cfg.Valid() && !st.stopped && !Interruption(st.slots)
    ensures Turn(cfg, st, t).stopped <==> t.stopInWait || Interruption(Turn(cfg, st, t).slots)
  {
    if !t.stopInWait {
      var x := Slot(st.deadline, FateOf(cfg, st, t));
      var rest := SkippedAfter(cfg, st, t);
      var slots := st.slots + [x] + rest;
      assert slots[|st.slots|] == x;
      assert forall i :: |st.slots| < i < |slots| ==> slots[i].fate.Skipped?;
    }
  }

  /** The scheduler has stopped exactly when a wait was aborted or a beat was interrupted, and never starts again. */
  lemma {:induction false} StopsExactly(cfg: Config, now: int, env: seq<Tick>)
    requires cfg.Valid()
    ensures Run(cfg, now, env).stopped <==>
            Interruption(Run(cfg, now, env).slots) || exists k: nat :: k < |env| && StoppedInWait(cfg, now, env, k)
  {
    if env != [] {
      var front, t := env[..|env| - 1], env[|env| - 1];
      StopsExactly(cfg, now, front);
      var st := Run(cfg, now, front);
      hide Interruption, SkipExpired, Submit;
      assert env[..|front|] == front;
      assert forall k: nat :: k < |front| ==> front[..k] == env[..k];
      if k: nat :| k < |front| && StoppedInWait(cfg, now, front, k) {
        assert StoppedInWait(cfg, now, env, k);
      }
      if !st.stopped {
        TurnStops(cfg, st, t);
        if t.stopInWait {
          assert StoppedInWait(cfg, now, env, |front|);
        }
        if k: nat :| k < |env| && StoppedInWait(cfg, now, env, k) {
          assert k < |front| ==> StoppedInWait(cfg, now, front, k);
        }
      }
    }
  }

  // ---------------------------------------------------------------- the next deadline

  lemma FirstAfter(deadline: int, reading: int, interval: int)
    requires interval > 0
    ensures var next := deadline + SkipCount(deadline, reading, interval) * interval;
            next > reading && next >= deadline && (next == deadline || next - interval <= reading)
  {
    ClosedFormSkip(deadline, reading, interval);
    var k := SkipCount(deadline, reading, interval);
    assert k > 0 ==> (k - 1) * interval == k * interval - interval && k * interval >= interval;
  }

  /**
   After a turn that woke up the next slot is the first one, at least an interval on, that lies beyond the readings
   taken behind the wake-up and, unless the beat was redundant, behind the submission.
   */
  lemma NextDeadline(cfg: Config, st: State, t: Tick)
    requires cfg.Valid() && !st.stopped && !t.stopInWait
    ensures var next := Turn(cfg, st, t).deadline;
            var soonest := st.deadline + cfg.intervalMs;
            var reading := if FateOf(cfg, st, t).Deduped? then t.firstSkip else Max(t.firstSkip, t.secondSkip);
            next > reading && next >= soonest && (next == soonest || next - cfg.intervalMs <= reading)
  {
    var once := st.deadline + cfg.intervalMs;
    FirstAfter(once, t.firstSkip, cfg.intervalMs);
    FirstAfter(once + SkipCount(once, t.firstSkip, cfg.intervalMs) * cfg.intervalMs, t.secondSkip, cfg.intervalMs);
    hide SkipCount, Submit;
  }
}
