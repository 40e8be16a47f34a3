/**
 What every run of the heartbeat scheduler keeps: the cadence never drifts, every slot is accounted
 for once, and beats start neither early nor in bursts.
 */
module HeartbeatSafety {
  import opened Wrappers
  import opened Arithmetic
  import opened Heartbeat

  // ---------------------------------------------------------------- slot conservation

  predicate IsLate(cfg: Config, f: Fate) {
    f.Started() && f.lateMs > cfg.maxSkewMs
  }

  /** Slots that were skipped, plus beats that fired more than maxSkewMs late. */
  function CountMissed(cfg: Config, slots: seq<Slot>): nat {
    if slots == [] then 0
    else CountMissed(cfg, slots[..|slots| - 1])
         + if slots[|slots| - 1].fate.Skipped? || IsLate(cfg, slots[|slots| - 1].fate) then 1 else 0
  }

  function CountSkipped(slots: seq<Slot>): nat {
    if slots == [] then 0
    else CountSkipped(slots[..|slots| - 1]) + if slots[|slots| - 1].fate.Skipped? then 1 else 0
  }

  /** The turns in which the loop woke up unstopped and took a slot. */
  function Woken(cfg: Config, now: int, env: seq<Tick>): nat
    requires cfg.Valid()
  {
    if env == [] then 0
    else
      var front := env[..|env| - 1];
      Woken(cfg, now, front) + if Run(cfg, now, front).stopped || env[|env| - 1].stopInWait then 0 else 1
  }

  ghost predicate OnGrid(cfg: Config, now: int, slots: seq<Slot>) {
    forall i :: 0 <= i < |slots| ==> slots[i].due == now + i * cfg.intervalMs
  }

  ghost predicate Conserved(cfg: Config, now: int, st: State) {
    && OnGrid(cfg, now, st.slots)
    && st.deadline == now + |st.slots| * cfg.intervalMs
    && st.missedBeats == CountMissed(cfg, st.slots)
  }

  lemma SkipKeepsBooks(cfg: Config, now: int, st: State, at: int)
    requires cfg.Valid() && Conserved(cfg, now, st)
    ensures Conserved(cfg, now, SkipExpired(cfg.intervalMs, st, at))
    ensures var after := SkipExpired(cfg.intervalMs, st, at);
            |after.slots| - CountSkipped(after.slots) == |st.slots| - CountSkipped(st.slots)
  {
    var k := SkipCount(st.deadline, at, cfg.intervalMs);
    AppendSkipped(cfg, now, st, k);
  }

  lemma OneMoreInterval(n: int, interval: int)
    ensures (n + 1) * interval == n * interval + interval
  {
  }

  lemma OneMoreSkipped(cfg: Config, now: int, slots: seq<Slot>, due: int)
    requires OnGrid(cfg, now, slots) && due == now + |slots| * cfg.intervalMs
    ensures var longer := slots + [Slot(due, Skipped)];
            && OnGrid(cfg, now, longer)
            && due + cfg.intervalMs == now + |longer| * cfg.intervalMs
            && CountMissed(cfg, longer) == CountMissed(cfg, slots) + 1
            && CountSkipped(longer) == CountSkipped(slots) + 1
  {
    OneMoreInterval(|slots|, cfg.intervalMs);
    assert (slots + [Slot(due, Skipped)])[..|slots|] == slots;
  }

  lemma {:induction false} AppendSkipped(cfg: Config, now: int, st: State, k: nat)
    requires cfg.Valid() && Conserved(cfg, now, st)
    ensures var slots := st.slots + SkippedSlots(st.deadline, cfg.intervalMs, k);
            && OnGrid(cfg, now, slots)
            && st.deadline + k * cfg.intervalMs == now + |slots| * cfg.intervalMs
            && CountMissed(cfg, slots) == CountMissed(cfg, st.slots) + k
            && CountSkipped(slots) == CountSkipped(st.slots) + k
  {
    hide OnGrid, CountMissed, CountSkipped;
    var slots := st.slots + SkippedSlots(st.deadline, cfg.intervalMs, k);
    if k == 0 {
      assert slots == st.slots;
    } else {
      var due := st.deadline + (k - 1) * cfg.intervalMs;
      var before := st.slots + SkippedSlots(st.deadline, cfg.intervalMs, k - 1);
      AppendSkipped(cfg, now, st, k - 1);
      OneMoreSkipped(cfg, now, before, due);
      OneMoreInterval(k - 1, cfg.intervalMs);
      assert slots == before + [Slot(due, Skipped)];
    }
  }

  /** The state once the due slot is taken with the given fate. */
  function Take(cfg: Config, st: State, fate: Fate): State {
    st.(deadline := st.deadline + cfg.intervalMs,
    missedBeats := st.missedBeats + (if IsLate(cfg, fate) then 1 else 0),
    slots := st.slots + [Slot(st.deadline, fate)])
  }

  lemma TakeKeepsBooks(cfg: Config, now: int, st: State, fate: Fate)
    requires cfg.Valid() && Conserved(cfg, now, st) && !fate.Skipped?
    ensures Conserved(cfg, now, Take(cfg, st, fate))
    ensures CountSkipped(Take(cfg, st, fate).slots) == CountSkipped(st.slots)
  {
    var slots := st.slots + [Slot(st.deadline, fate)];
    assert slots[..|slots| - 1] == st.slots;
    assert |slots| * cfg.intervalMs == |st.slots| * cfg.intervalMs + cfg.intervalMs;
  }

  /** The fate the current slot gets when the turn wakes up unstopped. */
  function FateOf(cfg: Config, st: State, t: Tick): Fate
    requires cfg.Valid()
  {
    if st.lastBeatSecond == Some(t.wake / 1000) then Deduped(t.wake)
    else Settle(t.wake, Max(0, t.wake - st.deadline), Submit(cfg.maxAttempts, t.attempts, 1))
  }

  /** A turn takes the slot that is due and leaves the books balanced. */
  lemma TurnKeepsBooks(cfg: Config, now: int, st: State, t: Tick)
    requires cfg.Valid() && Conserved(cfg, now, st)
    ensures Conserved(cfg, now, Turn(cfg, st, t))
    ensures var after := Turn(cfg, st, t);
            |after.slots| - CountSkipped(after.slots)
            == |st.slots| - CountSkipped(st.slots) + if st.stopped || t.stopInWait then 0 else 1
  {
    if !st.stopped && !t.stopInWait {
      var taken := Take(cfg, st, FateOf(cfg, st, t));
      TakeKeepsBooks(cfg, now, st, FateOf(cfg, st, t));
      SkipKeepsBooks(cfg, now, taken, t.firstSkip);
      SkipKeepsBooks(cfg, now, SkipExpired(cfg.intervalMs, taken, t.firstSkip), t.secondSkip);
      TurnIsTakeThenSkip(cfg, st, t);
    }
  }

  /** A turn is: take the due slot, skip the stale ones, and skip again once a submission has settled. */
  lemma TurnIsTakeThenSkip(cfg: Config, st: State, t: Tick)
    requires cfg.Valid() && !st.stopped && !t.stopInWait
    ensures var taken := Take(cfg, st, FateOf(cfg, st, t));
            var once := SkipExpired(cfg.intervalMs, taken, t.firstSkip);
            var after := if FateOf(cfg, st, t).Deduped? then once
                         else SkipExpired(cfg.intervalMs, once, t.secondSkip);
            var turned := Turn(cfg, st, t);
            && turned.deadline == after.deadline
            && turned.missedBeats == after.missedBeats
            && turned.slots == after.slots
  {
  }

  /**
   Slot conservation.  In every run slot i is due exactly i intervals after the start, the deadline is
   the start plus one interval for every slot taken or skipped, each wake-up takes exactly one slot,
   and `missedBeats` counts the skipped slots and the beats later than maxSkewMs.
   */
  lemma {:induction false} SlotConservation(cfg: Config, now: int, env: seq<Tick>)
    requires cfg.Valid()
    ensures var st := Run(cfg, now, env);
            && Conserved(cfg, now, st)
            && st.deadline == now + (Woken(cfg, now, env) + CountSkipped(st.slots)) * cfg.intervalMs
  {
    Accounting(cfg, now, env);
  }

  lemma {:induction false} Accounting(cfg: Config, now: int, env: seq<Tick>)
    requires cfg.Valid()
    ensures var st := Run(cfg, now, env);
            Conserved(cfg, now, st) && |st.slots| - CountSkipped(st.slots) == Woken(cfg, now, env)
  {
    if env != [] {
      var front := env[..|env| - 1];
      Accounting(cfg, now, front);
      TurnKeepsBooks(cfg, now, Run(cfg, now, front), env[|env| - 1]);
    }
  }

  // ---------------------------------------------------------------- timing

  /** The reading taken at the latest wake-up that found the scheduler running. */
  function LastWake(cfg: Config, now: int, env: seq<Tick>): int
    requires cfg.Valid()
  {
    if env == [] then now
    else
      var front, t := env[..|env| - 1], env[|env| - 1];
      if Run(cfg, now, front).stopped || t.stopInWait then LastWake(cfg, now, front) else t.wake
  }

  /** The clock has not run backwards since `wake`, and an unaborted wait returned no earlier than asked. */
  ghost predicate TimelyTurn(st: State, t: Tick, wake: int) {
    st.stopped || t.stopInWait || (wake <= t.asleep && t.asleep + Max(0, st.deadline - t.asleep) <= t.wake)
  }

  ghost predicate Timely(cfg: Config, now: int, env: seq<Tick>)
    requires cfg.Valid()
  {
    env == [] ||
    var front := env[..|env| - 1];
    && Timely(cfg, now, front)
    && TimelyTurn(Run(cfg, now, front), env[|env| - 1], LastWake(cfg, now, front))
  }

  /** No beat starts before its slot is due, and later slots start later. */
  ghost predicate BeatsInOrder(slots: seq<Slot>, wake: int) {
    && (forall i :: 0 <= i < |slots| && slots[i].fate.Started() ==>
                      && slots[i].due <= slots[i].fate.at <= wake
                      && slots[i].fate.lateMs == slots[i].fate.at - slots[i].due)
    && (forall i, j :: 0 <= i < j < |slots| && slots[i].fate.Started() && slots[j].fate.Started() ==>
                         slots[i].fate.at <= slots[j].fate.at)
  }

  ghost predicate DistinctSeconds(slots: seq<Slot>, last: Option<int>) {
    && (forall i :: 0 <= i < |slots| && slots[i].fate.Accepted? ==>
                      last.Some? && slots[i].fate.at / 1000 <= last.value)
    && (forall i, j :: 0 <= i < j < |slots| && slots[i].fate.Accepted? && slots[j].fate.Accepted? ==>
                         slots[i].fate.at / 1000 < slots[j].fate.at / 1000)
  }

  ghost predicate WellTimed(st: State, wake: int) {
    && BeatsInOrder(st.slots, wake)
    && DistinctSeconds(st.slots, st.lastBeatSecond)
    && (st.lastBeatSecond.Some? ==> st.lastBeatSecond.value <= wake / 1000)
  }

  /** Taking the due slot at reading `at` and then skipping stale slots keeps the timing facts. */
  lemma TakeSlot(st: State, wake: int, at: int, fate: Fate, rest: seq<Slot>, last: Option<int>)
    requires WellTimed(st, wake)
    requires fate.Started() ==> st.deadline <= at == fate.at && fate.lateMs == at - st.deadline
    requires wake <= at
    requires forall i :: 0 <= i < |rest| ==> rest[i].fate.Skipped?
    requires if fate.Accepted? then last == Some(at / 1000) && st.lastBeatSecond != Some(at / 1000)
             else last == st.lastBeatSecond
    ensures var slots := st.slots + [Slot(st.deadline, fate)] + rest;
            BeatsInOrder(slots, at) && DistinctSeconds(slots, last)
    ensures last.Some? ==> last.value <= at / 1000
  {
    var slots := st.slots + [Slot(st.deadline, fate)] + rest;
    assert wake / 1000 <= at / 1000;
    var n := |st.slots|;
    assert slots[n] == Slot(st.deadline, fate);
    assert forall i :: 0 <= i < n ==> slots[i] == st.slots[i];
    assert forall i :: n < i < |slots| ==> slots[i].fate.Skipped?;
  }

  lemma TurnKeepsTiming(cfg: Config, st: State, t: Tick, wake: int)
    requires cfg.Valid() && WellTimed(st, wake) && TimelyTurn(st, t, wake)
    ensures WellTimed(Turn(cfg, st, t), if st.stopped || t.stopInWait then wake else t.wake)
  {
    if !st.stopped && !t.stopInWait {
      var fate := FateOf(cfg, st, t);
      var rest := SkippedAfter(cfg, st, t);
      TakeSlot(st, wake, t.wake, fate, rest, Turn(cfg, st, t).lastBeatSecond);
    }
  }

  /** A turn appends the slot it takes and, behind it, only skipped slots. */
  lemma SkippedAfter(cfg: Config, st: State, t: Tick) returns (rest: seq<Slot>)
    requires cfg.Valid() && !st.stopped && !t.stopInWait
    ensures Turn(cfg, st, t).slots == st.slots + [Slot(st.deadline, FateOf(cfg, st, t))] + rest
    ensures forall i :: 0 <= i < |rest| ==> rest[i].fate.Skipped?
  {
    TurnIsTakeThenSkip(cfg, st, t);
    rest := Turn(cfg, st, t).slots[|st.slots| + 1..];
  }

  lemma {:induction false} RunIsWellTimed(cfg: Config, now: int, env: seq<Tick>)
    requires cfg.Valid() && Timely(cfg, now, env)
    ensures WellTimed(Run(cfg, now, env), LastWake(cfg, now, env))
  {
    if env != [] {
      var front := env[..|env| - 1];
      RunIsWellTimed(cfg, now, front);
      TurnKeepsTiming(cfg, Run(cfg, now, front), env[|env| - 1], LastWake(cfg, now, front));
    }
  }

  /** The beats accepted in a run fall in strictly increasing wall-clock seconds. */
  lemma {:induction false} AcceptedSecondsIncrease(cfg: Config, now: int, env: seq<Tick>)
    requires cfg.Valid() && Timely(cfg, now, env)
    ensures var slots := Run(cfg, now, env).slots;
            forall i, j :: 0 <= i < j < |slots| && slots[i].fate.Accepted? && slots[j].fate.Accepted? ==>
                             slots[i].fate.at / 1000 < slots[j].fate.at / 1000
  {
    RunIsWellTimed(cfg, now, env);
  }

  /** Beats handed to `submit` no later than t. */
  function StartedBy(slots: seq<Slot>, t: int): nat {
    if slots == [] then 0
    else
      var last := slots[|slots| - 1].fate;
      StartedBy(slots[..|slots| - 1], t) + if last.Started() && last.at <= t then 1 else 0
  }

  lemma {:induction false} StartsAreLimited(slots: seq<Slot>, t: int, bound: nat)
    requires forall i :: bound <= i < |slots| && slots[i].fate.Started() ==> slots[i].fate.at > t
    ensures StartedBy(slots, t) <= bound && StartedBy(slots, t) <= |slots|
  {
    if slots != [] {
      var front := slots[..|slots| - 1];
      if |front| >= bound {
        StartsAreLimited(front, t, bound);
      } else {
        StartsAreLimited(front, t, |front|);
      }
    }
  }

  lemma DueLater(now: int, t: int, interval: int, i: int)
    requires interval > 0 && i > (t - now) / interval
    ensures now + i * interval > t
  {
    DivBounds(t - now, interval);
    MulMonotone((t - now) / interval + 1, i, interval);
  }

  lemma NonNegativeQuotient(a: int, b: int)
    requires a >= 0 && b > 0
    ensures a / b >= 0
  {
  }

  /** No catch-up burst: by time t at most one beat has started for each slot due by then. */
  lemma {:induction false} BeatRateIsBounded(cfg: Config, now: int, env: seq<Tick>, t: int)
    requires cfg.Valid() && Timely(cfg, now, env) && now <= t
    ensures StartedBy(Run(cfg, now, env).slots, t) <= (t - now) / cfg.intervalMs + 1
  {
    hide Run, Timely;
    var slots := Run(cfg, now, env).slots;
    NonNegativeQuotient(t - now, cfg.intervalMs);
    forall i | (t - now) / cfg.intervalMs < i < |slots| && slots[i].fate.Started()
      ensures slots[i].fate.at > t
    {
      StartsWhenDue(cfg, now, env, i);
      DueLater(now, t, cfg.intervalMs, i);
    }
    StartsAreLimited(slots, t, (t - now) / cfg.intervalMs + 1);
  }

  lemma StartsWhenDue(cfg: Config, now: int, env: seq<Tick>, i: nat)
    requires cfg.Valid() && Timely(cfg, now, env)
    requires i < |Run(cfg, now, env).slots| && Run(cfg, now, env).slots[i].fate.Started()
    ensures now + i * cfg.intervalMs <= Run(cfg, now, env).slots[i].fate.at
    ensures Run(cfg, now, env).slots[i].due == now + i * cfg.intervalMs
    ensures Run(cfg, now, env).slots[i].fate.lateMs == Run(cfg, now, env).slots[i].fate.at - Run(cfg, now,
        env).slots[i].due
  {
    hide Run, Timely;
    SlotConservation(cfg, now, env);
    RunIsWellTimed(cfg, now, env);
  }
}
