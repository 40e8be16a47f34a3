/**
 How far apart accepted beats can start, and when that keeps them inside the dead-man grace window
 (src/heartbeat.ts, the interval check and the loop).
 */
module HeartbeatGrace {
  import opened Wrappers
  import opened Arithmetic
  import opened Heartbeat
  import opened HeartbeatSafety

  // ---------------------------------------------------------------- what a run loses

  /** The slot came to nothing: it was jumped over, or its beat was not accepted. */
  predicate IsLost(f: Fate) {
    f.Skipped? || f.Failed? || f.Interrupted?
  }

  /** The lost slots; a slot whose beat was redundant in its second is not lost. */
  function Lost(slots: seq<Slot>): nat {
    if slots == [] then 0
    else Lost(slots[..|slots| - 1]) + if IsLost(slots[|slots| - 1].fate) then 1 else 0
  }

  ghost predicate AnyDeduped(slots: seq<Slot>) {
    exists k :: 0 <= k < |slots| && slots[k].fate.Deduped?
  }

  /** Two accepted beats with none accepted in between. */
  ghost predicate Consecutive(slots: seq<Slot>, i: int, j: int) {
    && 0 <= i < j < |slots| && slots[i].fate.Accepted? && slots[j].fate.Accepted?
    && forall k :: i < k < j ==> !slots[k].fate.Accepted?
  }

  // ---------------------------------------------------------------- redundant beats

  /** The second of the last accepted beat. */
  function LastSecond(slots: seq<Slot>): Option<int> {
    if slots == [] then None
    else
      var f := slots[|slots| - 1].fate;
      if f.Accepted? then Some(f.at / 1000) else LastSecond(slots[..|slots| - 1])
  }

  /** A redundant beat woke up no earlier than due, in the second of the beat accepted before it. */
  ghost predicate DedupedInSecond(slots: seq<Slot>) {
    forall k :: 0 <= k < |slots| && slots[k].fate.Deduped? ==>
                  && slots[k].due <= slots[k].fate.at
                  && LastSecond(slots[..k]) == Some(slots[k].fate.at / 1000)
  }

  ghost predicate Remembers(st: State) {
    DedupedInSecond(st.slots) && st.lastBeatSecond == LastSecond(st.slots)
  }

  lemma {:induction false} SkippedKeepSecond(slots: seq<Slot>, rest: seq<Slot>)
    requires DedupedInSecond(slots) && forall k :: 0 <= k < |rest| ==> rest[k].fate.Skipped?
    ensures DedupedInSecond(slots + rest) && LastSecond(slots + rest) == LastSecond(slots)
  {
    if rest == [] {
      assert slots + rest == slots;
    } else {
      var front := rest[..|rest| - 1];
      SkippedKeepSecond(slots, front);
      OneMoreSlot(slots + front, rest[|rest| - 1]);
      assert slots + rest == slots + front + [rest[|rest| - 1]];
    }
  }

  lemma OneMoreSlot(slots: seq<Slot>, x: Slot)
    requires DedupedInSecond(slots)
    requires x.fate.Deduped? ==> x.due <= x.fate.at && LastSecond(slots) == Some(x.fate.at / 1000)
    ensures DedupedInSecond(slots + [x])
    ensures LastSecond(slots + [x]) == if x.fate.Accepted? then Some(x.fate.at / 1000) else LastSecond(slots)
  {
    var all := slots + [x];
    assert all[..|all| - 1] == slots;
    forall k | 0 <= k < |all| && all[k].fate.Deduped?
      ensures all[k].due <= all[k].fate.at && LastSecond(all[..k]) == Some(all[k].fate.at / 1000)
    {
      if k < |slots| {
        assert all[..k] == slots[..k];
      }
    }
  }

  lemma TurnRemembers(cfg: Config, st: State, t: Tick, wake: int)
    requires cfg.Valid() && Remembers(st) && TimelyTurn(st, t, wake)
    ensures Remembers(Turn(cfg, st, t))
  {
    if !st.stopped && !t.stopInWait {
      var x := Slot(st.deadline, FateOf(cfg, st, t));
      var rest := SkippedAfter(cfg, st, t);
      OneMoreSlot(st.slots, x);
      SkippedKeepSecond(st.slots + [x], rest);
    }
  }

  lemma {:induction false} RunRemembers(cfg: Config, now: int, env: seq<Tick>)
    requires cfg.Valid() && Timely(cfg, now, env)
    ensures Remembers(Run(cfg, now, env))
  {
    if env != [] {
      var front := env[..|env| - 1];
      RunRemembers(cfg, now, front);
      TurnRemembers(cfg, Run(cfg, now, front), env[|env| - 1], LastWake(cfg, now, front));
    }
  }

  /** Until the next accepted beat the second remembered is that of the last one. */
  lemma {:induction false} SecondOfLast(slots: seq<Slot>, i: nat, k: nat)
    requires i < k <= |slots| && slots[i].fate.Accepted? && forall m :: i < m < k ==> !slots[m].fate.Accepted?
    ensures LastSecond(slots[..k]) == Some(slots[i].fate.at / 1000)
  {
    assert slots[..k][..k - 1] == slots[..k - 1];
    if i < k - 1 {
      SecondOfLast(slots, i, k - 1);
    }
  }

  // ---------------------------------------------------------------- the gap between two accepted beats

  /** Every wake-up came less than one interval after its slot was due. */
  ghost predicate Prompt(cfg: Config, slots: seq<Slot>) {
    LateAtMost(slots, cfg.intervalMs - 1)
  }

  ghost predicate LateAtMost(slots: seq<Slot>, late: int) {
    forall k :: 0 <= k < |slots| && !slots[k].fate.Skipped? ==> slots[k].fate.at - slots[k].due <= late
  }

  lemma {:induction false} LostBounds(slots: seq<Slot>)
    ensures Lost(slots) <= |slots|
    ensures (forall k :: 0 <= k < |slots| ==> IsLost(slots[k].fate)) ==> Lost(slots) == |slots|
    ensures (forall k :: 0 <= k < |slots| ==> !IsLost(slots[k].fate)) ==> Lost(slots) == 0
  {
    if slots != [] {
      LostBounds(slots[..|slots| - 1]);
    }
  }

  lemma {:induction false} LostSplits(a: seq<Slot>, b: seq<Slot>)
    ensures Lost(a + b) == Lost(a) + Lost(b)
  {
    if b == [] {
      assert a + b == a;
    } else {
      assert (a + b)[..|a + b| - 1] == a + b[..|b| - 1];
      LostSplits(a, b[..|b| - 1]);
    }
  }

  /** Behind slot d every slot up to j is lost, so they are among the lost ones behind slot i. */
  lemma LostBehind(slots: seq<Slot>, i: nat, d: nat, j: nat)
    requires i <= d < j < |slots| && forall k :: d < k < j ==> IsLost(slots[k].fate)
    ensures j - d - 1 <= Lost(slots[i + 1..j])
    ensures d == i ==> j - d - 1 == Lost(slots[i + 1..j])
  {
    var near, far := slots[i + 1..d + 1], slots[d + 1..j];
    assert slots[i + 1..j] == near + far;
    LostSplits(near, far);
    assert forall k :: 0 <= k < |far| ==> IsLost(far[k].fate);
    LostBounds(far);
    LostBounds(near);
  }

  /** The last redundant beat between i and j, or i itself. */
  lemma {:induction false} LastDeduped(slots: seq<Slot>, i: nat, j: nat) returns (d: nat)
    requires Consecutive(slots, i, j)
    ensures i <= d < j && (d == i || slots[d].fate.Deduped?)
    ensures forall k :: d < k < j ==> IsLost(slots[k].fate)
    ensures d == i <==> !AnyDeduped(slots[i + 1..j])
  {
    d := j - 1;
    while d > i && !slots[d].fate.Deduped?
      invariant i <= d < j && forall k :: d < k < j ==> IsLost(slots[k].fate)
    {
      d := d - 1;
    }
    if d > i {
      assert slots[i + 1..j][d - i - 1] == slots[d];
    }
  }

  lemma LateBound(due: int, steps: int, lost: int, interval: int, late: int, start: int, extra: int, at: int)
    requires interval > 0 && 0 <= steps <= lost + 1 && due <= start + extra
    requires at <= due + steps * interval + late
    ensures at - start <= (lost + 1) * interval + late + extra
  {
    MulMonotone(steps, lost + 1, interval);
  }

  /** What a beat is late by at most, the slots lost and a redundant second: no more than these separate two beats. */
  function GapLimit(interval: int, late: int, lost: nat, deduped: bool): int {
    (lost + 1) * interval + late + if deduped then 999 else 0
  }

  lemma SameSecond(a: int, b: int)
    requires a / 1000 == b / 1000
    ensures a <= b + 999
  {
  }

  /**
   Two consecutive accepted beats start at most lost + 1 intervals and the lateness of the second apart, plus up to
   999 ms when a beat in between was dropped as redundant: that one woke in the second of the first beat.
   */
  lemma {:induction false} GapByLoss(cfg: Config, now: int, env: seq<Tick>, late: int)
    requires cfg.Valid() && Timely(cfg, now, env)
    ensures var slots := Run(cfg, now, env).slots;
            LateAtMost(slots, late) ==>
              forall i, j :: Consecutive(slots, i, j) ==>
                               slots[j].fate.at - slots[i].fate.at
                               <= GapLimit(cfg.intervalMs, late, Lost(slots[i + 1..j]), AnyDeduped(slots[i + 1..j]))
  {
    hide Run, Timely;
    var slots := Run(cfg, now, env).slots;
    if LateAtMost(slots, late) {
      forall i, j | Consecutive(slots, i, j)
        ensures slots[j].fate.at - slots[i].fate.at
             <= GapLimit(cfg.intervalMs, late, Lost(slots[i + 1..j]), AnyDeduped(slots[i + 1..j]))
      {
        GapOf(cfg, now, env, late, i, j);
      }
    }
  }

  lemma GapOf(cfg: Config, now: int, env: seq<Tick>, late: int, i: nat, j: nat)
    requires cfg.Valid() && Timely(cfg, now, env)
    requires LateAtMost(Run(cfg, now, env).slots, late) && Consecutive(Run(cfg, now, env).slots, i, j)
    ensures var slots := Run(cfg, now, env).slots;
            slots[j].fate.at - slots[i].fate.at
            <= GapLimit(cfg.intervalMs, late, Lost(slots[i + 1..j]), AnyDeduped(slots[i + 1..j]))
  {
    hide Run, Timely;
    var slots := Run(cfg, now, env).slots;
    var d := LastDeduped(slots, i, j);
    LostBehind(slots, i, d, j);
    DueOnGrid(cfg, now, env, d, j);
    StartsWhenDue(cfg, now, env, i);
    var extra := if d == i then 0 else 999;
    if d > i {
      RunRemembers(cfg, now, env);
      SecondOfLast(slots, i, d);
      SameSecond(slots[d].fate.at, slots[i].fate.at);
    }
    LateBound(slots[d].due, j - d, Lost(slots[i + 1..j]), cfg.intervalMs, late, slots[i].fate.at, extra,
              slots[j].fate.at);
  }

  /** Counting every slot in between, whatever became of it: k slots leave less than k + 2 intervals. */
  lemma {:induction false} GapBound(cfg: Config, now: int, env: seq<Tick>, i: nat, j: nat)
    requires cfg.Valid() && Timely(cfg, now, env) && Prompt(cfg, Run(cfg, now, env).slots)
    requires var slots := Run(cfg, now, env).slots;
             i < j < |slots| && slots[i].fate.Accepted? && slots[j].fate.Accepted?
    ensures var slots := Run(cfg, now, env).slots;
            slots[j].fate.at - slots[i].fate.at < (j - i - 1 + 2) * cfg.intervalMs
  {
    hide Run, Timely;
    DueOnGrid(cfg, now, env, i, j);
    StartsWhenDue(cfg, now, env, i);
    assert (j - i + 1) * cfg.intervalMs == (j - i) * cfg.intervalMs + cfg.intervalMs;
  }

  lemma DueOnGrid(cfg: Config, now: int, env: seq<Tick>, d: nat, j: nat)
    requires cfg.Valid() && d <= j < |Run(cfg, now, env).slots|
    ensures Run(cfg, now, env).slots[j].due == Run(cfg, now, env).slots[d].due + (j - d) * cfg.intervalMs
  {
    hide Run;
    SlotConservation(cfg, now, env);
    assert j * cfg.intervalMs == d * cfg.intervalMs + (j - d) * cfg.intervalMs;
  }

  // ---------------------------------------------------------------- the grace window

  /** The check made before the first beat: an interval is refused when it exceeds a third of the window. */
  predicate IntervalAccepted(intervalMs: int, graceSecs: nat) {
    graceSecs == 0 || intervalMs <= graceSecs * 1000 / 3
  }

  /** Consecutive accepted beats with at most `tolerated` lost slots between them start within the window. */
  ghost predicate KeepsWindow(slots: seq<Slot>, windowMs: int, tolerated: nat) {
    forall i, j :: Consecutive(slots, i, j) && Lost(slots[i + 1..j]) <= tolerated ==>
                     slots[j].fate.at - slots[i].fate.at < windowMs
  }

  /** Every run at this interval whose wake-ups are prompt stays within the window. */
  ghost predicate Safe(intervalMs: int, graceSecs: nat, tolerated: nat) {
    forall cfg: Config, now: nat, env: seq<Tick> ::
      cfg.Valid() && cfg.intervalMs == intervalMs && Timely(cfg, now, env) && Prompt(cfg, Run(cfg, now, env).slots) ==>
        KeepsWindow(Run(cfg, now, env).slots, graceSecs * 1000, tolerated)
  }

  lemma CheckMeansThird(intervalMs: int, graceSecs: nat)
    requires graceSecs > 0
    ensures IntervalAccepted(intervalMs, graceSecs) <==> 3 * intervalMs <= graceSecs * 1000
  {
  }

  // ---------------------------------------------------------------- runs that use the room up

  function Always(o: Outcome): nat -> Attempt {
    n => Attempt(o, false, false)
  }

  /** A turn that wakes at `wake` and settles in no time. */
  function Plain(asleep: int, wake: int, o: Outcome): Tick {
    Tick(asleep, false, wake, wake, Always(o), wake)
  }

  /** What becomes of a slot taken by a plain turn when the beats of second `last` are redundant. */
  function PlainFate(last: Option<int>, due: int, wake: int, accept: bool): Fate {
    if last == Some(wake / 1000) then Deduped(wake)
    else if accept then Accepted(wake, wake - due, 1) else Failed(wake, wake - due, 1)
  }

  /** A run that is still going, and whose next slot is not due before the last wake-up. */
  ghost predicate Going(cfg: Config, now: int, env: seq<Tick>)
    requires cfg.Valid()
  {
    && Timely(cfg, now, env) && !Run(cfg, now, env).stopped
    && LastWake(cfg, now, env) <= Run(cfg, now, env).deadline
  }

  lemma PlainStep(cfg: Config, st: State, asleep: int, wake: int, accept: bool)
    requires cfg.Valid() && !st.stopped && st.deadline <= wake < st.deadline + cfg.intervalMs
    ensures var after := Turn(cfg, st, Plain(asleep, wake, if accept then Allowed else Blocked));
            var fate := PlainFate(st.lastBeatSecond, st.deadline, wake, accept);
            && !after.stopped && after.deadline == st.deadline + cfg.intervalMs
            && after.slots == st.slots + [Slot(st.deadline, fate)]
            && after.lastBeatSecond == if fate.Accepted? then Some(wake / 1000) else st.lastBeatSecond
  {
    var t := Plain(asleep, wake, if accept then Allowed else Blocked);
    assert Submit(cfg.maxAttempts, t.attempts, 1) == BeatResult(accept, 1, false);
    assert SkippedSlots(st.deadline + cfg.intervalMs, cfg.intervalMs, 0) == [];
  }

  lemma {:induction false} PlainTurn(cfg: Config, now: int, env: seq<Tick>, wake: int, accept: bool)
    returns (longer: seq<Tick>)
    requires cfg.Valid() && Going(cfg, now, env)
    requires Run(cfg, now, env).deadline <= wake < Run(cfg, now, env).deadline + cfg.intervalMs
    ensures var st, after := Run(cfg, now, env), Run(cfg, now, longer);
            var fate := PlainFate(st.lastBeatSecond, st.deadline, wake, accept);
            && Going(cfg, now, longer)
            && after.deadline == st.deadline + cfg.intervalMs
            && after.slots == st.slots + [Slot(st.deadline, fate)]
            && after.lastBeatSecond == if fate.Accepted? then Some(wake / 1000) else st.lastBeatSecond
  {
    hide Turn, PlainFate;
    var st := Run(cfg, now, env);
    var t := Plain(LastWake(cfg, now, env), wake, if accept then Allowed else Blocked);
    longer := env + [t];
    assert longer[..|longer| - 1] == env && longer[|longer| - 1] == t;
    PlainStep(cfg, st, LastWake(cfg, now, env), wake, accept);
  }

  /** A punctual slot: redundant in the second remembered, refused otherwise. */
  predicate RefusedAt(x: Slot, last: Option<int>, due: int) {
    x.due == due && x.fate == PlainFate(last, due, due, false)
  }

  /** n punctual slots whose beats, where there are any, are refused. */
  lemma {:induction false} PunctualRun(cfg: Config, now: int, env: seq<Tick>, n: nat)
    returns (longer: seq<Tick>, rest: seq<Slot>)
    requires cfg.Valid() && Going(cfg, now, env)
    ensures var st, after := Run(cfg, now, env), Run(cfg, now, longer);
            && Going(cfg, now, longer)
            && after.deadline == st.deadline + n * cfg.intervalMs
            && after.slots == st.slots + rest && after.lastBeatSecond == st.lastBeatSecond
            && |rest| == n
            && forall k :: 0 <= k < n ==> RefusedAt(rest[k], st.lastBeatSecond, st.deadline + k * cfg.intervalMs)
  {
    hide Run, Timely, LastWake, Going, Turn;
    if n == 0 {
      longer, rest := env, [];
      assert Run(cfg, now, env).slots + rest == Run(cfg, now, env).slots;
    } else {
      var shorter, before := PunctualRun(cfg, now, env, n - 1);
      var mid := Run(cfg, now, shorter);
      longer := PlainTurn(cfg, now, shorter, mid.deadline, false);
      rest := before + [Slot(mid.deadline, PlainFate(mid.lastBeatSecond, mid.deadline, mid.deadline, false))];
      assert Run(cfg, now, longer).slots == Run(cfg, now, env).slots + rest;
      assert n * cfg.intervalMs == (n - 1) * cfg.intervalMs + cfg.intervalMs;
    }
  }

  lemma StartGoing(cfg: Config, now: int)
    requires cfg.Valid()
    ensures Run(cfg, now, []) == Init(now) && Going(cfg, now, [])
  {
  }

  lemma GoingIsTimely(cfg: Config, now: int, env: seq<Tick>)
    requires cfg.Valid() && Going(cfg, now, env)
    ensures Timely(cfg, now, env)
  {
    hide Timely, Run, LastWake;
  }

  /** An accepted beat `first` late, n punctual slots without an accepted one, and another accepted beat `last` late. */
  ghost predicate BetweenBeats(slots: seq<Slot>, now: int, interval: int, first: int, n: nat, last: int) {
    && |slots| == n + 2
    && slots[0] == Slot(now, Accepted(now + first, first, 1))
    && slots[n + 1] == Slot(now + (n + 1) * interval, Accepted(now + (n + 1) * interval + last, last, 1))
    && forall k :: 1 <= k <= n ==> RefusedAt(slots[k], Some((now + first) / 1000), now + k * interval)
  }

  lemma RefusedSlots(rest: seq<Slot>, start: int, now: int, interval: int, last: Option<int>)
    requires start == now + interval
    requires forall k :: 0 <= k < |rest| ==> RefusedAt(rest[k], last, start + k * interval)
    ensures forall k :: 1 <= k <= |rest| ==> RefusedAt(rest[k - 1], last, now + k * interval)
  {
    hide RefusedAt;
    forall k | 1 <= k <= |rest|
      ensures RefusedAt(rest[k - 1], last, now + k * interval)
    {
      OneMoreInterval(k - 1, interval);
      assert RefusedAt(rest[k - 1], last, start + (k - 1) * interval);
    }
  }

  /** A fresh scheduler's first beat. */
  lemma FirstBeat(cfg: Config, now: int, first: nat) returns (env: seq<Tick>)
    requires cfg.Valid() && first < cfg.intervalMs
    ensures var st := Run(cfg, now, env);
            && Going(cfg, now, env) && st.deadline == now + cfg.intervalMs
            && st.slots == [Slot(now, Accepted(now + first, first, 1))]
            && st.lastBeatSecond == Some((now + first) / 1000)
  {
    hide Run, Going;
    StartGoing(cfg, now);
    env := PlainTurn(cfg, now, [], now + first, true);
  }

  /** One more accepted beat, in another second than the one remembered. */
  lemma AnotherBeat(cfg: Config, now: int, env: seq<Tick>, late: nat) returns (longer: seq<Tick>)
    requires cfg.Valid() && Going(cfg, now, env) && late < cfg.intervalMs
    requires Run(cfg, now, env).lastBeatSecond != Some((Run(cfg, now, env).deadline + late) / 1000)
    ensures var st := Run(cfg, now, env);
            && Timely(cfg, now, longer)
            && Run(cfg, now, longer).slots == st.slots + [Slot(st.deadline, Accepted(st.deadline + late, late, 1))]
  {
    hide Run, Going, Timely;
    longer := PlainTurn(cfg, now, env, Run(cfg, now, env).deadline + late, true);
    GoingIsTimely(cfg, now, longer);
  }

  lemma BeatsJoined(slots: seq<Slot>, rest: seq<Slot>, now: int, interval: int, first: int, n: nat, due: int, last: int)
    requires |rest| == n && due == now + (n + 1) * interval
    requires slots == [Slot(now, Accepted(now + first, first, 1))] + rest + [Slot(due, Accepted(due + last, last, 1))]
    requires forall k :: 1 <= k <= |rest| ==>
                           RefusedAt(rest[k - 1], Some((now + first) / 1000), now + k * interval)
    ensures BetweenBeats(slots, now, interval, first, n, last)
  {
    hide RefusedAt;
    assert forall k :: 1 <= k <= n ==> slots[k] == rest[k - 1];
  }

  /** The first beat and n punctual slots behind it. */
  lemma FirstBeats(cfg: Config, now: int, first: nat, n: nat) returns (env: seq<Tick>, rest: seq<Slot>)
    requires cfg.Valid() && first < cfg.intervalMs
    ensures var st := Run(cfg, now, env);
            && Going(cfg, now, env) && st.deadline == now + (n + 1) * cfg.intervalMs
            && st.slots == [Slot(now, Accepted(now + first, first, 1))] + rest && |rest| == n
            && st.lastBeatSecond == Some((now + first) / 1000)
            && forall k :: 1 <= k <= |rest| ==>
                             RefusedAt(rest[k - 1], Some((now + first) / 1000), now + k * cfg.intervalMs)
  {
    hide Run, Going, RefusedAt;
    var start := FirstBeat(cfg, now, first);
    env, rest := PunctualRun(cfg, now, start, n);
    RefusedSlots(rest, Run(cfg, now, start).deadline, now, cfg.intervalMs, Some((now + first) / 1000));
    OneMoreInterval(n, cfg.intervalMs);
  }

  lemma {:induction false} TwoBeats(cfg: Config, now: int, first: nat, n: nat, last: nat) returns (env: seq<Tick>)
    requires cfg.Valid() && first < cfg.intervalMs && last < cfg.intervalMs
    requires (now + first) / 1000 != (now + (n + 1) * cfg.intervalMs + last) / 1000
    ensures Timely(cfg, now, env)
    ensures BetweenBeats(Run(cfg, now, env).slots, now, cfg.intervalMs, first, n, last)
  {
    hide Run, Timely, Going, RefusedAt, BetweenBeats;
    var middle, rest := FirstBeats(cfg, now, first, n);
    env := AnotherBeat(cfg, now, middle, last);
    BeatsJoined(Run(cfg, now, env).slots, rest, now, cfg.intervalMs, first, n, Run(cfg, now, middle).deadline, last);
  }

  lemma BetweenAreConsecutive(slots: seq<Slot>, now: int, interval: int, first: int, n: nat, last: int)
    requires BetweenBeats(slots, now, interval, first, n, last)
    ensures Consecutive(slots, 0, n + 1)
  {
    forall k | 0 < k < n + 1
      ensures !slots[k].fate.Accepted?
    {
      assert RefusedAt(slots[k], Some((now + first) / 1000), now + k * interval);
    }
  }

  lemma BetweenLateness(slots: seq<Slot>, now: int, interval: int, first: int, n: nat, last: int, late: int)
    requires BetweenBeats(slots, now, interval, first, n, last) && first <= late && last <= late && 0 <= late
    ensures LateAtMost(slots, late)
  {
    forall k | 0 <= k < |slots| && !slots[k].fate.Skipped?
      ensures slots[k].fate.at - slots[k].due <= late
    {
      assert 1 <= k <= n ==> RefusedAt(slots[k], Some((now + first) / 1000), now + k * interval);
    }
  }

  /** The least number of intervals that cover 999 ms. */
  function SlotsPerSecond(intervalMs: int): (n: nat)
    requires intervalMs > 0
    ensures n >= 1 && n * intervalMs >= 999 && (n - 1) * intervalMs < 999
  {
    DivBounds(998, intervalMs);
    998 / intervalMs + 1
  }

  lemma InSecond(second: int, x: int)
    requires 0 <= x
    ensures (1000 * second + x) / 1000 == second <==> x <= 999
  {
  }

  /** The first n slots after a start that is n intervals before the end of a second are due in that second. */
  lemma DueInSecond(now: int, intervalMs: int, second: int, k: nat, n: nat)
    requires intervalMs > 0 && 1 <= k <= n && now == 1000 * second + 999 - n * intervalMs
    requires now + intervalMs >= 1000 * second
    ensures (now + k * intervalMs) / 1000 == second
  {
    MulMonotone(k, n, intervalMs);
    MulMonotone(1, k, intervalMs);
    InSecond(second, now + k * intervalMs - 1000 * second);
  }

  /** Behind n redundant slots at most the other slots are lost. */
  lemma RedundantThenRefused(slots: seq<Slot>, now: int, intervalMs: int, second: int, n: nat, total: nat)
    requires intervalMs > 0 && n <= total < |slots| && now == 1000 * second + 999 - n * intervalMs
    requires now + intervalMs >= 1000 * second
    requires forall k :: 1 <= k <= total ==> RefusedAt(slots[k], Some(second), now + k * intervalMs)
    ensures Lost(slots[1..total + 1]) <= total - n
  {
    var redundant, refused := slots[1..n + 1], slots[n + 1..total + 1];
    forall k | 0 <= k < n
      ensures !IsLost(redundant[k].fate)
    {
      assert RefusedAt(slots[k + 1], Some(second), now + (k + 1) * intervalMs);
      DueInSecond(now, intervalMs, second, k + 1, n);
      assert redundant[k] == slots[k + 1];
    }
    assert slots[1..total + 1] == redundant + refused;
    CountsApart(redundant, refused);
  }

  lemma CountsApart(kept: seq<Slot>, rest: seq<Slot>)
    requires forall k :: 0 <= k < |kept| ==> !IsLost(kept[k].fate)
    ensures Lost(kept + rest) <= |rest|
  {
    LostBounds(kept);
    LostBounds(rest);
    LostSplits(kept, rest);
  }

  /** The times of the worst run: its first beat opens a second, its last comes k + 2 intervals and 998 ms later. */
  lemma WorstTimes(intervalMs: int, n: nat, tolerated: nat, second: int, now: int)
    requires intervalMs > 0 && n * intervalMs >= 999 && (n - 1) * intervalMs < 999
    requires now == 1000 * second + 999 - n * intervalMs
    ensures 0 <= n * intervalMs - 999 < intervalMs && now + intervalMs >= 1000 * second
    ensures now + (n * intervalMs - 999) == 1000 * second
    ensures now + (n + tolerated + 1) * intervalMs + (intervalMs - 1)
         == 1000 * second + (tolerated + 2) * intervalMs + 998
    ensures (tolerated + 2) * intervalMs >= 2
  {
    OneMoreInterval(n - 1, intervalMs);
    assert (n + tolerated + 1) * intervalMs == n * intervalMs + (tolerated + 1) * intervalMs;
    OneMoreInterval(tolerated + 1, intervalMs);
    MulMonotone(2, tolerated + 2, intervalMs);
  }

  /**
   When the room is missing, a run uses it up: the first beat is as late in its second as it can be before n redundant
   ones, `tolerated` beats are refused, and the next accepted one is almost an interval late.
   */
  lemma {:induction false} WorstRun(intervalMs: int, tolerated: nat, windowMs: int)
    returns (cfg: Config, now: int, env: seq<Tick>)
    requires intervalMs > 0 && (tolerated + 2) * intervalMs + 999 > windowMs
    ensures cfg.Valid() && cfg.intervalMs == intervalMs && now >= 0
    ensures Timely(cfg, now, env) && Prompt(cfg, Run(cfg, now, env).slots)
    ensures !KeepsWindow(Run(cfg, now, env).slots, windowMs, tolerated)
  {
    hide Run, Timely, Lost, RefusedAt, LateAtMost;
    var n := SlotsPerSecond(intervalMs);
    var second, total := n * intervalMs, n + tolerated;
    var first, last := n * intervalMs - 999, intervalMs - 1;
    cfg, now := Config(intervalMs, 0, 1), 1000 * second + 999 - n * intervalMs;
    WorstTimes(intervalMs, n, tolerated, second, now);
    InSecond(second, 0);
    InSecond(second, (tolerated + 2) * intervalMs + 998);
    env := TwoBeats(cfg, now, first, total, last);
    var slots := Run(cfg, now, env).slots;
    BetweenLateness(slots, now, intervalMs, first, total, last, intervalMs - 1);
    BetweenAreConsecutive(slots, now, intervalMs, first, total, last);
    RedundantThenRefused(slots, now, intervalMs, second, n, total);
    assert slots[total + 1].fate.at - slots[0].fate.at >= windowMs;
    assert Lost(slots[0 + 1..total + 1]) <= tolerated;
  }

  /** An interval of 300 ms is accepted for a window of 1 s, yet a punctual run that loses nothing leaves the window. */
  lemma {:induction false} RedundantBeatsLeaveTheWindow() returns (cfg: Config, env: seq<Tick>)
    ensures cfg.Valid() && IntervalAccepted(cfg.intervalMs, 1) && Timely(cfg, 0, env)
    ensures LateAtMost(Run(cfg, 0, env).slots, 0) && Lost(Run(cfg, 0, env).slots) == 0
    ensures !KeepsWindow(Run(cfg, 0, env).slots, 1000, 0)
  {
    hide Run, Timely, Lost, LateAtMost;
    cfg := Config(300, 0, 1);
    env := TwoBeats(cfg, 0, 0, 3, 0);
    var slots := Run(cfg, 0, env).slots;
    BetweenLateness(slots, 0, 300, 0, 3, 0, 0);
    BetweenAreConsecutive(slots, 0, 300, 0, 3, 0);
    NothingLost(slots);
    LostInside(slots, 1, 4);
    assert slots[0 + 1..4] == slots[1..4];
  }

  /** The five slots of that run are accepted, redundant three times, and accepted. */
  lemma NothingLost(slots: seq<Slot>)
    requires BetweenBeats(slots, 0, 300, 0, 3, 0)
    ensures Lost(slots) == 0
  {
    forall k | 0 <= k < |slots|
      ensures !IsLost(slots[k].fate)
    {
      assert 1 <= k <= 3 ==> RefusedAt(slots[k], Some(0), 0 + k * 300);
    }
    LostBounds(slots);
  }

  lemma LostInside(slots: seq<Slot>, i: nat, j: nat)
    requires i <= j <= |slots|
    ensures Lost(slots[i..j]) <= Lost(slots)
  {
    hide Lost;
    assert slots == slots[..i] + (slots[i..j] + slots[j..]);
    LostSplits(slots[..i], slots[i..j] + slots[j..]);
    LostSplits(slots[i..j], slots[j..]);
  }

  /** At the largest accepted interval a punctual run with two refused beats in a row fills the whole window. */
  lemma {:induction false} TwoLostSlotsFillTheWindow(cfg: Config, graceSecs: nat) returns (env: seq<Tick>)
    requires cfg.Valid() && graceSecs > 0 && 3 * cfg.intervalMs == graceSecs * 1000
    ensures IntervalAccepted(cfg.intervalMs, graceSecs) && Timely(cfg, 0, env)
    ensures var slots := Run(cfg, 0, env).slots;
            && LateAtMost(slots, 0) && Consecutive(slots, 0, 3) && Lost(slots[1..3]) == 2
            && slots[3].fate.at - slots[0].fate.at == graceSecs * 1000
  {
    hide Run, Timely, Lost, LateAtMost;
    env := TwoBeats(cfg, 0, 0, 2, 0);
    var slots := Run(cfg, 0, env).slots;
    BetweenLateness(slots, 0, cfg.intervalMs, 0, 2, 0, 0);
    BetweenAreConsecutive(slots, 0, cfg.intervalMs, 0, 2, 0);
    assert RefusedAt(slots[1], Some(0), 0 + 1 * cfg.intervalMs) && RefusedAt(slots[2], Some(0), 0 + 2 * cfg.intervalMs);
    LostBounds(slots[1..3]);
  }

  // ---------------------------------------------------------------- how much room the window needs

  /**
   Grace safety, exactly.  All prompt runs that lose at most `tolerated` slots between accepted beats stay within the
   grace window if and only if the window has room for tolerated + 2 intervals and one redundant second.
   */
  lemma {:induction false} GraceExactly(intervalMs: int, graceSecs: nat, tolerated: nat)
    requires intervalMs > 0
    ensures Safe(intervalMs, graceSecs, tolerated) <==> (tolerated + 2) * intervalMs + 999 <= graceSecs * 1000
  {
    hide Run, Timely, Prompt, KeepsWindow;
    if (tolerated + 2) * intervalMs + 999 <= graceSecs * 1000 {
      forall cfg: Config, now: nat, env: seq<Tick> |
        cfg.Valid() && cfg.intervalMs == intervalMs && Timely(cfg, now, env) && Prompt(cfg, Run(cfg, now, env).slots)
        ensures KeepsWindow(Run(cfg, now, env).slots, graceSecs * 1000, tolerated)
      {
        RoomIsEnough(cfg, now, env, graceSecs, tolerated);
      }
    } else {
      var cfg, now, env := WorstRun(intervalMs, tolerated, graceSecs * 1000);
      var start: nat := now;
    }
  }

  lemma RoomIsEnough(cfg: Config, now: int, env: seq<Tick>, graceSecs: nat, tolerated: nat)
    requires cfg.Valid() && Timely(cfg, now, env) && Prompt(cfg, Run(cfg, now, env).slots)
    requires (tolerated + 2) * cfg.intervalMs + 999 <= graceSecs * 1000
    ensures KeepsWindow(Run(cfg, now, env).slots, graceSecs * 1000, tolerated)
  {
    hide Run, Timely;
    var slots := Run(cfg, now, env).slots;
    GapByLoss(cfg, now, env, cfg.intervalMs - 1);
    forall i, j | Consecutive(slots, i, j) && Lost(slots[i + 1..j]) <= tolerated
      ensures slots[j].fate.at - slots[i].fate.at < graceSecs * 1000
    {
      MulMonotone(Lost(slots[i + 1..j]) + 1, tolerated + 1, cfg.intervalMs);
    }
  }

  // ---------------------------------------------------------------- without redundant beats

  /**
   No beat is redundant when every wake-up leaves a full second of the interval: the next slot then falls into a later
   second.
   */
  lemma {:induction false} NothingRedundant(cfg: Config, now: int, env: seq<Tick>, late: int)
    requires cfg.Valid() && Timely(cfg, now, env) && cfg.intervalMs - late >= 1000
    ensures LateAtMost(Run(cfg, now, env).slots, late) ==> !AnyDeduped(Run(cfg, now, env).slots)
  {
    hide Run, Timely;
    var slots := Run(cfg, now, env).slots;
    if LateAtMost(slots, late) && AnyDeduped(slots) {
      var k :| 0 <= k < |slots| && slots[k].fate.Deduped?;
      RunRemembers(cfg, now, env);
      var i := Remembered(slots, k);
      SameSecond(slots[k].fate.at, slots[i].fate.at);
      DueOnGrid(cfg, now, env, i, k);
      MulMonotone(1, k - i, cfg.intervalMs);
    }
  }

  lemma NoneInSlice(slots: seq<Slot>, i: nat, j: nat)
    requires i <= j <= |slots| && !AnyDeduped(slots)
    ensures !AnyDeduped(slots[i..j])
  {
  }

  /** The accepted beat whose second is remembered. */
  lemma {:induction false} Remembered(slots: seq<Slot>, k: nat) returns (i: nat)
    requires k <= |slots| && LastSecond(slots[..k]).Some?
    ensures i < k && slots[i].fate.Accepted? && LastSecond(slots[..k]) == Some(slots[i].fate.at / 1000)
  {
    assert slots[..k][..k - 1] == slots[..k - 1];
    if slots[k - 1].fate.Accepted? {
      i := k - 1;
    } else {
      i := Remembered(slots, k - 1);
    }
  }

  /** What the interval check does guarantee: with a second to spare in every interval one lost slot is harmless. */
  lemma {:induction false} GraceSafety(cfg: Config, graceSecs: nat, now: int, env: seq<Tick>, late: int)
    requires cfg.Valid() && Timely(cfg, now, env) && cfg.intervalMs - late >= 1000
    requires graceSecs > 0 && IntervalAccepted(cfg.intervalMs, graceSecs)
    ensures LateAtMost(Run(cfg, now, env).slots, late) ==>
              KeepsWindow(Run(cfg, now, env).slots, graceSecs * 1000, 1)
  {
    hide Run, Timely;
    var slots := Run(cfg, now, env).slots;
    GapByLoss(cfg, now, env, late);
    NothingRedundant(cfg, now, env, late);
    CheckMeansThird(cfg.intervalMs, graceSecs);
    if LateAtMost(slots, late) {
      forall i, j | Consecutive(slots, i, j) && Lost(slots[i + 1..j]) <= 1
        ensures slots[j].fate.at - slots[i].fate.at < graceSecs * 1000
      {
        MulMonotone(Lost(slots[i + 1..j]) + 1, 2, cfg.intervalMs);
        NoneInSlice(slots, i + 1, j);
      }
    }
  }
}
