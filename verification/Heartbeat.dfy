/**
 The heartbeat scheduler (src/heartbeat.ts).

 Every cadence slot is recorded in `slots`, in order, with what became of it.  The record is the
 whole observable history of a run: each `onBeat` call is an `Accepted` slot, each `onError` call a
 `Failed` one, and a slot the loop jumped over is `Skipped`.  The environment -- clock readings,
 submission outcomes and the moments at which `stop()` is called -- is a sequence of `Tick`s, one per
 turn of the loop, and is otherwise arbitrary.
 */
module Heartbeat {
  import opened Wrappers

  /** What one call of `submit` did: it threw, resolved without an outcome, or reported one. */
  datatype Outcome =
    | Threw(transport: bool)
    | NoOutcome
    | Allowed
    | Blocked
    | Pending
    | PipelineError(transport: bool)
    | DryRun
    | Unrecognized

  /** One submission attempt, and whether `stop()` was called while it ran or during the backoff after it. */
  datatype Attempt = Attempt(outcome: Outcome, stopDuring: bool, stopInBackoff: bool)

  /** What the environment does during one turn of the loop; the times are clock readings in milliseconds. */
  datatype Tick = Tick(
    asleep: int,              // when the wait is computed
    stopInWait: bool,         // stop() before the wait resolved
    wake: int,                // after the wait
    firstSkip: int,           // first skipExpiredSlots
    attempts: nat -> Attempt, // attempts(n) answers the n-th submission of this beat
    secondSkip: int)          // skipExpiredSlots after the submission

  datatype Config = Config(intervalMs: int, maxSkewMs: int, maxAttempts: int) {
    /** What assertHeartbeatOptions and resolveRetryOptions demand. */
    predicate Valid() {
      intervalMs > 0 && maxSkewMs >= 0 && maxAttempts >= 1
    }
  }

  datatype Fate =
    | Skipped
    | Deduped(at: int)
    | Accepted(at: int, lateMs: int, attempt: nat)
    | Failed(at: int, lateMs: int, attempt: nat)
    | Interrupted(at: int, lateMs: int, attempt: nat)
  {
    /** A beat was handed to `submit` for this slot. */
    predicate Started() {
      Accepted? || Failed? || Interrupted?
    }
  }

  datatype Slot = Slot(due: int, fate: Fate)

  datatype State = State(
    deadline: int,
    missedBeats: nat,
    lastBeatAt: Option<int>,
    lastBeatSecond: Option<int>,
    stopped: bool,
    slots: seq<Slot>)

  datatype BeatResult = BeatResult(ok: bool, attempt: nat, stopped: bool)

  function Max(a: int, b: int): int {
    if a >= b then a else b
  }

  // ---------------------------------------------------------------- submission and its retries

  /** classifyHeartbeatOutcome and attemptSubmission: is this attempt an accepted beat? */
  predicate IsBeat(o: Outcome) {
    o.Allowed? || o.NoOutcome?
  }

  /** Only a transport failure may be retried. */
  predicate Retryable(o: Outcome) {
    match o
    case Threw(transport) => transport
    case PipelineError(transport) => transport
    case _ => false
  }

  /** The beat whose attempts n, n+1, ... are still to come. */
  function Submit(maxAttempts: int, attempts: nat -> Attempt, n: nat): (r: BeatResult)
    requires 1 <= n <= maxAttempts
    ensures n <= r.attempt <= maxAttempts
    // every earlier attempt failed in a retryable way and nobody stopped the scheduler meanwhile
    ensures forall k {:trigger attempts(k)} :: n <= k < r.attempt ==>
              Retryable(attempts(k).outcome) && !attempts(k).stopDuring && !attempts(k).stopInBackoff
    ensures r.ok <==> IsBeat(attempts(r.attempt).outcome)
    // a failed beat ended for one of exactly three reasons
    ensures !r.ok ==> r.stopped || !Retryable(attempts(r.attempt).outcome) || r.attempt == maxAttempts
    ensures r.stopped ==> attempts(r.attempt).stopDuring || (!r.ok && attempts(r.attempt).stopInBackoff)
    ensures attempts(r.attempt).stopDuring ==> r.stopped
    decreases maxAttempts - n
  {
    var a := attempts(n);
    if IsBeat(a.outcome) then BeatResult(true, n, a.stopDuring)
    else if !Retryable(a.outcome) || n >= maxAttempts || a.stopDuring then BeatResult(false, n, a.stopDuring)
    else if a.stopInBackoff then BeatResult(false, n, true)
    else Submit(maxAttempts, attempts, n + 1)
  }

  // ---------------------------------------------------------------- slot skipping

  /** The slots skipExpiredSlots jumps over: none when the deadline is still ahead. */
  function SkipCount(deadline: int, now: int, interval: int): (k: nat)
    requires interval > 0
    ensures k == 0 <==> deadline > now
  {
    if deadline > now then 0 else (now - deadline) / interval + 1
  }

  /** Skipping one stale slot at a time, the loop the closed form replaces. */
  function SkipOneByOne(deadline: int, now: int, interval: int): nat
    requires interval > 0
    decreases if deadline > now then 0 else now - deadline + 1
  {
    if deadline > now then 0 else 1 + SkipOneByOne(deadline + interval, now, interval)
  }

  lemma PositiveFactor(a: int, b: int)
    requires b > 0 && a * b > 0
    ensures a > 0
  {
  }

  /** At most one count of slots reaches from a stale deadline to just past `now`. */
  lemma LandingIsUnique(lag: int, interval: int, j: int, k: int)
    requires interval > 0
    requires (j - 1) * interval <= lag < j * interval
    requires (k - 1) * interval <= lag < k * interval
    ensures j == k
  {
    assert (j - (k - 1)) * interval == j * interval - (k - 1) * interval;
    PositiveFactor(j - (k - 1), interval);
    assert (k - (j - 1)) * interval == k * interval - (j - 1) * interval;
    PositiveFactor(k - (j - 1), interval);
  }

  lemma {:induction false} OneByOneLanding(deadline: int, now: int, interval: int)
    requires interval > 0 && deadline <= now
    ensures var k := SkipOneByOne(deadline, now, interval); (k - 1) * interval <= now - deadline < k * interval
    decreases now - deadline
  {
    var k := SkipOneByOne(deadline + interval, now, interval);
    if deadline + interval <= now {
      OneByOneLanding(deadline + interval, now, interval);
      assert (k + 1) * interval == k * interval + interval;
      assert (k - 1) * interval == k * interval - interval;
    } else {
      assert k == 0 && SkipOneByOne(deadline, now, interval) == 1;
    }
  }

  /**
   The arithmetic skip counts exactly the slots a one-at-a-time loop would, and lands on the first
   slot strictly after `now`.
   */
  lemma ClosedFormSkip(deadline: int, now: int, interval: int)
    requires interval > 0
    ensures SkipCount(deadline, now, interval) == SkipOneByOne(deadline, now, interval)
    ensures deadline + SkipCount(deadline, now, interval) * interval > now
    ensures SkipCount(deadline, now, interval) > 0 ==>
              deadline + (SkipCount(deadline, now, interval) - 1) * interval <= now
  {
    if deadline <= now {
      var k := SkipCount(deadline, now, interval);
      assert (k - 1) * interval <= now - deadline < k * interval;
      OneByOneLanding(deadline, now, interval);
      LandingIsUnique(now - deadline, interval, k, SkipOneByOne(deadline, now, interval));
    }
  }

  /** The record of k skipped slots, the first one due at `due`. */
  function SkippedSlots(due: int, interval: int, k: nat): (s: seq<Slot>)
    ensures |s| == k
    ensures forall i :: 0 <= i < k ==> s[i] == Slot(due + i * interval, Skipped)
  {
    seq(k, i requires 0 <= i < k => Slot(due + i * interval, Skipped))
  }

  function SkipExpired(interval: int, st: State, now: int): State
    requires interval > 0
  {
    var k := SkipCount(st.deadline, now, interval);
    st.(deadline := st.deadline + k * interval,
    missedBeats := st.missedBeats + k,
    slots := st.slots + SkippedSlots(st.deadline, interval, k))
  }

  // ---------------------------------------------------------------- the loop

  function Init(now: int): State {
    State(now, 0, None, None, false, [])
  }

  /** The fate of a slot whose submission has settled. */
  function Settle(at: int, lateMs: int, r: BeatResult): Fate {
    if r.stopped then Interrupted(at, lateMs, r.attempt)
    else if r.ok then Accepted(at, lateMs, r.attempt)
    else Failed(at, lateMs, r.attempt)
  }

  lemma SkipIgnoresStop(interval: int, st: State, current: int)
    requires interval > 0
    ensures SkipExpired(interval, st.(stopped := true), current)
         == SkipExpired(interval, st, current).(stopped := true)
  {
  }

  /** One turn of the `while (!stopped)` loop. */
  function Turn(cfg: Config, st: State, t: Tick): State
    requires cfg.Valid()
  {
    if st.stopped then st
    else if t.stopInWait then st.(stopped := true)
    else
      var due := st.deadline;
      var lateMs := Max(0, t.wake - due);
      var second := t.wake / 1000;
      if st.lastBeatSecond == Some(second) then
        SkipExpired(cfg.intervalMs,
                    st.(deadline := due + cfg.intervalMs, slots := st.slots + [Slot(due, Deduped(t.wake))]),
                    t.firstSkip)
      else
        var r := Submit(cfg.maxAttempts, t.attempts, 1);
        var taken := SkipExpired(cfg.intervalMs,
                                 st.(deadline := due + cfg.intervalMs,
                                 slots := st.slots + [Slot(due, Settle(t.wake, lateMs, r))]),
                                 t.firstSkip);
        var late := if lateMs > cfg.maxSkewMs then 1 else 0;
        var done := SkipExpired(cfg.intervalMs, taken.(missedBeats := taken.missedBeats + late), t.secondSkip);
        if r.stopped then done.(stopped := true)
        else if !r.ok then done
        else done.(lastBeatAt := Some(t.wake), lastBeatSecond := Some(second))
  }

  /** The state after the turns `env`, started at clock reading `now`. */
  function Run(cfg: Config, now: int, env: seq<Tick>): State
    requires cfg.Valid()
  {
    if env == [] then Init(now)
    else Turn(cfg, Run(cfg, now, env[..|env| - 1]), env[|env| - 1])
  }

  /** The scheduler of startHeartbeat: its fields are the variables the closure `run` updates. */
  class Scheduler {
    const cfg: Config
    var deadline: int
    var missedBeats: nat
    var lastBeatAt: Option<int>
    var lastBeatSecond: Option<int>
    var stopped: bool
    ghost var slots: seq<Slot>

    constructor (cfg: Config, now: int)
      requires cfg.Valid()
      ensures this.cfg == cfg && Snapshot() == Init(now)
    {
      this.cfg := cfg;
      deadline, missedBeats, stopped := now, 0, false;
      lastBeatAt, lastBeatSecond := None, None;
      slots := [];
    }

    ghost function Snapshot(): State
      reads this
    {
      State(deadline, missedBeats, lastBeatAt, lastBeatSecond, stopped, slots)
    }

    method SkipExpiredSlots(current: int)
      requires cfg.Valid()
      modifies `deadline, `missedBeats, `slots
      ensures Snapshot() == SkipExpired(cfg.intervalMs, old(Snapshot()), current)
    {
      if deadline > current {
        assert slots + SkippedSlots(deadline, cfg.intervalMs, 0) == slots;
        return;
      }
      var skipped := (current - deadline) / cfg.intervalMs + 1;
      slots := slots + SkippedSlots(deadline, cfg.intervalMs, skipped);
      deadline := deadline + skipped * cfg.intervalMs;
      missedBeats := missedBeats + skipped;
    }

    method SubmitBeat(attempts: nat -> Attempt) returns (ok: bool, attempt: nat)
      requires cfg.Valid() && !stopped
      modifies `stopped
      ensures BeatResult(ok, attempt, stopped) == Submit(cfg.maxAttempts, attempts, 1)
    {
      attempt := 0;
      while true
        invariant 0 <= attempt < cfg.maxAttempts
        invariant !stopped
        invariant Submit(cfg.maxAttempts, attempts, 1) == Submit(cfg.maxAttempts, attempts, attempt + 1)
        decreases cfg.maxAttempts - attempt
      {
        attempt := attempt + 1;
        var a := attempts(attempt);
        stopped := stopped || a.stopDuring;
        if IsBeat(a.outcome) {
          return true, attempt;
        }
        if !Retryable(a.outcome) || attempt >= cfg.maxAttempts || stopped {
          return false, attempt;
        }
        stopped := stopped || a.stopInBackoff;
        if stopped {
          return false, attempt;
        }
      }
    }

    /** The loop, driven by the turns the environment offers; it ends with them or when stopped. */
    method RunLoop(now: int, env: seq<Tick>)
      requires cfg.Valid() && Snapshot() == Init(now)
      modifies this
      ensures Snapshot() == Run(cfg, now, env)
    {
      var i := 0;
      while i < |env|
        invariant 0 <= i <= |env|
        invariant Snapshot() == Run(cfg, now, env[..i])
      {
        assert env[..i + 1][..i] == env[..i];
        if !stopped {
          Iterate(env[i]);
        }
        i := i + 1;
      }
      assert env[..i] == env;
    }

    method Iterate(t: Tick)
      requires cfg.Valid() && !stopped
      modifies this
      ensures Snapshot() == Turn(cfg, old(Snapshot()), t)
    {
      hide SkipExpired, SkippedSlots, Submit;
      if t.stopInWait {
        stopped := true;
        return;
      }
      var at := t.wake;
      var due := deadline;
      var lateMs := Max(0, at - due);
      deadline := deadline + cfg.intervalMs;
      var second := at / 1000;
      ghost var fate := if lastBeatSecond == Some(second) then Deduped(at)
                        else Settle(at, lateMs, Submit(cfg.maxAttempts, t.attempts, 1));
      slots := slots + [Slot(due, fate)];
      SkipExpiredSlots(t.firstSkip);
      if lastBeatSecond.Some? && second == lastBeatSecond.value {
        return;
      }
      if lateMs > cfg.maxSkewMs {
        missedBeats := missedBeats + 1;
      }
      SkipIgnoresStop(cfg.intervalMs, Snapshot(), t.secondSkip);
      var ok, attempt := SubmitBeat(t.attempts);
      SkipExpiredSlots(t.secondSkip);
      if stopped {
        return;
      }
      if !ok {
        return;
      }
      lastBeatAt := Some(at);
      lastBeatSecond := Some(second);
    }
  }
}
