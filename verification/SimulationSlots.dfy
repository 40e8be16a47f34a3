/**
 The enforced simulations of the pre-flight interceptor (src/preflight.ts, simulateLimited), each run
 inside one semaphore slot with at most one retry after a 429.  The events of all checks interleave
 freely.
 */
module SimulationSlots {
  import opened S = Semaphore

  /** What the holder of a slot is doing; `Running(n)` is its n-th simulation. */
  datatype Phase = Ready | Running(run: nat) | Backoff

  datatype System = System(sem: State, phase: map<nat, Phase>, runs: map<nat, nat>)

  datatype Event =
    | Begin(aborted: bool)
    | Withdraw(ticket: nat)
    | Start(ticket: nat)
    | Settle(ticket: nat, limited: bool)
    | Wake(ticket: nat, abandoned: bool)

  function Init(limit: nat): System {
    System(S.Init(limit), map[], map[])
  }

  /** Holders keep their phase across a semaphore step; a ticket that just got a slot is ready. */
  function Sync(sys: System, sem: State): System {
    System(sem,
           map t | t in sem.held :: if t in sys.phase then sys.phase[t] else Ready,
           sys.runs + map t | t in sem.held && t !in sys.phase :: 0)
  }

  function Simulate(sys: System, t: nat, n: nat): System
    requires t in sys.runs
  {
    sys.(phase := sys.phase[t := Running(n)], runs := sys.runs[t := sys.runs[t] + 1])
  }

  /** The `finally` of simulateLimited. */
  function Finish(sys: System, t: nat): System {
    Sync(sys, S.Step(sys.sem, Release(t)))
  }

  function Step(sys: System, e: Event): System
    requires sys.phase.Keys <= sys.runs.Keys
  {
    match e
    case Begin(aborted) => Sync(sys, S.Step(sys.sem, Acquire(aborted)))
    case Withdraw(t) => Sync(sys, S.Step(sys.sem, Abort(t)))
    case Start(t) =>
      if t in sys.phase && sys.phase[t].Ready? then Simulate(sys, t, 1) else sys
    case Settle(t, limited) =>
      if t !in sys.phase || !sys.phase[t].Running? then sys
      else if limited && sys.phase[t].run == 1 then sys.(phase := sys.phase[t := Backoff])
      else Finish(sys, t)
    case Wake(t, abandoned) =>
      if t !in sys.phase || !sys.phase[t].Backoff? then sys
      else if abandoned then Finish(sys, t)
      else Simulate(sys, t, 2)
  }

  function Run(limit: nat, events: seq<Event>): (sys: System)
    ensures sys.phase.Keys <= sys.runs.Keys
  {
    if events == [] then Init(limit)
    else Step(Run(limit, events[..|events| - 1]), events[|events| - 1])
  }

  /** The simulations executing right now. */
  function InFlight(sys: System): set<nat> {
    set t | t in sys.phase && sys.phase[t].Running?
  }

  function RunsAt(p: Phase): nat {
    match p
    case Ready => 0
    case Running(n) => n
    case Backoff => 1
  }

  /** Tickets are handed out in order, and a ticket either waits or holds. */
  ghost predicate Tickets(sem: State) {
    forall t :: t in sem.held || t in sem.waiters ==> t < sem.next && !(t in sem.held && t in sem.waiters)
  }

  ghost predicate Books(sys: System) {
    && Tickets(sys.sem)
    && sys.phase.Keys == sys.sem.held
    && sys.phase.Keys <= sys.runs.Keys
    && (forall t :: t in sys.phase ==> RunsAt(sys.phase[t]) == sys.runs[t])
    && (forall t :: t in sys.runs ==> sys.runs[t] <= 2 && t < sys.sem.next && t !in sys.sem.waiters)
  }

  lemma InvMeansTickets(sem: State)
    requires S.Inv(sem)
    ensures Tickets(sem)
  {
    StayingMembers(sem.arrivals, sem.withdrawn);
    assert forall t :: t in sem.waiters ==> t in sem.granted + sem.waiters;
  }

  /** A semaphore step serves only waiters or the new caller, and queues only the new caller. */
  lemma TicketStep(sem: State, e: S.Event)
    ensures var after := S.Step(sem, e);
            && after.next >= sem.next
            && (forall t :: t in after.waiters ==> t in sem.waiters || t == sem.next)
            && (forall t :: t in after.held ==> t in sem.held || t in sem.waiters || t == sem.next)
  {
  }

  lemma SyncKeepsBooks(sys: System, e: S.Event)
    requires Books(sys) && Tickets(S.Step(sys.sem, e))
    ensures Books(Sync(sys, S.Step(sys.sem, e)))
  {
    TicketStep(sys.sem, e);
  }

  lemma StepKeepsBooks(sys: System, e: Event)
    requires Books(sys)
    requires Tickets(Step(sys, e).sem)
    ensures Books(Step(sys, e))
  {
    match e {
      case Begin(aborted) => SyncKeepsBooks(sys, Acquire(aborted));
      case Withdraw(t) => SyncKeepsBooks(sys, Abort(t));
      case Start(t) =>
      case Settle(t, limited) =>
        if Step(sys, e) == Finish(sys, t) {
          SyncKeepsBooks(sys, Release(t));
        }
      case Wake(t, abandoned) =>
        if Step(sys, e) == Finish(sys, t) {
          SyncKeepsBooks(sys, Release(t));
        }
    }
  }

  /** Every event is one semaphore step or leaves the semaphore alone. */
  lemma SemaphoreStep(sys: System, e: Event)
    requires sys.phase.Keys <= sys.runs.Keys && S.Inv(sys.sem)
    ensures S.Inv(Step(sys, e).sem) && Step(sys, e).sem.limit == sys.sem.limit
  {
    match e {
      case Begin(aborted) => StepKeepsInv(sys.sem, Acquire(aborted));
      case Withdraw(t) => StepKeepsInv(sys.sem, Abort(t));
      case Start(t) =>
      case Settle(t, limited) => StepKeepsInv(sys.sem, Release(t));
      case Wake(t, abandoned) => StepKeepsInv(sys.sem, Release(t));
    }
  }

  lemma {:induction false} RunKeepsSemaphore(limit: nat, events: seq<Event>)
    ensures S.Inv(Run(limit, events).sem) && Run(limit, events).sem.limit == limit
  {
    if events != [] {
      RunKeepsSemaphore(limit, events[..|events| - 1]);
      SemaphoreStep(Run(limit, events[..|events| - 1]), events[|events| - 1]);
    }
  }

  lemma {:induction false} RunKeepsBooks(limit: nat, events: seq<Event>)
    ensures Books(Run(limit, events))
  {
    if events != [] {
      RunKeepsBooks(limit, events[..|events| - 1]);
      RunKeepsSemaphore(limit, events);
      InvMeansTickets(Run(limit, events).sem);
      StepKeepsBooks(Run(limit, events[..|events| - 1]), events[|events| - 1]);
    }
  }

  lemma {:induction false} SubsetSize(a: set<nat>, b: set<nat>)
    requires a <= b
    ensures |a| <= |b|
  {
    if a != {} {
      var x :| x in a;
      SubsetSize(a - {x}, b - {x});
    }
  }

  /**
   However the checks interleave, the simulations in flight never exceed the limit, each of them holds a
   slot, and no slot is used for more than two simulations.
   */
  lemma SimulationsAreBounded(limit: nat, events: seq<Event>)
    ensures var sys := Run(limit, events);
            && |InFlight(sys)| <= limit
            && InFlight(sys) <= sys.sem.held
            && forall t :: t in sys.runs ==> sys.runs[t] <= 2
  {
    RunKeepsSemaphore(limit, events);
    RunKeepsBooks(limit, events);
    var sys := Run(limit, events);
    SubsetSize(InFlight(sys), sys.sem.held);
  }
}
