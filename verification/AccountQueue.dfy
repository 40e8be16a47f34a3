/**
 The per-account queue and sequence reservation (src/invoke.ts, withAccountQueue and reserveNextSequence).

 One `State` belongs to one (server, account) pair.  A queued task is named by its arrival number.  The
 stored promise `queue` is the task whose release it waits for, or None once it is resolved.
 */
module AccountQueue {
  import opened Wrappers

  datatype State = State(
    queue: Option<nat>,
    lastReserved: Option<int>,
    previous: seq<Option<nat>>, // what each arrived task awaits
    started: seq<nat>,
    finished: seq<nat>,
    holding: map<nat, int>,     // the sequence a task reserved in its current attempt
    fetches: seq<int>,          // the account snapshot each reservation was made from
    reservations: seq<int>,
    broadcasts: seq<int>)

  datatype Event =
    | Arrive
    | Start(task: nat)
    | Reserve(task: nat, fetched: int)
    | ReserveDirect(fetched: int)      // enforceCall used outside the queue
    | Broadcast(task: nat)
    | Finish(task: nat)                // it returned or threw

  const FRESH := State(None, None, [], [], [], map[], [], [], [])

  /** reserveNextSequence: past the last reservation when the fetched snapshot is not newer. */
  function NextSequence(last: Option<int>, fetched: int): int {
    if last.Some? && last.value >= fetched then last.value + 1 else fetched
  }

  /** The task's function is executing. */
  predicate Running(s: State, task: nat) {
    task in s.started && task !in s.finished
  }

  /** The promise the task awaits has been resolved. */
  predicate Released(s: State, task: nat)
    requires task < |s.previous|
  {
    s.previous[task].None? || s.previous[task].value in s.finished
  }

  function Reserved(s: State, fetched: int): State {
    var next := NextSequence(s.lastReserved, fetched);
    s.(lastReserved := Some(next), fetches := s.fetches + [fetched], reservations := s.reservations + [next])
  }

  function Step(s: State, e: Event): State {
    match e
    case Arrive =>
      s.(queue := Some(|s.previous|), previous := s.previous + [s.queue])
    case Start(t) =>
      if t < |s.previous| && t !in s.started && Released(s, t) then s.(started := s.started + [t]) else s
    case Reserve(t, fetched) =>
      if !Running(s, t) then s
      else Reserved(s, fetched).(holding := s.holding[t := NextSequence(s.lastReserved, fetched)])
    case ReserveDirect(fetched) => Reserved(s, fetched)
    case Broadcast(t) =>
      if !Running(s, t) || t !in s.holding then s
      else s.(broadcasts := s.broadcasts + [s.holding[t]], holding := s.holding - {t})
    case Finish(t) =>
      if !Running(s, t) then s
      else s.(finished := s.finished + [t], holding := s.holding - {t},
           queue := if s.queue == Some(t) then None else s.queue)
  }

  function ReservationBy(task: Option<nat>, fetched: int): Event {
    if task.Some? then Reserve(task.value, fetched) else ReserveDirect(fetched)
  }

  function Run(events: seq<Event>): State {
    if events == [] then FRESH else Step(Run(events[..|events| - 1]), events[|events| - 1])
  }

  /** AccountState and the functions that mutate it; the ghost fields record what the tasks did. */
  class AccountState {
    var queue: Option<nat>
    var lastReserved: Option<int>
    var arrived: nat
    ghost var previous: seq<Option<nat>>
    ghost var started: seq<nat>
    ghost var finished: seq<nat>
    ghost var holding: map<nat, int>
    ghost var fetches: seq<int>
    ghost var reservations: seq<int>
    ghost var broadcasts: seq<int>

    constructor ()
      ensures Snapshot() == FRESH && arrived == 0
    {
      queue, lastReserved, arrived := None, None, 0;
      previous, started, finished := [], [], [];
      fetches, reservations, broadcasts := [], [], [];
      holding := map[];
    }

    ghost function Snapshot(): State
      reads this
    {
      State(queue, lastReserved, previous, started, finished, holding, fetches, reservations, broadcasts)
    }

    /** The part of withAccountQueue before its `await`: take the tail, become the tail. */
    method Enqueue() returns (task: nat, awaited: Option<nat>)
      requires arrived == |previous|
      modifies this
      ensures arrived == |previous|
      ensures Snapshot() == Step(old(Snapshot()), Arrive)
      ensures task == old(arrived) && awaited == old(queue) == previous[task]
    {
      task, awaited := arrived, queue;
      queue := Some(task);
      arrived := arrived + 1;
      previous := previous + [awaited];
    }

    /** The `finally` of withAccountQueue. */
    method Release(task: nat)
      requires Running(Snapshot(), task)
      modifies this
      ensures Snapshot() == Step(old(Snapshot()), Finish(task)) && arrived == old(arrived)
    {
      finished := finished + [task];
      holding := holding - {task};
      if queue == Some(task) {
        queue := None;
      }
    }

    method ReserveNextSequence(fetched: int, ghost task: Option<nat>) returns (next: int)
      requires task.Some? ==> Running(Snapshot(), task.value)
      modifies this
      ensures arrived == old(arrived)
      ensures Snapshot() == Step(old(Snapshot()), ReservationBy(task, fetched))
      ensures next >= fetched && lastReserved == Some(next)
      ensures old(lastReserved).Some? ==> next > old(lastReserved).value
      ensures old(lastReserved).None? || old(lastReserved).value < fetched ==> next == fetched
    {
      if lastReserved.Some? && lastReserved.value >= fetched {
        next := lastReserved.value + 1;
      } else {
        next := fetched;
      }
      lastReserved := Some(next);
      fetches := fetches + [fetched];
      reservations := reservations + [next];
      if task.Some? {
        holding := holding[task.value := next];
      }
    }
  }

  // ---------------------------------------------------------------- the queue

  /** The first n arrivals, in order. */
  ghost predicate InArrivalOrder(s: seq<nat>) {
    forall i :: 0 <= i < |s| ==> s[i] == i
  }

  ghost predicate QueueInv(s: State) {
    && InArrivalOrder(s.started) && InArrivalOrder(s.finished)
    && |s.finished| <= |s.started| <= |s.finished| + 1
    && |s.started| <= |s.previous|
    && (forall i :: 0 <= i < |s.previous| ==>
                      if s.previous[i].Some? then i > 0 && s.previous[i].value == i - 1 else i <= |s.finished|)
    && (if s.queue.Some? then |s.previous| > 0 && s.queue.value == |s.previous| - 1
        else |s.finished| == |s.previous|)
  }

  lemma InOrderMembers(s: seq<nat>, t: nat)
    requires InArrivalOrder(s)
    ensures t in s <==> t < |s|
  {
    if t < |s| {
      assert s[t] == t;
    }
  }

  lemma StepKeepsQueueInv(s: State, e: Event)
    requires QueueInv(s)
    ensures QueueInv(Step(s, e))
  {
    if e.Start? || e.Finish? {
      InOrderMembers(s.started, e.task);
      InOrderMembers(s.finished, e.task);
      if e.Start? && e.task > 0 {
        InOrderMembers(s.finished, e.task - 1);
      }
    }
  }

  lemma {:induction false} RunKeepsQueueInv(events: seq<Event>)
    ensures QueueInv(Run(events))
  {
    if events != [] {
      RunKeepsQueueInv(events[..|events| - 1]);
      StepKeepsQueueInv(Run(events[..|events| - 1]), events[|events| - 1]);
    }
  }

  /**
   Under every interleaving at most one task of the account runs at a time, tasks start and finish in
   arrival order, and none is overtaken.
   */
  lemma {:induction false} TasksAreSerialized(events: seq<Event>, t: nat, u: nat)
    ensures var s := Run(events);
            && InArrivalOrder(s.started) && InArrivalOrder(s.finished)
            && (Running(s, t) && Running(s, u) ==> t == u)
            && (t < u && u in s.started ==> t in s.finished)
  {
    RunKeepsQueueInv(events);
    var s := Run(events);
    InOrderMembers(s.started, t);
    InOrderMembers(s.started, u);
    InOrderMembers(s.finished, t);
    InOrderMembers(s.finished, u);
  }

  /**
   No failure strands the queue: whenever a task waits and none runs, the longest-waiting task can start,
   and it is the only one that can.
   */
  lemma {:induction false} QueueNeverStalls(events: seq<Event>, t: nat)
    requires var s := Run(events);
             |s.started| < |s.previous| && forall u :: u in s.started ==> u in s.finished
    ensures var s := Run(events);
            t < |s.previous| && t !in s.started && Released(s, t) <==> t == |s.started|
  {
    RunKeepsQueueInv(events);
    var s := Run(events);
    InOrderMembers(s.started, t);
    if |s.started| > 0 {
      InOrderMembers(s.started, |s.started| - 1);
      InOrderMembers(s.finished, |s.started| - 1);
    }
    if t > 0 {
      InOrderMembers(s.finished, t - 1);
    }
  }

  // ---------------------------------------------------------------- sequences

  ghost predicate Increasing(s: seq<int>) {
    forall i, j :: 0 <= i < j < |s| ==> s[i] < s[j]
  }

  ghost predicate SequenceInv(s: State) {
    && Increasing(s.reservations) && Increasing(s.broadcasts)
    && (s.reservations != [] ==> s.lastReserved == Some(s.reservations[|s.reservations| - 1]))
    && (s.reservations == [] ==> s.lastReserved.None?)
    && (forall i :: 0 <= i < |s.broadcasts| ==> s.broadcasts[i] in s.reservations)
    && (forall t :: t in s.holding ==>
                      && Running(s, t) && s.holding[t] in s.reservations
                      && forall i :: 0 <= i < |s.broadcasts| ==> s.broadcasts[i] < s.holding[t])
  }

  lemma LastIsGreatest(s: seq<int>, x: int)
    requires Increasing(s) && x in s
    ensures x <= s[|s| - 1]
  {
  }

  lemma ReservedExceedsAll(s: State, fetched: int)
    requires SequenceInv(s)
    ensures var t := Reserved(s, fetched);
            && Increasing(t.reservations)
            && forall x :: x in s.reservations ==> x < NextSequence(s.lastReserved, fetched)
  {
    forall x | x in s.reservations
      ensures x < NextSequence(s.lastReserved, fetched)
    {
      LastIsGreatest(s.reservations, x);
    }
    assert forall i :: 0 <= i < |s.reservations| ==> s.reservations[i] in s.reservations;
  }

  lemma StepKeepsSequenceInv(s: State, e: Event)
    requires QueueInv(s) && SequenceInv(s)
    ensures SequenceInv(Step(s, e))
  {
    if e.Reserve? || e.ReserveDirect? {
      ReservedExceedsAll(s, e.fetched);
    } else if e.Broadcast? && Running(s, e.task) && e.task in s.holding {
      OneRunner(s);
    }
  }

  lemma OneRunner(s: State)
    requires QueueInv(s)
    ensures forall t, u :: Running(s, t) && Running(s, u) ==> t == u
  {
    forall t, u | Running(s, t) && Running(s, u)
      ensures t == u
    {
      InOrderMembers(s.started, t);
      InOrderMembers(s.started, u);
      InOrderMembers(s.finished, t);
      InOrderMembers(s.finished, u);
    }
  }

  lemma {:induction false} RunKeepsSequenceInv(events: seq<Event>)
    ensures SequenceInv(Run(events))
  {
    if events != [] {
      RunKeepsSequenceInv(events[..|events| - 1]);
      RunKeepsQueueInv(events[..|events| - 1]);
      StepKeepsSequenceInv(Run(events[..|events| - 1]), events[|events| - 1]);
    }
  }

  /**
   Reserved sequences strictly increase, whoever reserves them, and the transactions the queued tasks
   broadcast carry strictly increasing reserved sequences.
   */
  lemma {:induction false} SequencesIncrease(events: seq<Event>)
    ensures var s := Run(events);
            && Increasing(s.reservations) && Increasing(s.broadcasts)
            && forall i :: 0 <= i < |s.broadcasts| ==> s.broadcasts[i] in s.reservations
  {
    RunKeepsSequenceInv(events);
  }

  /** A reservation is never below the snapshot the account was fetched with, nor at or below an earlier one. */
  lemma {:induction false} ReservationIsFresh(events: seq<Event>, fetched: int, x: int)
    requires x in Run(events).reservations
    ensures fetched <= NextSequence(Run(events).lastReserved, fetched)
    ensures x < NextSequence(Run(events).lastReserved, fetched)
  {
    RunKeepsSequenceInv(events);
    ReservedExceedsAll(Run(events), fetched);
  }

  lemma RunSnoc(events: seq<Event>, e: Event)
    ensures Run(events + [e]) == Step(Run(events), e)
  {
    assert (events + [e])[..|events|] == events;
  }

  // ---------------------------------------------------------------- gaps

  /** Each reservation follows the one before it, unless the account was fetched further on. */
  ghost predicate ReservedFrom(s: State) {
    && |s.fetches| == |s.reservations|
    && forall k :: 0 < k < |s.reservations| ==>
                     s.reservations[k] == NextSequence(Some(s.reservations[k - 1]), s.fetches[k])
  }

  lemma {:induction false} RunReservesFrom(events: seq<Event>)
    ensures ReservedFrom(Run(events))
  {
    if events != [] {
      var front := events[..|events| - 1];
      RunReservesFrom(front);
      RunKeepsSequenceInv(front);
    }
  }

  ghost predicate NoneBetween(reservations: seq<int>, x: int, y: int) {
    forall k :: 0 <= k < |reservations| ==> !(x < reservations[k] < y)
  }

  /**
   Broadcast i, whose sequence was reserved k-th, is one past the broadcast before it exactly when no reservation
   lies between the two -- none that does was sent -- and the account was not fetched further on.
   */
  ghost predicate GapAt(s: State, i: int, k: int)
    requires 0 < i < |s.broadcasts| && 0 <= k < |s.fetches|
  {
    var before, here := s.broadcasts[i - 1], s.broadcasts[i];
    && NoneBetween(s.broadcasts, before, here)
    && (here == before + 1 <==> NoneBetween(s.reservations, before, here) && s.fetches[k] <= before + 1)
  }

  /**
   Where the gaps are, in every run.  A reservation is one past the reservation before it exactly when the account
   was not fetched further on than that.  A broadcast is one past the broadcast before it exactly when, besides, no
   reservation in between was left unsent.
   */
  lemma {:induction false} GapsExactly(events: seq<Event>, k: nat)
    requires 0 < k < |Run(events).reservations|
    ensures |Run(events).fetches| == |Run(events).reservations|
    ensures var s := Run(events);
            s.reservations[k] == s.reservations[k - 1] + 1 <==> s.fetches[k] <= s.reservations[k - 1] + 1
    ensures var s := Run(events);
            forall i :: 0 < i < |s.broadcasts| && s.broadcasts[i] == s.reservations[k] ==> GapAt(s, i, k)
  {
    hide Run;
    var s := Run(events);
    RunReservesFrom(events);
    RunKeepsSequenceInv(events);
    forall i | 0 < i < |s.broadcasts| && s.broadcasts[i] == s.reservations[k]
      ensures GapAt(s, i, k)
    {
      var before := s.broadcasts[i - 1];
      var j :| 0 <= j < |s.reservations| && s.reservations[j] == before;
      assert j < k;
      if NoneBetween(s.reservations, before, s.broadcasts[i]) {
        assert j == k - 1;
      }
    }
  }

  /** An attempt that stops before its broadcast leaves a gap: broadcasts need not use consecutive sequences. */
  lemma SequencesMayHaveGaps()
    ensures exists events: seq<Event> :: Run(events).broadcasts == [6] && Run(events).reservations == [5, 6]
  {
    hide Run;
    var e1 := [] + [Arrive];
    var e2 := e1 + [Start(0)];
    var e3 := e2 + [Reserve(0, 5)];
    var e4 := e3 + [Reserve(0, 5)];
    var e5 := e4 + [Broadcast(0)];
    EmptyRun();
    RunSnoc([], Arrive);
    RunSnoc(e1, Start(0));
    RunSnoc(e2, Reserve(0, 5));
    RunSnoc(e3, Reserve(0, 5));
    RunSnoc(e4, Broadcast(0));
    assert Run(e3).reservations == [5] && Run(e4).reservations == [5, 6] && Run(e4).holding == map[0 := 6];
    assert Run(e5).broadcasts == [6] && Run(e5).reservations == [5, 6];
  }

  lemma EmptyRun()
    ensures Run([]) == FRESH
  {
  }

  // ---------------------------------------------------------------- many accounts

  /** The (server, account key) pair a state is stored under. */
  datatype Key = Key(server: nat, account: string)

  function StateOf(m: map<Key, State>, k: Key): State {
    if k in m then m[k] else FRESH
  }

  function RunAll(events: seq<(Key, Event)>): map<Key, State> {
    if events == [] then map[]
    else
      var m, last := RunAll(events[..|events| - 1]), events[|events| - 1];
      m[last.0 := Step(StateOf(m, last.0), last.1)]
  }

  function Only(events: seq<(Key, Event)>, k: Key): seq<Event> {
    if events == [] then []
    else Only(events[..|events| - 1], k) + if events[|events| - 1].0 == k then [events[|events| - 1].1] else []
  }

  /** Accounts do not disturb each other: each one sees exactly its own events, in order. */
  lemma {:induction false} AccountsAreIndependent(events: seq<(Key, Event)>, k: Key)
    ensures StateOf(RunAll(events), k) == Run(Only(events, k))
  {
    if events != [] {
      var front, last := events[..|events| - 1], events[|events| - 1];
      AccountsAreIndependent(front, k);
      if last.0 == k {
        var own := Only(front, k) + [last.1];
        assert own[..|own| - 1] == Only(front, k);
      } else {
        assert Only(events, k) == Only(front, k);
      }
    }
  }
}
