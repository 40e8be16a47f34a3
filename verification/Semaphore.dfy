/**
 The FIFO counting semaphore (src/semaphore.ts) and the simulations it admits
 (src/preflight.ts, simulateLimited).

 A ticket names one call of `acquire`: tickets are handed out in call order.  `held` holds the tickets
 whose release function exists and has not run yet, which is what its `released` flag records.
 */
module Semaphore {

  datatype State = State(
    limit: nat,
    available: nat,
    waiters: seq<nat>,
    next: nat,           // the ticket of the next acquire call
    held: set<nat>,
    arrivals: seq<nat>,  // tickets that had to queue, in order of arrival
    granted: seq<nat>,   // queued tickets that got a slot, in the order they got it
    withdrawn: set<nat>) // queued tickets aborted while queued

  datatype Event =
    | Acquire(aborted: bool)
    | Abort(ticket: nat)
    | Release(ticket: nat)

  function Init(limit: nat): State {
    State(limit, limit, [], 0, {}, [], [], {})
  }

  function Without(s: seq<nat>, x: nat): (r: seq<nat>)
    ensures forall y :: y in r ==> y in s
    ensures x !in s ==> r == s
  {
    if s == [] then []
    else if s[0] == x then s[1..]
    else [s[0]] + Without(s[1..], x)
  }

  lemma {:induction false} WithoutAt(s: seq<nat>, x: nat, i: nat)
    requires i < |s| && s[i] == x && x !in s[..i]
    ensures Without(s, x) == s[..i] + s[i + 1..]
  {
    if i > 0 {
      assert s[1..][..i - 1] == s[..i][1..];
      WithoutAt(s[1..], x, i - 1);
      assert s[0] == s[..i][0];
      assert s[..i] == [s[0]] + s[1..][..i - 1];
    }
  }

  function Step(st: State, e: Event): State {
    match e
    case Acquire(aborted) =>
      if aborted then st.(next := st.next + 1)
      else if st.available > 0 then
        st.(available := st.available - 1, held := st.held + {st.next}, next := st.next + 1)
      else
        st.(waiters := st.waiters + [st.next], arrivals := st.arrivals + [st.next], next := st.next + 1)
    case Abort(t) =>
      if t in st.waiters then st.(waiters := Without(st.waiters, t), withdrawn := st.withdrawn + {t})
      else st
    case Release(t) =>
      if t !in st.held then st
      else if st.waiters == [] then st.(held := st.held - {t}, available := st.available + 1)
      else
        var head := st.waiters[0];
        st.(held := st.held - {t} + {head}, waiters := st.waiters[1..], granted := st.granted + [head])
  }

  function Run(limit: nat, events: seq<Event>): State {
    if events == [] then Init(limit)
    else Step(Run(limit, events[..|events| - 1]), events[|events| - 1])
  }

  class Semaphore {
    const limit: nat
    var available: nat
    var waiters: seq<nat>
    var next: nat
    ghost var held: set<nat>
    ghost var arrivals: seq<nat>
    ghost var granted: seq<nat>
    ghost var withdrawn: set<nat>

    constructor (limit: nat)
      requires limit > 0
      ensures Snapshot() == Init(limit)
    {
      this.limit, available, waiters, next := limit, limit, [], 0;
      held, arrivals, granted, withdrawn := {}, [], [], {};
    }

    ghost function Snapshot(): State
      reads this
    {
      State(limit, available, waiters, next, held, arrivals, granted, withdrawn)
    }

    /** `now` tells whether the caller got its slot at once; a queued caller learns it from Release. */
    method Acquire(aborted: bool) returns (ticket: nat, now: bool)
      modifies this
      ensures Snapshot() == Step(old(Snapshot()), Event.Acquire(aborted))
      ensures ticket == old(next) && (now <==> !aborted && old(available) > 0)
    {
      ticket, next := next, next + 1;
      if aborted {
        return ticket, false;
      }
      if available > 0 {
        available := available - 1;
        held := held + {ticket};
        return ticket, true;
      }
      waiters := waiters + [ticket];
      arrivals := arrivals + [ticket];
      now := false;
    }

    /** The abort listener: it is gone once the ticket is granted, and splices a queued ticket out. */
    method Abort(ticket: nat)
      modifies this
      ensures Snapshot() == Step(old(Snapshot()), Event.Abort(ticket))
    {
      var index := 0;
      while index < |waiters| && waiters[index] != ticket
        invariant 0 <= index <= |waiters|
        invariant ticket !in waiters[..index]
      {
        index := index + 1;
      }
      if index < |waiters| {
        WithoutAt(waiters, ticket, index);
        withdrawn := withdrawn + {ticket};
        waiters := waiters[..index] + waiters[index + 1..];
      }
    }

    /** One call of the release function of `ticket`; `released` is its flag. */
    method Release(ticket: nat, released: bool)
      requires released <==> ticket !in held
      modifies this
      ensures Snapshot() == Step(old(Snapshot()), Event.Release(ticket))
    {
      if released {
        return;
      }
      held := held - {ticket};
      if |waiters| > 0 {
        var head := waiters[0];
        waiters := waiters[1..];
        held := held + {head};
        granted := granted + [head];
      } else {
        available := available + 1;
      }
    }
  }

  // ---------------------------------------------------------------- conservation and fairness

  /** The arrivals that never withdrew, in order. */
  function Staying(arrivals: seq<nat>, withdrawn: set<nat>): seq<nat> {
    if arrivals == [] then []
    else
      var rest := Staying(arrivals[..|arrivals| - 1], withdrawn);
      if arrivals[|arrivals| - 1] in withdrawn then rest else rest + [arrivals[|arrivals| - 1]]
  }

  ghost predicate Ascending(s: seq<nat>) {
    forall i, j :: 0 <= i < j < |s| ==> s[i] < s[j]
  }

  /** The tickets granted from the queue, then those still queued, are the arrivals that did not withdraw. */
  ghost predicate Fair(st: State) {
    && st.granted + st.waiters == Staying(st.arrivals, st.withdrawn)
    && Ascending(st.arrivals)
    && (forall t :: t in st.arrivals ==> t < st.next)
  }

  /** No slot is lost, and nobody waits beside a free one. */
  ghost predicate Conserved(st: State) {
    && st.available + |st.held| == st.limit
    && (st.waiters != [] ==> st.available == 0)
    && (forall t :: t in st.held ==> t < st.next && t !in st.waiters && t !in st.withdrawn)
    && (forall t :: t in st.withdrawn ==> t < st.next)
  }

  ghost predicate Inv(st: State) {
    Fair(st) && Conserved(st)
  }

  lemma {:induction false} StayingMembers(arrivals: seq<nat>, withdrawn: set<nat>)
    requires Ascending(arrivals)
    ensures Ascending(Staying(arrivals, withdrawn))
    ensures forall t :: t in Staying(arrivals, withdrawn) <==> t in arrivals && t !in withdrawn
  {
    if arrivals != [] {
      var front, last := arrivals[..|arrivals| - 1], arrivals[|arrivals| - 1];
      StayingMembers(front, withdrawn);
      assert arrivals == front + [last];
      assert forall t :: t in front ==> t < last;
      var rest := Staying(front, withdrawn);
      assert forall i :: 0 <= i < |rest| ==> rest[i] in front;
    }
  }

  lemma {:induction false} FirstIndex(s: seq<nat>, x: nat) returns (i: nat)
    requires x in s
    ensures i < |s| && s[i] == x && x !in s[..i]
  {
    if s[0] == x {
      i := 0;
    } else {
      i := FirstIndex(s[1..], x);
      i := i + 1;
      assert s[..i] == [s[0]] + s[1..][..i - 1];
    }
  }

  lemma {:induction false} AscendingUnique(a: seq<nat>, b: seq<nat>)
    requires Ascending(a) && Ascending(b)
    requires forall t :: t in a <==> t in b
    ensures a == b
  {
    assert a != [] ==> a[0] in a;
    assert b != [] ==> b[0] in b;
    if a != [] {
      assert a[0] == b[0];
      assert forall t :: t in a[1..] <==> t in a && t != a[0];
      assert forall t :: t in b[1..] <==> t in b && t != b[0];
      AscendingUnique(a[1..], b[1..]);
    }
  }

  lemma DropFromAscending(s: seq<nat>, i: nat)
    requires Ascending(s) && i < |s|
    ensures var r := s[..i] + s[i + 1..];
            Ascending(r) && forall u :: u in r <==> u in s && u != s[i]
  {
    var r := s[..i] + s[i + 1..];
    assert forall k :: 0 <= k < |r| ==> r[k] == s[if k < i then k else k + 1];
    forall u | u in s && u != s[i]
      ensures u in r
    {
      var k :| 0 <= k < |s| && s[k] == u;
      assert r[if k < i then k else k - 1] == u;
    }
  }

  /** Withdrawing a staying ticket removes it from the staying arrivals and nothing else. */
  lemma StayingWithdraw(arrivals: seq<nat>, withdrawn: set<nat>, i: nat)
    requires Ascending(arrivals) && i < |Staying(arrivals, withdrawn)|
    ensures var all := Staying(arrivals, withdrawn);
            Staying(arrivals, withdrawn + {all[i]}) == all[..i] + all[i + 1..]
  {
    var all := Staying(arrivals, withdrawn);
    StayingMembers(arrivals, withdrawn);
    StayingMembers(arrivals, withdrawn + {all[i]});
    DropFromAscending(all, i);
    AscendingUnique(Staying(arrivals, withdrawn + {all[i]}), all[..i] + all[i + 1..]);
  }

  lemma StepKeepsInv(st: State, e: Event)
    requires Inv(st)
    ensures Inv(Step(st, e))
  {
    hide Fair, Conserved;
    match e {
      case Acquire(aborted) =>
        Arrives(st, aborted);
      case Abort(t) =>
        if t in st.waiters {
          WaiterLeaves(st, t);
        }
      case Release(t) =>
        if t in st.held {
          if st.waiters == [] {
            SlotComesBack(st, t);
          } else {
            HeadLeaves(st, t);
          }
        }
    }
  }

  lemma {:induction false} StayingSnoc(arrivals: seq<nat>, withdrawn: set<nat>, t: nat)
    requires t !in withdrawn
    ensures Staying(arrivals + [t], withdrawn) == Staying(arrivals, withdrawn) + [t]
  {
    assert (arrivals + [t])[..|arrivals|] == arrivals;
  }

  /** A caller takes a free slot, gives up, or queues behind everyone else. */
  lemma Arrives(st: State, aborted: bool)
    requires Inv(st)
    ensures Inv(Step(st, Acquire(aborted)))
  {
    if !aborted && st.available == 0 {
      StayingSnoc(st.arrivals, st.withdrawn, st.next);
      forall i | 0 <= i < |st.arrivals| ensures st.arrivals[i] < st.next {
        assert st.arrivals[i] in st.arrivals;
      }
      assert st.granted + (st.waiters + [st.next]) == (st.granted + st.waiters) + [st.next];
    } else if !aborted {
      WaitersArrived(st);
      assert st.next !in st.held;
      assert |st.held + {st.next}| == |st.held| + 1;
    }
  }

  lemma SlotComesBack(st: State, t: nat)
    requires Inv(st) && t in st.held && st.waiters == []
    ensures Inv(Step(st, Release(t)))
  {
    assert |st.held - {t}| == |st.held| - 1;
  }

  /** Queued tickets have arrived and not withdrawn. */
  lemma WaitersArrived(st: State)
    requires Fair(st)
    ensures forall t :: t in st.waiters || t in st.granted ==> t in st.arrivals && t !in st.withdrawn
  {
    StayingMembers(st.arrivals, st.withdrawn);
    var all := st.granted + st.waiters;
    assert forall t :: t in st.waiters || t in st.granted ==> t in all;
  }

  /** Splicing an aborted waiter out of the queue. */
  lemma WaiterLeaves(st: State, t: nat)
    requires Inv(st) && t in st.waiters
    ensures Inv(Step(st, Abort(t)))
  {
    WaitersArrived(st);
    assert t !in st.held;
    QueueWithout(st, t);
  }

  lemma QueueWithout(st: State, t: nat)
    requires Fair(st) && t in st.waiters
    ensures st.granted + Without(st.waiters, t) == Staying(st.arrivals, st.withdrawn + {t})
  {
    var i := FirstIndex(st.waiters, t);
    WithoutAt(st.waiters, t, i);
    var all, g := st.granted + st.waiters, |st.granted|;
    StayingWithdraw(st.arrivals, st.withdrawn, g + i);
    assert all[g + i] == t;
    assert all[..g + i] + all[g + i + 1..] == st.granted + (st.waiters[..i] + st.waiters[i + 1..]);
  }

  /** Handing the released slot to the first waiter. */
  lemma HeadLeaves(st: State, t: nat)
    requires Inv(st) && t in st.held && st.waiters != []
    ensures Inv(Step(st, Release(t)))
  {
    var head := st.waiters[0];
    WaitersArrived(st);
    HeadIsOnce(st);
    assert st.granted + [head] + st.waiters[1..] == st.granted + st.waiters;
    assert head in st.waiters && head !in st.held;
    assert |st.held - {t}| == |st.held| - 1;
    assert |st.held - {t} + {head}| == |st.held - {t}| + 1;
    forall u | u in st.waiters[1..] ensures u in st.waiters {}
  }

  lemma HeadIsOnce(st: State)
    requires Fair(st) && st.waiters != []
    ensures st.waiters[0] !in st.waiters[1..]
  {
    StayingMembers(st.arrivals, st.withdrawn);
    var all, g := st.granted + st.waiters, |st.granted|;
    assert Ascending(all);
    forall i | 0 <= i < |st.waiters| - 1 ensures st.waiters[1..][i] != st.waiters[0] {
      assert all[g + (i + 1)] == st.waiters[1..][i] && all[g] == st.waiters[0];
    }
  }

  /**
   In every reachable state the slots are conserved, nobody waits beside a free slot, the tickets
   granted from the queue followed by those still queued are exactly the arrivals that did not
   withdraw, in arrival order, and a withdrawn ticket holds no slot.
   */
  lemma {:induction false} Conservation(limit: nat, events: seq<Event>)
    ensures Inv(Run(limit, events)) && Run(limit, events).limit == limit
  {
    if events != [] {
      Conservation(limit, events[..|events| - 1]);
      StepKeepsInv(Run(limit, events[..|events| - 1]), events[|events| - 1]);
    }
  }

  /**
   First come, first served: of two queued tickets the later one gets a slot only after the earlier, unless that
   withdrew.
   */
  lemma FirstComeFirstServed(limit: nat, events: seq<Event>, early: nat, late: nat)
    requires early < late
    requires var st := Run(limit, events);
             early in st.arrivals && early !in st.withdrawn && late in st.granted
    ensures var st := Run(limit, events);
            exists i, j :: 0 <= i < j < |st.granted| && st.granted[i] == early && st.granted[j] == late
  {
    Conservation(limit, events);
    var st := Run(limit, events);
    StayingMembers(st.arrivals, st.withdrawn);
    var all := st.granted + st.waiters;
    assert early in all;
    var i :| 0 <= i < |all| && all[i] == early;
    var j :| 0 <= j < |st.granted| && st.granted[j] == late;
    assert all[j] == late && i < j;
    assert st.granted[i] == early;
  }

  /** An aborted waiter never holds a slot, not even later on. */
  lemma {:induction false} WithdrawnNeverHolds(limit: nat, events: seq<Event>, more: seq<Event>, t: nat)
    requires t in Run(limit, events).withdrawn
    ensures t in Run(limit, events + more).withdrawn
    ensures t !in Run(limit, events + more).held && t !in Run(limit, events + more).granted
  {
    if more == [] {
      assert events + more == events;
    } else {
      var front := more[..|more| - 1];
      WithdrawnNeverHolds(limit, events, front, t);
      assert (events + more)[..|events + more| - 1] == events + front;
    }
    var st := Run(limit, events + more);
    Conservation(limit, events + more);
    StayingMembers(st.arrivals, st.withdrawn);
    assert t !in st.granted + st.waiters;
    assert forall u :: u in st.granted ==> u in st.granted + st.waiters;
  }

  /** Calling a release function again changes nothing. */
  lemma ReleaseIsIdempotent(limit: nat, events: seq<Event>, t: nat)
    ensures Run(limit, events + [Release(t)] + [Release(t)]) == Run(limit, events + [Release(t)])
  {
    var once := events + [Release(t)];
    assert once[..|once| - 1] == events;
    assert (once + [Release(t)])[..|once|] == once;
    Conservation(limit, events);
  }
}
