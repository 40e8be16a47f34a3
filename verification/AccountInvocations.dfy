/**
 The invocations of one account in its queue (src/invoke.ts): withAccountQueue around the retry loop, and the sequence
 each attempt reserves.

 Task t of the queue runs job t.  While it runs it goes through the log of its invocation, one event at a time; asking
 the guard fetches the account and reserves a sequence, and the broadcast that may follow uses the one reserved.
 */
module AccountInvocations {
  import opened Wrappers
  import opened Invoke
  import InvokeSafety
  import Queue = AccountQueue

  /** An invocation waiting to run: its options, its deadline and what will happen to its attempts. */
  datatype Job = Job(cfg: Config, deadline: Option<int>, env: nat -> Attempt)

  const IDLE_ATTEMPT := Attempt(0, EnforceError, 0, false, 0, RequestFailed, 0, 0.0, 0, 0)

  /** Options that validateInvokeOptions lets through. */
  type ValidJob = j: Job | j.cfg.Valid() witness Job(Config(1, None, 1, 1, 0.0, 0.0), None, n => IDLE_ATTEMPT)

  function LogOf(job: ValidJob): seq<Event> {
    Invocation(job.cfg, job.deadline, job.env).log
  }

  /** A transaction handed to the network, and the sequence it was built on. */
  datatype Transaction = Transaction(task: nat, attempt: nat, sequence: int)

  datatype System = System(queue: Queue.State, progress: map<nat, nat>, sent: seq<Transaction>) {
    /** How much of its log a task has been through. */
    function Position(t: nat): nat {
      if t in progress then progress[t] else 0
    }
  }

  datatype Action =
    | Arrive
    | Start(task: nat)
    | Proceed(task: nat, fetched: Option<int>) // the next event of the task's log; the account fetched on the way
    | Direct(snapshot: int)                    // enforceCall used outside the queue
    | Finish(task: nat)                        // only after the whole log

  const IDLE := System(Queue.FRESH, map[], [])

  /** One event of a running task.  A guard that was asked for an answer was asked with a reserved sequence. */
  function Advance(s: System, t: nat, e: Event, fetched: Option<int>): System {
    var next := s.(progress := s.progress[t := s.Position(t) + 1]);
    match e
    case Enforced(_, answer) =>
      if fetched.Some? then next.(queue := Queue.Step(s.queue, Queue.Reserve(t, fetched.value)))
      else if answer.EnforceAdmissible? || answer.EnforceBlocked? then s
      else next
    case Assembled(_) => next
    case Broadcast(n) =>
      if t !in s.queue.holding then next
      else next.(queue := Queue.Step(s.queue, Queue.Broadcast(t)),
                 sent := s.sent + [Transaction(t, n, s.queue.holding[t])])
  }

  function Step(jobs: nat -> ValidJob, s: System, a: Action): System {
    match a
    case Arrive => s.(queue := Queue.Step(s.queue, Queue.Arrive))
    case Start(t) => s.(queue := Queue.Step(s.queue, Queue.Start(t)))
    case Proceed(t, fetched) =>
      if !Queue.Running(s.queue, t) || s.Position(t) >= |LogOf(jobs(t))| then s
      else Advance(s, t, LogOf(jobs(t))[s.Position(t)], fetched)
    case Direct(snapshot) => s.(queue := Queue.Step(s.queue, Queue.ReserveDirect(snapshot)))
    case Finish(t) =>
      if s.Position(t) < |LogOf(jobs(t))| then s else s.(queue := Queue.Step(s.queue, Queue.Finish(t)))
  }

  function Run(jobs: nat -> ValidJob, actions: seq<Action>): System {
    if actions == [] then IDLE
    else Step(jobs, Run(jobs, actions[..|actions| - 1]), actions[|actions| - 1])
  }

  /** The attempts of one task among the transactions sent, in order. */
  function AttemptsOf(sent: seq<Transaction>, t: nat): seq<nat> {
    if sent == [] then []
    else
      var last := sent[|sent| - 1];
      AttemptsOf(sent[..|sent| - 1], t) + if last.task == t then [last.attempt] else []
  }

  // ---------------------------------------------------------------- a broadcast comes after its reservation

  /** The last attempt in the log was admitted and has not broadcast yet. */
  predicate Admitted(log: seq<Event>) {
    log != [] &&
    match log[|log| - 1]
    case Enforced(_, answer) => answer.EnforceAdmissible?
    case Assembled(_) => Admitted(log[..|log| - 1])
    case Broadcast(_) => false
  }

  ghost predicate InOrder(log: seq<Event>) {
    forall q :: 0 <= q < |log| && log[q].Broadcast? ==> Admitted(log[..q])
  }

  lemma InOrderNext(log: seq<Event>, e: Event)
    requires InOrder(log) && (e.Broadcast? ==> Admitted(log))
    ensures InOrder(log + [e])
  {
    hide Admitted;
    forall q | 0 <= q < |log + [e]| && (log + [e])[q].Broadcast?
      ensures Admitted((log + [e])[..q])
    {
      assert (log + [e])[..q] == log[..q];
      assert q == |log| ==> log[..q] == log;
    }
  }

  lemma AdmittedNext(log: seq<Event>, n: nat)
    ensures Admitted(log + [Enforced(n, EnforceAdmissible)])
    ensures Admitted(log) ==> Admitted(log + [Assembled(n)])
  {
    assert (log + [Assembled(n)])[..|log|] == log;
  }

  lemma TraceInOrder(deadline: Option<int>, a: Attempt, n: nat, before: seq<Event>)
    requires InOrder(before)
    ensures InOrder(before + Trace(deadline, a, n))
  {
    hide InOrder, Admitted;
    var one := before + [Enforced(n, a.enforcement)];
    InOrderNext(before, Enforced(n, a.enforcement));
    AdmittedNext(before, n);
    AdmittedNext(one, n);
    InOrderNext(one, Assembled(n));
    var two := one + [Assembled(n)];
    var after := before + Trace(deadline, a, n);
    if |Trace(deadline, a, n)| == 1 {
      assert after == one;
    } else if |Trace(deadline, a, n)| == 2 {
      assert after == two;
    } else {
      InOrderNext(two, Broadcast(n));
      assert after == two + [Broadcast(n)];
    }
  }

  lemma {:induction false} LoopInOrder(cfg: Config, deadline: Option<int>, env: nat -> Attempt, v: Vars)
    requires cfg.Valid() && v.attempts < cfg.Budget() && InOrder(v.log)
    ensures InOrder(Loop(cfg, deadline, env, v).log)
    decreases cfg.Budget() - v.attempts
  {
    hide InOrder, Trace, Pipeline, SleepFor, NextFee, Expired;
    TraceInOrder(deadline, env(v.attempts + 1), v.attempts + 1, v.log);
    match Iterate(cfg, deadline, env, v) {
      case Stop(r) =>
      case Continue(w) => LoopInOrder(cfg, deadline, env, w);
    }
  }

  /** The next event of an invocation is a broadcast only when the attempt it belongs to stands admitted. */
  lemma LogInOrder(job: ValidJob)
    ensures InOrder(LogOf(job))
  {
    LoopInOrder(job.cfg, job.deadline, job.env, Vars(0, job.cfg.initialFee, [], 0, [], []));
  }

  // ---------------------------------------------------------------- what every step keeps

  /** A task that stands admitted holds a sequence; what it has sent is what its log has broadcast so far. */
  ghost predicate TaskInv(log: seq<Event>, s: System, t: nat) {
    && s.Position(t) <= |log|
    && (Queue.Running(s.queue, t) && Admitted(log[..s.Position(t)]) ==> t in s.queue.holding)
    && AttemptsOf(s.sent, t) == Sends(log[..s.Position(t)])
    && (t in s.queue.finished ==> s.Position(t) == |log|)
    && (t !in s.queue.started ==> s.Position(t) == 0)
  }

  /** The transactions sent are the queue's broadcasts, task after task in the order of arrival. */
  ghost predicate SentInv(s: System) {
    && |s.sent| == |s.queue.broadcasts|
    && (forall i :: 0 <= i < |s.sent| ==>
                      && s.sent[i].sequence == s.queue.broadcasts[i]
                      && s.sent[i].task in s.queue.started)
    && (forall i, j :: 0 <= i < j < |s.sent| ==> s.sent[i].task <= s.sent[j].task)
  }

  ghost predicate QueueOk(q: Queue.State) {
    Queue.QueueInv(q) && Queue.SequenceInv(q)
  }

  ghost predicate Inv(jobs: nat -> ValidJob, s: System) {
    QueueOk(s.queue) && SentInv(s) && forall t: nat :: TaskInv(LogOf(jobs(t)), s, t)
  }

  lemma QueueStepKeepsOk(q: Queue.State, e: Queue.Event)
    requires QueueOk(q)
    ensures QueueOk(Queue.Step(q, e))
  {
    hide Queue.Step, Queue.QueueInv, Queue.SequenceInv;
    Queue.StepKeepsQueueInv(q, e);
    Queue.StepKeepsSequenceInv(q, e);
  }

  /** The running task arrived last of those that have started. */
  lemma RunnerIsLast(q: Queue.State, t: nat, u: nat)
    requires QueueOk(q) && Queue.Running(q, t) && u in q.started
    ensures u <= t
  {
    Queue.InOrderMembers(q.started, u);
    Queue.InOrderMembers(q.started, t);
    Queue.InOrderMembers(q.finished, t);
  }

  lemma AttemptsSnoc(sent: seq<Transaction>, x: Transaction, t: nat)
    ensures AttemptsOf(sent + [x], t) == AttemptsOf(sent, t) + if x.task == t then [x.attempt] else []
  {
    assert (sent + [x])[..|sent|] == sent;
  }

  lemma SendsNext(log: seq<Event>, k: nat)
    requires k < |log|
    ensures Sends(log[..k + 1]) == Sends(log[..k]) + if log[k].Broadcast? then [log[k].attempt] else []
  {
    assert log[..k + 1][..k] == log[..k];
  }

  /** A step of the queue that sends nothing, takes no held sequence from a runner and lets the finished rest. */
  lemma QueueStepKeepsTask(log: seq<Event>, s: System, t: nat, e: Queue.Event)
    requires QueueOk(s.queue) && SentInv(s) && TaskInv(log, s, t)
    requires e.Arrive? || e.Start? || e.ReserveDirect? || e.Finish?
    requires e == Queue.Finish(t) ==> s.Position(t) == |log|
    ensures TaskInv(log, s.(queue := Queue.Step(s.queue, e)), t)
  {
    hide AttemptsOf, Sends, Queue.QueueInv, Queue.SequenceInv;
    if e.Start? {
      assert log[..0] == [];
    }
  }

  lemma QueueStepKeepsSent(s: System, e: Queue.Event)
    requires SentInv(s)
    requires e.Arrive? || e.Start? || e.ReserveDirect? || e.Finish? || e.Reserve?
    ensures SentInv(s.(queue := Queue.Step(s.queue, e)))
  {
  }

  lemma AdvanceKeepsOwn(log: seq<Event>, s: System, t: nat, fetched: Option<int>)
    requires TaskInv(log, s, t) && Queue.Running(s.queue, t) && s.Position(t) < |log| && InOrder(log)
    ensures TaskInv(log, Advance(s, t, log[s.Position(t)], fetched), t)
  {
    hide AttemptsOf, Sends;
    var k := s.Position(t);
    SendsNext(log, k);
    assert log[..k + 1][..k] == log[..k];
    if log[k].Broadcast? {
      AttemptsSnoc(s.sent, Transaction(t, log[k].attempt, s.queue.holding[t]), t);
    }
  }

  lemma AdvanceKeepsOther(log: seq<Event>, s: System, t: nat, e: Event, fetched: Option<int>, u: nat)
    requires TaskInv(log, s, u) && t != u
    ensures TaskInv(log, Advance(s, t, e, fetched), u)
  {
    hide AttemptsOf, Sends, Admitted;
    if e.Broadcast? && t in s.queue.holding {
      AttemptsSnoc(s.sent, Transaction(t, e.attempt, s.queue.holding[t]), u);
    }
  }

  lemma AdvanceKeepsSent(s: System, t: nat, e: Event, fetched: Option<int>)
    requires QueueOk(s.queue) && SentInv(s) && Queue.Running(s.queue, t)
    ensures QueueOk(Advance(s, t, e, fetched).queue) && SentInv(Advance(s, t, e, fetched))
  {
    hide QueueOk;
    QueueStepKeepsOk(s.queue, Queue.Broadcast(t));
    if fetched.Some? {
      QueueStepKeepsOk(s.queue, Queue.Reserve(t, fetched.value));
    }
    forall i | 0 <= i < |s.sent|
      ensures s.sent[i].task <= t
    {
      RunnerIsLast(s.queue, t, s.sent[i].task);
    }
  }

  lemma StepKeepsInv(jobs: nat -> ValidJob, s: System, a: Action)
    requires Inv(jobs, s)
    ensures Inv(jobs, Step(jobs, s, a))
  {
    hide TaskInv, QueueOk, SentInv, Queue.Step, LogOf, Advance;
    var next := Step(jobs, s, a);
    if a.Proceed? {
      var t := a.task;
      var log := LogOf(jobs(t));
      if Queue.Running(s.queue, t) && s.Position(t) < |log| {
        LogInOrder(jobs(t));
        AdvanceKeepsOwn(log, s, t, a.fetched);
        AdvanceKeepsSent(s, t, log[s.Position(t)], a.fetched);
        forall u: nat | u != t
          ensures TaskInv(LogOf(jobs(u)), next, u)
        {
          AdvanceKeepsOther(LogOf(jobs(u)), s, t, log[s.Position(t)], a.fetched, u);
        }
      }
    } else if next != s {
      QueueActionKeepsInv(jobs, s, a);
    }
  }

  lemma QueueActionKeepsInv(jobs: nat -> ValidJob, s: System, a: Action)
    requires Inv(jobs, s) && !a.Proceed?
    ensures Inv(jobs, Step(jobs, s, a))
  {
    hide TaskInv, QueueOk, SentInv, Queue.Step, LogOf;
    if a.Finish? && s.Position(a.task) < |LogOf(jobs(a.task))| {
      return;
    }
    var e := match a
      case Arrive => Queue.Arrive
      case Start(t) => Queue.Start(t)
      case Direct(snapshot) => Queue.ReserveDirect(snapshot)
      case Finish(t) => Queue.Finish(t);
    QueueStepKeepsOk(s.queue, e);
    QueueStepKeepsSent(s, e);
    forall u: nat
      ensures TaskInv(LogOf(jobs(u)), s.(queue := Queue.Step(s.queue, e)), u)
    {
      assert TaskInv(LogOf(jobs(u)), s, u);
      if a.Finish? && a.task == u {
        PositionWithin(LogOf(jobs(u)), s, u);
      }
      QueueStepKeepsTask(LogOf(jobs(u)), s, u, e);
    }
  }

  lemma PositionWithin(log: seq<Event>, s: System, t: nat)
    requires TaskInv(log, s, t)
    ensures s.Position(t) <= |log|
  {
    hide Admitted, AttemptsOf, Sends;
  }

  lemma IdleInv(jobs: nat -> ValidJob)
    ensures Inv(jobs, IDLE)
  {
    hide LogOf, Admitted;
    forall t: nat
      ensures TaskInv(LogOf(jobs(t)), IDLE, t)
    {
      assert LogOf(jobs(t))[..0] == [];
    }
  }

  lemma {:induction false} RunKeepsInv(jobs: nat -> ValidJob, actions: seq<Action>)
    ensures Inv(jobs, Run(jobs, actions))
  {
    hide Inv, Step;
    if actions == [] {
      IdleInv(jobs);
    } else {
      var front := actions[..|actions| - 1];
      RunKeepsInv(jobs, front);
      StepKeepsInv(jobs, Run(jobs, front), actions[|actions| - 1]);
    }
  }

  // ---------------------------------------------------------------- the transactions of an account

  /** Later transactions belong to the same task or a later one, and carry a greater sequence. */
  ghost predicate InSequence(sent: seq<Transaction>) {
    forall i, j :: 0 <= i < j < |sent| ==> sent[i].task <= sent[j].task && sent[i].sequence < sent[j].sequence
  }

  /**
   The transactions of one account, over every interleaving of its invocations, of reservations made outside the
   queue and of anything the fetched account may say: they leave task after task, in the order the invocations
   arrived, and each carries a sequence that was reserved and exceeds those of all before it.
   */
  lemma {:induction false} TransactionsAreInSequence(jobs: nat -> ValidJob, actions: seq<Action>)
    ensures InSequence(Run(jobs, actions).sent)
    ensures var s := Run(jobs, actions);
            forall i :: 0 <= i < |s.sent| ==> s.sent[i].sequence in s.queue.reservations
  {
    hide Run, TaskInv, Queue.QueueInv;
    RunKeepsInv(jobs, actions);
  }

  /**
   Nothing an invocation broadcasts is lost or added on the way: task t has sent the attempts that the part of its
   log it went through broadcasts, and once it has finished that is the whole log.
   */
  lemma {:induction false} TransactionsFollowTheLogs(jobs: nat -> ValidJob, actions: seq<Action>, t: nat)
    ensures var s, log := Run(jobs, actions), LogOf(jobs(t));
            && s.Position(t) <= |log| && AttemptsOf(s.sent, t) == Sends(log[..s.Position(t)])
            && (t in s.queue.finished ==> AttemptsOf(s.sent, t) == Sends(log))
  {
    hide Run, LogOf, Sends, AttemptsOf, Admitted, QueueOk, SentInv;
    RunKeepsInv(jobs, actions);
    var s, log := Run(jobs, actions), LogOf(jobs(t));
    assert TaskInv(log, s, t);
    assert log[..|log|] == log;
  }

  lemma {:induction false} AttemptsAppend(a: seq<Transaction>, b: seq<Transaction>, t: nat)
    ensures AttemptsOf(a + b, t) == AttemptsOf(a, t) + AttemptsOf(b, t)
  {
    if b == [] {
      assert a + b == a;
    } else {
      assert (a + b)[..|a + b| - 1] == a + b[..|b| - 1];
      AttemptsAppend(a, b[..|b| - 1], t);
    }
  }

  /** Two transactions of one task are two attempts of it, the earlier one not the last. */
  lemma SameTaskTwice(sent: seq<Transaction>, i: nat, j: nat)
    requires i < j < |sent| && sent[i].task == sent[j].task
    ensures var all, k := AttemptsOf(sent, sent[i].task), |AttemptsOf(sent[..i], sent[i].task)|;
            k + 1 < |all| && all[k] == sent[i].attempt
  {
    hide AttemptsOf;
    var t := sent[i].task;
    var between := sent[i + 1..j];
    var rest := sent[j + 1..];
    assert sent == sent[..i] + [sent[i]] + between + [sent[j]] + rest;
    AttemptsAppend(sent[..i] + [sent[i]] + between + [sent[j]], rest, t);
    AttemptsSnoc(sent[..i] + [sent[i]] + between, sent[j], t);
    AttemptsAppend(sent[..i] + [sent[i]], between, t);
    AttemptsSnoc(sent[..i], sent[i], t);
  }

  /**
   A transaction that may have taken effect closes its invocation: whatever the account sends after it belongs to an
   invocation that arrived later.
   */
  lemma {:induction false} EffectClosesInvocation(jobs: nat -> ValidJob, actions: seq<Action>, i: nat, j: nat)
    requires i < j < |Run(jobs, actions).sent|
    requires var x := Run(jobs, actions).sent[i];
             MayTakeEffect(jobs(x.task).env(x.attempt).submission)
    ensures Run(jobs, actions).sent[i].task < Run(jobs, actions).sent[j].task
  {
    hide Run, Sends, AttemptsOf, Invocation, MayTakeEffect;
    TransactionsAreInSequence(jobs, actions);
    var s := Run(jobs, actions);
    var t := s.sent[i].task;
    if s.sent[j].task == t {
      var log := LogOf(jobs(t));
      var k := |AttemptsOf(s.sent[..i], t)|;
      SameTaskTwice(s.sent, i, j);
      TransactionsFollowTheLogs(jobs, actions, t);
      SendsAppend(log[..s.Position(t)], log[s.Position(t)..]);
      assert log == log[..s.Position(t)] + log[s.Position(t)..];
      InvokeSafety.RebroadcastFollowsRejection(jobs(t).cfg, jobs(t).deadline, jobs(t).env, k);
      assert false;
    }
  }
}
