/**
 Batch pre-flight (src/preflight.ts, checkBatch): every call gets its own verdict, and the transfers among
 the admissible ones are staged, in order, against the rolling-window cap.
 */
module BatchStaging {
  import opened Wrappers
  import opened VerdictCache

  /** A call of the batch: the verdict of its own check, and the amount it moves when it is a transfer. */
  datatype Call = Call(own: Verdict, amount: Option<int>) {
    /** A call that the staging has to account for. */
    predicate Spends() {
      own.Admissible? && amount.Some? && amount.value > 0
    }
  }

  /** The policy and window snapshot; a failed read is "not known", and an absent policy has cap 0. */
  datatype Snapshot = Snapshot(policyKnown: bool, cap: int, windowKnown: bool, spent: int) {
    /** A positive transfer cannot be staged from this snapshot. */
    predicate Blind() {
      !policyKnown || (cap > 0 && !windowKnown)
    }
  }

  datatype Kind = AllAdmissible | SomeBlocked | SomeUndetermined

  datatype Decision = Decision(kind: Kind, verdicts: seq<Verdict>, totalFee: nat)

  /** The variables of the staging loop. */
  datatype Stage = Stage(staged: int, fee: nat, verdicts: seq<Verdict>, unavailable: bool)

  const CAP_EXCEEDED := Blocked("window_cap_exceeded")

  function StageCall(w: Snapshot, s: Stage, c: Call): Stage {
    if !c.Spends() then
      s.(verdicts := s.verdicts + [c.own], fee := s.fee + if c.own.Admissible? then c.own.fee else 0)
    else if s.unavailable || w.Blind() then
      s.(verdicts := s.verdicts + [Undetermined], unavailable := true)
    else if w.cap > 0 && w.spent + s.staged + c.amount.value > w.cap then
      s.(verdicts := s.verdicts + [CAP_EXCEEDED])
    else
      Stage(s.staged + (if w.cap > 0 then c.amount.value else 0), s.fee + c.own.fee, s.verdicts + [c.own],
          s.unavailable)
  }

  function StageAll(w: Snapshot, calls: seq<Call>): Stage {
    if calls == [] then Stage(0, 0, [], false)
    else StageCall(w, StageAll(w, calls[..|calls| - 1]), calls[|calls| - 1])
  }

  predicate HasBlocked(verdicts: seq<Verdict>) {
    exists i :: 0 <= i < |verdicts| && verdicts[i].Blocked?
  }

  predicate HasUndetermined(verdicts: seq<Verdict>) {
    exists i :: 0 <= i < |verdicts| && verdicts[i].Undetermined?
  }

  function KindOf(verdicts: seq<Verdict>): Kind {
    if HasBlocked(verdicts) then SomeBlocked
    else if HasUndetermined(verdicts) then SomeUndetermined
    else AllAdmissible
  }

  lemma OneMoreVerdict(verdicts: seq<Verdict>, v: Verdict)
    ensures HasBlocked(verdicts + [v]) <==> HasBlocked(verdicts) || v.Blocked?
    ensures HasUndetermined(verdicts + [v]) <==> HasUndetermined(verdicts) || v.Undetermined?
  {
    var all := verdicts + [v];
    assert all[|verdicts|] == v;
    assert forall i :: 0 <= i < |verdicts| ==> all[i] == verdicts[i];
  }

  lemma StageSnoc(w: Snapshot, calls: seq<Call>, n: nat)
    requires n < |calls|
    ensures StageAll(w, calls[..n + 1]) == StageCall(w, StageAll(w, calls[..n]), calls[n])
  {
    assert calls[..n + 1][..n] == calls[..n];
  }

  function Decide(w: Snapshot, calls: seq<Call>): Decision {
    var s := StageAll(w, calls);
    Decision(KindOf(s.verdicts), s.verdicts, s.fee)
  }

  lemma NothingStaged(w: Snapshot)
    ensures StageAll(w, []) == Stage(0, 0, [], false) && !HasBlocked([]) && !HasUndetermined([])
  {
  }

  method CheckBatch(w: Snapshot, calls: seq<Call>) returns (d: Decision)
    ensures d == Decide(w, calls)
  {
    hide HasBlocked, HasUndetermined, StageAll;
    NothingStaged(w);
    var staged, unavailable := 0, false;
    var fee: nat := 0;
    var verdicts: seq<Verdict> := [];
    var hasBlocked, hasUndetermined := false, false;
    for n := 0 to |calls|
      invariant |verdicts| == n
      invariant Stage(staged, fee, verdicts, unavailable) == StageAll(w, calls[..n])
      invariant hasBlocked == HasBlocked(verdicts) && hasUndetermined == HasUndetermined(verdicts)
    {
      var c := calls[n];
      StageSnoc(w, calls, n);
      ghost var before := verdicts;
      if c.own.Admissible? {
        var verdict := c.own;
        if c.amount.Some? && c.amount.value > 0 {
          var amount := c.amount.value;
          if !w.policyKnown {
            unavailable := true;
          } else if w.cap > 0 && !w.windowKnown {
            unavailable := true;
          }
          if unavailable {
            verdict := Undetermined;
          } else if w.cap > 0 {
            if w.spent + staged + amount > w.cap {
              verdict := CAP_EXCEEDED;
            } else {
              staged := staged + amount;
            }
          }
        }
        verdicts := verdicts + [verdict];
        if verdict.Admissible? {
          fee := fee + verdict.fee;
        }
      } else {
        verdicts := verdicts + [c.own];
      }
      OneMoreVerdict(before, verdicts[n]);
      hasBlocked := hasBlocked || verdicts[n].Blocked?;
      hasUndetermined := hasUndetermined || verdicts[n].Undetermined?;
    }
    assert calls[..|calls|] == calls;
    d := Decision(if hasBlocked then SomeBlocked else if hasUndetermined then SomeUndetermined else AllAdmissible,
                  verdicts, fee);
  }

  // ---------------------------------------------------------------- closed form

  /** The sum of f over the batch. */
  function Sum(f: Call -> nat, calls: seq<Call>): nat {
    if calls == [] then 0 else Sum(f, calls[..|calls| - 1]) + f(calls[|calls| - 1])
  }

  function Spend(c: Call): nat {
    if c.Spends() then c.amount.value else 0
  }

  /** Everything the admissible positive transfers of the batch move. */
  function TotalSpend(calls: seq<Call>): nat {
    Sum(Spend, calls)
  }

  predicate AnySpends(calls: seq<Call>) {
    exists i :: 0 <= i < |calls| && calls[i].Spends()
  }

  predicate AnyOwnBlocked(calls: seq<Call>) {
    exists i :: 0 <= i < |calls| && calls[i].own.Blocked?
  }

  predicate AnyOwnUndetermined(calls: seq<Call>) {
    exists i :: 0 <= i < |calls| && calls[i].own.Undetermined?
  }

  predicate OverCap(w: Snapshot, calls: seq<Call>) {
    !w.Blind() && w.cap > 0 && AnySpends(calls) && w.spent + TotalSpend(calls) > w.cap
  }

  /** The answer, without the loop: no order, no running total. */
  function ClosedForm(w: Snapshot, calls: seq<Call>): Kind {
    if OverCap(w, calls) || AnyOwnBlocked(calls) then SomeBlocked
    else if (w.Blind() && AnySpends(calls)) || AnyOwnUndetermined(calls) then SomeUndetermined
    else AllAdmissible
  }

  /** What the loop has established after any prefix of the batch. */
  ghost predicate StageInv(w: Snapshot, calls: seq<Call>, s: Stage) {
    && |s.verdicts| == |calls|
    && 0 <= s.staged <= TotalSpend(calls)
    && (s.unavailable <==> w.Blind() && AnySpends(calls))
    && (forall i :: 0 <= i < |calls| && !calls[i].Spends() ==> s.verdicts[i] == calls[i].own)
    && (forall i :: 0 <= i < |calls| && calls[i].Spends() ==>
                      s.verdicts[i] == if w.Blind() then Undetermined
                                       else if s.verdicts[i] == CAP_EXCEEDED then CAP_EXCEEDED else calls[i].own)
    && (w.cap > 0 && s.staged > 0 ==> w.spent + s.staged <= w.cap)
    && (!w.Blind() && w.cap > 0 ==>
          if exists i :: 0 <= i < |calls| && calls[i].Spends() && s.verdicts[i] == CAP_EXCEEDED
          then OverCap(w, calls) else s.staged == TotalSpend(calls))
    && (w.cap <= 0 ==> forall i :: 0 <= i < |calls| && calls[i].Spends() ==> s.verdicts[i] != CAP_EXCEEDED)
  }

  lemma StageCallKeepsInv(w: Snapshot, front: seq<Call>, s: Stage, c: Call)
    requires StageInv(w, front, s)
    ensures StageInv(w, front + [c], StageCall(w, s, c))
  {
    var calls, t := front + [c], StageCall(w, s, c);
    assert calls[..|calls| - 1] == front;
    var n := |front|;
    assert forall i :: 0 <= i < n ==> calls[i] == front[i] && t.verdicts[i] == s.verdicts[i];
    assert calls[n] == c && AnySpends(calls) == (AnySpends(front) || c.Spends());
    if !w.Blind() && w.cap > 0 {
      if exists i :: 0 <= i < |calls| && calls[i].Spends() && t.verdicts[i] == CAP_EXCEEDED {
        var i :| 0 <= i < |calls| && calls[i].Spends() && t.verdicts[i] == CAP_EXCEEDED;
        if i < n {
          assert front[i].Spends() && s.verdicts[i] == CAP_EXCEEDED;
        }
      }
    }
  }

  lemma {:induction false} StagingInvariant(w: Snapshot, calls: seq<Call>)
    ensures StageInv(w, calls, StageAll(w, calls))
  {
    if calls != [] {
      var front := calls[..|calls| - 1];
      StagingInvariant(w, front);
      assert calls == front + [calls[|calls| - 1]];
      StageCallKeepsInv(w, front, StageAll(w, front), calls[|calls| - 1]);
    }
  }

  /**
   Staging equals its closed form.  The batch is refused exactly when a call is refused on its own or the
   known snapshot cannot carry the sum of all positive transfers; otherwise it is undetermined exactly
   when a call is, or a positive transfer meets a snapshot that could not be read.
   */
  lemma StagingClosedForm(w: Snapshot, calls: seq<Call>)
    ensures Decide(w, calls).kind == ClosedForm(w, calls)
  {
    StagingInvariant(w, calls);
    var s := StageAll(w, calls);
    if AnyOwnBlocked(calls) {
      var i :| 0 <= i < |calls| && calls[i].own.Blocked?;
      assert s.verdicts[i].Blocked?;
    }
    if AnyOwnUndetermined(calls) {
      var i :| 0 <= i < |calls| && calls[i].own.Undetermined?;
      assert s.verdicts[i].Undetermined?;
    }
    if AnySpends(calls) {
      var i :| 0 <= i < |calls| && calls[i].Spends();
      assert w.Blind() ==> s.verdicts[i].Undetermined?;
    }
    if OverCap(w, calls) {
      var i :| 0 <= i < |calls| && calls[i].Spends();
      TotalIsPositive(calls, i);
    }
  }

  lemma {:induction false} TotalIsPositive(calls: seq<Call>, i: nat)
    requires i < |calls| && calls[i].Spends()
    ensures TotalSpend(calls) > 0
  {
    if i < |calls| - 1 {
      TotalIsPositive(calls[..|calls| - 1], i);
    }
  }

  /** The batch is admissible exactly when every call is and the transfers are known to fit under the cap. */
  lemma AdmissibleExactly(w: Snapshot, calls: seq<Call>)
    ensures Decide(w, calls).kind == AllAdmissible <==>
            && (forall i :: 0 <= i < |calls| ==> calls[i].own.Admissible?)
            && (|| !AnySpends(calls)
                || (w.policyKnown && w.cap <= 0)
                || (w.policyKnown && w.windowKnown && w.spent + TotalSpend(calls) <= w.cap))
  {
    StagingClosedForm(w, calls);
    assert (forall i :: 0 <= i < |calls| ==> calls[i].own.Admissible?) <==>
           !AnyOwnBlocked(calls) && !AnyOwnUndetermined(calls);
  }

  /** Lower committed spend never turns an admissible batch away. */
  lemma MonotoneInSpend(w: Snapshot, spent: int, calls: seq<Call>)
    requires spent <= w.spent && Decide(w, calls).kind == AllAdmissible
    ensures Decide(w.(spent := spent), calls).kind == AllAdmissible
  {
    AdmissibleExactly(w, calls);
    AdmissibleExactly(w.(spent := spent), calls);
  }

  // ---------------------------------------------------------------- call by call

  /** What the first n calls move, as far as they were kept admissible. */
  function Kept(calls: seq<Call>, verdicts: seq<Verdict>, n: nat): nat
    requires n <= |calls| && n <= |verdicts|
  {
    if n == 0 then 0
    else
      Kept(calls, verdicts, n - 1)
      + if calls[n - 1].Spends() && verdicts[n - 1].Admissible? then calls[n - 1].amount.value else 0
  }

  /** The verdict of call i, from those before it. */
  ghost predicate VerdictBy(w: Snapshot, calls: seq<Call>, verdicts: seq<Verdict>, i: nat)
    requires i < |calls| && i < |verdicts|
  {
    var own, amount := calls[i].own, calls[i].amount;
    verdicts[i] ==
    if !(own.Admissible? && amount.Some? && amount.value > 0) then own
    else if !w.policyKnown || (w.cap > 0 && !w.windowKnown) then Undetermined
    else if w.cap <= 0 || w.spent + Kept(calls, verdicts, i) + amount.value <= w.cap then own
    else Blocked("window_cap_exceeded")
  }

  ghost predicate VerdictsInv(w: Snapshot, calls: seq<Call>, s: Stage) {
    && |s.verdicts| == |calls|
    && (forall i :: 0 <= i < |calls| ==> VerdictBy(w, calls, s.verdicts, i))
    && (s.unavailable ==> w.Blind())
    && (!w.Blind() && w.cap > 0 ==> s.staged == Kept(calls, s.verdicts, |calls|))
  }

  lemma {:induction false} KeptOfPrefix(calls: seq<Call>, verdicts: seq<Verdict>, c: Call, v: Verdict, n: nat)
    requires n <= |calls| == |verdicts|
    ensures Kept(calls + [c], verdicts + [v], n) == Kept(calls, verdicts, n)
  {
    if n > 0 {
      KeptOfPrefix(calls, verdicts, c, v, n - 1);
    }
  }

  lemma StageCallKeepsVerdicts(w: Snapshot, front: seq<Call>, s: Stage, c: Call)
    requires VerdictsInv(w, front, s)
    ensures VerdictsInv(w, front + [c], StageCall(w, s, c))
  {
    var calls, t := front + [c], StageCall(w, s, c);
    var v := t.verdicts[|front|];
    assert t.verdicts == s.verdicts + [v];
    forall i | 0 <= i < |front|
      ensures VerdictBy(w, calls, t.verdicts, i)
    {
      assert VerdictBy(w, front, s.verdicts, i);
      KeptOfPrefix(front, s.verdicts, c, v, i);
    }
    KeptOfPrefix(front, s.verdicts, c, v, |front|);
    assert calls[|front|] == c;
  }

  lemma {:induction false} StagedVerdicts(w: Snapshot, calls: seq<Call>)
    ensures VerdictsInv(w, calls, StageAll(w, calls))
  {
    if calls != [] {
      hide StageCall, VerdictsInv;
      var front := calls[..|calls| - 1];
      StagedVerdicts(w, front);
      StageCallKeepsVerdicts(w, front, StageAll(w, front), calls[|calls| - 1]);
      assert calls == front + [calls[|calls| - 1]];
    } else {
      assert StageAll(w, calls) == Stage(0, 0, [], false);
    }
  }

  /**
   Call by call, and in order: a call that moves nothing keeps its own verdict; a transfer is undetermined when the
   snapshot is not known, keeps its own verdict when the cap is off or what was kept before leaves room for it, and is
   refused otherwise.
   */
  lemma {:induction false} VerdictsExactly(w: Snapshot, calls: seq<Call>)
    ensures var verdicts := Decide(w, calls).verdicts;
            |verdicts| == |calls| && forall i :: 0 <= i < |calls| ==> VerdictBy(w, calls, verdicts, i)
  {
    hide StageAll, KindOf;
    StagedVerdicts(w, calls);
  }

  // ---------------------------------------------------------------- order

  lemma {:induction false} SumAppend(f: Call -> nat, a: seq<Call>, b: seq<Call>)
    ensures Sum(f, a + b) == Sum(f, a) + Sum(f, b)
  {
    if b == [] {
      assert a + b == a;
    } else {
      assert (a + b)[..|a + b| - 1] == a + b[..|b| - 1];
      SumAppend(f, a, b[..|b| - 1]);
    }
  }

  /** Taking call i out of the batch. */
  lemma TakeOut(f: Call -> nat, b: seq<Call>, i: nat)
    requires i < |b|
    ensures var rest := b[..i] + b[i + 1..];
            && multiset(b) == multiset(rest) + multiset{b[i]}
            && Sum(f, b) == Sum(f, rest) + f(b[i])
  {
    assert Sum(f, [b[i]]) == f(b[i]);
    assert b == b[..i] + ([b[i]] + b[i + 1..]);
    SumAppend(f, b[..i], [b[i]] + b[i + 1..]);
    SumAppend(f, [b[i]], b[i + 1..]);
    SumAppend(f, b[..i], b[i + 1..]);
  }

  lemma Cancel(x: multiset<Call>, y: multiset<Call>, c: Call)
    requires x + multiset{c} == y + multiset{c}
    ensures x == y
  {
    assert x == x + multiset{c} - multiset{c};
  }

  lemma {:induction false} SumPermutes(f: Call -> nat, a: seq<Call>, b: seq<Call>)
    requires multiset(a) == multiset(b)
    ensures Sum(f, a) == Sum(f, b)
    decreases |a|
  {
    if a == [] {
      assert |multiset(b)| == 0;
    } else {
      hide Sum;
      var i := MemberPermutes(a, b, 0);
      var a', b' := a[..0] + a[1..], b[..i] + b[i + 1..];
      TakeOut(f, a, 0);
      TakeOut(f, b, i);
      Cancel(multiset(a'), multiset(b'), a[0]);
      SumPermutes(f, a', b');
    }
  }

  lemma MemberPermutes(a: seq<Call>, b: seq<Call>, i: nat) returns (j: nat)
    requires multiset(a) == multiset(b) && i < |a|
    ensures j < |b| && b[j] == a[i]
  {
    assert a[i] in multiset(b);
    j :| 0 <= j < |b| && b[j] == a[i];
  }

  /** Reordering the batch never changes whether it is admissible, blocked or undetermined. */
  lemma OrderDoesNotMatter(w: Snapshot, a: seq<Call>, b: seq<Call>)
    requires multiset(a) == multiset(b)
    ensures Decide(w, a).kind == Decide(w, b).kind
  {
    StagingClosedForm(w, a);
    StagingClosedForm(w, b);
    SumPermutes(Spend, a, b);
    hide Decide, TotalSpend;
    Carries(a, b);
    Carries(b, a);
  }

  /** What some call of a batch is, some call of its reordering is. */
  lemma Carries(a: seq<Call>, b: seq<Call>)
    requires multiset(a) == multiset(b)
    ensures AnySpends(a) ==> AnySpends(b)
    ensures AnyOwnBlocked(a) ==> AnyOwnBlocked(b)
    ensures AnyOwnUndetermined(a) ==> AnyOwnUndetermined(b)
  {
    if AnySpends(a) {
      var i :| 0 <= i < |a| && a[i].Spends();
      var j := MemberPermutes(a, b, i);
    }
    if AnyOwnBlocked(a) {
      var i :| 0 <= i < |a| && a[i].own.Blocked?;
      var j := MemberPermutes(a, b, i);
    }
    if AnyOwnUndetermined(a) {
      var i :| 0 <= i < |a| && a[i].own.Undetermined?;
      var j := MemberPermutes(a, b, i);
    }
  }

  // ---------------------------------------------------------------- fees

  function FeesOf(verdicts: seq<Verdict>): nat {
    if verdicts == [] then 0
    else
      var v := verdicts[|verdicts| - 1];
      FeesOf(verdicts[..|verdicts| - 1]) + if v.Admissible? then v.fee else 0
  }

  /** The total fee is the sum over the calls that were kept admissible. */
  lemma {:induction false} FeeIsSumOverKept(w: Snapshot, calls: seq<Call>)
    ensures Decide(w, calls).totalFee == FeesOf(Decide(w, calls).verdicts)
  {
    if calls != [] {
      FeeIsSumOverKept(w, calls[..|calls| - 1]);
      var s, t := StageAll(w, calls[..|calls| - 1]), StageAll(w, calls);
      assert t.verdicts[..|t.verdicts| - 1] == s.verdicts;
    }
  }

  // ---------------------------------------------------------------- when the fee ignores the order

  /** A positive transfer that fits under the cap when it is staged alone. */
  predicate Fits(w: Snapshot, c: Call) {
    c.Spends() && w.spent + c.amount.value <= w.cap
  }

  /** What a call moves when it fits alone. */
  function FitAmount(w: Snapshot): Call -> nat {
    (c: Call) => if Fits(w, c) then c.amount.value else 0
  }

  /** The transfers that fit under the cap one by one fit under it together. */
  predicate FitsTogether(w: Snapshot, calls: seq<Call>) {
    w.Blind() || w.cap <= 0 || Sum(FitAmount(w), calls) == 0 || w.spent + Sum(FitAmount(w), calls) <= w.cap
  }

  /** The fee a call contributes when it is staged alone. */
  function FeeAlone(w: Snapshot): Call -> nat {
    (c: Call) =>
      if c.own.Admissible? && (!c.Spends() || (!w.Blind() && (w.cap <= 0 || Fits(w, c)))) then c.own.fee else 0
  }

  lemma FitsFront(w: Snapshot, calls: seq<Call>)
    requires calls != [] && FitsTogether(w, calls)
    ensures FitsTogether(w, calls[..|calls| - 1])
  {
  }

  /** While the transfers fit together, exactly those that fit alone are staged, and each call pays its fee alone. */
  lemma {:induction false} FeeClosedForm(w: Snapshot, calls: seq<Call>)
    requires FitsTogether(w, calls)
    ensures Decide(w, calls).totalFee == Sum(FeeAlone(w), calls)
    ensures !w.Blind() && w.cap > 0 ==> StageAll(w, calls).staged == Sum(FitAmount(w), calls)
  {
    if calls != [] {
      FitsFront(w, calls);
      FeeClosedForm(w, calls[..|calls| - 1]);
      StagingInvariant(w, calls[..|calls| - 1]);
    }
  }

  /** A batch whose positive transfers fit under the cap altogether is the simplest such case. */
  lemma {:induction false} WithinCapFits(w: Snapshot, calls: seq<Call>)
    requires !OverCap(w, calls)
    ensures FitsTogether(w, calls)
  {
    FitsAreSpends(w, calls);
    if !AnySpends(calls) {
      NoSpendsNothingFits(w, calls);
    }
  }

  lemma {:induction false} FitsAreSpends(w: Snapshot, calls: seq<Call>)
    ensures Sum(FitAmount(w), calls) <= TotalSpend(calls)
  {
    if calls != [] {
      FitsAreSpends(w, calls[..|calls| - 1]);
    }
  }

  lemma {:induction false} NoSpendsNothingFits(w: Snapshot, calls: seq<Call>)
    requires !AnySpends(calls)
    ensures Sum(FitAmount(w), calls) == 0
  {
    if calls != [] {
      NoSpendsNothingFits(w, calls[..|calls| - 1]);
    }
  }

  /** No reordering of the batch changes the total fee. */
  ghost predicate FeeIgnoresOrder(w: Snapshot, a: seq<Call>) {
    forall b: seq<Call> :: multiset(b) == multiset(a) ==> Decide(w, b).totalFee == Decide(w, a).totalFee
  }

  lemma {:induction false} FittingFeeIgnoresOrder(w: Snapshot, a: seq<Call>)
    requires FitsTogether(w, a)
    ensures FeeIgnoresOrder(w, a)
  {
    hide Decide, Sum;
    forall b: seq<Call> | multiset(b) == multiset(a)
      ensures Decide(w, b).totalFee == Decide(w, a).totalFee
    {
      SumPermutes(FitAmount(w), a, b);
      SumPermutes(FeeAlone(w), a, b);
      FeeClosedForm(w, a);
      FeeClosedForm(w, b);
    }
  }

  /** In particular the order is harmless while all positive transfers of the batch stay within the cap. */
  lemma {:induction false} WithinCapFeeIgnoresOrder(w: Snapshot, a: seq<Call>, b: seq<Call>)
    requires multiset(a) == multiset(b) && !OverCap(w, a)
    ensures Decide(w, a).totalFee == Decide(w, b).totalFee
  {
    WithinCapFits(w, a);
    FittingFeeIgnoresOrder(w, a);
  }

  /** The same calls with the same answers, at possibly different fees. */
  ghost predicate SameButFees(a: seq<Call>, b: seq<Call>) {
    && |a| == |b|
    && forall i :: 0 <= i < |a| ==>
                     && a[i].amount == b[i].amount
                     && (a[i].own == b[i].own || (a[i].own.Admissible? && b[i].own.Admissible?))
  }

  /** Staging looks at amounts and answers, never at fees. */
  lemma {:induction false} StagingIgnoresFees(w: Snapshot, a: seq<Call>, b: seq<Call>)
    requires SameButFees(a, b)
    ensures StageAll(w, a).staged == StageAll(w, b).staged
    ensures StageAll(w, a).unavailable == StageAll(w, b).unavailable
    ensures Sum(FitAmount(w), a) == Sum(FitAmount(w), b)
  {
    if a != [] {
      var n := |a| - 1;
      assert a[n].Spends() == b[n].Spends();
      StagingIgnoresFees(w, a[..n], b[..n]);
    }
  }

  /** Transfers that fit one by one but not together: the loop refuses one of them. */
  lemma {:induction false} SomeFittingIsRefused(w: Snapshot, calls: seq<Call>) returns (n: nat)
    requires !FitsTogether(w, calls)
    ensures n < |calls| && Fits(w, calls[n])
    ensures w.spent + StageAll(w, calls[..n]).staged + calls[n].amount.value > w.cap
  {
    var front := calls[..|calls| - 1];
    n := |front|;
    if !FitsTogether(w, front) {
      n := SomeFittingIsRefused(w, front);
      assert front[..n] == calls[..n];
    } else {
      FeeClosedForm(w, front);
    }
  }

  /** Every call for free but call n. */
  function OneFee(calls: seq<Call>, n: nat): (r: seq<Call>)
    ensures |r| == |calls|
  {
    seq(|calls|, i requires 0 <= i < |calls| =>
        if calls[i].own.Admissible? then calls[i].(own := Admissible(if i == n then 1 else 0)) else calls[i])
  }

  lemma {:induction false} RefusedPaysNothing(w: Snapshot, calls: seq<Call>, n: nat)
    requires forall i :: 0 <= i < |calls| && calls[i].own.Admissible? && i != n ==> calls[i].own.fee == 0
    requires !w.Blind() && w.cap > 0
    requires n < |calls| ==>
               Fits(w, calls[n]) && w.spent + StageAll(w, calls[..n]).staged + calls[n].amount.value > w.cap
    ensures StageAll(w, calls).fee == 0
  {
    if calls != [] {
      var m := |calls| - 1;
      assert n < m ==> calls[..m][..n] == calls[..n];
      RefusedPaysNothing(w, calls[..m], n);
    }
  }

  lemma {:induction false} FirstPays(w: Snapshot, calls: seq<Call>)
    requires calls != [] && Fits(w, calls[0]) && !w.Blind() && w.cap > 0
    ensures StageAll(w, calls).fee >= calls[0].own.fee
  {
    var front := calls[..|calls| - 1];
    if front == [] {
      assert StageAll(w, front) == Stage(0, 0, [], false);
    } else {
      FirstPays(w, front);
    }
  }

  /**
   When the fee ignores the order.  Whatever the calls cost, no reordering changes the total fee if and only if the
   transfers that fit under the cap one by one fit under it together.
   */
  lemma {:induction false} FeeOrderExactly(w: Snapshot, a: seq<Call>)
    ensures FitsTogether(w, a) <==> forall b: seq<Call> :: SameButFees(a, b) ==> FeeIgnoresOrder(w, b)
  {
    if FitsTogether(w, a) {
      forall b: seq<Call> | SameButFees(a, b)
        ensures FeeIgnoresOrder(w, b)
      {
        StagingIgnoresFees(w, a, b);
        FittingFeeIgnoresOrder(w, b);
      }
    } else {
      var b := OverfullFeeVaries(w, a);
    }
  }

  lemma {:induction false} OverfullFeeVaries(w: Snapshot, a: seq<Call>) returns (b: seq<Call>)
    requires !FitsTogether(w, a)
    ensures SameButFees(a, b) && !FeeIgnoresOrder(w, b)
  {
    hide StageAll, Sum;
    var n := SomeFittingIsRefused(w, a);
    b := OneFee(a, n);
    StagingIgnoresFees(w, a[..n], b[..n]);
    RefusedPaysNothing(w, b, n);
    var front := [b[n]] + (b[..n] + b[n + 1..]);
    FirstPays(w, front);
    TakeOut(Spend, b, n);
    assert multiset(front) == multiset(b);
    assert Decide(w, front).totalFee != Decide(w, b).totalFee;
  }

  /** Two transfers that fit one by one but not together: the order decides which of the two is paid for. */
  lemma FeeDependsOnOrder()
    ensures exists w: Snapshot, a: seq<Call>, b: seq<Call> ::
              multiset(a) == multiset(b) && Decide(w, a).totalFee != Decide(w, b).totalFee
  {
    var w := Snapshot(true, 5, true, 0);
    var x, y := Call(Admissible(1), Some(3)), Call(Admissible(10), Some(4));
    var a, b := [x, y], [y, x];
    assert a[..1] == [x] && b[..1] == [y] && [x][..0] == [] && [y][..0] == [];
    assert StageAll(w, [x]) == Stage(3, 1, [Admissible(1)], false);
    assert StageAll(w, [y]) == Stage(4, 10, [Admissible(10)], false);
    assert Decide(w, a).totalFee == 1 && Decide(w, b).totalFee == 10;
    assert multiset(a) == multiset(b);
  }
}
