/**
 The bounded verdict cache is an exact least-recently-used cache: after any hits and stores its keys, in
 Map order, are the n most recently used distinct keys.
 */
module CacheRecency {
  import opened Wrappers
  import opened VerdictCache

  /** A fresh hit on a key (no effect when the key is gone: that is a miss), or a verdict being stored. */
  datatype Op = Hit(key: string) | Store(key: string, entry: Entry)

  function Apply(n: nat, c: Cache, op: Op): Cache
    requires n > 0
  {
    match op
    case Hit(k) =>
      (match Get(c, k)
       case None => c
       case Some(e) => Touch(Some(n), c, k, e))
    case Store(k, e) => StoreEntry(Some(n), c, k, e)
  }

  function Run(n: nat, ops: seq<Op>): Cache
    requires n > 0
  {
    if ops == [] then [] else Apply(n, Run(n, ops[..|ops| - 1]), ops[|ops| - 1])
  }

  /** The keys used by `ops`, in order of use: every store, and every hit that found its key. */
  function Used(n: nat, ops: seq<Op>): seq<string>
    requires n > 0
  {
    if ops == [] then []
    else
      var front, op := ops[..|ops| - 1], ops[|ops| - 1];
      Used(n, front) + if op.Store? || Get(Run(n, front), op.key).Some? then [op.key] else []
  }

  function Remove(s: seq<string>, k: string): seq<string> {
    if s == [] then []
    else if s[0] == k then Remove(s[1..], k)
    else [s[0]] + Remove(s[1..], k)
  }

  /** The distinct keys of `uses`, ordered by last use. */
  function Recency(uses: seq<string>): seq<string> {
    if uses == [] then []
    else Remove(Recency(uses[..|uses| - 1]), uses[|uses| - 1]) + [uses[|uses| - 1]]
  }

  function LastN(s: seq<string>, n: nat): (r: seq<string>)
    ensures |r| <= n && |r| <= |s| && r == s[|s| - |r|..]
    ensures |s| <= n ==> r == s
    ensures |s| > n ==> |r| == n
  {
    if |s| <= n then s else s[|s| - n..]
  }

  function LastStored(ops: seq<Op>, k: string): Option<Entry> {
    if ops == [] then None
    else
      var op := ops[|ops| - 1];
      if op.Store? && op.key == k then Some(op.entry) else LastStored(ops[..|ops| - 1], k)
  }

  // ---------------------------------------------------------------- sequences of keys

  lemma {:induction false} RemoveAppend(a: seq<string>, b: seq<string>, k: string)
    ensures Remove(a + b, k) == Remove(a, k) + Remove(b, k)
  {
    if a == [] {
      assert a + b == b;
    } else {
      assert (a + b)[1..] == a[1..] + b;
      RemoveAppend(a[1..], b, k);
    }
  }

  ghost predicate NoRepeat(s: seq<string>) {
    forall i, j :: 0 <= i < j < |s| ==> s[i] != s[j]
  }

  lemma {:induction false} RemoveMembers(s: seq<string>, k: string)
    ensures forall x :: x in Remove(s, k) <==> x in s && x != k
  {
    if s != [] {
      RemoveMembers(s[1..], k);
      assert forall x :: x in s <==> x == s[0] || x in s[1..];
    }
  }

  lemma {:induction false} RemoveAbsent(s: seq<string>, k: string)
    requires k !in s
    ensures Remove(s, k) == s
  {
    if s != [] {
      RemoveAbsent(s[1..], k);
      assert s == [s[0]] + s[1..];
    }
  }

  lemma NoRepeatCons(k: string, s: seq<string>)
    requires NoRepeat(s) && k !in s
    ensures NoRepeat([k] + s)
  {
  }

  lemma NoRepeatSplit(s: seq<string>)
    requires NoRepeat(s) && s != []
    ensures NoRepeat(s[1..]) && s[0] !in s[1..]
  {
  }

  lemma {:induction false} RemoveDistinct(s: seq<string>, k: string)
    requires NoRepeat(s)
    ensures NoRepeat(Remove(s, k))
    ensures |Remove(s, k)| == |s| - if k in s then 1 else 0
  {
    hide NoRepeat;
    if s != [] {
      NoRepeatSplit(s);
      RemoveMembers(s[1..], k);
      RemoveDistinct(s[1..], k);
      assert forall x :: x in s <==> x == s[0] || x in s[1..];
      if s[0] != k {
        NoRepeatCons(s[0], Remove(s[1..], k));
      }
    } else {
      EmptyNoRepeat();
    }
  }

  lemma EmptyNoRepeat()
    ensures NoRepeat([])
  {
  }

  lemma RemoveFacts(s: seq<string>, k: string)
    ensures var r := Remove(s, k);
            && (forall x :: x in r <==> x in s && x != k)
            && (k !in s ==> r == s)
            && (NoRepeat(s) ==> NoRepeat(r))
            && (NoRepeat(s) && k in s ==> |r| == |s| - 1)
  {
    hide NoRepeat, Remove;
    RemoveMembers(s, k);
    if k !in s {
      RemoveAbsent(s, k);
    }
    if NoRepeat(s) {
      RemoveDistinct(s, k);
    }
  }

  lemma {:induction false} RecencyFacts(uses: seq<string>)
    ensures NoRepeat(Recency(uses))
    ensures forall x :: x in Recency(uses) <==> x in uses
  {
    if uses != [] {
      var front, k := uses[..|uses| - 1], uses[|uses| - 1];
      RecencyFacts(front);
      RemoveFacts(Recency(front), k);
      assert uses == front + [k];
      var r := Remove(Recency(front), k);
      assert forall i :: 0 <= i < |r| ==> r[i] in r;
    }
  }

  lemma LastNAppend(a: seq<string>, b: seq<string>, n: nat)
    requires |b| >= n
    ensures LastN(a + b, n) == LastN(b, n)
  {
  }

  lemma LastNSnoc(s: seq<string>, k: string, n: nat)
    requires n > 0
    ensures LastN(s + [k], n) == LastN(s, n - 1) + [k]
  {
  }

  /** Using k moves it to the end of the n most recent keys, whether or not it was among them. */
  lemma UseMovesToEnd(s: seq<string>, k: string, n: nat)
    requires NoRepeat(s) && n > 0
    ensures LastN(Remove(s, k) + [k], n) == LastN(Remove(LastN(s, n), k), n - 1) + [k]
  {
    hide Remove, NoRepeat, LastN;
    var last := LastN(s, n);
    LastNSnoc(Remove(s, k), k, n);
    if |s| > n {
      var before := s[..|s| - n];
      assert s == before + last;
      RemoveAppend(before, last, k);
      LastHasRoom(s, k, n);
      LastNAppend(Remove(before, k), Remove(last, k), n - 1);
    }
  }

  /** At most one of the n most recent keys is k. */
  lemma LastHasRoom(s: seq<string>, k: string, n: nat)
    requires NoRepeat(s) && |s| >= n > 0
    ensures |Remove(LastN(s, n), k)| >= n - 1
  {
    var last := LastN(s, n);
    assert NoRepeat(last);
    RemoveCounts(last, k);
  }

  lemma {:induction false} RemoveCounts(s: seq<string>, k: string)
    requires NoRepeat(s)
    ensures k !in s ==> Remove(s, k) == s
    ensures k in s ==> |Remove(s, k)| == |s| - 1
  {
    if s != [] {
      assert NoRepeat(s[1..]) && s[0] !in s[1..];
      RemoveCounts(s[1..], k);
    }
  }

  lemma KeysCons(x: Item, c: Cache)
    ensures KeysOf([x] + c) == [x.key] + KeysOf(c)
  {
  }

  lemma {:induction false} DeleteKeys(c: Cache, k: string)
    ensures KeysOf(Delete(c, k)) == Remove(KeysOf(c), k)
  {
    if c != [] {
      DeleteKeys(c[1..], k);
      assert KeysOf(c)[1..] == KeysOf(c[1..]);
      KeysCons(c[0], Delete(c[1..], k));
    }
  }

  lemma KeyPresent(c: Cache, k: string)
    ensures Get(c, k).Some? <==> k in KeysOf(c)
  {
    var ks := KeysOf(c);
    if k in ks {
      var i :| 0 <= i < |ks| && ks[i] == k;
      assert c[i].key == k;
    } else {
      assert forall i :: 0 <= i < |c| ==> c[i].key == ks[i];
    }
  }

  // ---------------------------------------------------------------- refinement

  /** Putting k at the end of a cache it is absent from, after evicting down to n - 1 entries. */
  lemma PutAtEnd(c: Cache, k: string, e: Entry, n: nat)
    requires n > 0
    ensures var d := Evict(Delete(c, k), n);
            KeysOf(Put(d, k, e)) == LastN(Remove(KeysOf(c), k), n - 1) + [k]
  {
    hide Delete, Evict, KeysOf, Put, Remove, LastN, Get;
    var d := Evict(Delete(c, k), n);
    DeleteKeys(c, k);
    EvictedIsAbsent(c, k, n);
    PutFresh(d, k, e);
    EvictKeys(Delete(c, k), n);
    KeysSnoc(d, Item(k, e));
  }

  lemma KeysSnoc(c: Cache, x: Item)
    ensures KeysOf(c + [x]) == KeysOf(c) + [x.key]
  {
  }

  lemma EvictKeys(c: Cache, n: nat)
    requires n > 0
    ensures KeysOf(Evict(c, n)) == LastN(KeysOf(c), n - 1)
  {
  }

  lemma EvictedIsAbsent(c: Cache, k: string, n: nat)
    requires n > 0
    ensures Get(Evict(Delete(c, k), n), k).None?
  {
    var d := Evict(Delete(c, k), n);
    DeleteContents(c, k);
    assert forall i :: 0 <= i < |d| ==> d[i] in Delete(c, k);
  }

  lemma TouchIsStore(c: Cache, k: string, e: Entry, n: nat)
    requires n > 0 && |c| <= n && Distinct(c) && Get(c, k) == Some(e)
    ensures Touch(Some(n), c, k, e) == Put(Evict(Delete(c, k), n), k, e)
  {
    var i :| 0 <= i < |c| && c[i] == Item(k, e);
    DeleteAt(c, i);
  }

  /**
   LRU refinement.  With maxEntries = n, after any sequence of hits and stores the keys of the map, in
   map order, are exactly the n most recently used distinct keys, oldest first.
   */
  lemma {:induction false} LruRefinement(n: nat, ops: seq<Op>)
    requires n > 0
    ensures KeysOf(Run(n, ops)) == LastN(Recency(Used(n, ops)), n)
    ensures Distinct(Run(n, ops)) && |Run(n, ops)| <= n
  {
    if ops != [] {
      var front := ops[..|ops| - 1];
      LruRefinement(n, front);
      LruStep(n, Run(n, front), Used(n, front), ops[|ops| - 1]);
    }
  }

  lemma LruStep(n: nat, c: Cache, uses: seq<string>, op: Op)
    requires n > 0 && Distinct(c) && |c| <= n && KeysOf(c) == LastN(Recency(uses), n)
    ensures var uses' := uses + if op.Store? || Get(c, op.key).Some? then [op.key] else [];
            var c' := Apply(n, c, op);
            KeysOf(c') == LastN(Recency(uses'), n) && Distinct(c') && |c'| <= n
  {
    hide Recency, LastN, Apply, NoRepeat, Distinct, Get, Remove;
    RecencyFacts(uses);
    UseOfKey(n, c, op);
    if op.Store? || Get(c, op.key).Some? {
      RecencySnoc(uses, op.key);
      RecencyFacts(uses + [op.key]);
      UseMovesToEnd(Recency(uses), op.key, n);
      LastNoRepeat(Recency(uses + [op.key]), n);
    } else {
      assert uses + [] == uses;
      LastNoRepeat(Recency(uses), n);
    }
    KeysDistinct(Apply(n, c, op));
  }

  lemma RecencySnoc(uses: seq<string>, k: string)
    ensures Recency(uses + [k]) == Remove(Recency(uses), k) + [k]
  {
    assert (uses + [k])[..|uses|] == uses;
  }

  lemma LastNoRepeat(s: seq<string>, n: nat)
    requires NoRepeat(s)
    ensures NoRepeat(LastN(s, n))
  {
  }

  /** An effective operation uses its key; an ineffective one leaves the keys alone. */
  lemma UseOfKey(n: nat, c: Cache, op: Op)
    requires n > 0 && Distinct(c) && |c| <= n
    ensures KeysOf(Apply(n, c, op)) == if op.Store? || Get(c, op.key).Some? then Use(KeysOf(c), op.key, n)
                                       else KeysOf(c)
  {
    if op.Store? {
      PutAtEnd(c, op.key, op.entry, n);
    } else if Get(c, op.key).Some? {
      var e := Get(c, op.key).value;
      TouchIsStore(c, op.key, e, n);
      PutAtEnd(c, op.key, e, n);
    }
  }

  lemma KeysDistinct(c: Cache)
    ensures Distinct(c) <==> NoRepeat(KeysOf(c))
  {
  }

  /** Every cached verdict is the one last stored under its key. */
  lemma {:induction false} HoldsLastStored(n: nat, ops: seq<Op>, x: Item)
    requires n > 0 && x in Run(n, ops)
    ensures LastStored(ops, x.key) == Some(x.entry)
  {
    var front, op := ops[..|ops| - 1], ops[|ops| - 1];
    var c := Run(n, front);
    LruRefinement(n, front);
    LruRefinement(n, ops);
    DeleteContents(c, op.key);
    match op {
      case Hit(k) =>
        if Get(c, k).Some? {
          PutContents(Delete(c, k), k, Get(c, k).value);
        }
        assert x in c;
        HoldsLastStored(n, front, x);
      case Store(k, e) =>
        var d := Evict(Delete(c, k), n);
        PutContents(d, k, e);
        if x.key == k {
          assert Item(k, e) in Run(n, ops);
        } else {
          assert x in d && x in Delete(c, k);
          HoldsLastStored(n, front, x);
        }
    }
  }

  // ---------------------------------------------------------------- inclusion

  /** The members of s that are kept, in order. */
  function Restrict(s: seq<string>, keep: set<string>): seq<string> {
    if s == [] then []
    else if s[0] in keep then [s[0]] + Restrict(s[1..], keep)
    else Restrict(s[1..], keep)
  }

  lemma {:induction false} RestrictAppend(a: seq<string>, b: seq<string>, keep: set<string>)
    ensures Restrict(a + b, keep) == Restrict(a, keep) + Restrict(b, keep)
  {
    if a == [] {
      assert a + b == b;
    } else {
      assert (a + b)[1..] == a[1..] + b;
      RestrictAppend(a[1..], b, keep);
    }
  }

  lemma {:induction false} RestrictRemove(s: seq<string>, keep: set<string>, k: string)
    ensures Restrict(Remove(s, k), keep) == Remove(Restrict(s, keep), k)
    ensures Restrict(Remove(s, k), keep) == Restrict(s, keep - {k})
  {
    if s != [] {
      RestrictRemove(s[1..], keep, k);
    }
  }

  lemma {:induction false} RestrictMembers(s: seq<string>, keep: set<string>)
    ensures forall x :: x in Restrict(s, keep) <==> x in s && x in keep
    ensures (forall x :: x in s ==> x in keep) ==> Restrict(s, keep) == s
  {
    if s != [] {
      RestrictMembers(s[1..], keep);
      assert forall x :: x in s <==> x == s[0] || x in s[1..];
    }
  }

  function SetOf(s: seq<string>): set<string> {
    set x | x in s
  }

  /** A small cache is embedded, in order, in a larger one; until it first evicts they hold the same keys. */
  ghost predicate Embeds(small: seq<string>, large: seq<string>, n: nat) {
    && NoRepeat(small) && NoRepeat(large)
    && Restrict(large, SetOf(small)) == small
    && (|small| < n ==> small == large)
  }

  lemma EmbedsMembers(small: seq<string>, large: seq<string>, n: nat)
    requires Embeds(small, large, n)
    ensures forall x :: x in small ==> x in large
  {
    RestrictMembers(large, SetOf(small));
  }

  /** Removing k on both sides keeps the embedding, the full-cache clause aside. */
  lemma RemoveBoth(small: seq<string>, large: seq<string>, k: string)
    requires NoRepeat(small) && NoRepeat(large) && Restrict(large, SetOf(small)) == small
    ensures Restrict(Remove(large, k), SetOf(Remove(small, k))) == Remove(small, k)
  {
    RemoveFacts(small, k);
    assert SetOf(Remove(small, k)) == SetOf(small) - {k};
    RestrictRemove(large, SetOf(small), k);
    RestrictRemove(large, SetOf(small) - {k}, k);
    assert SetOf(small) - {k} - {k} == SetOf(small) - {k};
  }

  /** Dropping the oldest key of the smaller side. */
  lemma DropOldestSmall(small: seq<string>, large: seq<string>)
    requires NoRepeat(small) && NoRepeat(large) && small != [] && Restrict(large, SetOf(small)) == small
    ensures Restrict(large, SetOf(small[1..])) == small[1..]
  {
    var k := small[0];
    assert small == [k] + small[1..];
    assert k !in small[1..];
    assert SetOf(small[1..]) == SetOf(small) - {k};
    RestrictRemove(large, SetOf(small), k);
    RemoveFacts(small[1..], k);
    assert Remove(small, k) == small[1..];
  }

  /** Dropping the oldest key of the larger side, when the smaller one does not hold it. */
  lemma DropOldestLarge(small: seq<string>, large: seq<string>)
    requires NoRepeat(small) && NoRepeat(large) && large != [] && Restrict(large, SetOf(small)) == small
    requires large[0] !in small
    ensures Restrict(large[1..], SetOf(small)) == small
  {
  }

  /** One use of k in caches of n <= m entries, as UseMovesToEnd describes it. */
  function Use(s: seq<string>, k: string, n: nat): seq<string>
    requires n > 0
  {
    LastN(Remove(s, k), n - 1) + [k]
  }

  lemma AppendBoth(small: seq<string>, large: seq<string>, k: string)
    requires NoRepeat(small) && NoRepeat(large) && Restrict(large, SetOf(small)) == small
    requires k !in small && k !in large
    ensures NoRepeat(small + [k]) && NoRepeat(large + [k])
    ensures Restrict(large + [k], SetOf(small + [k])) == small + [k]
  {
    RestrictAppend(large, [k], SetOf(small + [k]));
    assert SetOf(small) == SetOf(small + [k]) - {k};
    RemoveFacts(large, k);
    RestrictRemove(large, SetOf(small + [k]), k);
    assert Restrict([k], SetOf(small + [k])) == [k];
  }

  /** Evicting on both sides to make room for a key neither holds. */
  lemma EvictBoth(s: seq<string>, l: seq<string>, n: nat, m: nat)
    requires 0 < n <= m && |s| <= n && |l| <= m && NoRepeat(s) && NoRepeat(l)
    requires Restrict(l, SetOf(s)) == s
    requires |l| == m ==> |s| == n
    ensures var s', l' := LastN(s, n - 1), LastN(l, m - 1);
            NoRepeat(s') && NoRepeat(l') && Restrict(l', SetOf(s')) == s'
  {
    var s', l' := LastN(s, n - 1), LastN(l, m - 1);
    if |s| == n {
      DropOldestSmall(s, l);
    }
    if |l| == m {
      LargeKeepsHead(s, l, n);
      DropOldestLarge(s', l);
    }
  }

  lemma UseKeepsEmbedding(small: seq<string>, large: seq<string>, k: string, n: nat, m: nat)
    requires 0 < n <= m && |small| <= n && |large| <= m && Embeds(small, large, n)
    ensures Embeds(Use(small, k, n), Use(large, k, m), n)
  {
    var s, l := Remove(small, k), Remove(large, k);
    RemoveFacts(small, k);
    RemoveFacts(large, k);
    RemoveBoth(small, large, k);
    EmbedsMembers(small, large, n);
    EvictBoth(s, l, n, m);
    var s', l' := LastN(s, n - 1), LastN(l, m - 1);
    AppendBoth(s', l', k);
    if |s' + [k]| < n {
      assert |s| < n - 1 && s == s';
      assert |small| < n;
    }
  }

  /** When the larger cache must evict, its oldest key has already left the smaller one. */
  lemma LargeKeepsHead(s: seq<string>, l: seq<string>, n: nat)
    requires 0 < n == |s| && l != [] && NoRepeat(s) && Restrict(l, SetOf(s)) == s
    ensures l[0] !in LastN(s, n - 1)
  {
    if l[0] in SetOf(s) {
      assert s[0] == l[0];
    }
  }

  /** Inclusion: under the same hits and stores, a larger cache always holds every key a smaller one holds. */
  lemma {:induction false} LargerHoldsMore(n: nat, m: nat, ops: seq<Op>)
    requires 0 < n <= m
    ensures Embeds(KeysOf(Run(n, ops)), KeysOf(Run(m, ops)), n)
    ensures forall x :: x in KeysOf(Run(n, ops)) ==> x in KeysOf(Run(m, ops))
  {
    if ops != [] {
      var front, op := ops[..|ops| - 1], ops[|ops| - 1];
      LargerHoldsMore(n, m, front);
      LruRefinement(n, front);
      LruRefinement(m, front);
      var small, large := KeysOf(Run(n, front)), KeysOf(Run(m, front));
      UseOfKey(n, Run(n, front), op);
      UseOfKey(m, Run(m, front), op);
      KeyPresent(Run(n, front), op.key);
      KeyPresent(Run(m, front), op.key);
      if op.Store? || op.key in small {
        UseKeepsEmbedding(small, large, op.key, n, m);
      } else if op.key in large {
        MissKeepsEmbedding(small, large, op.key, n, m);
      }
    }
    EmbedsMembers(KeysOf(Run(n, ops)), KeysOf(Run(m, ops)), n);
  }

  /** A key only the larger cache holds: its hit reorders that cache alone. */
  lemma MissKeepsEmbedding(small: seq<string>, large: seq<string>, k: string, n: nat, m: nat)
    requires 0 < n <= m && |large| <= m && Embeds(small, large, n)
    requires k in large && k !in small
    ensures Embeds(small, Use(large, k, m), n)
  {
    RemoveFacts(large, k);
    RemoveFacts(small, k);
    RemoveBoth(small, large, k);
    var l := Remove(large, k);
    RestrictAppend(l, [k], SetOf(small));
    assert Restrict([k], SetOf(small)) == [];
  }
}
