/**
 Concurrent pre-flight checks (src/preflight.ts, `check` with the verdict cache and in-flight coalescing).

 Each `await` of a check is a point where other checks may run, so a check is a sequence of atomic steps
 and a run of the system is any interleaving of the steps of any number of checks, of invalidations and
 of whatever the clock and the ledger report.
 */
module CheckInterleaving {
  import opened Wrappers
  import opened VerdictCache

  const LEDGER_CLOSE_MS := 5000
  const MAX_CACHE_TTL_MS := LEDGER_CLOSE_MS

  /** The length of the hexadecimal digest that names a call. */
  const FINGERPRINT_LENGTH := 64

  /** The interceptor's configuration; a cache needs ttlMs or ttlLedgers, ttlMs winning. */
  datatype Config = Config(namespace: string, maxEntries: Option<nat>, ttlMs: Option<nat>, ttlLedgers: nat) {
    predicate Valid() {
      maxEntries.Some? ==> maxEntries.value > 0
    }

    function Ttl(): (r: nat)
      ensures r <= MAX_CACHE_TTL_MS
      ensures ttlMs.Some? ==> r <= ttlMs.value
    {
      var requested := if ttlMs.Some? then ttlMs.value else ttlLedgers * LEDGER_CLOSE_MS;
      if requested <= MAX_CACHE_TTL_MS then requested else MAX_CACHE_TTL_MS
    }
  }

  /** What a check knows once cacheContext has returned; `at` is the clock at its ledger lookup. */
  datatype Context =
    | Cached(fp: string, token: string, ledger: int, at: int)
    | Uncached(fp: string)

  function CallPrefix(namespace: string, fp: string): string {
    namespace + ":" + fp + ":"
  }

  function CacheKey(namespace: string, fp: string, token: string): string {
    CallPrefix(namespace, fp) + token
  }

  /** The key of the in-flight map. */
  function KeyOf(cfg: Config, ctx: Context): string {
    match ctx
    case Cached(fp, token, _, _) => CacheKey(cfg.namespace, fp, token)
    case Uncached(fp) => fp
  }

  datatype Answer =
    | Served(verdict: Verdict, now: int)
    | Computed(verdict: Verdict, run: nat)

  /** A verdict entering the cache, and the check whose context it was stored under. */
  datatype StoreRecord = StoreRecord(run: nat, context: Context, verdict: Verdict)

  datatype System = System(
    cache: Cache,
    contexts: map<nat, Context>,
    missed: set<nat>,           // checks that got no verdict from the cache
    joined: map<nat, nat>,      // the enforcement run each such check waits for
    shared: set<nat>,           // runs registered in the in-flight map when they started
    settled: set<nat>,          // shared runs whose settle callback has run
    inFlight: map<string, nat>,
    finished: map<nat, Verdict>,
    thrown: set<nat>,           // runs that ended in an exception, which their waiters are given
    answers: map<nat, Answer>,
    history: seq<StoreRecord>)

  datatype Event =
    | Context(check: nat, context: Context, now: int)
    | Consult(check: nat, now: int)
    | Enter(check: nat, coalesce: bool)
    | Finish(run: nat, verdict: Verdict)
    | Throw(run: nat)
    | Settle(run: nat)
    | Deliver(check: nat)
    | Invalidate(fp: Option<string>)

  const INITIAL := System([], map[], {}, map[], {}, {}, map[], map[], {}, map[], [])

  function Step(cfg: Config, s: System, e: Event): System
    requires cfg.Valid()
  {
    match e
    case Context(c, ctx, now) =>
      if c in s.contexts || |ctx.fp| != FINGERPRINT_LENGTH then s
      else if ctx.Uncached? then s.(contexts := s.contexts[c := ctx], missed := s.missed + {c})
      else s.(contexts := s.contexts[c := ctx.(at := now)], cache := Purge(s.cache, ctx.ledger, now))
    case Consult(c, now) =>
      if c !in s.contexts || c in s.missed || c in s.answers || s.contexts[c].Uncached? then s
      else
        var r := LookUp(cfg.maxEntries, s.cache, KeyOf(cfg, s.contexts[c]), s.contexts[c].ledger, now);
        if r.hit.Some? then s.(cache := r.cache, answers := s.answers[c := Served(r.hit.value, now)])
        else s.(cache := r.cache, missed := s.missed + {c})
    case Enter(c, coalesce) =>
      if c !in s.missed || c in s.joined || c !in s.contexts then s
      else
        var key := KeyOf(cfg, s.contexts[c]);
        if !coalesce then s.(joined := s.joined[c := c])
        else if key in s.inFlight then s.(joined := s.joined[c := s.inFlight[key]])
        else s.(joined := s.joined[c := c], shared := s.shared + {c}, inFlight := s.inFlight[key := c])
    case Finish(r, v) =>
      if r !in s.joined || s.joined[r] != r || r in s.finished || r in s.thrown || r !in s.contexts then s
      else
        var t := s.(finished := s.finished[r := v]);
        var ctx := s.contexts[r];
        if v.Undetermined? || ctx.Uncached? then t
        else t.(cache := StoreEntry(cfg.maxEntries, s.cache, KeyOf(cfg, ctx), Entry(v, ctx.ledger, ctx.at + cfg.Ttl())),
                history := s.history + [StoreRecord(r, ctx, v)])
    case Throw(r) =>
      if r !in s.joined || s.joined[r] != r || r in s.finished then s else s.(thrown := s.thrown + {r})
    case Settle(r) =>
      if (r !in s.finished && r !in s.thrown) || r !in s.shared || r in s.settled || r !in s.contexts then s
      else
        var key := KeyOf(cfg, s.contexts[r]);
        var t := s.(settled := s.settled + {r});
        if key in s.inFlight && s.inFlight[key] == r then t.(inFlight := s.inFlight - {key}) else t
    case Deliver(c) =>
      if c !in s.joined || s.joined[c] !in s.finished || c in s.answers then s
      else s.(answers := s.answers[c := Computed(s.finished[s.joined[c]], s.joined[c])])
    case Invalidate(fp) =>
      if fp.None? then s.(cache := [])
      else s.(cache := DropPrefix(s.cache, CallPrefix(cfg.namespace, fp.value)))
  }

  function Run(cfg: Config, events: seq<Event>): System
    requires cfg.Valid()
  {
    if events == [] then INITIAL
    else Step(cfg, Run(cfg, events[..|events| - 1]), events[|events| - 1])
  }

  // ---------------------------------------------------------------- keys

  /** With fingerprints of one length, a prefix selects the keys of exactly one call. */
  lemma PrefixSelectsCall(namespace: string, fp: string, fp': string, token: string)
    requires |fp| == |fp'|
    ensures StartsWith(CacheKey(namespace, fp, token), CallPrefix(namespace, fp')) <==> fp == fp'
  {
    var key, prefix := CacheKey(namespace, fp, token), CallPrefix(namespace, fp');
    var n := |namespace| + 1;
    assert key[..|prefix|] == CallPrefix(namespace, fp);
    assert CallPrefix(namespace, fp)[n..n + |fp|] == fp;
    assert CallPrefix(namespace, fp')[n..n + |fp|] == fp';
  }

  lemma KeyDeterminesCall(namespace: string, fp: string, token: string, fp': string, token': string)
    requires |fp| == |fp'|
    ensures CacheKey(namespace, fp, token) == CacheKey(namespace, fp', token') <==> fp == fp' && token == token'
  {
    var key, key' := CacheKey(namespace, fp, token), CacheKey(namespace, fp', token');
    var n := |namespace| + 1;
    if key == key' {
      assert key[n..n + |fp|] == fp && key'[n..n + |fp|] == fp';
      assert key[n + |fp| + 1..] == token && key'[n + |fp| + 1..] == token';
    }
  }

  /** invalidate(call) keeps exactly the entries of every other call. */
  lemma InvalidateRemovesOneCall(namespace: string, c: Cache, fp: string, fp': string, token: string, e: Entry)
    requires |fp| == |fp'|
    requires Item(CacheKey(namespace, fp', token), e) in c
    ensures Item(CacheKey(namespace, fp', token), e) in DropPrefix(c, CallPrefix(namespace, fp)) <==> fp' != fp
  {
    DropPrefixContents(c, CallPrefix(namespace, fp));
    PrefixSelectsCall(namespace, fp', fp, token);
  }

  // ---------------------------------------------------------------- what a hit means

  ghost predicate StoredAs(cfg: Config, r: StoreRecord, x: Item) {
    && r.context.Cached? && !r.verdict.Undetermined? && |r.context.fp| == FINGERPRINT_LENGTH
    && x == Item(KeyOf(cfg, r.context), Entry(r.verdict, r.context.ledger, r.context.at + cfg.Ttl()))
  }

  ghost predicate Backed(cfg: Config, history: seq<StoreRecord>, x: Item) {
    exists i :: 0 <= i < |history| && StoredAs(cfg, history[i], x)
  }

  /** A served verdict is fresh for the check that was given it. */
  ghost predicate FreshFor(cfg: Config, ctx: Context, a: Answer, r: StoreRecord)
    requires a.Served? && ctx.Cached?
  {
    && r.context.Cached?
    && r.verdict == a.verdict && !a.verdict.Undetermined?
    && r.context.fp == ctx.fp && r.context.token == ctx.token
    && r.context.ledger == ctx.ledger
    && a.now - r.context.at < cfg.Ttl()
  }

  /** The record tells what its run concluded and for which call, token and ledger. */
  ghost predicate Recorded(finished: map<nat, Verdict>, contexts: map<nat, Context>, r: StoreRecord) {
    && r.run in finished && finished[r.run] == r.verdict
    && r.run in contexts && contexts[r.run] == r.context
  }

  ghost predicate CacheInv(cfg: Config, s: System) {
    && (forall x :: x in s.cache ==> Backed(cfg, s.history, x))
    && (forall i :: 0 <= i < |s.history| ==> Recorded(s.finished, s.contexts, s.history[i]))
    && (forall c :: c in s.contexts ==> |s.contexts[c].fp| == FINGERPRINT_LENGTH)
    && (forall c :: c in s.answers && s.answers[c].Served? ==>
                      && c in s.contexts && s.contexts[c].Cached?
                      && exists i :: 0 <= i < |s.history| && FreshFor(cfg, s.contexts[c], s.answers[c], s.history[i]))
  }

  lemma StoreContents(maxEntries: Option<nat>, c: Cache, key: string, e: Entry, x: Item)
    requires maxEntries.Some? ==> maxEntries.value > 0
    requires x in StoreEntry(maxEntries, c, key, e)
    ensures x == Item(key, e) || x in c
  {
    DeleteContents(c, key);
    PutContents(c, key, e);
    if maxEntries.Some? {
      PutContents(Evict(Delete(c, key), maxEntries.value), key, e);
    }
  }

  lemma LookUpContents(maxEntries: Option<nat>, c: Cache, key: string, ledger: int, now: int)
    ensures var r := LookUp(maxEntries, c, key, ledger, now);
            && (forall x :: x in r.cache ==> x in c)
            && (r.hit.Some? ==>
                  exists e :: Item(key, e) in c && e.verdict == r.hit.value && Fresh(Item(key, e), ledger, now))
  {
    DeleteContents(c, key);
    if Get(c, key).Some? {
      PutContents(Delete(c, key), key, Get(c, key).value);
    }
  }

  lemma ContextKeepsCacheInv(cfg: Config, s: System, c: nat, ctx: Context, now: int)
    requires cfg.Valid() && CacheInv(cfg, s)
    ensures CacheInv(cfg, Step(cfg, s, Event.Context(c, ctx, now)))
  {
    if ctx.Cached? {
      PurgeContents(s.cache, ctx.ledger, now);
    }
  }

  /** A fresh entry under the check's key came from a run for the same call, token and ledger. */
  lemma HitIsFresh(cfg: Config, s: System, ctx: Context, e: Entry, now: int) returns (i: nat)
    requires CacheInv(cfg, s) && ctx.Cached? && |ctx.fp| == FINGERPRINT_LENGTH
    requires Item(KeyOf(cfg, ctx), e) in s.cache && Fresh(Item(KeyOf(cfg, ctx), e), ctx.ledger, now)
    ensures i < |s.history| && FreshFor(cfg, ctx, Served(e.verdict, now), s.history[i])
  {
    var x := Item(KeyOf(cfg, ctx), e);
    assert Backed(cfg, s.history, x);
    i :| 0 <= i < |s.history| && StoredAs(cfg, s.history[i], x);
    var from := s.history[i].context;
    KeyDeterminesCall(cfg.namespace, ctx.fp, ctx.token, from.fp, from.token);
  }

  lemma ConsultKeepsCacheInv(cfg: Config, s: System, c: nat, now: int)
    requires cfg.Valid() && CacheInv(cfg, s)
    ensures CacheInv(cfg, Step(cfg, s, Consult(c, now)))
  {
    hide LookUp, KeyOf, FreshFor, Backed, Fresh, Recorded;
    if c in s.contexts && c !in s.missed && c !in s.answers && s.contexts[c].Cached? {
      var ctx := s.contexts[c];
      var key := KeyOf(cfg, ctx);
      var r := LookUp(cfg.maxEntries, s.cache, key, ctx.ledger, now);
      LookUpContents(cfg.maxEntries, s.cache, key, ctx.ledger, now);
      if r.hit.Some? {
        var e :| Item(key, e) in s.cache && e.verdict == r.hit.value && Fresh(Item(key, e), ctx.ledger, now);
        var i := HitIsFresh(cfg, s, ctx, e, now);
      }
    }
  }

  /** What a stored verdict leaves in the cache is backed by the longer history. */
  lemma StoreIsBacked(cfg: Config, s: System, r: StoreRecord)
    requires cfg.Valid() && CacheInv(cfg, s)
    requires r.context.Cached? && !r.verdict.Undetermined? && |r.context.fp| == FINGERPRINT_LENGTH
    ensures var e := Entry(r.verdict, r.context.ledger, r.context.at + cfg.Ttl());
            forall x :: x in StoreEntry(cfg.maxEntries, s.cache, KeyOf(cfg, r.context), e) ==>
                          Backed(cfg, s.history + [r], x)
  {
    hide StoreEntry, KeyOf;
    var e := Entry(r.verdict, r.context.ledger, r.context.at + cfg.Ttl());
    var longer := s.history + [r];
    assert StoredAs(cfg, longer[|s.history|], Item(KeyOf(cfg, r.context), e));
    forall x | x in StoreEntry(cfg.maxEntries, s.cache, KeyOf(cfg, r.context), e)
      ensures Backed(cfg, longer, x)
    {
      StoreContents(cfg.maxEntries, s.cache, KeyOf(cfg, r.context), e, x);
      if x in s.cache {
        var i :| 0 <= i < |s.history| && StoredAs(cfg, s.history[i], x);
        assert StoredAs(cfg, longer[i], x);
      }
    }
  }

  lemma FinishKeepsCacheInv(cfg: Config, s: System, r: nat, v: Verdict)
    requires cfg.Valid() && CacheInv(cfg, s)
    ensures CacheInv(cfg, Step(cfg, s, Finish(r, v)))
  {
    hide StoreEntry, KeyOf, Backed, FreshFor;
    var t := Step(cfg, s, Finish(r, v));
    if t.history != s.history {
      StoreIsBacked(cfg, s, StoreRecord(r, s.contexts[r], v));
      forall c | c in t.answers && t.answers[c].Served?
        ensures exists i :: 0 <= i < |t.history| && FreshFor(cfg, t.contexts[c], t.answers[c], t.history[i])
      {
        var i :| 0 <= i < |s.history| && FreshFor(cfg, s.contexts[c], s.answers[c], s.history[i]);
        assert t.history[i] == s.history[i];
      }
    }
  }

  lemma UntouchedKeepsCacheInv(cfg: Config, s: System, t: System)
    requires CacheInv(cfg, s)
    requires t.cache == s.cache && t.history == s.history && t.contexts == s.contexts && t.finished == s.finished
    requires forall c :: c in t.answers && t.answers[c].Served? ==> c in s.answers && t.answers[c] == s.answers[c]
    ensures CacheInv(cfg, t)
  {
    hide KeyOf, Backed, FreshFor, Recorded;
  }

  /** Entering, ending badly, settling and delivering touch neither the cache nor the history. */
  lemma OtherKeepsCacheInv(cfg: Config, s: System, e: Event)
    requires cfg.Valid() && CacheInv(cfg, s) && (e.Enter? || e.Throw? || e.Settle? || e.Deliver?)
    ensures CacheInv(cfg, Step(cfg, s, e))
  {
    hide CacheInv, KeyOf;
    UntouchedKeepsCacheInv(cfg, s, Step(cfg, s, e));
  }

  lemma InvalidateKeepsCacheInv(cfg: Config, s: System, fp: Option<string>)
    requires cfg.Valid() && CacheInv(cfg, s)
    ensures CacheInv(cfg, Step(cfg, s, Invalidate(fp)))
  {
    hide DropPrefix, Backed, FreshFor, Recorded;
    if fp.Some? {
      DropPrefixContents(s.cache, CallPrefix(cfg.namespace, fp.value));
    }
  }

  lemma StepKeepsCacheInv(cfg: Config, s: System, e: Event)
    requires cfg.Valid() && CacheInv(cfg, s)
    ensures CacheInv(cfg, Step(cfg, s, e))
  {
    hide Step, CacheInv;
    match e {
      case Context(c, ctx, now) => ContextKeepsCacheInv(cfg, s, c, ctx, now);
      case Consult(c, now) => ConsultKeepsCacheInv(cfg, s, c, now);
      case Finish(r, v) => FinishKeepsCacheInv(cfg, s, r, v);
      case Invalidate(fp) => InvalidateKeepsCacheInv(cfg, s, fp);
      case _ => OtherKeepsCacheInv(cfg, s, e);
    }
  }

  lemma {:induction false} RunKeepsCacheInv(cfg: Config, events: seq<Event>)
    requires cfg.Valid()
    ensures CacheInv(cfg, Run(cfg, events))
  {
    if events != [] {
      RunKeepsCacheInv(cfg, events[..|events| - 1]);
      StepKeepsCacheInv(cfg, Run(cfg, events[..|events| - 1]), events[|events| - 1]);
    }
  }

  /**
   Cache-hit freshness, over every interleaving.  A verdict served from the cache is admissible or
   blocked; some enforcement run reached it, and the context of that run names the same call, configuration and
   revision token and the ledger this check observed; and that run's ledger lookup was less than the TTL, and so
   less than five seconds, before the verdict was served.
   */
  lemma {:induction false} HitFreshness(cfg: Config, events: seq<Event>, c: nat)
    requires cfg.Valid()
    requires c in Run(cfg, events).answers && Run(cfg, events).answers[c].Served?
    ensures var s := Run(cfg, events);
            var a := s.answers[c];
            && c in s.contexts && s.contexts[c].Cached?
            && !a.verdict.Undetermined?
            && exists i :: 0 <= i < |s.history|
                           && FreshFor(cfg, s.contexts[c], a, s.history[i])
                           && Recorded(s.finished, s.contexts, s.history[i])
                           && a.now - s.history[i].context.at < MAX_CACHE_TTL_MS
  {
    RunKeepsCacheInv(cfg, events);
    var s := Run(cfg, events);
    var i :| 0 <= i < |s.history| && FreshFor(cfg, s.contexts[c], s.answers[c], s.history[i]);
    assert Recorded(s.finished, s.contexts, s.history[i]);
  }

  // ---------------------------------------------------------------- coalescing

  /** A check waits for a run that waits for nobody else and decides the same key. */
  ghost predicate JoinedTo(cfg: Config, s: System, c: nat, r: nat) {
    && c in s.contexts && r in s.contexts && r in s.joined && s.joined[r] == r
    && KeyOf(cfg, s.contexts[r]) == KeyOf(cfg, s.contexts[c])
  }

  /** Run r is the one registered under its key. */
  ghost predicate Registered(cfg: Config, s: System, r: nat) {
    && r in s.contexts && r in s.shared && r !in s.settled
    && KeyOf(cfg, s.contexts[r]) in s.inFlight && s.inFlight[KeyOf(cfg, s.contexts[r])] == r
  }

  ghost predicate JoinInv(cfg: Config, s: System) {
    && (forall c :: c in s.joined ==> JoinedTo(cfg, s, c, s.joined[c]))
    && (forall k :: k in s.inFlight ==> Registered(cfg, s, s.inFlight[k]) && KeyOf(cfg, s.contexts[s.inFlight[k]]) == k)
    && (forall r :: r in s.shared ==> r in s.joined && s.joined[r] == r)
    && s.settled <= s.shared
    && (forall r :: r in s.shared && r !in s.settled ==> Registered(cfg, s, r))
    && (forall r :: r in s.finished ==> r in s.joined)
    && s.finished.Keys !! s.thrown
    && (forall c :: c in s.answers && s.answers[c].Computed? ==>
                      && c in s.joined && s.joined[c] == s.answers[c].run
                      && s.answers[c].run in s.finished && s.finished[s.answers[c].run] == s.answers[c].verdict)
  }

  lemma JoinKeepsJoinInv(cfg: Config, s: System, c: nat, r: nat)
    requires JoinInv(cfg, s) && c in s.contexts && c !in s.joined
    requires r == c || (r in s.joined && s.joined[r] == r && r in s.contexts
                        && KeyOf(cfg, s.contexts[r]) == KeyOf(cfg, s.contexts[c]))
    ensures JoinInv(cfg, s.(joined := s.joined[c := r]))
  {
    var t := s.(joined := s.joined[c := r]);
    assert JoinedTo(cfg, t, c, r);
    forall d | d in t.joined
      ensures JoinedTo(cfg, t, d, t.joined[d])
    {
      assert d != c ==> JoinedTo(cfg, s, d, s.joined[d]);
    }
    assert forall q :: Registered(cfg, s, q) ==> Registered(cfg, t, q);
  }

  lemma RegisterKeepsJoinInv(cfg: Config, s: System, c: nat, key: string)
    requires JoinInv(cfg, s) && c in s.contexts && KeyOf(cfg, s.contexts[c]) == key && key !in s.inFlight
    requires c in s.joined && s.joined[c] == c && c !in s.shared
    ensures JoinInv(cfg, s.(shared := s.shared + {c}, inFlight := s.inFlight[key := c]))
  {
    var t := s.(shared := s.shared + {c}, inFlight := s.inFlight[key := c]);
    assert Registered(cfg, t, c);
    assert forall q :: Registered(cfg, s, q) ==> Registered(cfg, t, q);
    assert forall d, r :: JoinedTo(cfg, s, d, r) ==> JoinedTo(cfg, t, d, r);
  }

  lemma EnterKeepsJoinInv(cfg: Config, s: System, c: nat, coalesce: bool)
    requires cfg.Valid() && JoinInv(cfg, s)
    ensures JoinInv(cfg, Step(cfg, s, Enter(c, coalesce)))
  {
    if c in s.missed && c !in s.joined && c in s.contexts {
      var key := KeyOf(cfg, s.contexts[c]);
      if coalesce && key in s.inFlight {
        assert Registered(cfg, s, s.inFlight[key]);
        JoinKeepsJoinInv(cfg, s, c, s.inFlight[key]);
      } else {
        JoinKeepsJoinInv(cfg, s, c, c);
        if coalesce {
          RegisterKeepsJoinInv(cfg, s.(joined := s.joined[c := c]), c, key);
        }
      }
    }
  }

  lemma SettleKeepsJoinInv(cfg: Config, s: System, r: nat)
    requires cfg.Valid() && JoinInv(cfg, s)
    ensures JoinInv(cfg, Step(cfg, s, Settle(r)))
  {
    var t := Step(cfg, s, Settle(r));
    assert forall q :: Registered(cfg, s, q) && q != r ==> Registered(cfg, t, q);
    assert forall c, q :: JoinedTo(cfg, s, c, q) ==> JoinedTo(cfg, t, c, q);
  }

  /** Steps that touch neither joins nor registrations only extend the other maps. */
  lemma OtherKeepsJoinInv(cfg: Config, s: System, t: System)
    requires JoinInv(cfg, s)
    requires t.joined == s.joined && t.shared == s.shared && t.settled == s.settled && t.inFlight == s.inFlight
    requires forall c :: c in s.contexts ==> c in t.contexts && t.contexts[c] == s.contexts[c]
    requires forall r :: r in s.finished ==> r in t.finished && t.finished[r] == s.finished[r]
    requires forall r :: r in t.finished ==> r in s.joined && r !in t.thrown
    requires forall c ::
               c in t.answers && t.answers[c].Computed? && (c !in s.answers || s.answers[c] != t.answers[c]) ==>
                           && c in s.joined && s.joined[c] == t.answers[c].run
                           && t.answers[c].run in t.finished && t.finished[t.answers[c].run] == t.answers[c].verdict
    ensures JoinInv(cfg, t)
  {
    assert forall c, r :: JoinedTo(cfg, s, c, r) ==> JoinedTo(cfg, t, c, r);
    assert forall r :: Registered(cfg, s, r) ==> Registered(cfg, t, r);
  }

  lemma StepKeepsJoinInv(cfg: Config, s: System, e: Event)
    requires cfg.Valid() && JoinInv(cfg, s)
    ensures JoinInv(cfg, Step(cfg, s, e))
  {
    match e {
      case Enter(c, coalesce) => EnterKeepsJoinInv(cfg, s, c, coalesce);
      case Settle(r) => SettleKeepsJoinInv(cfg, s, r);
      case Context(c, ctx, now) => ContextKeepsJoinInv(cfg, s, c, ctx, now);
      case Finish(r, v) => FinishKeepsJoinInv(cfg, s, r, v);
      case Throw(r) => ThrowKeepsJoinInv(cfg, s, r);
      case Consult(c, now) => ConsultKeepsJoinInv(cfg, s, c, now);
      case Deliver(c) => DeliverKeepsJoinInv(cfg, s, c);
      case Invalidate(fp) => InvalidateKeepsJoinInv(cfg, s, fp);
    }
  }

  lemma ContextKeepsJoinInv(cfg: Config, s: System, c: nat, ctx: Context, now: int)
    requires cfg.Valid() && JoinInv(cfg, s)
    ensures JoinInv(cfg, Step(cfg, s, Event.Context(c, ctx, now)))
  {
    hide Purge, KeyOf, JoinedTo, Registered;
    OtherKeepsJoinInv(cfg, s, Step(cfg, s, Event.Context(c, ctx, now)));
  }

  lemma FinishKeepsJoinInv(cfg: Config, s: System, r: nat, v: Verdict)
    requires cfg.Valid() && JoinInv(cfg, s)
    ensures JoinInv(cfg, Step(cfg, s, Finish(r, v)))
  {
    hide StoreEntry, KeyOf, JoinedTo, Registered;
    OtherKeepsJoinInv(cfg, s, Step(cfg, s, Finish(r, v)));
  }

  lemma ThrowKeepsJoinInv(cfg: Config, s: System, r: nat)
    requires cfg.Valid() && JoinInv(cfg, s)
    ensures JoinInv(cfg, Step(cfg, s, Throw(r)))
  {
    hide KeyOf, JoinedTo, Registered;
    OtherKeepsJoinInv(cfg, s, Step(cfg, s, Throw(r)));
  }

  lemma ServeKeepsJoinInv(cfg: Config, s: System, c: nat, cache: Cache, a: Answer)
    requires JoinInv(cfg, s) && c !in s.answers && a.Served?
    ensures JoinInv(cfg, s.(cache := cache, answers := s.answers[c := a]))
  {
    OtherKeepsJoinInv(cfg, s, s.(cache := cache, answers := s.answers[c := a]));
  }

  lemma ConsultKeepsJoinInv(cfg: Config, s: System, c: nat, now: int)
    requires cfg.Valid() && JoinInv(cfg, s)
    ensures JoinInv(cfg, Step(cfg, s, Consult(c, now)))
  {
    if c in s.contexts && c !in s.missed && c !in s.answers && s.contexts[c].Cached? {
      var r := LookUp(cfg.maxEntries, s.cache, KeyOf(cfg, s.contexts[c]), s.contexts[c].ledger, now);
      if r.hit.Some? {
        ServeKeepsJoinInv(cfg, s, c, r.cache, Served(r.hit.value, now));
      } else {
        OtherKeepsJoinInv(cfg, s, s.(cache := r.cache, missed := s.missed + {c}));
      }
    }
  }

  lemma DeliverKeepsJoinInv(cfg: Config, s: System, c: nat)
    requires cfg.Valid() && JoinInv(cfg, s)
    ensures JoinInv(cfg, Step(cfg, s, Deliver(c)))
  {
    hide KeyOf, JoinedTo, Registered;
    OtherKeepsJoinInv(cfg, s, Step(cfg, s, Deliver(c)));
  }

  lemma InvalidateKeepsJoinInv(cfg: Config, s: System, fp: Option<string>)
    requires cfg.Valid() && JoinInv(cfg, s)
    ensures JoinInv(cfg, Step(cfg, s, Invalidate(fp)))
  {
    hide DropPrefix, KeyOf, JoinedTo, Registered;
    OtherKeepsJoinInv(cfg, s, Step(cfg, s, Invalidate(fp)));
  }

  lemma {:induction false} RunKeepsJoinInv(cfg: Config, events: seq<Event>)
    requires cfg.Valid()
    ensures JoinInv(cfg, Run(cfg, events))
  {
    if events != [] {
      RunKeepsJoinInv(cfg, events[..|events| - 1]);
      StepKeepsJoinInv(cfg, Run(cfg, events[..|events| - 1]), events[|events| - 1]);
    }
  }

  /**
   Coalescing: two shared runs that are both still registered never decide the same call under the same
   configuration and revision; a run is registered under its key from its start until it settles itself and never
   after, so no run unregisters another; a run that ended in an exception answers nobody; and every check that
   joined a run gets exactly that run's verdict, for its own key.
   */
  lemma {:induction false} CoalescedAnswers(cfg: Config, events: seq<Event>)
    requires cfg.Valid()
    ensures var s := Run(cfg, events);
            && (forall r, r' :: r in s.shared && r' in s.shared && r !in s.settled && r' !in s.settled && r != r' ==>
                                  r in s.contexts && r' in s.contexts
                                  && KeyOf(cfg, s.contexts[r]) != KeyOf(cfg, s.contexts[r']))
            && (forall r :: r in s.shared ==>
                              r in s.contexts && var key := KeyOf(cfg, s.contexts[r]);
                                                 r !in s.settled <==> key in s.inFlight && s.inFlight[key] == r)
            && (forall c :: c in s.answers && s.answers[c].Computed? ==>
                              && c in s.contexts && s.answers[c].run in s.contexts && s.answers[c].run in s.finished
                              && s.answers[c].run !in s.thrown
                              && s.finished[s.answers[c].run] == s.answers[c].verdict
                              && KeyOf(cfg, s.contexts[s.answers[c].run]) == KeyOf(cfg, s.contexts[c]))
  {
    RunKeepsJoinInv(cfg, events);
  }

  // ---------------------------------------------------------------- whose ledger a computed answer speaks of

  function SomeFingerprint(): (fp: string)
    ensures |fp| == FINGERPRINT_LENGTH
  {
    seq(FINGERPRINT_LENGTH, i => '0')
  }

  /** Check c was answered by a run whose context belongs to another ledger than its own. */
  predicate CrossesLedger(s: System, c: nat) {
    && c in s.answers && s.answers[c].Computed?
    && c in s.contexts && s.contexts[c].Cached?
    && s.answers[c].run in s.contexts && s.contexts[s.answers[c].run].Cached?
    && s.contexts[c].ledger != s.contexts[s.answers[c].run].ledger
  }

  /** The run registered under the check's key belongs to another ledger and has not ended in an exception. */
  predicate Foreign(cfg: Config, s: System, c: nat) {
    && c in s.contexts && s.contexts[c].Cached?
    && var key := KeyOf(cfg, s.contexts[c]);
       && key in s.inFlight && s.inFlight[key] in s.contexts && s.inFlight[key] !in s.thrown
       && s.contexts[s.inFlight[key]].Cached?
       && s.contexts[s.inFlight[key]].ledger != s.contexts[c].ledger
  }

  /** A check that waits for its own run is answered from its own ledger, in every run of the system. */
  lemma {:induction false} OwnRunOwnLedger(cfg: Config, events: seq<Event>, c: nat)
    requires cfg.Valid() && c in Run(cfg, events).joined && Run(cfg, events).joined[c] == c
    ensures !CrossesLedger(Run(cfg, events), c)
  {
    RunKeepsJoinInv(cfg, events);
  }

  lemma StepKeepsContexts(cfg: Config, s: System, e: Event)
    requires cfg.Valid()
    ensures var t := Step(cfg, s, e);
            forall c :: c in s.contexts ==> c in t.contexts && t.contexts[c] == s.contexts[c]
  {
    hide KeyOf, LookUp, Purge, StoreEntry, DropPrefix;
  }

  lemma StepKeepsThrown(cfg: Config, s: System, e: Event)
    requires cfg.Valid()
    ensures forall r :: r in s.thrown ==> r in Step(cfg, s, e).thrown
  {
    hide KeyOf, LookUp, Purge, StoreEntry, DropPrefix;
  }

  /** Joins are never taken back. */
  lemma StepKeepsJoin(cfg: Config, s: System, e: Event)
    requires cfg.Valid()
    ensures var t := Step(cfg, s, e);
            forall c :: c in s.joined ==> c in t.joined && t.joined[c] == s.joined[c]
  {
    hide KeyOf, LookUp, Purge, StoreEntry, DropPrefix;
  }

  lemma {:induction false} ContinuationKeepsJoin(cfg: Config, before: seq<Event>, after: seq<Event>)
    requires cfg.Valid()
    ensures var s, t := Run(cfg, before), Run(cfg, before + after);
            && (forall c :: c in s.contexts ==> c in t.contexts && t.contexts[c] == s.contexts[c])
            && (forall c :: c in s.joined ==> c in t.joined && t.joined[c] == s.joined[c])
            && (forall r :: r in s.thrown ==> r in t.thrown)
  {
    hide Run, Step;
    if after == [] {
      assert before + after == before;
    } else {
      var front := after[..|after| - 1];
      ContinuationKeepsJoin(cfg, before, front);
      StepKeepsContexts(cfg, Run(cfg, before + front), after[|after| - 1]);
      StepKeepsThrown(cfg, Run(cfg, before + front), after[|after| - 1]);
      StepKeepsJoin(cfg, Run(cfg, before + front), after[|after| - 1]);
      RunSnoc(cfg, before + front, after[|after| - 1]);
      assert before + after == before + front + [after[|after| - 1]];
    }
  }

  /** A check that got nothing from the cache has a context and is answered by a run or not at all. */
  ghost predicate MissedInv(s: System) {
    forall c :: c in s.missed ==> c in s.contexts && (c in s.answers ==> s.answers[c].Computed?)
  }

  lemma LookUpKeepsMissedInv(cfg: Config, s: System, e: Event)
    requires cfg.Valid() && MissedInv(s) && (forall c :: c in s.answers ==> c in s.contexts)
    requires e.Context? || e.Consult?
    ensures MissedInv(Step(cfg, s, e))
  {
    hide KeyOf, LookUp, Purge;
  }

  lemma StepKeepsMissedInv(cfg: Config, s: System, e: Event)
    requires cfg.Valid() && MissedInv(s) && forall c :: c in s.answers ==> c in s.contexts
    ensures MissedInv(Step(cfg, s, e))
  {
    hide Step, MissedInv;
    if e.Context? || e.Consult? {
      LookUpKeepsMissedInv(cfg, s, e);
    } else {
      OtherKeepsMissedInv(cfg, s, e);
    }
  }

  lemma OtherKeepsMissedInv(cfg: Config, s: System, e: Event)
    requires cfg.Valid() && MissedInv(s) && !e.Context? && !e.Consult?
    ensures MissedInv(Step(cfg, s, e))
  {
    hide KeyOf, StoreEntry, DropPrefix;
  }

  lemma AnswersHaveContexts(cfg: Config, s: System)
    requires CacheInv(cfg, s) && JoinInv(cfg, s)
    ensures forall c :: c in s.answers ==> c in s.contexts
  {
    hide FreshFor, Backed, Registered, Recorded, KeyOf;
  }

  lemma {:induction false} RunKeepsMissedInv(cfg: Config, events: seq<Event>)
    requires cfg.Valid()
    ensures MissedInv(Run(cfg, events))
  {
    if events != [] {
      hide Step;
      var front := events[..|events| - 1];
      RunKeepsMissedInv(cfg, front);
      RunKeepsCacheInv(cfg, front);
      RunKeepsJoinInv(cfg, front);
      AnswersHaveContexts(cfg, Run(cfg, front));
      StepKeepsMissedInv(cfg, Run(cfg, front), events[|events| - 1]);
    }
  }

  /** Check c, which missed the cache and has joined nothing, enters after `before`; then `after` happens. */
  function Entered(before: seq<Event>, c: nat, coalesce: bool, after: seq<Event>): seq<Event> {
    before + [Enter(c, coalesce)] + after
  }

  /** What entering decides, for good: the check's own run unless it may share and one is registered under its key. */
  lemma {:induction false} EnterDecides(cfg: Config, before: seq<Event>, c: nat, coalesce: bool, after: seq<Event>)
    requires cfg.Valid() && c in Run(cfg, before).missed && c !in Run(cfg, before).joined
    ensures c in Run(cfg, before).contexts
    ensures var s, t := Run(cfg, before), Run(cfg, Entered(before, c, coalesce, after));
            var key := KeyOf(cfg, s.contexts[c]);
            && c in t.joined
            && t.joined[c] == if coalesce && key in s.inFlight then s.inFlight[key] else c
  {
    hide KeyOf;
    RunKeepsMissedInv(cfg, before);
    RunSnoc(cfg, before, Enter(c, coalesce));
    ContinuationKeepsJoin(cfg, before + [Enter(c, coalesce)], after);
  }

  /** A check with its own `onStep`, or with coalescing off, or first under its key, keeps its own ledger. */
  lemma {:induction false} UnsharedKeepsLedger(cfg: Config, before: seq<Event>, c: nat, coalesce: bool,
      after: seq<Event>)
    requires cfg.Valid() && c in Run(cfg, before).missed && c !in Run(cfg, before).joined
    requires !(coalesce && Foreign(cfg, Run(cfg, before), c))
    ensures !CrossesLedger(Run(cfg, Entered(before, c, coalesce, after)), c)
  {
    hide KeyOf, Run;
    var s := Run(cfg, before);
    EnterDecides(cfg, before, c, coalesce, after);
    var events := Entered(before, c, coalesce, after);
    RunKeepsJoinInv(cfg, events);
    RunKeepsJoinInv(cfg, before);
    ContinuationKeepsJoin(cfg, before, [Enter(c, coalesce)] + after);
    assert events == before + ([Enter(c, coalesce)] + after);
  }

  /** Sharing a run of another ledger leads to an answer of that ledger, as soon as the run has finished. */
  lemma {:induction false} SharedCrosses(cfg: Config, before: seq<Event>, c: nat) returns (after: seq<Event>)
    requires cfg.Valid() && c in Run(cfg, before).missed && c !in Run(cfg, before).joined
    requires Foreign(cfg, Run(cfg, before), c)
    ensures CrossesLedger(Run(cfg, Entered(before, c, true, after)), c)
  {
    hide KeyOf, Run, Step, StoreEntry;
    var s := Run(cfg, before);
    var r := s.inFlight[KeyOf(cfg, s.contexts[c])];
    RunKeepsMissedInv(cfg, before);
    RunKeepsJoinInv(cfg, before);
    var e1 := before + [Enter(c, true)];
    var e2 := e1 + [Finish(r, Undetermined)];
    after := [Finish(r, Undetermined)] + [Deliver(c)];
    RunSnoc(cfg, before, Enter(c, true));
    RunSnoc(cfg, e1, Finish(r, Undetermined));
    RunSnoc(cfg, e2, Deliver(c));
    assert Entered(before, c, true, after) == e2 + [Deliver(c)];
    EnterFinishDeliver(cfg, s, c, r);
  }

  lemma EnterFinishDeliver(cfg: Config, s: System, c: nat, r: nat)
    requires cfg.Valid() && JoinInv(cfg, s) && MissedInv(s) && c in s.missed && c !in s.joined && Foreign(cfg, s, c)
    requires r == s.inFlight[KeyOf(cfg, s.contexts[c])]
    ensures CrossesLedger(Step(cfg, Step(cfg, Step(cfg, s, Enter(c, true)), Finish(r, Undetermined)), Deliver(c)), c)
  {
    hide KeyOf, StoreEntry;
    assert Registered(cfg, s, r);
    assert c !in s.answers;
  }

  /**
   Whose ledger.  A check can be answered from another ledger than its own if and only if it enters with coalescing
   allowed while a run of another ledger, which has not ended in an exception, is registered under its key.
   */
  lemma {:induction false} CrossesExactly(cfg: Config, before: seq<Event>, c: nat, coalesce: bool)
    requires cfg.Valid() && c in Run(cfg, before).missed && c !in Run(cfg, before).joined
    ensures (exists after: seq<Event> :: CrossesLedger(Run(cfg, Entered(before, c, coalesce, after)), c)) <==>
            coalesce && Foreign(cfg, Run(cfg, before), c)
  {
    hide Run, Foreign, CrossesLedger;
    if coalesce && Foreign(cfg, Run(cfg, before), c) {
      var after := SharedCrosses(cfg, before, c);
    } else {
      forall after: seq<Event>
        ensures !CrossesLedger(Run(cfg, Entered(before, c, coalesce, after)), c)
      {
        UnsharedKeepsLedger(cfg, before, c, coalesce, after);
      }
    }
  }

  lemma RunSnoc(cfg: Config, events: seq<Event>, e: Event)
    requires cfg.Valid()
    ensures Run(cfg, events + [e]) == Step(cfg, Run(cfg, events), e)
  {
    assert (events + [e])[..|events|] == events;
  }

  /** Check c misses an empty cache with context ctx and enters the in-flight map. */
  lemma MissSteps(cfg: Config, s: System, c: nat, ctx: Context)
    requires cfg.Valid() && ctx.Cached? && |ctx.fp| == FINGERPRINT_LENGTH
    requires s.cache == [] && c !in s.contexts && c !in s.missed && c !in s.answers && c !in s.joined
    ensures var key, u := KeyOf(cfg, ctx), Step(cfg, Step(cfg, s, Event.Context(c, ctx, ctx.at)), Consult(c, ctx.at));
            var t := Step(cfg, u, Enter(c, true));
            && t.contexts == s.contexts[c := ctx] && t.cache == [] && t.missed == s.missed + {c}
            && t.answers == s.answers && t.finished == s.finished && t.thrown == s.thrown
            && if key in s.inFlight then t.joined == s.joined[c := s.inFlight[key]] && t.inFlight == s.inFlight
               else t.joined == s.joined[c := c] && t.inFlight == s.inFlight[key := c]
  {
    hide KeyOf;
  }

  lemma MissAndEnter(cfg: Config, events: seq<Event>, c: nat, ctx: Context) returns (more: seq<Event>)
    requires cfg.Valid() && ctx.Cached? && |ctx.fp| == FINGERPRINT_LENGTH
    requires var s := Run(cfg, events);
             s.cache == [] && c !in s.contexts && c !in s.missed && c !in s.answers && c !in s.joined
    ensures var s, t := Run(cfg, events), Run(cfg, more);
            && t.contexts == s.contexts[c := ctx] && t.cache == [] && t.missed == s.missed + {c}
            && t.answers == s.answers && t.finished == s.finished && t.thrown == s.thrown
            && var key := KeyOf(cfg, ctx);
               if key in s.inFlight then t.joined == s.joined[c := s.inFlight[key]] && t.inFlight == s.inFlight
               else t.joined == s.joined[c := c] && t.inFlight == s.inFlight[key := c]
  {
    hide Run, Step, KeyOf;
    var e1, e2, e3 := Event.Context(c, ctx, ctx.at), Consult(c, ctx.at), Enter(c, true);
    RunSnoc(cfg, events, e1);
    RunSnoc(cfg, events + [e1], e2);
    more := events + [e1] + [e2] + [e3];
    RunSnoc(cfg, events + [e1] + [e2], e3);
    MissSteps(cfg, Run(cfg, events), c, ctx);
  }

  /** A check that waits for another check's run gets that run's verdict, whatever its ledger. */
  lemma FinishDeliver(cfg: Config, s: System, c: nat, r: nat)
    requires cfg.Valid() && c in s.joined && s.joined[c] == r && r in s.joined && s.joined[r] == r
    requires c in s.contexts && r in s.contexts && s.contexts[c].Cached? && s.contexts[r].Cached?
    requires s.contexts[c].ledger != s.contexts[r].ledger && c !in s.answers
    requires r !in s.finished && r !in s.thrown
    ensures CrossesLedger(Step(cfg, Step(cfg, s, Finish(r, Undetermined)), Deliver(c)), c)
  {
    hide KeyOf, StoreEntry;
  }

  /**
   The in-flight key carries no ledger, so a joined check may be answered by a run whose context belongs
   to another ledger; only cache hits promise the ledger the check observed.
   */
  lemma JoinMayCrossLedger(cfg: Config)
    requires cfg.Valid()
    ensures exists events: seq<Event> :: CrossesLedger(Run(cfg, events), 1)
  {
    hide Step, CrossesLedger;
    var fp := SomeFingerprint();
    var older, newer := Cached(fp, "unknown", 7, 0), Cached(fp, "unknown", 8, 0);
    assert KeyOf(cfg, older) == KeyOf(cfg, newer);
    var e1 := MissAndEnter(cfg, [], 0, older);
    var e2 := MissAndEnter(cfg, e1, 1, newer);
    var e3 := e2 + [Finish(0, Undetermined)];
    RunSnoc(cfg, e2, Finish(0, Undetermined));
    RunSnoc(cfg, e3, Deliver(1));
    FinishDeliver(cfg, Run(cfg, e2), 1, 0);
    assert CrossesLedger(Run(cfg, e3 + [Deliver(1)]), 1);
  }
}
