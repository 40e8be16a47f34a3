/**
 That the verdict cache is used: which verdicts enter it, what it takes to drop one, and that a verdict nothing has
 dropped is served to the next check entitled to it, over every interleaving.
 */
module CacheUse {
  import opened Wrappers
  import opened VerdictCache
  import opened CheckInterleaving

  /** The check has its context, no verdict yet, and the cache to ask. */
  ghost predicate Asks(s: System, c: nat) {
    c in s.contexts && s.contexts[c].Cached? && c !in s.missed && c !in s.answers
  }

  /** Check r runs the enforcement itself, and the run has not ended. */
  ghost predicate Runs(s: System, r: nat) {
    r in s.joined && s.joined[r] == r && r !in s.finished && r !in s.thrown && r in s.contexts
  }

  /** The life of an entry: the configured one, five seconds at most. */
  ghost predicate Lives(cfg: Config, ms: int) {
    var requested := if cfg.ttlMs.Some? then cfg.ttlMs.value else 5000 * cfg.ttlLedgers;
    ms <= 5000 && ms <= requested && (ms == 5000 || ms == requested)
  }

  /** Finishing run r with verdict v puts this entry into the cache. */
  ghost predicate Enters(cfg: Config, s: System, r: nat, v: Verdict, x: Item) {
    && Runs(s, r) && s.contexts[r].Cached? && !v.Undetermined?
    && x.key == KeyOf(cfg, s.contexts[r])
    && x.entry.verdict == v && x.entry.ledger == s.contexts[r].ledger
    && Lives(cfg, x.entry.expiresAt - s.contexts[r].at)
  }

  ghost predicate Alive(x: Item, ledger: int, now: int) {
    x.entry.ledger == ledger && now < x.entry.expiresAt
  }

  /** The step removes entry x from a cache without a size limit, or puts another one in its place. */
  ghost predicate Drops(cfg: Config, s: System, e: Event, x: Item) {
    match e
    case Context(c, ctx, now) =>
      c !in s.contexts && |ctx.fp| == FINGERPRINT_LENGTH && ctx.Cached? && !Alive(x, ctx.ledger, now)
    case Consult(c, now) => Asks(s, c) && x.key == KeyOf(cfg, s.contexts[c]) && !Alive(x, s.contexts[c].ledger, now)
    case Finish(r, v) => exists y :: Enters(cfg, s, r, v, y) && y.key == x.key && y != x
    case Invalidate(fp) => fp.None? || CallPrefix(cfg.namespace, fp.value) <= x.key
    case _ => false
  }

  // ---------------------------------------------------------------- one step

  lemma {:induction false} KeysStayDistinct(cfg: Config, events: seq<Event>)
    requires cfg.Valid()
    ensures Distinct(Run(cfg, events).cache)
  {
    if events != [] {
      KeysStayDistinct(cfg, events[..|events| - 1]);
      StepKeepsDistinct(cfg, Run(cfg, events[..|events| - 1]), events[|events| - 1]);
    }
  }

  lemma StepKeepsDistinct(cfg: Config, s: System, e: Event)
    requires cfg.Valid() && Distinct(s.cache)
    ensures Distinct(Step(cfg, s, e).cache)
  {
    hide StoreEntry, LookUp, Purge, DropPrefix, KeyOf, Distinct;
    NothingIsDistinct();
    match e
    case Context(_, ctx, now) =>
      if ctx.Cached? {
        PurgeContents(s.cache, ctx.ledger, now);
      }
    case Consult(c, now) =>
      if c in s.contexts && s.contexts[c].Cached? {
        LookUpExactly(cfg.maxEntries, s.cache, KeyOf(cfg, s.contexts[c]), s.contexts[c].ledger, now);
      }
    case Finish(r, v) =>
      if r in s.contexts && s.contexts[r].Cached? {
        StoreExactly(cfg.maxEntries, s.cache, KeyOf(cfg, s.contexts[r]),
                     Entry(v, s.contexts[r].ledger, s.contexts[r].at + cfg.Ttl()));
      }
    case Invalidate(fp) =>
      if fp.Some? {
        DropPrefixContents(s.cache, CallPrefix(cfg.namespace, fp.value));
      }
    case _ =>
  }

  lemma NothingIsDistinct()
    ensures Distinct([])
  {
  }

  /** The entry a finishing run stores. */
  lemma EntersExactly(cfg: Config, s: System, r: nat, v: Verdict, x: Item)
    requires cfg.Valid()
    ensures Enters(cfg, s, r, v, x) <==>
            && Runs(s, r) && s.contexts[r].Cached? && !v.Undetermined?
            && x == Item(KeyOf(cfg, s.contexts[r]), Entry(v, s.contexts[r].ledger, s.contexts[r].at + cfg.Ttl()))
  {
    hide KeyOf;
  }

  /** Finishing stores the entry exactly when there is one to store, and otherwise leaves the cache alone. */
  lemma FinishStores(cfg: Config, s: System, r: nat, v: Verdict, x: Item)
    requires cfg.Valid() && Distinct(s.cache) && cfg.maxEntries.None?
    ensures var after := Step(cfg, s, Finish(r, v)).cache;
            x in after <==> Enters(cfg, s, r, v, x) || (x in s.cache && !Drops(cfg, s, Finish(r, v), x))
  {
    hide KeyOf, Distinct, StoreEntry, Enters;
    forall y
      ensures Enters(cfg, s, r, v, y) <==>
              && Runs(s, r) && s.contexts[r].Cached? && !v.Undetermined?
              && y == Item(KeyOf(cfg, s.contexts[r]), Entry(v, s.contexts[r].ledger, s.contexts[r].at + cfg.Ttl()))
    {
      EntersExactly(cfg, s, r, v, y);
    }
    if Runs(s, r) && s.contexts[r].Cached? && !v.Undetermined? {
      var e := Entry(v, s.contexts[r].ledger, s.contexts[r].at + cfg.Ttl());
      StoreExactly(cfg.maxEntries, s.cache, KeyOf(cfg, s.contexts[r]), e);
      assert Enters(cfg, s, r, v, Item(KeyOf(cfg, s.contexts[r]), e));
    }
  }

  /** A step keeps an entry exactly unless it is one of the steps that drop it. */
  lemma StepKeepsExactly(cfg: Config, s: System, e: Event, x: Item)
    requires cfg.Valid() && Distinct(s.cache) && cfg.maxEntries.None? && x in s.cache
    ensures x in Step(cfg, s, e).cache <==> !Drops(cfg, s, e, x)
  {
    hide StoreEntry, LookUp, Purge, DropPrefix, KeyOf, Distinct, Enters;
    match e
    case Context(_, ctx, now) =>
      if ctx.Cached? {
        PurgeContents(s.cache, ctx.ledger, now);
      }
    case Consult(c, now) =>
      if c in s.contexts && s.contexts[c].Cached? {
        LookUpExactly(cfg.maxEntries, s.cache, KeyOf(cfg, s.contexts[c]), s.contexts[c].ledger, now);
      }
    case Finish(r, v) =>
      FinishStores(cfg, s, r, v, x);
      if Enters(cfg, s, r, v, x) {
        OneEnters(cfg, s, r, v, x);
      }
    case Invalidate(fp) =>
      if fp.Some? {
        DropPrefixContents(s.cache, CallPrefix(cfg.namespace, fp.value));
      }
    case _ =>
  }

  lemma OneEnters(cfg: Config, s: System, r: nat, v: Verdict, x: Item)
    requires cfg.Valid() && Enters(cfg, s, r, v, x)
    ensures forall y :: Enters(cfg, s, r, v, y) ==> y == x
  {
    hide Enters, KeyOf;
    forall y | Enters(cfg, s, r, v, y)
      ensures y == x
    {
      EntersExactly(cfg, s, r, v, x);
      EntersExactly(cfg, s, r, v, y);
    }
  }

  // ---------------------------------------------------------------- whole runs

  /** A check that asks is served exactly the verdict cached for its key and ledger and still alive; else it misses. */
  lemma {:induction false} ServedExactly(cfg: Config, events: seq<Event>, c: nat, now: int, v: Verdict)
    requires cfg.Valid() && Asks(Run(cfg, events), c)
    ensures var s := Run(cfg, events);
            var t := Step(cfg, s, Consult(c, now));
            && ((c in t.answers && t.answers[c] == Served(v, now)) <==>
                exists x :: x in s.cache && x.key == KeyOf(cfg, s.contexts[c]) && Alive(x, s.contexts[c].ledger, now)
                            && x.entry.verdict == v)
            && (c in t.missed <==> c !in t.answers)
  {
    hide LookUp, KeyOf, Distinct;
    KeysStayDistinct(cfg, events);
    var s := Run(cfg, events);
    var key := KeyOf(cfg, s.contexts[c]);
    hide Run;
    LookUpExactly(cfg.maxEntries, s.cache, key, s.contexts[c].ledger, now);
    var r := LookUp(cfg.maxEntries, s.cache, key, s.contexts[c].ledger, now);
    if r.hit == Some(v) {
      var e :| Item(key, e) in s.cache && e.ledger == s.contexts[c].ledger && now < e.expiresAt && e.verdict == v;
      assert Alive(Item(key, e), s.contexts[c].ledger, now);
    }
    if x :| x in s.cache && x.key == key && Alive(x, s.contexts[c].ledger, now) && x.entry.verdict == v {
      assert x == Item(key, x.entry);
    }
  }

  lemma RunAppend(cfg: Config, events: seq<Event>, e: Event)
    requires cfg.Valid()
    ensures Run(cfg, events + [e]) == Step(cfg, Run(cfg, events), e)
  {
    assert (events + [e])[..|events|] == events;
  }

  /** None of the later events drops x. */
  ghost predicate NoneDrops(cfg: Config, events: seq<Event>, later: seq<Event>, x: Item)
    requires cfg.Valid()
  {
    forall n :: 0 <= n < |later| ==> !Drops(cfg, Run(cfg, events + later[..n]), later[n], x)
  }

  lemma {:induction false} Stays(cfg: Config, events: seq<Event>, later: seq<Event>, x: Item)
    requires cfg.Valid() && cfg.maxEntries.None? && x in Run(cfg, events).cache
    requires NoneDrops(cfg, events, later, x)
    ensures x in Run(cfg, events + later).cache
  {
    hide Run, Step, Drops;
    if later == [] {
      assert events + later == events;
    } else {
      var front, last := later[..|later| - 1], later[|later| - 1];
      assert forall n :: 0 <= n < |front| ==> front[..n] == later[..n];
      Stays(cfg, events, front, x);
      KeysStayDistinct(cfg, events + front);
      StepKeepsExactly(cfg, Run(cfg, events + front), last, x);
      RunAppend(cfg, events + front, last);
      assert events + later == (events + front) + [last];
    }
  }

  /**
   A cached verdict is used.  In a cache without a size limit, a decisive verdict that a run ended with is served to
   every check of the same key that later asks on the same ledger within the entry's life, unless one of the steps in
   between dropped the entry: a purge or a consultation that found it stale, another verdict of its key, or an
   invalidation that covers its call.
   */
  lemma {:induction false} CachedVerdictIsServed(cfg: Config, events: seq<Event>, r: nat, v: Verdict, x: Item,
          later: seq<Event>, c: nat, now: int)
    requires cfg.Valid() && cfg.maxEntries.None? && Enters(cfg, Run(cfg, events), r, v, x)
    requires NoneDrops(cfg, events + [Finish(r, v)], later, x)
    requires var s := Run(cfg, events + [Finish(r, v)] + later);
             Asks(s, c) && KeyOf(cfg, s.contexts[c]) == x.key && Alive(x, s.contexts[c].ledger, now)
    ensures var t := Step(cfg, Run(cfg, events + [Finish(r, v)] + later), Consult(c, now));
            c in t.answers && t.answers[c] == Served(v, now)
  {
    hide Run, Step, Enters, NoneDrops, KeyOf;
    var stored := events + [Finish(r, v)];
    KeysStayDistinct(cfg, events);
    FinishStores(cfg, Run(cfg, events), r, v, x);
    RunAppend(cfg, events, Finish(r, v));
    Stays(cfg, stored, later, x);
    EnteredVerdict(cfg, Run(cfg, events), r, v, x);
    ServedExactly(cfg, stored + later, c, now, v);
  }

  lemma EnteredVerdict(cfg: Config, s: System, r: nat, v: Verdict, x: Item)
    requires Enters(cfg, s, r, v, x)
    ensures x.entry.verdict == v
  {
  }
}
