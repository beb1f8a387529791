/**
When polling makes progress: a poll returns a new event exactly when one is outstanding and the
batch is larger than what was already returned of the cursor's ledger.
 */
module IndexerProgress {
  import opened Database
  import opened EventSource
  import opened Handlers
  import opened IndexerRuns

  /** Ledger of the last of the first d events. */
  function Latest(f: Feed, d: nat): nat
    requires d <= |f.log|
  {
    if d == 0 then 0 else f.log[d - 1].ledger
  }

  /** d events were returned, and the cursor, in memory and in a database that is up, is the ledger of the last. */
  ghost predicate AtLatest(f: Feed, db: Db, d: nat) {
    && Frontier(f, d)
    && CursorAt(f, db) == Latest(f, d)
    && (db.up ==> LastLedger(db, f.namespace) == Latest(f, d))
  }

  /** How many events will have been returned after a poll that succeeds. */
  function NextFrontier(f: Feed, db: Db, limit: nat, d: nat): nat {
    var end := Window(f, db, limit).1;
    if end > d then end else d
  }

  lemma RaisedToLatest(f: Feed, db: Db, limit: nat, d: nat)
    requires Published(f) && NoGaps(f, db) && AtLatest(f, db, d)
    ensures NextFrontier(f, db, limit, d) <= |f.log|
    ensures Raised(CursorAt(f, db), Batch(f, db, limit)) == Latest(f, NextFrontier(f, db, limit, d))
  {
    StartBeforeFrontier(f, db, limit, d);
    assert d <= |f.log| && CursorAt(f, db) == Latest(f, d);
    hide Window, Raised, Frontier, CursorAt;
    var w := Window(f, db, limit);
    RaisedOverRange(f, w.0, w.1, d);
  }

  /** Raising the cursor from the ledger of event d - 1 over a later or overlapping range. */
  lemma RaisedOverRange(f: Feed, start: nat, end: nat, d: nat)
    requires Ordered(f.log) && start <= end <= |f.log| && start <= d <= |f.log|
    ensures Raised(Latest(f, d), f.log[start..end]) == Latest(f, if end > d then end else d)
  {
    hide Raised;
    var batch := f.log[start..end];
    RaisedOrdered(Latest(f, d), batch);
    if batch != [] {
      assert batch[|batch| - 1] == f.log[end - 1];
    }
  }

  /** The poll gets as far as returning what it fetched, given that storing the cursor works. */
  predicate Gets(f: Feed, db: Db, fate: Fate) {
    f.configured && (fate.Fine? || (fate.LoadFails? && (f.source.loaded || !db.up)) || (fate.PersistFails? && !db.up))
  }

  lemma PollAtLatest(f: Feed, db: Db, limit: nat, fate: Fate, d: nat)
    requires Published(f) && NoGaps(f, db) && AtLatest(f, db, d) && !(db.up && fate.PersistFails?)
    ensures var (g, after) := FeedPolled(f, db, limit, fate);
            AtLatest(g, after, if Gets(f, db, fate) then NextFrontier(f, db, limit, d) else d)
  {
    hide FeedPolled, Raised, Batch, Window, Elements, Published, NoGaps, Latest, LastLedger, CursorAt;
    var n := NextFrontier(f, db, limit, d);
    if !f.configured {
      Unconfigured(f, db, limit, fate);
    } else {
      PollCases(f, db, limit, fate);
      if Gets(f, db, fate) {
        BatchExtends(f, db, limit, d);
        RaisedToLatest(f, db, limit, d);
        var (g, after) := FeedPolled(f, db, limit, fate);
        MovedToLatest(f, db, d, n, g, after);
      } else {
        StaysAtLatest(f, db, d, FeedPolled(f, db, limit, fate).0);
      }
    }
  }

  lemma MovedToLatest(f: Feed, db: Db, d: nat, n: nat, g: Feed, after: Db)
    requires Published(f) && AtLatest(f, db, d) && d <= n <= |f.log|
    requires g.log == f.log && g.namespace == f.namespace && g.returned == Elements(f.log[..n])
    requires g.source == Source(Latest(f, n), true)
    requires after == if Latest(f, n) > 0 then WithLedger(db, f.namespace, Latest(f, n)) else db
    ensures AtLatest(g, after, n)
  {
    hide Elements;
    LatestZero(f, n);
  }

  lemma StaysAtLatest(f: Feed, db: Db, d: nat, g: Feed)
    requires AtLatest(f, db, d)
    requires g.log == f.log && g.namespace == f.namespace && g.returned == f.returned
    requires g.source == f.source || g.source == Source(CursorAt(f, db), true)
    ensures AtLatest(g, db, d)
  {
    hide Elements;
  }

  lemma LatestZero(f: Feed, d: nat)
    requires Published(f) && d <= |f.log|
    ensures Latest(f, d) == 0 <==> d == 0
  {
  }

  /**
  Progress: a poll that succeeds returns a new event exactly when one is outstanding and fewer
  than `limit` of the events already returned are of the start ledger or a later one.
   */
  lemma PollProgress(f: Feed, db: Db, limit: nat, d: nat)
    requires Published(f) && f.configured && NoGaps(f, db) && Frontier(f, d)
    ensures var (g, _) := FeedPolled(f, db, limit, Fine);
            g.returned != f.returned <==> d < |f.log| && d - Window(f, db, limit).0 < limit
  {
    PollCases(f, db, limit, Fine);
    BatchExtends(f, db, limit, d);
    StartBeforeFrontier(f, db, limit, d);
    var high := NextFrontier(f, db, limit, d);
    if high > d {
      FrontierIsNew(f, d);
      ElementsHas(f.log[..high]);
      assert f.log[..high][d] == f.log[d];
    }
    hide Window, FeedPolled, Elements, Raised, NoGaps, Published;
    WindowCut(f, db, limit);
  }

  /** Events of one ledger. */
  function CountOf(log: seq<Event>, ledger: nat): nat {
    if log == [] then 0
    else CountOf(log[..|log| - 1], ledger) + if log[|log| - 1].ledger == ledger then 1 else 0
  }

  lemma {:induction false} CountsRange(log: seq<Event>, ledger: nat, a: nat, b: nat)
    requires a <= b <= |log| && forall i | a <= i < b :: log[i].ledger == ledger
    ensures CountOf(log, ledger) >= b - a
  {
    if a < b {
      var last := |log| - 1;
      CountsRange(log[..last], ledger, a, if b == |log| then last else b);
    }
  }

  /** With the cursor at the last returned event, the events polled again are those of its ledger. */
  lemma AgainIsCursorLedger(f: Feed, db: Db, limit: nat, d: nat)
    requires Published(f) && NoGaps(f, db) && AtLatest(f, db, d)
    ensures var start := Window(f, db, limit).0;
            && start <= d
            && (forall i | start <= i < d :: f.log[i].ledger == Latest(f, d))
            && (forall i | 0 <= i < start :: f.log[i].ledger < Latest(f, d))
  {
    StartBeforeFrontier(f, db, limit, d);
    LatestZero(f, d);
    assert d <= |f.log|;
    hide BatchEnd, Frontier, Distinct;
  }

  /** If every ledger has fewer events than the batch size, each poll that succeeds makes progress. */
  lemma SmallLedgersProgress(f: Feed, db: Db, limit: nat, d: nat)
    requires Published(f) && NoGaps(f, db) && f.configured && AtLatest(f, db, d) && d < |f.log|
    requires forall ledger: nat :: CountOf(f.log, ledger) < limit
    ensures FeedPolled(f, db, limit, Fine).0.returned != f.returned
  {
    hide FeedPolled, Window, Published, CountOf;
    AgainIsCursorLedger(f, db, limit, d);
    CountsRange(f.log, Latest(f, d), Window(f, db, limit).0, d);
    PollProgress(f, db, limit, d);
  }

  // ----- Over runs

  /** No store of the cursor fails, and a restart finds it stored. */
  predicate Steady(up: bool, action: Action) {
    && (action.Poll? ==> !(up && action.fate.PersistFails?))
    && (action.Restart? ==> up && action.up)
  }

  /** Where an action moves the frontier of feed k. */
  function Moved(sys: System, action: Action, k: nat, d: nat): nat
    requires k < |sys.feeds|
  {
    if action.Poll? && action.k == k && Gets(sys.feeds[k], sys.db, action.fate)
    then NextFrontier(sys.feeds[k], sys.db, action.limit, d)
    else d
  }

  lemma AtLatestAgrees(f: Feed, db: Db, d: nat, g: Feed, after: Db)
    requires AtLatest(f, db, d) && after.up == db.up
    requires g.namespace == f.namespace && g.returned == f.returned && |g.log| >= |f.log| && g.log[..|f.log|] == f.log
    requires f.namespace in db.ledgers <==> f.namespace in after.ledgers
    requires f.namespace in db.ledgers ==> after.ledgers[f.namespace] == db.ledgers[f.namespace]
    requires g.source == f.source || (db.up && !g.source.loaded)
    ensures AtLatest(g, after, d)
  {
    assert g.log[..d] == f.log[..d];
    assert d > 0 ==> g.log[d - 1] == g.log[..|f.log|][d - 1];
  }

  lemma NextAtLatest(sys: System, action: Action, k: nat, d: nat)
    requires Healthy(sys) && Steady(sys.db.up, action) && k < |sys.feeds| && AtLatest(sys.feeds[k], sys.db, d)
    ensures var next := Next(sys, action);
            && |next.feeds| == |sys.feeds| && next.db.up == sys.db.up
            && AtLatest(next.feeds[k], next.db, Moved(sys, action, k, d))
            && |next.feeds[k].log| >= |sys.feeds[k].log| && next.feeds[k].log[..|sys.feeds[k].log|] == sys.feeds[k].log
            && next.feeds[k].configured == sys.feeds[k].configured
  {
    hide AtLatest, FeedPolled, CanAppend, Handled, NoGaps, Published, WithLedger, NextFrontier;
    var f := sys.feeds[k];
    HealthyFeed(sys, k);
    var next := Next(sys, action);
    var g := next.feeds[k];
    match action
    case Append(j, e) =>
      AtLatestAgrees(f, sys.db, d, g, next.db);
    case Poll(j, limit, fate) =>
      if j < |sys.feeds| {
        PolledStores(sys.feeds[j], sys.db, limit, fate);
        PolledKeeps(sys.feeds[j], sys.db, limit, fate);
        if j == k {
          PollAtLatest(f, sys.db, limit, fate, d);
        } else {
          OtherStored(sys.feeds[j].namespace, f.namespace, sys.db, next.db);
          AtLatestAgrees(f, sys.db, d, g, next.db);
        }
      }
    case Handle(j, b, fault) =>
      if j < |sys.feeds| && b < |sys.feeds[j].pending| && sys.feeds[j].pending[b] != [] {
        var e := sys.feeds[j].pending[b][0];
        HandledKeepsLedgers(sys.db, sys.feeds[j].namespace, RowOf(sys.feeds[j].retirement, e), e, fault);
      }
      AtLatestAgrees(f, sys.db, d, g, next.db);
    case Restart(up) =>
      AtLatestAgrees(f, sys.db, d, g, next.db);
  }

  lemma PolledKeeps(f: Feed, db: Db, limit: nat, fate: Fate)
    ensures var (g, after) := FeedPolled(f, db, limit, fate); g.configured == f.configured && after.up == db.up
  {
    hide OnTopic, Fetched, Raised;
  }

  /** A steady run keeps every feed's cursor at the last event it returned. */
  lemma {:induction false} RunAtLatest(sys: System, actions: seq<Action>, k: nat) returns (d: nat)
    requires Initial(sys) && k < |sys.feeds|
    requires forall i {:trigger actions[i]} | 0 <= i < |actions| :: Steady(sys.db.up, actions[i])
    ensures var end := Run(sys, actions);
            Healthy(end) && end.db.up == sys.db.up && |end.feeds| == |sys.feeds| && AtLatest(end.feeds[k], end.db, d)
            && end.feeds[k].configured == sys.feeds[k].configured
  {
    hide Healthy, AtLatest, Next, Initial, Steady;
    if actions == [] {
      d := 0;
      InitialAtLatest(sys, k);
    } else {
      var last := |actions| - 1;
      forall i | 0 <= i < last ensures Steady(sys.db.up, actions[..last][i]) {
        assert actions[..last][i] == actions[i];
      }
      var c := RunAtLatest(sys, actions[..last], k);
      var before := Run(sys, actions[..last]);
      assert Steady(sys.db.up, actions[last]);
      SteadyClean(before, actions[last]);
      NextHealthy(before, actions[last]);
      NextAtLatest(before, actions[last], k, c);
      d := Moved(before, actions[last], k, c);
    }
  }

  lemma InitialAtLatest(sys: System, k: nat)
    requires Initial(sys) && k < |sys.feeds|
    ensures Healthy(sys) && AtLatest(sys.feeds[k], sys.db, 0)
  {
    InitialHealthy(sys);
    assert Frontier(sys.feeds[k], 0);
  }

  lemma SteadyClean(sys: System, action: Action)
    requires Steady(sys.db.up, action)
    ensures Clean(sys, action)
  {
  }

  lemma {:induction false} CountsExactly(log: seq<Event>, ledger: nat, a: nat)
    requires a <= |log| && forall i | 0 <= i < |log| :: log[i].ledger == ledger <==> a <= i
    ensures CountOf(log, ledger) == |log| - a
  {
    if log != [] {
      var last := |log| - 1;
      CountsExactly(log[..last], ledger, if a == |log| then last else a);
    }
  }

  /** How many returned events share the last returned event's ledger. */
  function AtCursor(f: Feed, d: nat): nat
    requires d <= |f.log|
  {
    CountOf(f.log[..d], Latest(f, d))
  }

  lemma StartIsCount(f: Feed, db: Db, limit: nat, d: nat)
    requires Published(f) && NoGaps(f, db) && AtLatest(f, db, d)
    ensures d <= |f.log| && d - Window(f, db, limit).0 == AtCursor(f, d)
  {
    hide Window;
    AgainIsCursorLedger(f, db, limit, d);
    CountsExactly(f.log[..d], Latest(f, d), Window(f, db, limit).0);
  }

  /**
  Progress over runs, with a database or in memory: after any steady run, a poll that succeeds
  returns a new event exactly when one is outstanding and the batch is larger than the number
  of events already returned of the last returned ledger.
   */
  lemma RunProgress(sys: System, actions: seq<Action>, k: nat, limit: nat) returns (d: nat)
    requires Initial(sys) && k < |sys.feeds| && sys.feeds[k].configured
    requires forall i {:trigger actions[i]} | 0 <= i < |actions| :: Steady(sys.db.up, actions[i])
    ensures |Run(sys, actions).feeds| == |sys.feeds|
    ensures var end := Run(sys, actions);
            var f := end.feeds[k];
            && Frontier(f, d)
            && (FeedPolled(f, end.db, limit, Fine).0.returned != f.returned <==> d < |f.log| && AtCursor(f, d) < limit)
  {
    hide Healthy, FeedPolled, Window, AtCursor, Initial, Published, NoGaps, Run, Steady;
    d := RunAtLatest(sys, actions, k);
    var end := Run(sys, actions);
    HealthyFeed(end, k);
    StartIsCount(end.feeds[k], end.db, limit, d);
    PollProgress(end.feeds[k], end.db, limit, d);
  }

  /**
  A stall is for good: once the returned events of the last returned ledger fill the batch, no
  poll, restart or new event brings anything more.
   */
  lemma {:induction false} StalledForever(sys: System, actions: seq<Action>, k: nat, limit: nat, d: nat)
    requires Healthy(sys) && k < |sys.feeds| && AtLatest(sys.feeds[k], sys.db, d)
    requires d <= |sys.feeds[k].log| && AtCursor(sys.feeds[k], d) >= limit
    requires forall i {:trigger actions[i]} | 0 <= i < |actions| ::
               Steady(sys.db.up, actions[i]) && (actions[i].Poll? ==> actions[i].limit <= limit)
    ensures var end := Run(sys, actions);
            && Healthy(end) && end.db.up == sys.db.up && |end.feeds| == |sys.feeds| && AtLatest(end.feeds[k], end.db, d)
            && |end.feeds[k].log| >= |sys.feeds[k].log| && end.feeds[k].log[..|sys.feeds[k].log|] == sys.feeds[k].log
            && end.feeds[k].returned == sys.feeds[k].returned
  {
    hide Healthy, Next, Steady, AtCursor;
    if actions != [] {
      var last := |actions| - 1;
      forall i | 0 <= i < last ensures Steady(sys.db.up, actions[..last][i]) && (actions[..last][i].Poll? ==> actions[..last][i].limit <= limit) {
        assert actions[..last][i] == actions[i];
      }
      StalledForever(sys, actions[..last], k, limit, d);
      var before := Run(sys, actions[..last]);
      assert Steady(sys.db.up, actions[last]) && (actions[last].Poll? ==> actions[last].limit <= limit);
      SteadyClean(before, actions[last]);
      NextHealthy(before, actions[last]);
      NextAtLatest(before, actions[last], k, d);
      StallHolds(sys.feeds[k], before, actions[last], k, limit, d);
      SameReturned(before.feeds[k], Run(sys, actions).feeds[k], d);
    }
  }

  lemma StallHolds(f: Feed, sys: System, action: Action, k: nat, limit: nat, d: nat)
    requires Healthy(sys) && k < |sys.feeds| && AtLatest(sys.feeds[k], sys.db, d)
    requires d <= |f.log| <= |sys.feeds[k].log| && sys.feeds[k].log[..|f.log|] == f.log && AtCursor(f, d) >= limit
    requires action.Poll? ==> action.limit <= limit
    ensures Moved(sys, action, k, d) == d
  {
    hide AtLatest, Published, NoGaps;
    var g := sys.feeds[k];
    assert g.log[..d] == f.log[..d] && (d > 0 ==> g.log[d - 1] == g.log[..|f.log|][d - 1]);
    hide CountOf;
    StartIsCount(g, sys.db, if action.Poll? then action.limit else 0, d);
    hide Seek, CursorAt, StartLedger;
  }

  lemma SameReturned(f: Feed, g: Feed, d: nat)
    requires Frontier(f, d) && Frontier(g, d) && |g.log| >= |f.log| && g.log[..|f.log|] == f.log
    ensures g.returned == f.returned
  {
    assert g.log[..d] == f.log[..d];
  }

  // ----- Which feeds stall, and which are returned in the end

  /** The `limit` events before position p are all of one ledger. */
  predicate Full(log: seq<Event>, limit: nat, p: nat)
    requires p <= |log|
  {
    limit <= p && (limit == 0 || log[p - limit].ledger == log[p - 1].ledger)
  }

  /** No poll gets past a full batch of one ledger. */
  lemma FullBlocks(f: Feed, db: Db, limit: nat, bound: nat, d: nat, p: nat)
    requires Published(f) && NoGaps(f, db) && AtLatest(f, db, d)
    requires d <= p <= |f.log| && limit <= bound && Full(f.log, bound, p)
    ensures NextFrontier(f, db, limit, d) <= p
  {
    AgainIsCursorLedger(f, db, limit, d);
    WindowCut(f, db, limit);
    LatestZero(f, d);
    hide Window, Frontier, NoGaps, CursorAt, Distinct;
    var start := Window(f, db, limit).0;
    if bound > 0 && d > 0 {
      assert f.log[d - 1].ledger <= f.log[p - 1].ledger == f.log[p - bound].ledger;
      assert start <= p - bound;
    }
  }

  /** Where the batches are not full, each poll moves on. */
  lemma RoomMoves(f: Feed, db: Db, limit: nat, d: nat)
    requires Published(f) && NoGaps(f, db) && AtLatest(f, db, d)
    requires d < |f.log| && !Full(f.log, limit, d)
    ensures NextFrontier(f, db, limit, d) > d
  {
    AgainIsCursorLedger(f, db, limit, d);
    WindowCut(f, db, limit);
    hide Window, Frontier, NoGaps, CursorAt, Distinct;
    var start := Window(f, db, limit).0;
    assert 0 < limit <= d ==> f.log[d - limit].ledger < f.log[d - 1].ledger == Latest(f, d);
    assert limit <= d ==> d - limit < start;
  }

  lemma FullStays(log: seq<Event>, more: seq<Event>, limit: nat, p: nat)
    requires p <= |log| <= |more| && more[..|log|] == log && Full(log, limit, p)
    ensures Full(more, limit, p)
  {
    assert limit > 0 ==> more[p - limit] == more[..|log|][p - limit] && more[p - 1] == more[..|log|][p - 1];
  }

  lemma {:induction false} RunBlocked(sys: System, actions: seq<Action>, k: nat, bound: nat, d: nat, p: nat) returns (c: nat)
    requires Healthy(sys) && k < |sys.feeds| && AtLatest(sys.feeds[k], sys.db, d)
    requires d <= p <= |sys.feeds[k].log| && Full(sys.feeds[k].log, bound, p)
    requires forall i {:trigger actions[i]} | 0 <= i < |actions| ::
               Steady(sys.db.up, actions[i]) && (actions[i].Poll? ==> actions[i].limit <= bound)
    ensures var end := Run(sys, actions);
            && Healthy(end) && end.db.up == sys.db.up && |end.feeds| == |sys.feeds|
            && c <= p && AtLatest(end.feeds[k], end.db, c)
            && |end.feeds[k].log| >= |sys.feeds[k].log| && end.feeds[k].log[..|sys.feeds[k].log|] == sys.feeds[k].log
  {
    hide Healthy, Next, Steady, AtLatest, Full, NextFrontier;
    if actions == [] {
      c := d;
    } else {
      var last := |actions| - 1;
      forall j | 0 <= j < last ensures Steady(sys.db.up, actions[..last][j]) && (actions[..last][j].Poll? ==> actions[..last][j].limit <= bound) {
        assert actions[..last][j] == actions[j];
      }
      var b := RunBlocked(sys, actions[..last], k, bound, d, p);
      var before := Run(sys, actions[..last]);
      assert Steady(sys.db.up, actions[last]) && (actions[last].Poll? ==> actions[last].limit <= bound);
      SteadyClean(before, actions[last]);
      NextHealthy(before, actions[last]);
      NextAtLatest(before, actions[last], k, b);
      FullStays(sys.feeds[k].log, before.feeds[k].log, bound, p);
      HealthyFeed(before, k);
      if actions[last].Poll? {
        FullBlocks(before.feeds[k], before.db, actions[last].limit, bound, b, p);
      }
      c := Moved(before, actions[last], k, b);
    }
  }

  lemma NotYetReturned(f: Feed, c: nat, p: nat)
    requires Published(f) && Frontier(f, c) && c <= p
    ensures forall i | p <= i < |f.log| :: f.log[i] !in f.returned
  {
    FrontierIsNew(f, c);
  }

  /**
  A ledger with as many events as a batch holds stalls its feed from the start: whatever the
  steady run, with batches of at most `bound`, no event after `bound` events of one ledger is
  ever returned.
   */
  lemma LargeLedgerStalls(sys: System, actions: seq<Action>, k: nat, bound: nat, p: nat)
    requires Initial(sys) && k < |sys.feeds| && p <= |sys.feeds[k].log| && Full(sys.feeds[k].log, bound, p)
    requires forall i {:trigger actions[i]} | 0 <= i < |actions| ::
               Steady(sys.db.up, actions[i]) && (actions[i].Poll? ==> actions[i].limit <= bound)
    ensures var end := Run(sys, actions);
            && |end.feeds| == |sys.feeds|
            && |end.feeds[k].log| >= |sys.feeds[k].log| && end.feeds[k].log[..|sys.feeds[k].log|] == sys.feeds[k].log
            && forall i | p <= i < |end.feeds[k].log| :: end.feeds[k].log[i] !in end.feeds[k].returned
  {
    hide Run, Steady, Initial, Full, Published, Frontier, Elements, NoGaps;
    InitialAtLatest(sys, k);
    var c := RunBlocked(sys, actions, k, bound, 0, p);
    HealthyFeed(Run(sys, actions), k);
    NotYetReturned(Run(sys, actions).feeds[k], c, p);
  }

  /** n polls that succeed, one after the other. */
  function Drained(f: Feed, db: Db, limit: nat, n: nat): (Feed, Db) {
    if n == 0 then (f, db)
    else
      var (g, after) := Drained(f, db, limit, n - 1);
      FeedPolled(g, after, limit, Fine)
  }

  lemma {:induction false} DrainedRun(sys: System, k: nat, limit: nat, n: nat)
    requires k < |sys.feeds|
    ensures var end := Run(sys, seq(n, _ => Poll(k, limit, Fine)));
            |end.feeds| == |sys.feeds| && (end.feeds[k], end.db) == Drained(sys.feeds[k], sys.db, limit, n)
  {
    hide FeedPolled;
    if n > 0 {
      DrainedRun(sys, k, limit, n - 1);
      assert seq(n, _ => Poll(k, limit, Fine))[..n - 1] == seq(n - 1, _ => Poll(k, limit, Fine));
    }
  }

  lemma PolledStaysReady(f: Feed, db: Db, limit: nat, d: nat)
    requires Published(f) && NoGaps(f, db) && AtLatest(f, db, d) && f.configured
    ensures var (g, after) := FeedPolled(f, db, limit, Fine);
            && Published(g) && NoGaps(g, after) && AtLatest(g, after, NextFrontier(f, db, limit, d))
            && g.configured && g.log == f.log
  {
    assert Frontier(f, d);
    hide FeedPolled, Published, NoGaps, Frontier, OneLedgerNew, NextFrontier, CursorAt;
    PollNoGaps(f, db, limit, Fine, d);
    PollAtLatest(f, db, limit, Fine, d);
    PolledStores(f, db, limit, Fine);
  }

  /** After n polls: as far as n positions on, or at the end, or before the first full batch. */
  lemma {:induction false} DrainedTo(f: Feed, db: Db, limit: nat, d: nat, n: nat) returns (c: nat)
    requires Published(f) && NoGaps(f, db) && AtLatest(f, db, d) && f.configured && d <= |f.log|
    ensures var (g, after) := Drained(f, db, limit, n);
            && Published(g) && NoGaps(g, after) && AtLatest(g, after, c) && g.configured && g.log == f.log
    ensures d <= c <= |f.log|
    ensures forall p | d <= p <= |f.log| && Full(f.log, limit, p) :: c <= p
    ensures (forall p | d <= p < |f.log| :: !Full(f.log, limit, p)) ==> c == |f.log| || c >= d + n
  {
    hide FeedPolled, Published, NoGaps, AtLatest, Full, NextFrontier;
    if n == 0 {
      c := d;
    } else {
      var b := DrainedTo(f, db, limit, d, n - 1);
      var (g, after) := Drained(f, db, limit, n - 1);
      PolledStaysReady(g, after, limit, b);
      c := NextFrontier(g, after, limit, b);
      FrontierBetween(g, after, limit, b);
      forall p | d <= p <= |f.log| && Full(f.log, limit, p) ensures c <= p {
        FullBlocks(g, after, limit, limit, b, p);
      }
      if b < |f.log| && !Full(f.log, limit, b) {
        RoomMoves(g, after, limit, b);
      }
    }
  }

  lemma FrontierBetween(f: Feed, db: Db, limit: nat, d: nat)
    requires d <= |f.log|
    ensures d <= NextFrontier(f, db, limit, d) <= |f.log|
  {
  }

  lemma ReturnedAll(f: Feed, c: nat)
    requires Published(f) && Frontier(f, c)
    ensures f.returned == Elements(f.log) <==> c == |f.log|
  {
    if c == |f.log| {
      assert f.log[..c] == f.log;
    } else {
      FrontierIsNew(f, c);
      ElementsHas(f.log);
      assert f.log[c] in Elements(f.log) && f.log[c] !in f.returned;
    }
  }

  /**
  Everything is returned in the end, by as many polls as events are outstanding, if and only if
  no event is outstanding behind a full batch of one ledger.
   */
  lemma DrainedExactly(f: Feed, db: Db, limit: nat, d: nat, n: nat)
    requires Published(f) && NoGaps(f, db) && AtLatest(f, db, d) && f.configured
    requires d <= |f.log| <= d + n
    ensures Drained(f, db, limit, n).0.returned == Elements(f.log) <==> forall p | d <= p < |f.log| :: !Full(f.log, limit, p)
  {
    hide Drained, Published, NoGaps, Full, Elements;
    var c := DrainedTo(f, db, limit, d, n);
    var g := Drained(f, db, limit, n).0;
    assert Frontier(g, c);
    ReturnedAll(g, c);
  }

  /** The same from the start, over the run of an initial system. */
  lemma InitialDrainedExactly(sys: System, k: nat, limit: nat, n: nat)
    requires Initial(sys) && k < |sys.feeds| && sys.feeds[k].configured && n >= |sys.feeds[k].log|
    ensures var end := Run(sys, seq(n, _ => Poll(k, limit, Fine)));
            var log := sys.feeds[k].log;
            && |end.feeds| == |sys.feeds|
            && (end.feeds[k].returned == Elements(log) <==> forall p | 0 <= p < |log| :: !Full(log, limit, p))
  {
    hide Run, Drained, Initial, Full, Elements, Published, NoGaps, AtLatest;
    InitialAtLatest(sys, k);
    HealthyFeed(sys, k);
    DrainedRun(sys, k, limit, n);
    DrainedExactly(sys.feeds[k], sys.db, limit, 0, n);
  }

  /** A stall does arise: two events of one ledger, batches of one, and one poll. */
  lemma StallArises(first: Event, second: Event, actions: seq<Action>)
    requires first.topic0 == second.topic0 == "retired" && first.id != second.id && first.ledger == second.ledger == 1
    requires forall i {:trigger actions[i]} | 0 <= i < |actions| ::
               Steady(true, actions[i]) && (actions[i].Poll? ==> actions[i].limit <= 1)
    ensures var f := Feed("retirement", "retired", true, true, [first, second], Source(0, false), [], {});
            var sys := System(Db(true, map[], map[], map[]), [f]);
            var end := Run(Next(sys, Poll(0, 1, Fine)), actions);
            && Initial(sys) && |end.feeds| == 1
            && |end.feeds[0].log| >= 2 && end.feeds[0].log[1] == second && end.feeds[0].returned == {first}
  {
    hide Healthy, Next, Initial, AtLatest, Run, Steady;
    var f := Feed("retirement", "retired", true, true, [first, second], Source(0, false), [], {});
    var polled := Next(System(Db(true, map[], map[], map[]), [f]), Poll(0, 1, Fine));
    StalledAtOnce(first, second);
    StalledForever(polled, actions, 0, 1, 1);
    assert Run(polled, actions).feeds[0].log[..2][1] == second;
  }

  lemma StalledAtOnce(first: Event, second: Event)
    requires first.topic0 == second.topic0 == "retired" && first.id != second.id && first.ledger == second.ledger == 1
    ensures var f := Feed("retirement", "retired", true, true, [first, second], Source(0, false), [], {});
            var sys := System(Db(true, map[], map[], map[]), [f]);
            var polled := Next(sys, Poll(0, 1, Fine));
            && Initial(sys) && Healthy(polled) && polled.db.up && |polled.feeds| == 1
            && polled.feeds[0].log == [first, second] && polled.feeds[0].returned == {first}
            && AtLatest(polled.feeds[0], polled.db, 1) && AtCursor(polled.feeds[0], 1) == 1
  {
    hide FeedPolled, Seek, Raised, BatchEnd, NoGaps;
    var f := Feed("retirement", "retired", true, true, [first, second], Source(0, false), [], {});
    var db := Db(true, map[], map[], map[]);
    var sys := System(db, [f]);
    OneLedger(first, second);
    PollCases(f, db, 1, Fine);
    assert Batch(f, db, 1) == [first] && f.returned + Elements([first]) == {first};
    InitialHealthy(sys);
    SteadyClean(sys, Poll(0, 1, Fine));
    NextHealthy(sys, Poll(0, 1, Fine));
    assert [first, second][..1] == [first];
    hide Healthy, Clean, CountOf;
  }

  lemma OneLedger(first: Event, second: Event)
    requires first.ledger == second.ledger == 1
    ensures Seek([first, second], 1) == 0 && BatchEnd([first, second], 0, 1) == 1
    ensures Raised(0, [first]) == 1 && CountOf([first], 1) == 1
  {
    assert [first][..0] == [];
  }
}
