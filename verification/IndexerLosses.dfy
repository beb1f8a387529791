/**
What the indexer loses, and exactly when: events a failed store of the cursor skips, events a
crash or a failed mark abandons, and nullifiers whose insert fails.  With the database up an
event below both cursors is lost for good; a nullifier is, unless another event carries it.
 */
module IndexerLosses {
  import opened Database
  import opened EventSource
  import opened Handlers
  import opened IndexerRuns
  import opened IndexerEffects

  // ----- An event both cursors have passed

  /** Both cursors, in memory and stored, are above event i of feed k. */
  ghost predicate Beyond(sys: System, k: nat, i: nat, ledger: nat) {
    && sys.db.up && k < |sys.feeds|
    && i < |sys.feeds[k].log| && sys.feeds[k].log[i].ledger < ledger
    && LastLedger(sys.db, sys.feeds[k].namespace) >= ledger
    && (sys.feeds[k].source.loaded ==> sys.feeds[k].source.cursor >= ledger)
  }

  /** Event e of feed k is neither returned nor queued anew between two states. */
  ghost predicate NotAgain(sys: System, next: System, k: nat, e: Event)
    requires k < |sys.feeds| && k < |next.feeds|
  {
    && (e in next.feeds[k].returned ==> e in sys.feeds[k].returned)
    && (e in Waiting(next.feeds[k].pending) ==> e in Waiting(sys.feeds[k].pending))
  }

  lemma RangeHas(f: Feed, a: nat, b: nat, i: nat)
    requires Published(f) && a <= b <= |f.log| && i < |f.log|
    ensures f.log[i] in f.log[a..b] <==> a <= i < b
  {
    var range := f.log[a..b];
    if a <= i < b {
      assert range[i - a] == f.log[i];
    } else {
      forall j | 0 <= j < |range| ensures range[j] != f.log[i] {
        assert range[j] == f.log[a + j] && f.log[a + j].id != f.log[i].id;
      }
    }
  }

  lemma BeforeWindow(f: Feed, db: Db, limit: nat, i: nat)
    requires Published(f) && i < |f.log| && f.log[i].ledger < StartLedger(CursorAt(f, db))
    ensures i < Window(f, db, limit).0
  {
    hide BatchEnd, Distinct;
  }

  lemma PolledBeyond(f: Feed, db: Db, limit: nat, fate: Fate, i: nat, ledger: nat)
    requires db.up && Published(f) && i < |f.log| && f.log[i].ledger < ledger
    requires LastLedger(db, f.namespace) >= ledger && (f.source.loaded ==> f.source.cursor >= ledger)
    ensures var (g, after) := FeedPolled(f, db, limit, fate);
            && after.up && LastLedger(after, f.namespace) >= ledger && (g.source.loaded ==> g.source.cursor >= ledger)
            && (f.log[i] in g.returned ==> f.log[i] in f.returned)
            && (f.log[i] in Waiting(g.pending) ==> f.log[i] in Waiting(f.pending))
  {
    hide FeedPolled, Window, Published, Raised, Waiting, Queued;
    if !f.configured {
      Unconfigured(f, db, limit, fate);
    } else {
      PollCases(f, db, limit, fate);
      WaitingQueued(f.pending, Batch(f, db, limit));
      BeforeWindow(f, db, limit, i);
      var w := Window(f, db, limit);
      RangeHas(f, w.0, w.1, i);
    }
  }

  lemma NextBeyond(sys: System, action: Action, k: nat, i: nat, ledger: nat)
    requires Formed(sys) && Beyond(sys, k, i, ledger) && (action.Restart? ==> action.up)
    ensures var next := Next(sys, action);
            && Formed(next) && Beyond(next, k, i, ledger)
            && next.feeds[k].log[i] == sys.feeds[k].log[i] && NotAgain(sys, next, k, sys.feeds[k].log[i])
  {
    hide FeedPolled, CanAppend, Handled, Published, WithLedger, Waiting;
    FormedNext(sys, action);
    match action
    case Append(_, _) =>
    case Poll(j, limit, fate) =>
      if j < |sys.feeds| {
        PolledBeyond(sys.feeds[k], sys.db, limit, fate, i, ledger);
        PolledStores(sys.feeds[j], sys.db, limit, fate);
        FetchedFrom(sys.feeds[j], sys.db, limit, fate);
        if j != k {
          OtherStored(sys.feeds[j].namespace, sys.feeds[k].namespace, sys.db, Next(sys, action).db);
        }
      }
    case Handle(j, b, fault) =>
      if Handles(sys, action) {
        var e := HandledEvent(sys, action);
        HandledKeepsLedgers(sys.db, sys.feeds[j].namespace, RowOf(sys.feeds[j].retirement, e), e, fault);
        WaitingCut(sys.feeds[j].pending, b, sys.feeds[j].pending[b][1..]);
        WaitingCut(sys.feeds[j].pending, b, []);
      }
    case Restart(_) =>
      NothingWaits();
  }

  lemma NothingWaits()
    ensures Waiting([]) == {}
  {
  }

  lemma {:induction false} BeyondForever(sys: System, actions: seq<Action>, k: nat, i: nat, ledger: nat)
    requires Formed(sys) && Beyond(sys, k, i, ledger)
    requires forall j {:trigger actions[j]} | 0 <= j < |actions| :: actions[j].Restart? ==> actions[j].up
    ensures var end := Run(sys, actions);
            && Formed(end) && Beyond(end, k, i, ledger)
            && end.feeds[k].log[i] == sys.feeds[k].log[i] && NotAgain(sys, end, k, sys.feeds[k].log[i])
  {
    hide Formed, Next, Waiting;
    if actions != [] {
      var last := |actions| - 1;
      forall j | 0 <= j < last ensures actions[..last][j].Restart? ==> actions[..last][j].up {
        assert actions[..last][j] == actions[j];
      }
      BeyondForever(sys, actions[..last], k, i, ledger);
      assert actions[last].Restart? ==> actions[last].up;
      NextBeyond(Run(sys, actions[..last]), actions[last], k, i, ledger);
    }
  }

  /** An unreturned event below both cursors is never returned, whatever follows. */
  lemma SkippedForever(sys: System, actions: seq<Action>, k: nat, i: nat)
    requires Formed(sys) && sys.db.up && k < |sys.feeds| && i < |sys.feeds[k].log|
    requires sys.feeds[k].log[i] !in sys.feeds[k].returned
    requires sys.feeds[k].log[i].ledger < LastLedger(sys.db, sys.feeds[k].namespace)
    requires sys.feeds[k].source.loaded ==> sys.feeds[k].log[i].ledger < sys.feeds[k].source.cursor
    requires forall j {:trigger actions[j]} | 0 <= j < |actions| :: actions[j].Restart? ==> actions[j].up
    ensures k < |Run(sys, actions).feeds| && sys.feeds[k].log[i] !in Run(sys, actions).feeds[k].returned
  {
    hide Formed, Run;
    BeyondForever(sys, actions, k, i, sys.feeds[k].log[i].ledger + 1);
  }

  // ----- A store of the cursor that fails

  /** After a failed store and one poll that succeeds, both cursors are above whatever the first poll skipped. */
  lemma FailedStorePasses(f: Feed, db: Db, limit: nat, again: nat, d: nat, i: nat)
    requires Published(f) && NoGaps(f, db) && Frontier(f, d) && f.configured && db.up
    requires d <= i < Window(f, db, limit).1 && f.log[i].ledger < f.log[Window(f, db, limit).1 - 1].ledger
    ensures var (g, after) := FeedPolled(f, db, limit, PersistFails);
            var (m, last) := FeedPolled(g, after, again, Fine);
            && g.returned == f.returned && f.log[i] !in m.returned && last.up && m.log == f.log
            && m.source.loaded && f.log[i].ledger < m.source.cursor && m.source.cursor == LastLedger(last, m.namespace)
            && m.namespace == f.namespace
  {
    hide FeedPolled, Published, NoGaps, Batch, Window, Raised, Seek, Elements, Frontier;
    StartBeforeFrontier(f, db, limit, d);
    FrontierIsNew(f, d) by { DistinctIn(f); }
    RaisedToEnd(f, db, limit);
    PollCases(f, db, limit, PersistFails);
    var g := f.(source := Source(f.log[Window(f, db, limit).1 - 1].ledger, true));
    SamePublished(f, g);
    PollCases(g, db, again, Fine);
    BatchSkips(g, db, again, i);
  }

  lemma DistinctIn(f: Feed)
    requires Published(f)
    ensures Distinct(f.log)
  {
  }

  /** A batch has no event of a ledger below the cursor. */
  lemma BatchSkips(f: Feed, db: Db, limit: nat, i: nat)
    requires Published(f) && i < |f.log| && f.log[i].ledger < CursorAt(f, db)
    ensures f.log[i] !in Elements(Batch(f, db, limit)) && Raised(CursorAt(f, db), Batch(f, db, limit)) >= CursorAt(f, db)
  {
    hide Window, Published;
    BeforeWindow(f, db, limit, i);
    var w := Window(f, db, limit);
    RangeHas(f, w.0, w.1, i);
  }

  /**
  A store of the cursor that fails loses events: each new event the poll passed, of a ledger
  before its batch's last, is never returned once a later poll succeeds, whatever follows.
   */
  lemma FailedStoreLoses(sys: System, k: nat, limit: nat, again: nat, d: nat, i: nat, actions: seq<Action>)
    requires Healthy(sys) && sys.db.up && k < |sys.feeds| && sys.feeds[k].configured && Frontier(sys.feeds[k], d)
    requires var f := sys.feeds[k];
             var end := Window(f, sys.db, limit).1;
             d <= i < end && f.log[i].ledger < f.log[end - 1].ledger
    requires forall j {:trigger actions[j]} | 0 <= j < |actions| :: actions[j].Restart? ==> actions[j].up
    ensures var later := Run(Next(Next(sys, Poll(k, limit, PersistFails)), Poll(k, again, Fine)), actions);
            k < |later.feeds| && sys.feeds[k].log[i] !in later.feeds[k].returned
  {
    hide Run, FeedPolled, Window, Frontier, NoGaps, Published;
    FailedStorePasses(sys.feeds[k], sys.db, limit, again, d, i);
    FormedNext(sys, Poll(k, limit, PersistFails));
    FormedNext(Next(sys, Poll(k, limit, PersistFails)), Poll(k, again, Fine));
    hide Formed;
    SkippedForever(Next(Next(sys, Poll(k, limit, PersistFails)), Poll(k, again, Fine)), actions, k, i);
  }

  /** Only a restart before that poll repairs it: the stored cursor was not raised. */
  lemma RestartRepairs(sys: System, k: nat, limit: nat, fate: Fate)
    requires Healthy(sys) && sys.db.up && k < |sys.feeds| && fate.PersistFails?
    ensures Healthy(Next(Next(sys, Poll(k, limit, fate)), Restart(true)))
  {
    hide NoGaps, Published;
    var f := sys.feeds[k];
    FailedStoreKeeps(f, sys.db, limit);
    hide FeedPolled;
    var polled := Next(sys, Poll(k, limit, fate));
    FormedNext(sys, Poll(k, limit, fate));
    FormedNext(polled, Restart(true));
    var next := Next(polled, Restart(true));
    forall j | 0 <= j < |sys.feeds| ensures NoGaps(next.feeds[j], next.db) {
      NoGapsAgree(sys.feeds[j], sys.db, next.feeds[j], next.db);
    }
  }

  lemma FailedStoreKeeps(f: Feed, db: Db, limit: nat)
    requires Published(f) && NoGaps(f, db) && db.up
    ensures var (g, after) := FeedPolled(f, db, limit, PersistFails);
            && g.log == f.log && g.returned == f.returned && g.namespace == f.namespace && after.ledgers == db.ledgers && after.up
  {
    hide FeedPolled, Published, NoGaps;
    if !f.configured {
      Unconfigured(f, db, limit, PersistFails);
    } else {
      PollCases(f, db, limit, PersistFails);
      CoveredAtStart(f, db);
      EmptyBatch(f, db, limit);
    }
  }

  /** With nothing to raise the cursor from zero there was nothing in the batch. */
  lemma EmptyBatch(f: Feed, db: Db, limit: nat)
    requires Published(f)
    ensures Raised(CursorAt(f, db), Batch(f, db, limit)) == 0 ==>
              Elements(Batch(f, db, limit)) == {} && f.returned + Elements(Batch(f, db, limit)) == f.returned
  {
    hide Seek, BatchEnd;
    var batch := Batch(f, db, limit);
    assert batch != [] ==> Raised(CursorAt(f, db), batch) >= batch[0].ledger >= 1;
  }

  /** Two events, and a first poll whose store fails: the first event is never returned. */
  lemma GapAfterFailedStore(first: Event, second: Event, limit: nat)
    requires first.topic0 == second.topic0 == "retired" && first.id != second.id && first.ledger == 1 && second.ledger == 2
    requires limit >= 2
    ensures var f := Feed("retirement", "retired", true, true, [first, second], Source(0, false), [], {});
            var db := Db(true, map[], map[], map[]);
            var (g, after) := FeedPolled(f, db, limit, PersistFails);
            var (m, last) := FeedPolled(g, after, limit, Fine);
            && NoGaps(f, db) && g.returned == {} && g.source == Source(2, true)
            && m.returned == {second} && last.ledgers == map["retirement" := 2]
            && FeedPolled(m.(source := Source(0, false), pending := []), last, limit, Fine).0.returned == {second}
  {
    hide FeedPolled, Seek, Raised, BatchEnd;
    var f := Feed("retirement", "retired", true, true, [first, second], Source(0, false), [], {});
    var db := Db(true, map[], map[], map[]);
    assert Frontier(f, 0);
    TwoEvents(first, second, limit);
    PollCases(f, db, limit, PersistFails);
    assert Batch(f, db, limit) == [first, second];
    var g := f.(source := Source(2, true));
    PollCases(g, db, limit, Fine);
    assert Batch(g, db, limit) == [second];
    var last := WithLedger(db, "retirement", 2);
    var m := g.(pending := [], returned := g.returned + Elements([second]), source := Source(0, false));
    PollCases(m, last, limit, Fine);
    assert Batch(m, last, limit) == [second];
    assert g.returned + Elements([second]) == {second} && {second} + Elements([second]) == {second};
  }

  lemma TwoEvents(first: Event, second: Event, limit: nat)
    requires first.ledger == 1 && second.ledger == 2 && limit >= 2
    ensures Seek([first, second], 1) == 0 && Seek([first, second], 2) == 1
    ensures BatchEnd([first, second], 0, limit) == 2 == BatchEnd([first, second], 1, limit)
    ensures Raised(0, [first, second]) == 2 == Raised(2, [second])
  {
    var log := [first, second];
    assert log[1..] == [second];
    assert log[..1] == [first];
    assert [first][..0] == [] && [second][..0] == [];
  }

  // ----- A crash

  /** The first poll after a restart returns exactly the events from the stored cursor's ledger on that fit. */
  lemma PolledAfterRestart(sys: System, k: nat, limit: nat, i: nat)
    requires Formed(sys) && sys.db.up && k < |sys.feeds| && sys.feeds[k].configured && i < |sys.feeds[k].log|
    ensures var next := Next(Next(sys, Restart(true)), Poll(k, limit, Fine));
            var log := sys.feeds[k].log;
            var start := Seek(log, StartLedger(LastLedger(sys.db, sys.feeds[k].namespace)));
            log[i] in Waiting(next.feeds[k].pending) <==> start <= i < start + limit
  {
    hide FeedPolled, Published, Waiting;
    var f := sys.feeds[k].(source := Source(0, false), pending := []);
    SamePublished(sys.feeds[k], f);
    NothingWaits();
    PolledWaits(f, sys.db, limit, i);
  }

  /** An event that does not wait does so after a poll that succeeds exactly when the poll's window holds it. */
  lemma PolledWaits(f: Feed, db: Db, limit: nat, i: nat)
    requires Published(f) && f.configured && i < |f.log| && f.log[i] !in Waiting(f.pending)
    ensures var start := Seek(f.log, StartLedger(CursorAt(f, db)));
            f.log[i] in Waiting(FeedPolled(f, db, limit, Fine).0.pending) <==> start <= i < start + limit
  {
    hide FeedPolled, Window, Raised, Published, Waiting, Queued;
    PollCases(f, db, limit, Fine);
    var w := Window(f, db, limit);
    WaitingQueued(f.pending, f.log[w.0..w.1]);
    WindowCut(f, db, limit);
    RangeHas(f, w.0, w.1, i);
  }

  /**
  What a crash loses: an event of a ledger below the stored cursor that was still pending is
  never pending again, in any run after the restart, so it is never handled.
   */
  lemma LostByCrash(sys: System, actions: seq<Action>, k: nat, i: nat)
    requires Formed(sys) && sys.db.up && k < |sys.feeds| && i < |sys.feeds[k].log|
    requires sys.feeds[k].log[i].ledger < LastLedger(sys.db, sys.feeds[k].namespace)
    requires forall j {:trigger actions[j]} | 0 <= j < |actions| :: actions[j].Restart? ==> actions[j].up
    ensures var end := Run(Next(sys, Restart(true)), actions);
            k < |end.feeds| && sys.feeds[k].log[i] !in Waiting(end.feeds[k].pending)
  {
    hide Run, Formed, Waiting;
    var restarted := Next(sys, Restart(true));
    FormedNext(sys, Restart(true));
    NothingWaits();
    BeyondForever(restarted, actions, k, i, LastLedger(sys.db, sys.feeds[k].namespace));
  }

  /** Two events, one poll, a crash and a poll: the first event is not pending any more. */
  lemma CrashLosesFirst(first: Event, second: Event, limit: nat)
    requires first.topic0 == second.topic0 == "retired" && first.id != second.id && first.ledger == 1 && second.ledger == 2
    requires limit >= 2
    ensures var f := Feed("retirement", "retired", true, true, [first, second], Source(0, false), [], {});
            var sys := System(Db(true, map[], map[], map[]), [f]);
            var polled := Next(sys, Poll(0, limit, Fine));
            && Initial(sys) && polled.feeds[0].pending == [[first, second]]
            && Next(Next(polled, Restart(true)), Poll(0, limit, Fine)).feeds[0].pending == [[second]]
  {
    hide FeedPolled, Seek, Raised, BatchEnd, Initial;
    var f := Feed("retirement", "retired", true, true, [first, second], Source(0, false), [], {});
    var sys := System(Db(true, map[], map[], map[]), [f]);
    TwoEvents(first, second, limit);
    BothPolled(first, second, limit);
    var polled := Next(sys, Poll(0, limit, Fine));
    var g := polled.feeds[0].(source := Source(0, false), pending := []);
    var restarted := Next(polled, Restart(true));
    assert restarted.feeds == [g];
    PollCases(g, restarted.db, limit, Fine);
    assert Batch(g, restarted.db, limit) == [second];
  }

  lemma BothPolled(first: Event, second: Event, limit: nat)
    requires first.topic0 == second.topic0 == "retired" && first.id != second.id && first.ledger == 1 && second.ledger == 2
    requires limit >= 2
    ensures var f := Feed("retirement", "retired", true, true, [first, second], Source(0, false), [], {});
            var sys := System(Db(true, map[], map[], map[]), [f]);
            && Initial(sys) && Published(f)
            && Next(sys, Poll(0, limit, Fine))
               == System(Db(true, map["retirement" := 2], map[], map[]),
                         [f.(source := Source(2, true), pending := [[first, second]], returned := Elements([first, second]))])
  {
    hide FeedPolled, Seek, Raised, BatchEnd;
    var f := Feed("retirement", "retired", true, true, [first, second], Source(0, false), [], {});
    var db := Db(true, map[], map[], map[]);
    TwoEvents(first, second, limit);
    PollCases(f, db, limit, Fine);
    assert Batch(f, db, limit) == [first, second] && f.returned + Elements([first, second]) == Elements([first, second]);
    var g := f.(source := Source(2, true), pending := [[first, second]], returned := Elements([first, second]));
    var after := Db(true, map["retirement" := 2], map[], map[]);
    assert WithLedger(db, "retirement", 2) == after;
    assert Queued([], [first, second]) == [[first, second]];
    assert FeedPolled(f, db, limit, Fine) == (g, after);
    assert [f][0 := g] == [g];
  }

  // ----- A mark or an insert that fails

  /** A mark that fails ends its batch: nothing of it waits there any more. */
  lemma FailedMarkAbandons(sys: System, k: nat, b: nat)
    requires Handles(sys, Handle(k, b, MarkFails)) && sys.db.up && NullifierOf(sys.feeds[k].pending[b][0]) != ""
    ensures var next := Next(sys, Handle(k, b, MarkFails));
            && next.db == sys.db
            && next.feeds[k].pending == sys.feeds[k].pending[b := []]
            && next.feeds[k].returned == sys.feeds[k].returned
  {
  }

  /** And what of it lies below both cursors, and waits in no other batch, is never handled. */
  lemma AbandonedForever(sys: System, k: nat, b: nat, i: nat, actions: seq<Action>)
    requires Formed(sys) && Handles(sys, Handle(k, b, MarkFails)) && sys.db.up && NullifierOf(sys.feeds[k].pending[b][0]) != ""
    requires i < |sys.feeds[k].log| && sys.feeds[k].log[i].ledger < LastLedger(sys.db, sys.feeds[k].namespace)
    requires sys.feeds[k].source.loaded ==> sys.feeds[k].log[i].ledger < sys.feeds[k].source.cursor
    requires forall c | 0 <= c < |sys.feeds[k].pending| && c != b :: sys.feeds[k].log[i] !in sys.feeds[k].pending[c]
    requires forall j {:trigger actions[j]} | 0 <= j < |actions| :: actions[j].Restart? ==> actions[j].up
    ensures var end := Run(Next(sys, Handle(k, b, MarkFails)), actions);
            k < |end.feeds| && sys.feeds[k].log[i] !in Waiting(end.feeds[k].pending)
  {
    hide Run, Formed;
    FailedMarkAbandons(sys, k, b);
    FormedNext(sys, Handle(k, b, MarkFails));
    BeyondForever(Next(sys, Handle(k, b, MarkFails)), actions, k, i, sys.feeds[k].log[i].ledger + 1);
  }

  /**
  Exactly when an abandoned event comes back: the next poll that succeeds queues it again if
  and only if it is in that poll's window, so not below the cursor and not past the batch.
   */
  lemma AbandonedExactly(sys: System, k: nat, b: nat, i: nat, limit: nat)
    requires Formed(sys) && Handles(sys, Handle(k, b, MarkFails)) && sys.db.up && NullifierOf(sys.feeds[k].pending[b][0]) != ""
    requires sys.feeds[k].configured && i < |sys.feeds[k].log|
    requires forall c | 0 <= c < |sys.feeds[k].pending| && c != b :: sys.feeds[k].log[i] !in sys.feeds[k].pending[c]
    ensures var next := Next(Next(sys, Handle(k, b, MarkFails)), Poll(k, limit, Fine));
            var start := Seek(sys.feeds[k].log, StartLedger(CursorAt(sys.feeds[k], sys.db)));
            sys.feeds[k].log[i] in Waiting(next.feeds[k].pending) <==> start <= i < start + limit
  {
    hide FeedPolled, Published;
    FailedMarkAbandons(sys, k, b);
    var after := Next(sys, Handle(k, b, MarkFails));
    var f, g := sys.feeds[k], after.feeds[k];
    assert g == f.(pending := f.pending[b := []]);
    SamePublished(f, g);
    PolledWaits(g, after.db, limit, i);
  }

  /** Three events, one poll, a failed mark of the first and a poll: the second is lost. */
  lemma FailedMarkLosesSecond(first: Event, second: Event, third: Event, limit: nat)
    requires first.topic0 == second.topic0 == third.topic0 == "retired"
    requires first.id != second.id && second.id != third.id && first.id != third.id && NullifierOf(first) != ""
    requires first.ledger == second.ledger == 1 && third.ledger == 2 && limit >= 3
    ensures var f := Feed("retirement", "retired", true, true, [first, second, third], Source(0, false), [], {});
            var sys := System(Db(true, map[], map[], map[]), [f]);
            var polled := Next(sys, Poll(0, limit, Fine));
            var failed := Next(polled, Handle(0, 0, MarkFails));
            && Initial(sys) && polled.feeds[0].pending == [[first, second, third]]
            && polled.feeds[0].source == Source(2, true) && LastLedger(polled.db, "retirement") == 2
            && failed.feeds[0].pending == [[]]
            && Next(failed, Poll(0, limit, Fine)).feeds[0].pending == [[], [third]]
  {
    hide FeedPolled, Seek, Raised, BatchEnd;
    var f := Feed("retirement", "retired", true, true, [first, second, third], Source(0, false), [], {});
    var sys := System(Db(true, map[], map[], map[]), [f]);
    ThreeEvents(first, second, third, limit);
    PollCases(f, sys.db, limit, Fine);
    assert Batch(f, sys.db, limit) == [first, second, third];
    var polled := Next(sys, Poll(0, limit, Fine));
    FailedMarkAbandons(polled, 0, 0);
    var failed := Next(polled, Handle(0, 0, MarkFails));
    PollCases(failed.feeds[0], failed.db, limit, Fine);
    assert Batch(failed.feeds[0], failed.db, limit) == [third];
  }

  lemma ThreeEvents(first: Event, second: Event, third: Event, limit: nat)
    requires first.ledger == second.ledger == 1 && third.ledger == 2 && limit >= 3
    ensures Seek([first, second, third], 1) == 0 && Seek([first, second, third], 2) == 2
    ensures BatchEnd([first, second, third], 0, limit) == 3 == BatchEnd([first, second, third], 2, limit)
    ensures Raised(0, [first, second, third]) == 2 == Raised(2, [third])
  {
    var log := [first, second, third];
    assert log[1..] == [second, third] && [second, third][1..] == [third];
    assert Seek([third], 2) == 0 && Seek([second, third], 2) == 1;
    assert log[..2] == [first, second] && [first, second][..1] == [first];
    assert [first][..0] == [] && [third][..0] == [];
  }

  lemma {:induction false} MarksStay(sys: System, actions: seq<Action>, id: string)
    requires id in sys.db.processed
    ensures id in Run(sys, actions).db.processed
  {
    hide Next;
    if actions != [] {
      MarksStay(sys, actions[..|actions| - 1], id);
      MarksKept(Run(sys, actions[..|actions| - 1]), actions[|actions| - 1], id);
    }
  }

  /**
  An insert that fails is swallowed: the event stays marked, nothing is stored, and no later
  action inserts it.  Exactly when its nullifier is stored all the same: it was before, or some
  later action inserts another event that carries it.
   */
  lemma FailedInsertExactly(sys: System, k: nat, b: nat, actions: seq<Action>)
    requires Handles(sys, Handle(k, b, InsertFails)) && sys.db.up
    requires var e := sys.feeds[k].pending[b][0]; NullifierOf(e) != "" && e.id !in sys.db.processed
    ensures var e, next := sys.feeds[k].pending[b][0], Next(sys, Handle(k, b, InsertFails));
            && e.id in next.db.processed && next.db.nullifiers == sys.db.nullifiers
            && (forall j {:trigger actions[j]} | 0 <= j < |actions| :: !Inserts(Run(next, actions[..j]), actions[j], e.id))
            && (NullifierOf(e) in Run(next, actions).db.nullifiers
                <==> NullifierOf(e) in sys.db.nullifiers
                     || exists j {:trigger actions[j]} | 0 <= j < |actions| ::
                          && Stores(Run(next, actions[..j]), actions[j], NullifierOf(e))
                          && HandledEvent(Run(next, actions[..j]), actions[j]).id != e.id)
  {
    hide Run;
    var e, next := sys.feeds[k].pending[b][0], Next(sys, Handle(k, b, InsertFails));
    forall j {:trigger actions[j]} | 0 <= j < |actions| ensures !Inserts(Run(next, actions[..j]), actions[j], e.id) {
      MarksStay(next, actions[..j], e.id);
    }
    hide Next, NullifierOf, Handled;
    var n := NullifierOf(e);
    StoredExactly(next, actions, n);
    forall j {:trigger actions[j]} | 0 <= j < |actions| && Stores(Run(next, actions[..j]), actions[j], n)
      ensures HandledEvent(Run(next, actions[..j]), actions[j]).id != e.id
    {
      assert !Inserts(Run(next, actions[..j]), actions[j], e.id);
    }
    hide Stores, Inserts, Handles;
  }

  /** One event, one poll, a failed insert: the event is marked, its nullifier is nowhere, and nothing waits. */
  lemma FailedInsertLosesFirst(first: Event)
    requires first.topic0 == "retired" && first.ledger == 1 && NullifierOf(first) != ""
    ensures var f := Feed("retirement", "retired", true, true, [first], Source(0, false), [], {});
            var sys := System(Db(true, map[], map[], map[]), [f]);
            var polled := Next(sys, Poll(0, 1, Fine));
            var failed := Next(polled, Handle(0, 0, InsertFails));
            && Initial(sys) && polled.feeds[0].pending == [[first]]
            && failed.db.processed == map[first.id := "retirement"] && failed.db.nullifiers == map[]
            && Waiting(failed.feeds[0].pending) == {}
  {
    hide FeedPolled, Raised;
    var f := Feed("retirement", "retired", true, true, [first], Source(0, false), [], {});
    var sys := System(Db(true, map[], map[], map[]), [f]);
    PollCases(f, sys.db, 1, Fine);
    assert Batch(f, sys.db, 1) == [first];
  }
}
