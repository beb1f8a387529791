/**
Runs of the indexer: feeds that grow, polls, event handling, faults and restarts in any
interleaving.
 */
module IndexerRuns {
  import opened Database
  import opened EventSource
  import opened Handlers

  /**
  One event source and its handler.  log is what the chain has published for it; pending holds,
  for each poll, what is still to be handled of the events it returned, in order; returned
  holds all that any poll returned.
   */
  datatype Feed = Feed(
    namespace: string, topic: string, retirement: bool, configured: bool,
    log: seq<Event>, source: Source, pending: seq<seq<Event>>, returned: set<Event>)

  datatype System = System(db: Db, feeds: seq<Feed>)

  datatype Action =
    | Append(k: nat, event: Event)
    | Poll(k: nat, limit: nat, fate: Fate)
    | Handle(k: nat, b: nat, fault: Fault)
    | Restart(up: bool)

  function Elements(s: seq<Event>): set<Event> { set e | e in s }

  lemma ElementsHas(s: seq<Event>)
    ensures forall i | 0 <= i < |s| :: s[i] in Elements(s)
  {
  }

  /** A batch waits to be handled, unless there is nothing in it. */
  function Queued(pending: seq<seq<Event>>, batch: seq<Event>): seq<seq<Event>> {
    if batch == [] then pending else pending + [batch]
  }

  /** The events still to be handled. */
  function Waiting(pending: seq<seq<Event>>): set<Event> {
    set b, e | 0 <= b < |pending| && e in pending[b] :: e
  }

  lemma WaitingQueued(pending: seq<seq<Event>>, batch: seq<Event>)
    ensures Waiting(Queued(pending, batch)) == Waiting(pending) + Elements(batch)
  {
    var q := Queued(pending, batch);
    forall e | e in Waiting(pending) + Elements(batch) ensures e in Waiting(q) {
      if e in batch {
        assert q[|pending|] == batch;
      } else {
        var b :| 0 <= b < |pending| && e in pending[b];
        assert q[b] == pending[b];
      }
    }
  }

  lemma WaitingCut(pending: seq<seq<Event>>, b: nat, rest: seq<Event>)
    requires b < |pending| && forall e | e in rest :: e in pending[b]
    ensures Waiting(pending[b := rest]) <= Waiting(pending)
    ensures forall e | e in Waiting(pending) :: e in Waiting(pending[b := rest]) || e in pending[b]
    ensures Elements(rest) <= Waiting(pending[b := rest])
  {
    var q := pending[b := rest];
    forall e | e in Waiting(pending) && e !in pending[b] ensures e in Waiting(q) {
      var c :| 0 <= c < |pending| && e in pending[c];
      assert q[c] == pending[c];
    }
    assert q[b] == rest;
  }

  predicate Fresh(sys: System, id: string) {
    && id !in sys.db.processed
    && forall k, i | 0 <= k < |sys.feeds| && 0 <= i < |sys.feeds[k].log| :: sys.feeds[k].log[i].id != id
  }

  /** The chain publishes events in ledger order, with new ids. */
  predicate CanAppend(sys: System, k: nat, e: Event)
    requires k < |sys.feeds|
  {
    var log := sys.feeds[k].log;
    && e.topic0 == sys.feeds[k].topic && e.ledger >= 1
    && (log != [] ==> log[|log| - 1].ledger <= e.ledger)
    && Fresh(sys, e.id)
  }

  function FeedPolled(f: Feed, db: Db, limit: nat, fate: Fate): (Feed, Db) {
    var (source, after, events) := Polled(f.configured, f.topic, f.namespace, f.source, db, f.log, limit, fate);
    var found := if events.Some? then events.value else [];
    (f.(source := source, pending := Queued(f.pending, found), returned := f.returned + Elements(found)), after)
  }

  function Next(sys: System, action: Action): System {
    match action
    case Append(k, e) =>
      if k < |sys.feeds| && CanAppend(sys, k, e) then
        sys.(feeds := sys.feeds[k := sys.feeds[k].(log := sys.feeds[k].log + [e])])
      else sys
    case Poll(k, limit, fate) =>
      if k < |sys.feeds| then
        var (f, db) := FeedPolled(sys.feeds[k], sys.db, limit, fate);
        System(db, sys.feeds[k := f])
      else sys
    case Handle(k, b, fault) =>
      if k < |sys.feeds| && b < |sys.feeds[k].pending| && sys.feeds[k].pending[b] != [] then
        var f := sys.feeds[k];
        var e := f.pending[b][0];
        var db := Handled(sys.db, f.namespace, RowOf(f.retirement, e), e, fault);
        // A handler that throws ends its batch.
        System(if db.Some? then db.value else sys.db,
               sys.feeds[k := f.(pending := f.pending[b := if db.Some? then f.pending[b][1..] else []])])
      else sys
    case Restart(up) =>
      System(sys.db.(up := up),
             seq(|sys.feeds|, k requires 0 <= k < |sys.feeds| => sys.feeds[k].(source := Source(0, false), pending := [])))
  }

  function Run(sys: System, actions: seq<Action>): System {
    if actions == [] then sys
    else Next(Run(sys, actions[..|actions| - 1]), actions[|actions| - 1])
  }

  // ----- No gaps

  ghost predicate Distinct(log: seq<Event>) {
    forall i, j | 0 <= i < j < |log| :: log[i].id != log[j].id
  }

  /** Every event of a ledger below the cursor was returned. */
  ghost predicate Covered(f: Feed, cursor: nat) {
    forall i | 0 <= i < |f.log| && f.log[i].ledger < cursor :: f.log[i] in f.returned
  }

  /** A cursor is at most the latest ledger. */
  predicate Reached(log: seq<Event>, cursor: nat) {
    cursor == 0 || (log != [] && cursor <= log[|log| - 1].ledger)
  }

  /** The first d events, and no others, were returned. */
  ghost predicate Frontier(f: Feed, d: nat) {
    d <= |f.log| && f.returned == Elements(f.log[..d])
  }

  ghost predicate Published(f: Feed) {
    && Ordered(f.log) && Distinct(f.log)
    && forall i | 0 <= i < |f.log| :: f.log[i].topic0 == f.topic && f.log[i].ledger >= 1
  }

  /** Both cursors, in memory and stored, lie where nothing below is missing. */
  ghost predicate NoGaps(f: Feed, db: Db) {
    && (f.source.loaded ==> Covered(f, f.source.cursor) && Reached(f.log, f.source.cursor))
    && (f.namespace in db.ledgers ==> Covered(f, db.ledgers[f.namespace]) && Reached(f.log, db.ledgers[f.namespace]))
    && exists d: nat :: Frontier(f, d)
  }

  lemma {:induction false} OnTopicAll(events: seq<Event>, topic: string)
    requires forall i | 0 <= i < |events| :: events[i].topic0 == topic
    ensures OnTopic(events, topic) == events
  {
    if events != [] {
      OnTopicAll(events[..|events| - 1], topic);
    }
  }

  /** The cursor a poll starts from. */
  function CursorAt(f: Feed, db: Db): nat {
    if f.source.loaded then f.source.cursor else LastLedger(db, f.namespace)
  }

  /** Where the batch of a poll begins and ends in the log. */
  function Window(f: Feed, db: Db, limit: nat): (w: (nat, nat))
    ensures w.0 <= w.1 <= |f.log|
  {
    var start := Seek(f.log, StartLedger(CursorAt(f, db)));
    (start, BatchEnd(f.log, start, limit))
  }

  lemma WindowCut(f: Feed, db: Db, limit: nat)
    ensures var w := Window(f, db, limit);
            && w.0 == Seek(f.log, StartLedger(CursorAt(f, db)))
            && w.1 == if w.0 + limit < |f.log| then w.0 + limit else |f.log|
  {
  }

  function Batch(f: Feed, db: Db, limit: nat): seq<Event> {
    var w := Window(f, db, limit);
    f.log[w.0..w.1]
  }

  /** What a poll does, spelled out by how far it gets. */
  lemma PollCases(f: Feed, db: Db, limit: nat, fate: Fate)
    requires Published(f) && f.configured
    ensures var (g, after) := FeedPolled(f, db, limit, fate);
            var batch, c := Batch(f, db, limit), CursorAt(f, db);
            var r := Raised(c, batch);
            if !f.source.loaded && db.up && fate.LoadFails? then g == f && after == db
            else if fate.FetchFails? || fate.Refused? then g == f.(source := Source(c, true)) && after == db
            else if r > 0 && db.up && fate.PersistFails? then g == f.(source := Source(r, true)) && after == db
            else
              && g == f.(source := Source(r, true), pending := Queued(f.pending, batch), returned := f.returned + Elements(batch))
              && after == if r > 0 then WithLedger(db, f.namespace, r) else db
  {
    hide Raised, OnTopic, Fetched, Batch, StartLedger, WithLedger, Published;
    FetchedBatch(f, db, limit);
    assert f.returned + Elements([]) == f.returned;
    hide Elements;
  }

  lemma FetchedBatch(f: Feed, db: Db, limit: nat)
    requires Published(f)
    ensures OnTopic(Fetched(f.log, StartLedger(CursorAt(f, db)), limit), f.topic) == Batch(f, db, limit)
  {
    hide Seek, OnTopic;
    OnTopicAll(Batch(f, db, limit), f.topic);
  }

  /** A poll starts no later than the first event that was never returned. */
  lemma StartBeforeFrontier(f: Feed, db: Db, limit: nat, d: nat)
    requires Published(f) && NoGaps(f, db) && Frontier(f, d)
    ensures Window(f, db, limit).0 <= d
  {
    FrontierIsNew(f, d);
    hide Elements;
    if d < |f.log| {
      assert f.log[d].ledger >= StartLedger(CursorAt(f, db));
    }
  }

  lemma FrontierIsNew(f: Feed, d: nat)
    requires Distinct(f.log) && Frontier(f, d)
    ensures forall i | d <= i < |f.log| :: f.log[i] !in f.returned
  {
    forall i, j | 0 <= j < d <= i < |f.log| ensures f.log[..d][j] != f.log[i] {
      assert f.log[j].id != f.log[i].id;
    }
  }

  /** A slice that starts within a prefix extends it. */
  lemma SliceExtends(log: seq<Event>, start: nat, end: nat, d: nat)
    requires start <= end <= |log| && start <= d <= |log|
    ensures Elements(log[..d]) + Elements(log[start..end]) == Elements(log[..if end > d then end else d])
  {
    var high := if end > d then end else d;
    forall e | e in log[..high] ensures e in log[..d] || e in log[start..end] {
      var i :| 0 <= i < high && log[i] == e;
      assert if i < d then log[..d][i] == e else log[start..end][i - start] == e;
    }
    forall e | e in log[..d] || e in log[start..end] ensures e in log[..high] {
      var i :| 0 <= i < high && log[i] == e;
      assert log[..high][i] == e;
    }
  }

  lemma BatchExtends(f: Feed, db: Db, limit: nat, d: nat)
    requires Published(f) && NoGaps(f, db) && Frontier(f, d)
    ensures var w := Window(f, db, limit);
            f.returned + Elements(Batch(f, db, limit)) == Elements(f.log[..if w.1 > d then w.1 else d])
  {
    hide Elements, Window, Published, NoGaps;
    StartBeforeFrontier(f, db, limit, d);
    var w := Window(f, db, limit);
    SliceExtends(f.log, w.0, w.1, d);
  }

  /** Raising the cursor over a batch that is returned leaves nothing below it missing. */
  lemma RaisedCovered(f: Feed, db: Db, limit: nat, g: Feed)
    requires Published(f) && NoGaps(f, db)
    requires g.log == f.log && g.returned == f.returned + Elements(Batch(f, db, limit))
    ensures var r := Raised(CursorAt(f, db), Batch(f, db, limit)); Covered(g, r) && Reached(g.log, r)
  {
    hide Frontier, Distinct, Raised, Elements, Window, StartLedger;
    var c, batch, w := CursorAt(f, db), Batch(f, db, limit), Window(f, db, limit);
    CoveredAtStart(f, db);
    ReturnedBefore(f, db, limit, g);
    if Raised(c, batch) > c {
      RaisedToBatch(c, batch);
      var m :| 0 <= m < |batch| && Raised(c, batch) == batch[m].ledger;
      assert batch[m] == f.log[w.0 + m];
      BelowBatch(f.log, w.0 + m);
    }
  }

  /** After a poll everything up to the end of its batch is returned. */
  lemma ReturnedBefore(f: Feed, db: Db, limit: nat, g: Feed)
    requires Published(f) && NoGaps(f, db)
    requires g.returned == f.returned + Elements(Batch(f, db, limit))
    ensures forall i | 0 <= i < Window(f, db, limit).1 :: f.log[i] in g.returned
  {
    hide BatchEnd, Frontier, Distinct, Ordered, Elements;
    var c, batch, w := CursorAt(f, db), Batch(f, db, limit), Window(f, db, limit);
    ElementsHas(batch);
    CoveredAtStart(f, db);
    forall i | 0 <= i < w.1 ensures f.log[i] in g.returned {
      if i < w.0 {
        assert f.log[i].ledger < StartLedger(c);
      } else {
        assert f.log[i] == batch[i - w.0];
      }
    }
  }

  lemma RaisedToBatch(c: nat, batch: seq<Event>)
    ensures Raised(c, batch) > c ==> exists m | 0 <= m < |batch| :: Raised(c, batch) == batch[m].ledger
  {
  }

  lemma BelowBatch(log: seq<Event>, k: nat)
    requires Ordered(log) && k < |log|
    ensures forall i | 0 <= i < |log| && log[i].ledger < log[k].ledger :: i < k
    ensures log[k].ledger <= log[|log| - 1].ledger
  {
  }

  lemma {:induction false} RaisedOrdered(c: nat, batch: seq<Event>)
    requires Ordered(batch)
    ensures Raised(c, batch) == if batch != [] && batch[|batch| - 1].ledger > c then batch[|batch| - 1].ledger else c
  {
    if batch != [] {
      RaisedOrdered(c, batch[..|batch| - 1]);
    }
  }

  /** Of the first d events returned: what a batch holds beyond them is all of its last ledger. */
  predicate OneLedgerNew(f: Feed, db: Db, limit: nat, d: nat) {
    var end := Window(f, db, limit).1;
    end <= d || f.log[d].ledger == f.log[end - 1].ledger
  }

  /** Raising the cursor over a batch that is dropped skips nothing exactly when it holds new events of one ledger at most. */
  lemma DroppedBatch(f: Feed, db: Db, limit: nat, d: nat)
    requires Published(f) && NoGaps(f, db) && Frontier(f, d)
    ensures Covered(f, Raised(CursorAt(f, db), Batch(f, db, limit))) <==> OneLedgerNew(f, db, limit, d)
  {
    hide Window, Raised, Elements, Covered, Published, NoGaps, Batch;
    StartBeforeFrontier(f, db, limit, d);
    BatchExtends(f, db, limit, d);
    var end := Window(f, db, limit).1;
    if end <= d {
      RaisedCovered(f, db, limit, f);
    } else {
      RaisedToEnd(f, db, limit);
      CoveredUpTo(f, d, end - 1);
    }
  }

  lemma CoveredUpTo(f: Feed, d: nat, m: nat)
    requires Published(f) && Frontier(f, d) && d <= m < |f.log|
    ensures Covered(f, f.log[m].ledger) <==> f.log[d].ledger == f.log[m].ledger
  {
    FrontierIsNew(f, d);
    ReturnedFirst(f, d);
    hide Elements, Frontier, Distinct;
    assert f.log[d].ledger <= f.log[m].ledger;
    if f.log[d].ledger == f.log[m].ledger {
      BelowBatch(f.log, d);
    }
  }

  lemma ReturnedFirst(f: Feed, d: nat)
    requires Frontier(f, d)
    ensures forall i | 0 <= i < d :: f.log[i] in f.returned
  {
    ElementsHas(f.log[..d]);
    assert forall i | 0 <= i < d :: f.log[..d][i] == f.log[i];
  }

  lemma RaisedToEnd(f: Feed, db: Db, limit: nat)
    requires Published(f) && Window(f, db, limit).0 < Window(f, db, limit).1
    ensures Raised(CursorAt(f, db), Batch(f, db, limit)) == f.log[Window(f, db, limit).1 - 1].ledger
  {
    hide Raised, BatchEnd, Distinct;
    var w, batch := Window(f, db, limit), Batch(f, db, limit);
    RaisedOrdered(CursorAt(f, db), batch);
    assert batch[|batch| - 1] == f.log[w.1 - 1];
    assert f.log[w.0].ledger <= f.log[w.1 - 1].ledger;
  }

  /**
  A poll leaves no gap, except when storing the cursor fails and the batch it drops holds new
  events of more than one ledger: then it always leaves one.
   */
  lemma PollNoGaps(f: Feed, db: Db, limit: nat, fate: Fate, d: nat)
    requires Published(f) && NoGaps(f, db) && Frontier(f, d)
    ensures var (g, after) := FeedPolled(f, db, limit, fate);
            && Published(g)
            && (NoGaps(g, after) <==> !(f.configured && db.up && fate.PersistFails?) || OneLedgerNew(f, db, limit, d))
  {
    hide Polled, Covered, Elements, Seek, BatchEnd, OneLedgerNew;
    var (g, after) := FeedPolled(f, db, limit, fate);
    var batch, c := Batch(f, db, limit), CursorAt(f, db);
    var r := Raised(c, batch);
    if !f.configured {
      Unconfigured(f, db, limit, fate);
    } else {
      PollCases(f, db, limit, fate);
      BatchExtends(f, db, limit, d);
      DroppedBatch(f, db, limit, d);
      var w := Window(f, db, limit);
      var high := if w.1 > d then w.1 else d;
      var full := f.(returned := f.returned + Elements(batch));
      RaisedCovered(f, db, limit, full);
      assert Frontier(full, high);
      CoveredAtStart(f, db);
      hide FeedPolled, Frontier, Raised;
      CoveredMore(f, full);
      SameCovered(full, g);
      SameCovered(f, g);
    }
  }

  lemma Unconfigured(f: Feed, db: Db, limit: nat, fate: Fate)
    requires !f.configured
    ensures FeedPolled(f, db, limit, fate) == (f, db)
  {
    assert f.returned + Elements([]) == f.returned;
  }

  lemma CoveredAtStart(f: Feed, db: Db)
    requires NoGaps(f, db)
    ensures Covered(f, CursorAt(f, db)) && Covered(f, 0) && Reached(f.log, CursorAt(f, db))
  {
  }

  lemma CoveredMore(f: Feed, g: Feed)
    requires g.log == f.log && f.returned <= g.returned
    ensures forall c: nat :: Covered(f, c) ==> Covered(g, c)
  {
  }

  lemma SameCovered(f: Feed, g: Feed)
    ensures g.log == f.log && g.returned == f.returned ==> forall c: nat :: Covered(g, c) == Covered(f, c)
    ensures g.log == f.log && g.returned == f.returned ==> forall d: nat :: Frontier(g, d) == Frontier(f, d)
  {
  }

  // ----- Over runs

  /** Feeds have namespaces of their own, and logs as the chain publishes them. */
  ghost predicate Formed(sys: System) {
    && (forall i, j | 0 <= i < j < |sys.feeds| :: sys.feeds[i].namespace != sys.feeds[j].namespace)
    && (forall k | 0 <= k < |sys.feeds| :: Published(sys.feeds[k]))
  }

  ghost predicate Healthy(sys: System) {
    && Formed(sys)
    && (forall k | 0 <= k < |sys.feeds| :: NoGaps(sys.feeds[k], sys.db))
  }

  lemma HealthyFeed(sys: System, k: nat)
    requires Healthy(sys) && k < |sys.feeds|
    ensures Published(sys.feeds[k]) && NoGaps(sys.feeds[k], sys.db)
  {
  }

  /** Nothing polled yet and no cursor stored. */
  ghost predicate Initial(sys: System) {
    && sys.db.ledgers == map[]
    && (forall i, j | 0 <= i < j < |sys.feeds| :: sys.feeds[i].namespace != sys.feeds[j].namespace)
    && forall k | 0 <= k < |sys.feeds| ::
         var f := sys.feeds[k];
         Published(f) && f.source == Source(0, false) && f.pending == [] && f.returned == {}
  }

  /** Not a poll whose cursor fails to be stored after it was raised over new events of several ledgers. */
  ghost predicate Clean(sys: System, action: Action) {
    action.Poll? && action.k < |sys.feeds| && sys.feeds[action.k].configured && sys.db.up && action.fate.PersistFails?
    ==> forall d: nat | Frontier(sys.feeds[action.k], d) :: OneLedgerNew(sys.feeds[action.k], sys.db, action.limit, d)
  }

  lemma AppendKeeps(f: Feed, db: Db, e: Event)
    requires Published(f) && NoGaps(f, db) && e.topic0 == f.topic && e.ledger >= 1
    requires f.log != [] ==> f.log[|f.log| - 1].ledger <= e.ledger
    requires forall i | 0 <= i < |f.log| :: f.log[i].id != e.id
    ensures var g := f.(log := f.log + [e]); Published(g) && NoGaps(g, db)
  {
    hide Covered, Reached, Published, Frontier;
    AppendPublishes(f, e);
    var d: nat :| Frontier(f, d);
    FrontierKeeps(f, e, d);
    if f.source.loaded {
      CoveredKeeps(f, e, f.source.cursor);
    }
    if f.namespace in db.ledgers {
      CoveredKeeps(f, e, db.ledgers[f.namespace]);
    }
  }

  lemma AppendPublishes(f: Feed, e: Event)
    requires Published(f) && e.topic0 == f.topic && e.ledger >= 1
    requires f.log != [] ==> f.log[|f.log| - 1].ledger <= e.ledger
    requires forall i | 0 <= i < |f.log| :: f.log[i].id != e.id
    ensures Published(f.(log := f.log + [e]))
  {
  }

  lemma FrontierKeeps(f: Feed, e: Event, d: nat)
    requires Frontier(f, d)
    ensures Frontier(f.(log := f.log + [e]), d)
  {
    hide Elements;
    assert (f.log + [e])[..d] == f.log[..d];
  }

  /** A new event of an old ledger can only be of the latest one, which the cursor includes. */
  lemma CoveredKeeps(f: Feed, e: Event, c: nat)
    requires Covered(f, c) && Reached(f.log, c)
    requires f.log != [] ==> f.log[|f.log| - 1].ledger <= e.ledger
    ensures var g := f.(log := f.log + [e]); Covered(g, c) && Reached(g.log, c)
  {
  }

  lemma StoredElsewhere(f: Feed, db: Db, namespace: string, ledger: nat)
    requires NoGaps(f, db) && f.namespace != namespace
    ensures NoGaps(f, WithLedger(db, namespace, ledger))
  {
  }

  /** Storing one feed's cursor leaves the others. */
  lemma OtherStored(stored: string, other: string, db: Db, after: Db)
    requires other != stored && (after == db || exists ledger :: after == WithLedger(db, stored, ledger))
    ensures other in db.ledgers <==> other in after.ledgers
    ensures other in db.ledgers ==> after.ledgers[other] == db.ledgers[other]
    ensures LastLedger(after, other) == LastLedger(db, other)
  {
  }

  lemma FormedNext(sys: System, action: Action)
    requires Formed(sys)
    ensures Formed(Next(sys, action)) && |Next(sys, action).feeds| == |sys.feeds|
    ensures forall j | 0 <= j < |sys.feeds| ::
              var f, g := sys.feeds[j], Next(sys, action).feeds[j];
              g.namespace == f.namespace && g.configured == f.configured && f.log <= g.log
  {
    hide FeedPolled, Handled, WithLedger, Published, CanAppend;
    forall f: Feed, g: Feed | Published(f) && g.log == f.log && g.topic == f.topic ensures Published(g) {
      SamePublished(f, g);
    }
    if action.Poll? && action.k < |sys.feeds| {
      PolledStores(sys.feeds[action.k], sys.db, action.limit, action.fate);
    } else if action.Append? && action.k < |sys.feeds| && CanAppend(sys, action.k, action.event) {
      AppendPublished(sys, action.k, action.event);
    }
  }

  lemma SamePublished(f: Feed, g: Feed)
    requires Published(f) && g.log == f.log && g.topic == f.topic
    ensures Published(g)
  {
  }

  lemma AppendPublished(sys: System, k: nat, e: Event)
    requires k < |sys.feeds| && Published(sys.feeds[k]) && CanAppend(sys, k, e)
    ensures Published(sys.feeds[k].(log := sys.feeds[k].log + [e]))
  {
  }

  lemma HealthyAppend(sys: System, k: nat, e: Event)
    requires Healthy(sys) && k < |sys.feeds| && CanAppend(sys, k, e)
    ensures Healthy(Next(sys, Append(k, e)))
  {
    hide Published, NoGaps;
    AppendKeeps(sys.feeds[k], sys.db, e);
  }

  lemma PolledStores(f: Feed, db: Db, limit: nat, fate: Fate)
    ensures var (g, after) := FeedPolled(f, db, limit, fate);
            && g.namespace == f.namespace && g.topic == f.topic && g.log == f.log && g.configured == f.configured
            && (after == db || exists ledger :: after == WithLedger(db, f.namespace, ledger))
  {
    hide OnTopic, Fetched, Raised, WithLedger;
  }

  lemma HealthyPoll(sys: System, k: nat, limit: nat, fate: Fate)
    requires Healthy(sys) && k < |sys.feeds| && Clean(sys, Poll(k, limit, fate))
    ensures Healthy(Next(sys, Poll(k, limit, fate)))
  {
    var f := sys.feeds[k];
    var d: nat :| Frontier(f, d);
    hide Published, NoGaps, FeedPolled, OneLedgerNew, WithLedger, Frontier;
    var (g, after) := FeedPolled(f, sys.db, limit, fate);
    PollNoGaps(f, sys.db, limit, fate, d);
    PolledStores(f, sys.db, limit, fate);
    var next := Next(sys, Poll(k, limit, fate));
    assert next == System(after, sys.feeds[k := g]);
    forall j | 0 <= j < |sys.feeds| && j != k ensures NoGaps(next.feeds[j], after) {
      if after != sys.db {
        var ledger :| after == WithLedger(sys.db, f.namespace, ledger);
        StoredElsewhere(sys.feeds[j], sys.db, f.namespace, ledger);
      }
    }
  }

  lemma HandledKeepsLedgers(db: Db, namespace: string, row: Row, e: Event, fault: Fault)
    ensures var after := Handled(db, namespace, row, e, fault);
            after.Some? ==> after.value.ledgers == db.ledgers && after.value.up == db.up
  {
  }

  lemma NoGapsAgree(f: Feed, db: Db, g: Feed, after: Db)
    requires NoGaps(f, db) && after.ledgers == db.ledgers
    requires g.log == f.log && g.returned == f.returned && g.namespace == f.namespace
    requires g.source == f.source || !g.source.loaded
    ensures NoGaps(g, after)
  {
    hide Covered, Frontier;
    SameCovered(f, g);
  }

  lemma NextHealthy(sys: System, action: Action)
    requires Healthy(sys) && Clean(sys, action)
    ensures Healthy(Next(sys, action))
  {
    hide NoGaps, FeedPolled, Clean, CanAppend, Handled, Ordered, Distinct;
    match action
    case Append(k, e) =>
      if k < |sys.feeds| && CanAppend(sys, k, e) {
        HealthyAppend(sys, k, e);
      }
    case Poll(k, limit, fate) =>
      if k < |sys.feeds| {
        HealthyPoll(sys, k, limit, fate);
      }
    case Handle(k, b, fault) =>
      if k < |sys.feeds| && b < |sys.feeds[k].pending| && sys.feeds[k].pending[b] != [] {
        var f := sys.feeds[k];
        var e := f.pending[b][0];
        HandledKeepsLedgers(sys.db, f.namespace, RowOf(f.retirement, e), e, fault);
        var next := Next(sys, action);
        forall j | 0 <= j < |sys.feeds| ensures NoGaps(next.feeds[j], next.db) {
          NoGapsAgree(sys.feeds[j], sys.db, next.feeds[j], next.db);
        }
      }
    case Restart(up) =>
      var next := Next(sys, action);
      forall j | 0 <= j < |sys.feeds| ensures NoGaps(next.feeds[j], next.db) {
        NoGapsAgree(sys.feeds[j], sys.db, next.feeds[j], next.db);
      }
  }

  lemma InitialHealthy(sys: System)
    requires Initial(sys)
    ensures Healthy(sys)
  {
    forall k | 0 <= k < |sys.feeds| ensures NoGaps(sys.feeds[k], sys.db) {
      assert Frontier(sys.feeds[k], 0);
    }
  }

  /**
  No gaps, over every run with restarts, refused or failing requests and growing feeds: every
  event of a ledger below either cursor of its feed was returned by some poll, and the events
  returned are always the first ones.  Only a store of the cursor that fails is left out.
   */
  lemma {:induction false} RunNoGaps(sys: System, actions: seq<Action>)
    requires Initial(sys)
    requires forall i {:trigger actions[i]} | 0 <= i < |actions| :: Clean(Run(sys, actions[..i]), actions[i])
    ensures Healthy(Run(sys, actions))
  {
    hide Healthy, Clean, Next, Initial;
    if actions == [] {
      InitialHealthy(sys);
    } else {
      var last := |actions| - 1;
      forall i | 0 <= i < last ensures Clean(Run(sys, actions[..last][..i]), actions[..last][i]) {
        assert actions[..last][..i] == actions[..i] && actions[..last][i] == actions[i];
      }
      RunNoGaps(sys, actions[..last]);
      NextHealthy(Run(sys, actions[..last]), actions[last]);
    }
  }
}
