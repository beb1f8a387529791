/**
What handling events does to the tables over runs: at most one insert per event id, and exactly
the nullifiers of the returned events when nothing fails.
 */
module IndexerEffects {
  import opened Database
  import opened EventSource
  import opened Handlers
  import opened IndexerRuns

  // ----- At most once

  /** The action handles the next event of a batch. */
  predicate Handles(sys: System, action: Action) {
    && action.Handle? && action.k < |sys.feeds| && action.b < |sys.feeds[action.k].pending|
    && sys.feeds[action.k].pending[action.b] != []
  }

  function HandledEvent(sys: System, action: Action): Event
    requires Handles(sys, action)
  {
    sys.feeds[action.k].pending[action.b][0]
  }

  /** The action runs the insert of an event. */
  predicate Inserts(sys: System, action: Action, id: string) {
    && Handles(sys, action) && action.fault.NoFault? && sys.db.up
    && HandledEvent(sys, action).id == id && NullifierOf(HandledEvent(sys, action)) != ""
    && id !in sys.db.processed
  }

  lemma HandledMarks(db: Db, namespace: string, row: Row, e: Event, fault: Fault)
    ensures var after := Handled(db, namespace, row, e, fault);
            && (after.Some? ==> forall id | id in db.processed :: id in after.value.processed && after.value.processed[id] == db.processed[id])
            && (db.up && NullifierOf(e) != "" && e.id !in db.processed && !fault.MarkFails? ==> after.Some? && e.id in after.value.processed)
  {
  }

  lemma MarksKept(sys: System, action: Action, id: string)
    ensures id in sys.db.processed ==> id in Next(sys, action).db.processed
    ensures Inserts(sys, action, id) ==> id in Next(sys, action).db.processed
  {
    hide Handled, CanAppend;
    match action
    case Append(_, _) =>
    case Poll(k, limit, fate) =>
      if k < |sys.feeds| {
        PolledStores(sys.feeds[k], sys.db, limit, fate);
      }
    case Handle(k, _, fault) =>
      if Handles(sys, action) {
        var e := HandledEvent(sys, action);
        HandledMarks(sys.db, sys.feeds[k].namespace, RowOf(sys.feeds[k].retirement, e), e, fault);
      }
    case Restart(_) =>
  }

  lemma {:induction false} MarkedForever(sys: System, actions: seq<Action>, i: nat, id: string)
    requires i < |actions| && Inserts(Run(sys, actions[..i]), actions[i], id)
    ensures id in Run(sys, actions).db.processed
    decreases |actions|
  {
    hide Inserts, Next;
    var last := |actions| - 1;
    MarksKept(Run(sys, actions[..last]), actions[last], id);
    if i < last {
      assert actions[..last][..i] == actions[..i];
      MarkedForever(sys, actions[..last], i, id);
    }
  }

  /**
  At most once: over any run, with polls that overlap, batches returned again, failures and
  restarts, no two actions run the insert for the same event id.
   */
  lemma InsertedOnce(sys: System, actions: seq<Action>, i: nat, j: nat, id: string)
    requires i < j < |actions|
    requires Inserts(Run(sys, actions[..i]), actions[i], id)
    ensures !Inserts(Run(sys, actions[..j]), actions[j], id)
  {
    hide Next;
    assert actions[..j][..i] == actions[..i];
    MarkedForever(sys, actions[..j], i, id);
  }

  /** The action inserts an event that carries nullifier n. */
  predicate Stores(sys: System, action: Action, n: string) {
    && Handles(sys, action) && NullifierOf(HandledEvent(sys, action)) == n
    && Inserts(sys, action, HandledEvent(sys, action).id)
  }

  lemma HandledNullifiers(db: Db, namespace: string, row: Row, e: Event, fault: Fault, n: string)
    ensures var after := Handled(db, namespace, row, e, fault);
            after.Some? ==>
              (n in after.value.nullifiers <==>
                 n in db.nullifiers
                 || (db.up && fault.NoFault? && e.id !in db.processed && n == NullifierOf(e) != ""))
    ensures fault.NoFault? && db.up && e.id !in db.processed ==> Handled(db, namespace, row, e, fault).Some?
  {
  }

  lemma NextStores(sys: System, action: Action, n: string)
    ensures n in Next(sys, action).db.nullifiers <==> n in sys.db.nullifiers || Stores(sys, action, n)
  {
    hide Handled, CanAppend, FeedPolled, NullifierOf, RowOf;
    match action
    case Append(_, _) =>
    case Poll(k, limit, fate) =>
      if k < |sys.feeds| {
        FetchedFrom(sys.feeds[k], sys.db, limit, fate);
      }
    case Handle(k, _, fault) =>
      if Handles(sys, action) {
        var e := HandledEvent(sys, action);
        HandledNullifiers(sys.db, sys.feeds[k].namespace, RowOf(sys.feeds[k].retirement, e), e, fault, n);
      }
    case Restart(_) =>
  }

  /** Over any run a nullifier is stored exactly when it was before, or some action inserts an event that carries it. */
  lemma {:induction false} StoredExactly(sys: System, actions: seq<Action>, n: string)
    ensures n in Run(sys, actions).db.nullifiers
            <==> n in sys.db.nullifiers
                 || exists j {:trigger actions[j]} | 0 <= j < |actions| :: Stores(Run(sys, actions[..j]), actions[j], n)
  {
    hide Next, Stores;
    if actions != [] {
      var last := |actions| - 1;
      var short := actions[..last];
      StoredExactly(sys, short, n);
      NextStores(Run(sys, short), actions[last], n);
      assert forall j | 0 <= j < last :: short[j] == actions[j] && short[..j] == actions[..j];
      if Stores(Run(sys, short), actions[last], n) {
        assert Stores(Run(sys, actions[..last]), actions[last], n);
      }
    }
  }

  /** The action inserts an event that carries nullifier n, not stored before, with this row. */
  predicate StoresFirst(sys: System, action: Action, n: string, row: Row) {
    && Stores(sys, action, n) && n !in sys.db.nullifiers
    && row == RowOf(sys.feeds[action.k].retirement, HandledEvent(sys, action))
  }

  lemma HandledRows(db: Db, namespace: string, row: Row, e: Event, fault: Fault, n: string)
    ensures var after := Handled(db, namespace, row, e, fault);
            after.Some? ==>
              && (n in db.nullifiers ==> n in after.value.nullifiers && after.value.nullifiers[n] == db.nullifiers[n])
              && (n !in db.nullifiers && n in after.value.nullifiers ==> after.value.nullifiers[n] == row)
  {
  }

  lemma NextRows(sys: System, action: Action, n: string)
    requires n in Next(sys, action).db.nullifiers
    ensures var row := Next(sys, action).db.nullifiers[n];
            if n in sys.db.nullifiers then row == sys.db.nullifiers[n] else StoresFirst(sys, action, n, row)
  {
    NextStores(sys, action, n);
    hide Handled, CanAppend, FeedPolled, NullifierOf, RowOf, Stores;
    match action
    case Append(_, _) =>
    case Poll(k, limit, fate) =>
      if k < |sys.feeds| {
        FetchedFrom(sys.feeds[k], sys.db, limit, fate);
      }
    case Handle(k, _, fault) =>
      if Handles(sys, action) {
        var e := HandledEvent(sys, action);
        HandledRows(sys.db, sys.feeds[k].namespace, RowOf(sys.feeds[k].retirement, e), e, fault, n);
      }
    case Restart(_) =>
  }

  /**
  Over any run a stored row never changes, whatever is handled again: it is the one there
  before, or that of the first event inserted for its nullifier.
   */
  lemma {:induction false} RowOfFirst(sys: System, actions: seq<Action>, n: string)
    requires n in Run(sys, actions).db.nullifiers
    ensures var row := Run(sys, actions).db.nullifiers[n];
            if n in sys.db.nullifiers then row == sys.db.nullifiers[n]
            else exists j {:trigger actions[j]} | 0 <= j < |actions| :: StoresFirst(Run(sys, actions[..j]), actions[j], n, row)
  {
    hide Next, StoresFirst;
    if actions != [] {
      var last := |actions| - 1;
      var short := actions[..last];
      NextRows(Run(sys, short), actions[last], n);
      if n in Run(sys, short).db.nullifiers {
        RowOfFirst(sys, short, n);
        assert forall j | 0 <= j < last :: short[j] == actions[j] && short[..j] == actions[..j];
      } else {
        StoredExactly(sys, short, n);
        assert StoresFirst(Run(sys, actions[..last]), actions[last], n, Run(sys, actions).db.nullifiers[n]);
      }
    }
  }

  // ----- Exactly the returned ones, when nothing fails

  /** Nothing fails, and restarts happen only with nothing pending. */
  predicate Smooth(sys: System, action: Action) {
    && (action.Poll? ==> action.fate.Fine?)
    && (action.Handle? ==> action.fault.NoFault?)
    && (action.Restart? ==> action.up && forall k | 0 <= k < |sys.feeds| :: Waiting(sys.feeds[k].pending) == {})
  }

  /** n is the nullifier of an event that some feed returned. */
  ghost predicate Carried(sys: System, n: string) {
    n != "" && exists k, e :: 0 <= k < |sys.feeds| && e in sys.feeds[k].returned && NullifierOf(e) == n
  }

  /** An event that was returned is pending, carries nothing, or has its nullifier stored. */
  ghost predicate Accounted(sys: System) {
    forall k, e | 0 <= k < |sys.feeds| && e in sys.feeds[k].returned ::
      e in Waiting(sys.feeds[k].pending) || NullifierOf(e) == "" || NullifierOf(e) in sys.db.nullifiers
  }

  /** Pending and returned events come from the feed's log. */
  ghost predicate Sourced(sys: System) {
    && (forall k, e | 0 <= k < |sys.feeds| && e in sys.feeds[k].returned :: e in sys.feeds[k].log)
    && (forall k, e | 0 <= k < |sys.feeds| && e in Waiting(sys.feeds[k].pending) :: e in sys.feeds[k].returned)
  }

  /** A marked event is marked under its own feed and has its nullifier stored. */
  ghost predicate Faithful(sys: System) {
    forall k, e | 0 <= k < |sys.feeds| && e in sys.feeds[k].log && e.id in sys.db.processed ::
      sys.db.processed[e.id] == sys.feeds[k].namespace && NullifierOf(e) in sys.db.nullifiers
  }

  /** Ids name one event of one feed. */
  ghost predicate IdsUnique(sys: System) {
    forall k, e, l, g | 0 <= k < |sys.feeds| && e in sys.feeds[k].log && 0 <= l < |sys.feeds| && g in sys.feeds[l].log && e.id == g.id ::
      k == l && e == g
  }

  ghost predicate Faultless(sys: System, before: set<string>) {
    && sys.db.up && IdsUnique(sys) && Sourced(sys) && Accounted(sys) && Faithful(sys)
    && (forall n | n in sys.db.nullifiers :: n in before || Carried(sys, n))
    && before <= sys.db.nullifiers.Keys
  }

  lemma FetchedFrom(f: Feed, db: Db, limit: nat, fate: Fate)
    ensures var (g, after) := FeedPolled(f, db, limit, fate);
            && g.log == f.log && g.namespace == f.namespace
            && after.up == db.up && after.processed == db.processed && after.nullifiers == db.nullifiers
            && f.returned <= g.returned
            && Waiting(f.pending) <= Waiting(g.pending)
            && Waiting(g.pending) <= Waiting(f.pending) + g.returned
            && (forall e | e in g.returned :: e in f.returned || (e in Waiting(g.pending) && e in f.log))
  {
    hide Raised, Seek, BatchEnd, Queued, Waiting, StartLedger, OnTopic;
    var (source, after, events) := Polled(f.configured, f.topic, f.namespace, f.source, db, f.log, limit, fate);
    WaitingQueued(f.pending, if events.Some? then events.value else []);
    if events.Some? {
      OnTopicWithin(Fetched(f.log, StartLedger(CursorAt(f, db)), limit), f.topic);
    }
  }

  lemma {:induction false} OnTopicWithin(events: seq<Event>, topic: string)
    ensures forall e | e in OnTopic(events, topic) :: e in events
  {
    if events != [] {
      OnTopicWithin(events[..|events| - 1], topic);
    }
  }

  lemma FaultlessAppend(sys: System, before: set<string>, k: nat, e: Event)
    requires Faultless(sys, before) && k < |sys.feeds| && CanAppend(sys, k, e)
    ensures Faultless(Next(sys, Append(k, e)), before)
  {
    var next := Next(sys, Append(k, e));
    LogOnlyGrows(sys, k, e);
    forall n | Carried(sys, n) ensures Carried(next, n) {
      var j, g :| 0 <= j < |sys.feeds| && g in sys.feeds[j].returned && NullifierOf(g) == n;
      assert g in next.feeds[j].returned;
    }
    hide Carried, NullifierOf, CanAppend, Fresh;
  }

  lemma LogOnlyGrows(sys: System, k: nat, e: Event)
    requires k < |sys.feeds| && CanAppend(sys, k, e)
    ensures var next := Next(sys, Append(k, e));
            && next.db == sys.db && |next.feeds| == |sys.feeds| && e.id !in sys.db.processed
            && (forall j, g | 0 <= j < |sys.feeds| && g in next.feeds[j].log :: g in sys.feeds[j].log || (j == k && g == e))
            && (forall j, g | 0 <= j < |sys.feeds| && g in sys.feeds[j].log :: g in next.feeds[j].log && g.id != e.id)
            && (forall j | 0 <= j < |sys.feeds| :: next.feeds[j].pending == sys.feeds[j].pending)
            && (forall j | 0 <= j < |sys.feeds| :: next.feeds[j].returned == sys.feeds[j].returned)
            && (forall j | 0 <= j < |sys.feeds| :: next.feeds[j].namespace == sys.feeds[j].namespace)
  {
  }

  lemma CarriedMore(sys: System, next: System)
    requires |next.feeds| == |sys.feeds| && forall j | 0 <= j < |sys.feeds| :: sys.feeds[j].returned <= next.feeds[j].returned
    ensures forall n :: Carried(sys, n) ==> Carried(next, n)
  {
    forall n | Carried(sys, n) ensures Carried(next, n) {
      var j, g :| 0 <= j < |sys.feeds| && g in sys.feeds[j].returned && NullifierOf(g) == n;
      assert g in next.feeds[j].returned;
    }
  }

  lemma FaultlessPoll(sys: System, before: set<string>, k: nat, limit: nat, fate: Fate)
    requires Faultless(sys, before) && k < |sys.feeds|
    ensures Faultless(Next(sys, Poll(k, limit, fate)), before)
  {
    hide FeedPolled, NullifierOf, Carried;
    var f := sys.feeds[k];
    var next := Next(sys, Poll(k, limit, fate));
    FetchedFrom(f, sys.db, limit, fate);
    CarriedMore(sys, next);
  }

  lemma HandledStores(db: Db, namespace: string, row: Row, e: Event)
    requires db.up && (e.id in db.processed ==> db.processed[e.id] == namespace && NullifierOf(e) in db.nullifiers)
    ensures var after := Handled(db, namespace, row, e, NoFault);
            && after.Some? && after.value.up && db.nullifiers.Keys <= after.value.nullifiers.Keys
            && (NullifierOf(e) == "" || NullifierOf(e) in after.value.nullifiers)
            && (forall n | n in after.value.nullifiers :: n in db.nullifiers || (n == NullifierOf(e) && n != ""))
            && (forall id | id in after.value.processed :: id in db.processed || (id == e.id && NullifierOf(e) != ""))
            && (forall id | id in db.processed :: id in after.value.processed && after.value.processed[id] == db.processed[id])
            && (e.id in after.value.processed && e.id !in db.processed ==> after.value.processed[e.id] == namespace)
  {
  }

  lemma HandleShape(sys: System, k: nat, b: nat)
    requires Handles(sys, Handle(k, b, NoFault))
    ensures var next, e := Next(sys, Handle(k, b, NoFault)), sys.feeds[k].pending[b][0];
            var after := Handled(sys.db, sys.feeds[k].namespace, RowOf(sys.feeds[k].retirement, e), e, NoFault);
            && |next.feeds| == |sys.feeds| && (after.Some? ==> next.db == after.value)
            && (forall j | 0 <= j < |sys.feeds| :: next.feeds[j].log == sys.feeds[j].log)
            && (forall j | 0 <= j < |sys.feeds| :: next.feeds[j].returned == sys.feeds[j].returned)
            && (forall j | 0 <= j < |sys.feeds| :: next.feeds[j].namespace == sys.feeds[j].namespace)
            && (forall j | 0 <= j < |sys.feeds| :: Waiting(next.feeds[j].pending) <= Waiting(sys.feeds[j].pending))
            && (after.Some? ==> forall j | 0 <= j < |sys.feeds| :: Waiting(sys.feeds[j].pending) <= Waiting(next.feeds[j].pending) + {e})
  {
    hide Handled, Waiting;
    var batch := sys.feeds[k].pending[b];
    WaitingCut(sys.feeds[k].pending, b, batch[1..]);
    WaitingCut(sys.feeds[k].pending, b, []);
    FirstAndRest(batch);
  }

  lemma FirstAndRest(batch: seq<Event>)
    requires batch != []
    ensures forall e | e in batch :: e == batch[0] || e in Elements(batch[1..])
  {
    assert batch == [batch[0]] + batch[1..];
  }

  lemma FaultlessHandle(sys: System, before: set<string>, k: nat, b: nat)
    requires Faultless(sys, before) && Handles(sys, Handle(k, b, NoFault))
    ensures Faultless(Next(sys, Handle(k, b, NoFault)), before)
  {
    hide Handled, NullifierOf, RowOf, Next;
    var f := sys.feeds[k];
    var e := f.pending[b][0];
    var next := Next(sys, Handle(k, b, NoFault));
    assert e in f.pending[b] && e in Waiting(f.pending);
    hide Waiting;
    assert e in f.returned && e in f.log;
    HandledStores(sys.db, f.namespace, RowOf(f.retirement, e), e);
    HandleShape(sys, k, b);
    CarriedMore(sys, next);
    assert NullifierOf(e) == "" || Carried(next, NullifierOf(e)) by {
      assert e in next.feeds[k].returned;
    }
    FaithfulHandle(sys, k, e, next);
    AccountedHandle(sys, e, next);
    hide Carried, Faithful, Accounted;
  }

  lemma AccountedHandle(sys: System, e: Event, next: System)
    requires Accounted(sys) && |next.feeds| == |sys.feeds|
    requires forall j | 0 <= j < |sys.feeds| :: next.feeds[j].returned == sys.feeds[j].returned
    requires forall j | 0 <= j < |sys.feeds| :: Waiting(sys.feeds[j].pending) <= Waiting(next.feeds[j].pending) + {e}
    requires NullifierOf(e) == "" || NullifierOf(e) in next.db.nullifiers
    requires sys.db.nullifiers.Keys <= next.db.nullifiers.Keys
    ensures Accounted(next)
  {
    hide NullifierOf;
  }

  lemma FaithfulHandle(sys: System, k: nat, e: Event, next: System)
    requires IdsUnique(sys) && Faithful(sys) && k < |sys.feeds| && e in sys.feeds[k].log && |next.feeds| == |sys.feeds|
    requires forall j | 0 <= j < |sys.feeds| :: next.feeds[j].log == sys.feeds[j].log
    requires forall j | 0 <= j < |sys.feeds| :: next.feeds[j].namespace == sys.feeds[j].namespace
    requires forall id | id in next.db.processed :: id in sys.db.processed || (id == e.id && NullifierOf(e) != "")
    requires forall id | id in sys.db.processed :: id in next.db.processed && next.db.processed[id] == sys.db.processed[id]
    requires e.id in next.db.processed && e.id !in sys.db.processed ==> next.db.processed[e.id] == sys.feeds[k].namespace
    requires NullifierOf(e) == "" || NullifierOf(e) in next.db.nullifiers
    requires sys.db.nullifiers.Keys <= next.db.nullifiers.Keys
    ensures Faithful(next)
  {
    hide NullifierOf;
    forall j, g | 0 <= j < |next.feeds| && g in next.feeds[j].log && g.id in next.db.processed
      ensures next.db.processed[g.id] == next.feeds[j].namespace && NullifierOf(g) in next.db.nullifiers
    {
      if g.id in sys.db.processed {
        assert NullifierOf(g) in sys.db.nullifiers;
      } else {
        assert j == k && g == e;
      }
    }
  }

  lemma FaultlessRestart(sys: System, before: set<string>)
    requires Faultless(sys, before) && forall k | 0 <= k < |sys.feeds| :: Waiting(sys.feeds[k].pending) == {}
    ensures Faultless(Next(sys, Restart(true)), before)
  {
    hide NullifierOf, Carried;
    CarriedMore(sys, Next(sys, Restart(true)));
  }

  lemma FaultlessKept(sys: System, before: set<string>, action: Action)
    requires Faultless(sys, before) && Smooth(sys, action)
    ensures Faultless(Next(sys, action), before)
  {
    hide Faultless, CanAppend;
    match action
    case Append(k, e) =>
      if k < |sys.feeds| && CanAppend(sys, k, e) {
        FaultlessAppend(sys, before, k, e);
      }
    case Poll(k, limit, fate) =>
      if k < |sys.feeds| {
        FaultlessPoll(sys, before, k, limit, fate);
      }
    case Handle(k, b, _) =>
      if Handles(sys, action) {
        FaultlessHandle(sys, before, k, b);
      }
    case Restart(up) =>
      FaultlessRestart(sys, before);
  }

  lemma InitialFaultless(sys: System)
    requires Initial(sys) && sys.db.up && sys.db.processed == map[] && IdsUnique(sys)
    ensures Faultless(sys, sys.db.nullifiers.Keys)
  {
  }

  lemma {:induction false} FaultlessRun(sys: System, actions: seq<Action>)
    requires Initial(sys) && sys.db.up && sys.db.processed == map[] && IdsUnique(sys)
    requires forall i {:trigger actions[i]} | 0 <= i < |actions| :: Smooth(Run(sys, actions[..i]), actions[i])
    ensures Faultless(Run(sys, actions), sys.db.nullifiers.Keys)
  {
    hide Initial, Faultless, Smooth, Next, IdsUnique;
    if actions == [] {
      InitialFaultless(sys);
    } else {
      var last := |actions| - 1;
      forall i | 0 <= i < last ensures Smooth(Run(sys, actions[..last][..i]), actions[..last][i]) {
        assert actions[..last][..i] == actions[..i] && actions[..last][i] == actions[i];
      }
      FaultlessRun(sys, actions[..last]);
      assert Smooth(Run(sys, actions[..last]), actions[last]);
      FaultlessKept(Run(sys, actions[..last]), sys.db.nullifiers.Keys, actions[last]);
    }
  }

  /**
  Exactly once: after a run in which nothing failed, with everything handled, the nullifiers
  stored are those stored before and those carried by the events that were returned.
   */
  lemma ExactlyReturned(sys: System, actions: seq<Action>, n: string)
    requires Initial(sys) && sys.db.up && sys.db.processed == map[] && IdsUnique(sys)
    requires forall i {:trigger actions[i]} | 0 <= i < |actions| :: Smooth(Run(sys, actions[..i]), actions[i])
    requires forall k | 0 <= k < |Run(sys, actions).feeds| :: Waiting(Run(sys, actions).feeds[k].pending) == {}
    ensures var end := Run(sys, actions);
            n in end.db.nullifiers <==> n in sys.db.nullifiers || Carried(end, n)
  {
    hide Initial, Run, Smooth, NullifierOf, IdsUnique;
    FaultlessRun(sys, actions);
    var end := Run(sys, actions);
    if Carried(end, n) {
      var k, e :| 0 <= k < |end.feeds| && e in end.feeds[k].returned && NullifierOf(e) == n;
      assert e !in Waiting(end.feeds[k].pending);
    }
  }
}
