/** Polling a contract's events in batches from an inclusive ledger cursor. */
module EventSource {
  import opened Options
  import opened Database

  datatype Event = Event(id: string, topic0: string, topics: seq<string>, ledger: nat, txHash: string)

  /** The in-memory cursor; it is read from the database on the first poll. */
  datatype Source = Source(cursor: nat, loaded: bool)

  /** What goes wrong in a poll. */
  datatype Fate = Fine | LoadFails | FetchFails | Refused | PersistFails

  /** Events are in ledger order. */
  ghost predicate Ordered(log: seq<Event>) {
    forall i, j | 0 <= i < j < |log| :: log[i].ledger <= log[j].ledger
  }

  /** Position of the first event of a ledger or a later one. */
  function Seek(log: seq<Event>, ledger: nat): (i: nat)
    ensures i <= |log|
    ensures forall j | 0 <= j < i :: log[j].ledger < ledger
    ensures i < |log| ==> log[i].ledger >= ledger
  {
    if log == [] || log[0].ledger >= ledger then 0 else 1 + Seek(log[1..], ledger)
  }

  /** End of the batch that starts at a position. */
  function BatchEnd(log: seq<Event>, start: nat, limit: nat): (i: nat)
    requires start <= |log|
    ensures start <= i <= |log|
  {
    if start + limit < |log| then start + limit else |log|
  }

  /** What the server answers: the first events from a ledger on. */
  function Fetched(log: seq<Event>, ledger: nat, limit: nat): seq<Event> {
    var start := Seek(log, ledger);
    log[start..BatchEnd(log, start, limit)]
  }

  function StartLedger(cursor: nat): nat { if cursor < 1 then 1 else cursor }

  function OnTopic(events: seq<Event>, topic: string): seq<Event> {
    if events == [] then []
    else
      var last := events[|events| - 1];
      var rest := OnTopic(events[..|events| - 1], topic);
      if last.topic0 == topic then rest + [last] else rest
  }

  /** The cursor after seeing some events. */
  function Raised(cursor: nat, events: seq<Event>): (r: nat)
    ensures r >= cursor && forall i | 0 <= i < |events| :: r >= events[i].ledger
    ensures r == cursor || exists i | 0 <= i < |events| :: r == events[i].ledger
  {
    if events == [] then cursor
    else
      var last := events[|events| - 1];
      var r := Raised(cursor, events[..|events| - 1]);
      if last.ledger > r then last.ledger else r
  }

  /** A poll: the source and the database after it, and the events it returns unless it throws. */
  function Polled(configured: bool, topic: string, namespace: string, s: Source, db: Db, log: seq<Event>, limit: nat, fate: Fate)
    : (Source, Db, Option<seq<Event>>)
  {
    if !configured then (s, db, Some([]))
    else if !s.loaded && db.up && fate.LoadFails? then (s, db, None)
    else
      var cursor := if s.loaded then s.cursor else LastLedger(db, namespace);
      if fate.FetchFails? then (Source(cursor, true), db, None)
      else if fate.Refused? then (Source(cursor, true), db, Some([]))
      else
        var events := OnTopic(Fetched(log, StartLedger(cursor), limit), topic);
        var raised := Raised(cursor, events);
        if raised > 0 && db.up && fate.PersistFails? then (Source(raised, true), db, None)
        else (Source(raised, true), if raised > 0 then WithLedger(db, namespace, raised) else db, Some(events))
  }

  /**
  How a poll can end without a batch.  An unconfigured source and a refused request answer the
  empty list; a cursor that cannot be loaded or stored and a fetch that fails throw.  Only a
  failed store comes after the cursor was raised.
   */
  lemma PollWithoutBatch(configured: bool, topic: string, namespace: string, s: Source, db: Db, log: seq<Event>, limit: nat, fate: Fate)
    ensures var (after, stored, events) := Polled(configured, topic, namespace, s, db, log, limit, fate);
            var cursor := if s.loaded then s.cursor else LastLedger(db, namespace);
            && (!configured ==> after == s && stored == db && events == Some([]))
            && (configured && (s.loaded || !db.up || !fate.LoadFails?) ==>
                  && (fate.Refused? ==> after == Source(cursor, true) && stored == db && events == Some([]))
                  && (fate.FetchFails? ==> after == Source(cursor, true) && stored == db && events == None))
            && (configured && !s.loaded && db.up && fate.LoadFails? ==> after == s && stored == db && events == None)
            && (configured && db.up && fate.PersistFails? ==>
                  && after.loaded && after.cursor >= cursor && stored == db
                  && (events.None? <==> after.cursor > 0))
            && (events.None? ==> configured && !fate.Fine? && !fate.Refused? && stored == db)
  {
    hide Fetched, OnTopic;
  }

  /** The events of a topic, each once and in the order they came. */
  lemma {:induction false} OnTopicSplits(a: seq<Event>, b: seq<Event>, topic: string)
    ensures OnTopic(a + b, topic) == OnTopic(a, topic) + OnTopic(b, topic)
  {
    if b == [] {
      assert a + b == a;
    } else {
      var last := |b| - 1;
      OnTopicSplits(a, b[..last], topic);
      assert (a + b)[..|a + b| - 1] == a + b[..last];
      assert (a + b)[|a + b| - 1] == b[last];
    }
  }

  lemma OnTopicOne(e: Event, topic: string)
    ensures OnTopic([e], topic) == if e.topic0 == topic then [e] else []
  {
    assert [e][..0] == [];
  }

  class StellarEventSource {
    const contractId: string
    const topic: string
    const namespace: string
    const db: Database
    var requestId: nat
    var cursor: nat
    var cursorLoaded: bool

    constructor (contractId: string, topic: string, namespace: string, db: Database)
      ensures this.contractId == contractId && this.topic == topic && this.namespace == namespace && this.db == db
      ensures State() == Source(0, false)
    {
      this.contractId, this.topic, this.namespace, this.db := contractId, topic, namespace, db;
      requestId, cursor, cursorLoaded := 1, 0, false;
    }

    function State(): Source
      reads this
    {
      Source(cursor, cursorLoaded)
    }

    /** Keeps the events of the topic and raises the cursor to their ledgers. */
    method Collect(data: seq<Event>) returns (found: seq<Event>)
      modifies `cursor
      ensures found == OnTopic(data, topic) && cursor == Raised(old(cursor), found)
    {
      found := [];
      for i := 0 to |data|
        invariant found == OnTopic(data[..i], topic) && cursor == Raised(old(cursor), found)
      {
        assert data[..i + 1][..i] == data[..i];
        var event := data[i];
        if event.topic0 == topic {
          assert (found + [event])[..|found|] == found;
          found := found + [event];
          if event.ledger > cursor {
            cursor := event.ledger;
          }
        }
      }
      assert data[..|data|] == data;
    }

    /** None when the poll throws. */
    method Poll(log: seq<Event>, batchSize: nat, fate: Fate) returns (events: Option<seq<Event>>)
      modifies this, db
      ensures (State(), db.State(), events)
           == Polled(contractId != "", topic, namespace, old(State()), old(db.State()), log, batchSize, fate)
    {
      hide Fetched, OnTopic, Raised;
      if contractId == "" {
        return Some([]);
      }
      if !cursorLoaded {
        if db.connected && fate.LoadFails? {
          return None;
        }
        cursor := db.GetLastLedger(namespace);
        cursorLoaded := true;
      }
      requestId := requestId + 1;
      if fate.FetchFails? {
        return None;
      }
      if fate.Refused? {
        return Some([]);
      }
      var data := Fetched(log, if cursor < 1 then 1 else cursor, batchSize);
      var found := Collect(data);
      if cursor > 0 {
        if db.connected && fate.PersistFails? {
          return None;
        }
        db.SetLastLedger(namespace, cursor);
      }
      events := Some(found);
    }
  }
}
