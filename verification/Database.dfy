/** The indexer's tables and the statements it runs on them. */
module Database {
  import opened Options

  datatype Row = Row(corridorId: Option<string>, txHash: string)

  /** up is false in memory-only mode: then every statement is skipped. */
  datatype Db = Db(up: bool, ledgers: map<string, nat>, processed: map<string, string>, nullifiers: map<string, Row>)

  function LastLedger(db: Db, namespace: string): nat {
    if db.up && namespace in db.ledgers then db.ledgers[namespace] else 0
  }

  function WithLedger(db: Db, namespace: string, ledger: nat): Db {
    if db.up then db.(ledgers := db.ledgers[namespace := ledger]) else db
  }

  /**
  Marking an event id.  The id alone is the primary key, so an id already stored under another
  namespace is an error, as is a query that fails; under the same namespace it answers false.
   */
  function Marked(db: Db, namespace: string, eventId: string, fails: bool): Option<(Db, bool)> {
    if !db.up then Some((db, true))
    else if fails then None
    else if eventId !in db.processed then Some((db.(processed := db.processed[eventId := namespace]), true))
    else if db.processed[eventId] == namespace then Some((db, false))
    else None
  }

  /** Insert if absent. */
  function WithNullifier(db: Db, nullifier: string, row: Row): Db {
    if db.up && nullifier !in db.nullifiers then db.(nullifiers := db.nullifiers[nullifier := row]) else db
  }

  /** What is stored for one feed is loaded by that feed and by no other; without a database nothing is. */
  lemma CursorStored(db: Db, namespace: string, ledger: nat, other: string)
    ensures LastLedger(WithLedger(db, namespace, ledger), namespace) == if db.up then ledger else 0
    ensures other != namespace ==> LastLedger(WithLedger(db, namespace, ledger), other) == LastLedger(db, other)
    ensures db.ledgers == map[] || !db.up ==> LastLedger(db, namespace) == 0
  {
  }

  /** A mark is made once, and blocks the id for every feed; without a database every id counts as new. */
  lemma MarkedOnce(db: Db, namespace: string, eventId: string, other: string)
    requires eventId !in db.processed
    ensures !db.up ==> Marked(db, namespace, eventId, false) == Some((db, true))
    ensures db.up ==>
            var first := Marked(db, namespace, eventId, false);
            && first == Some((db.(processed := db.processed[eventId := namespace]), true))
            && Marked(first.value.0, other, eventId, false) == if other == namespace then Some((first.value.0, false)) else None
  {
  }

  class Database {
    var connected: bool
    var indexerState: map<string, nat>
    var indexerEvents: map<string, string>
    var nullifiers: map<string, Row>

    constructor (db: Db)
      ensures State() == db
    {
      connected, indexerState, indexerEvents, nullifiers := db.up, db.ledgers, db.processed, db.nullifiers;
    }

    function State(): Db
      reads this
    {
      Db(connected, indexerState, indexerEvents, nullifiers)
    }

    method GetLastLedger(namespace: string) returns (ledger: nat)
      ensures ledger == LastLedger(State(), namespace)
    {
      if !connected {
        return 0;
      }
      ledger := if namespace in indexerState then indexerState[namespace] else 0;
    }

    method SetLastLedger(namespace: string, ledger: nat)
      modifies this
      ensures State() == WithLedger(old(State()), namespace, ledger)
    {
      if !connected {
        return;
      }
      indexerState := indexerState[namespace := ledger];
    }

    method MarkProcessed(namespace: string, eventId: string, fails: bool) returns (r: Option<bool>)
      modifies this
      ensures r.Some? == Marked(old(State()), namespace, eventId, fails).Some?
      ensures r.Some? ==> (State(), r.value) == Marked(old(State()), namespace, eventId, fails).value
      ensures r.None? ==> State() == old(State())
    {
      if !connected {
        return Some(true);
      }
      if fails {
        return None;
      }
      if eventId in indexerEvents {
        return if indexerEvents[eventId] == namespace then Some(false) else None;
      }
      indexerEvents := indexerEvents[eventId := namespace];
      r := Some(true);
    }

    method InsertNullifier(nullifier: string, row: Row)
      modifies this
      ensures State() == WithNullifier(old(State()), nullifier, row)
    {
      if !connected {
        return;
      }
      if nullifier !in nullifiers {
        nullifiers := nullifiers[nullifier := row];
      }
    }
  }
}
