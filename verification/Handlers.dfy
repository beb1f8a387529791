/** Handling an event: mark it, then insert its nullifier if absent. */
module Handlers {
  import opened Options
  import opened Database
  import opened EventSource

  /** The nullifier of an event; empty when it carries none. */
  function NullifierOf(e: Event): string { if |e.topics| > 1 then e.topics[1] else "" }

  /** What a handler stores beside a nullifier. */
  function RowOf(retirement: bool, e: Event): Row {
    Row(if !retirement then Some("compliance") else if |e.topics| > 3 then Some(e.topics[3]) else None, e.txHash)
  }

  /** Which query fails while an event is handled. */
  datatype Fault = NoFault | MarkFails | InsertFails

  /** The database after handling an event; none when the handler throws. */
  function Handled(db: Db, namespace: string, row: Row, e: Event, fault: Fault): Option<Db> {
    if NullifierOf(e) == "" then Some(db)
    else match Marked(db, namespace, e.id, fault.MarkFails?)
      case None => None
      case Some((marked, false)) => Some(marked)
      case Some((marked, true)) => Some(if fault.InsertFails? then marked else WithNullifier(marked, NullifierOf(e), row))
  }

  /**
  A new event that carries a nullifier, its second topic, leaves that nullifier in the table:
  with the event's row, unless it was there before; every other key and every row that was
  there stays.
   */
  lemma EventStores(db: Db, namespace: string, row: Row, e: Event)
    requires db.up && e.id !in db.processed && |e.topics| > 1 && e.topics[1] != ""
    ensures var after := Handled(db, namespace, row, e, NoFault);
            && after.Some?
            && after.value.processed == db.processed[e.id := namespace]
            && e.topics[1] in after.value.nullifiers
            && (e.topics[1] !in db.nullifiers ==> after.value.nullifiers[e.topics[1]] == row)
            && (forall n | n in db.nullifiers :: n in after.value.nullifiers && after.value.nullifiers[n] == db.nullifiers[n])
            && (forall n | n in after.value.nullifiers :: n in db.nullifiers || n == e.topics[1])
            && after.value.ledgers == db.ledgers && after.value.up
  {
  }

  /** An event without a second topic, or with an empty one, changes nothing, whatever fails. */
  lemma EventSkipped(db: Db, namespace: string, row: Row, e: Event, fault: Fault)
    requires |e.topics| <= 1 || e.topics[1] == ""
    ensures Handled(db, namespace, row, e, fault) == Some(db)
  {
  }

  /**
  Nothing is stored for an event that carries a nullifier when there is no database, when it was
  handled before, or when a query fails; an id marked by another feed and a failing mark throw,
  and a failing insert leaves the mark.
   */
  lemma EventNotStored(db: Db, namespace: string, row: Row, e: Event, fault: Fault)
    requires |e.topics| > 1 && e.topics[1] != ""
    ensures var after := Handled(db, namespace, row, e, fault);
            && (!db.up ==> after == Some(db))
            && (db.up && fault.MarkFails? ==> after == None)
            && (db.up && !fault.MarkFails? && e.id in db.processed ==>
                  after == if db.processed[e.id] == namespace then Some(db) else None)
            && (db.up && fault.InsertFails? && e.id !in db.processed ==>
                  after == Some(db.(processed := db.processed[e.id := namespace])))
  {
  }

  class NullifierHandler {
    const db: Database

    constructor (db: Database)
      ensures this.db == db
    {
      this.db := db;
    }

    /** false when it throws. */
    method Handle(event: Event, fault: Fault) returns (ok: bool)
      modifies db
      ensures ok == Handled(old(db.State()), "nullifier", RowOf(false, event), event, fault).Some?
      ensures ok ==> Some(db.State()) == Handled(old(db.State()), "nullifier", RowOf(false, event), event, fault)
      ensures |event.topics| <= 1 || event.topics[1] == "" ==> ok && db.State() == old(db.State())
      ensures
        var was := old(db.State());
        was.up && fault.NoFault? && event.id !in was.processed && |event.topics| > 1 && event.topics[1] != "" ==>
          && ok
          && db.State() == was.(
               processed := was.processed[event.id := "nullifier"],
               nullifiers := if event.topics[1] in was.nullifiers then was.nullifiers
                             else was.nullifiers[event.topics[1] := Row(Some("compliance"), event.txHash)])
    {
      var nullifier := if |event.topics| > 1 then event.topics[1] else "";
      if nullifier == "" {
        return true;
      }
      var marked := db.MarkProcessed("nullifier", event.id, fault.MarkFails?);
      if marked.None? {
        return false;
      }
      if !marked.value {
        return true;
      }
      if !fault.InsertFails? {
        db.InsertNullifier(nullifier, Row(Some("compliance"), event.txHash));
      }
      ok := true;
    }
  }

  class RetirementHandler {
    const db: Database

    constructor (db: Database)
      ensures this.db == db
    {
      this.db := db;
    }

    /**
    false when it throws.  The certificate statement after the nullifier's has two conflict
    clauses, which no database accepts; its error is caught, so it changes nothing.
     */
    method Handle(event: Event, fault: Fault) returns (ok: bool)
      modifies db
      ensures ok == Handled(old(db.State()), "retirement", RowOf(true, event), event, fault).Some?
      ensures ok ==> Some(db.State()) == Handled(old(db.State()), "retirement", RowOf(true, event), event, fault)
      ensures |event.topics| <= 1 || event.topics[1] == "" ==> ok && db.State() == old(db.State())
      ensures
        var was := old(db.State());
        was.up && fault.NoFault? && event.id !in was.processed && |event.topics| > 1 && event.topics[1] != "" ==>
          && ok
          && db.State() == was.(
               processed := was.processed[event.id := "retirement"],
               nullifiers := if event.topics[1] in was.nullifiers then was.nullifiers
                             else was.nullifiers[event.topics[1] := Row(if |event.topics| > 3 then Some(event.topics[3]) else None, event.txHash)])
    {
      var nullifier := if |event.topics| > 1 then event.topics[1] else "";
      if nullifier == "" {
        return true;
      }
      var marked := db.MarkProcessed("retirement", event.id, fault.MarkFails?);
      if marked.None? {
        return false;
      }
      if !marked.value {
        return true;
      }
      var corridorId := if |event.topics| > 3 then Some(event.topics[3]) else None;
      if !fault.InsertFails? {
        db.InsertNullifier(nullifier, Row(corridorId, event.txHash));
      }
      ok := true;
    }
  }
}
