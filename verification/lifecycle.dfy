/**
 * The return-request workflow as transitions on a state of three parts: the
 * table of stored requests, the pool of released ids and the stack of deleted
 * snapshots. Each handler becomes a function from the state before to the
 * state after together with the outcome the caller sees.
 *
 * The repository is a map from primary key to row. A lookup may fail
 * (`readFails`), a write may fail (`writeFails`), and an insert also fails
 * when its primary key is already present.
 */
module Lifecycle {
  import opened Records
  import opened Allocator

  datatype State = State(db: map<int, Retur>, deletedIDs: seq<int>, deleted: seq<Retur>)

  /** What a handler reports: a record, a deleted id, or one of the error kinds. */
  datatype Outcome =
    | Ok(record: Retur)
    | Deleted(id: int)
    | BadRequest
    | NotFound
    | StorageFailure

  datatype Step = Step(state: State, outcome: Outcome)

  /** Every stored record is untouched from `db` to `db'`, except possibly the one at `except`. */
  ghost predicate OthersUnchanged(db: map<int, Retur>, db': map<int, Retur>, except: int)
  {
    forall k :: k in db && k != except ==> k in db' && db'[k] == db[k]
  }

  /**
   * Create: allocate an id (consuming the pool first), force the status to
   * pending and insert. The caller's item, reason and resolution are kept as
   * supplied. The pool is consumed even when the insert fails.
   */
  ghost function CreateRetur(s: State, input: Retur, queryFails: bool, writeFails: bool): (r: Step)
    ensures r.state.deleted == s.deleted
    ensures s.deletedIDs != [] ==> s.deletedIDs == r.state.deletedIDs + [NextId(s.deletedIDs, s.db.Keys, queryFails)]
    ensures s.deletedIDs == [] ==> r.state.deletedIDs == []
    ensures r.outcome.Ok? || r.outcome == StorageFailure
    ensures r.outcome.Ok? <==> !writeFails && NextId(s.deletedIDs, s.db.Keys, queryFails) !in s.db
    ensures r.outcome.Ok? ==>
              var rec := r.outcome.record;
              && rec.id == NextId(s.deletedIDs, s.db.Keys, queryFails)
              && rec.status == Pending
              && rec.barang == input.barang
              && rec.alasan == input.alasan
              && rec.pengembalian == input.pengembalian
              && r.state.db.Keys == s.db.Keys + {rec.id}
              && r.state.db[rec.id] == rec
              && OthersUnchanged(s.db, r.state.db, rec.id)
    ensures r.outcome == StorageFailure ==> r.state.db == s.db
  {
    var id := NextId(s.deletedIDs, s.db.Keys, queryFails);
    var pool := Consume(s.deletedIDs);
    var rec := input.(id := id, status := Pending);
    if writeFails || id in s.db then Step(State(s.db, pool, s.deleted), StorageFailure)
    else Step(State(s.db[id := rec], pool, s.deleted), Ok(rec))
  }

  /**
   * Approve: the resolution is checked before the lookup; a found record gets
   * the approved status and the given resolution.
   */
  function ApproveRetur(s: State, id: int, pengembalian: string, readFails: bool, writeFails: bool): (r: Step)
    ensures !ValidResolution(pengembalian) ==> r == Step(s, BadRequest)
    ensures ValidResolution(pengembalian) && (readFails || id !in s.db) ==> r == Step(s, NotFound)
    ensures ValidResolution(pengembalian) && !readFails && id in s.db && writeFails ==> r == Step(s, StorageFailure)
    ensures r.state.deletedIDs == s.deletedIDs && r.state.deleted == s.deleted
    ensures r.outcome.Ok? <==> ValidResolution(pengembalian) && !readFails && !writeFails && id in s.db
    ensures r.outcome.Ok? ==>
              && id in s.db
              && r.outcome.record == s.db[id].(status := Approved, pengembalian := pengembalian)
              && r.state.db.Keys == s.db.Keys
              && r.state.db[id] == r.outcome.record
              && OthersUnchanged(s.db, r.state.db, id)
    ensures !r.outcome.Ok? ==> r.state == s
  {
    if !ValidResolution(pengembalian) then Step(s, BadRequest)
    else if readFails || id !in s.db then Step(s, NotFound)
    else
      var rec := s.db[id].(pengembalian := pengembalian, status := Approved);
      if writeFails then Step(s, StorageFailure)
      else Step(s.(db := s.db[id := rec]), Ok(rec))
  }

  /** Disapprove: a found record gets the rejected status; its resolution is left as it was. */
  function DisapproveRetur(s: State, id: int, readFails: bool, writeFails: bool): (r: Step)
    ensures readFails || id !in s.db ==> r == Step(s, NotFound)
    ensures !readFails && id in s.db && writeFails ==> r == Step(s, StorageFailure)
    ensures r.state.deletedIDs == s.deletedIDs && r.state.deleted == s.deleted
    ensures r.outcome.Ok? <==> !readFails && !writeFails && id in s.db
    ensures r.outcome.Ok? ==>
              && id in s.db
              && r.outcome.record == s.db[id].(status := Rejected)
              && r.outcome.record.pengembalian == s.db[id].pengembalian
              && r.state.db.Keys == s.db.Keys
              && r.state.db[id] == r.outcome.record
              && OthersUnchanged(s.db, r.state.db, id)
    ensures !r.outcome.Ok? ==> r.state == s
  {
    if readFails || id !in s.db then Step(s, NotFound)
    else
      var rec := s.db[id].(status := Rejected);
      if writeFails then Step(s, StorageFailure)
      else Step(s.(db := s.db[id := rec]), Ok(rec))
  }

  /**
   * Delete: a found record's id is released to the pool and its snapshot is
   * pushed on the stack BEFORE the row is removed, so a failed removal still
   * leaves both changes behind.
   */
  function DeleteRetur(s: State, id: int, readFails: bool, writeFails: bool): (r: Step)
    ensures readFails || id !in s.db ==> r == Step(s, NotFound)
    ensures !readFails && id in s.db && writeFails ==> r.outcome == StorageFailure
    ensures !readFails && id in s.db ==>
              && r.state.deletedIDs == s.deletedIDs + [s.db[id].id]
              && r.state.deleted == s.deleted + [s.db[id]]
    ensures r.outcome.Deleted? <==> !readFails && !writeFails && id in s.db
    ensures r.outcome.Deleted? ==>
              && r.outcome.id == id
              && r.state.db.Keys == s.db.Keys - {id}
              && OthersUnchanged(s.db, r.state.db, id)
    ensures !r.outcome.Deleted? ==> r.state.db == s.db
  {
    if readFails || id !in s.db then Step(s, NotFound)
    else
      var rec := s.db[id];
      var s' := s.(deletedIDs := s.deletedIDs + [rec.id], deleted := s.deleted + [rec]);
      if writeFails then Step(s', StorageFailure)
      else Step(s'.(db := s.db - {id}), Deleted(id))
  }

  /**
   * Undo: pop the most recent snapshot and insert it verbatim under its own
   * id. The pool is not consulted. The snapshot is popped before the insert,
   * so a failed insert loses it.
   */
  function UndoDelete(s: State, writeFails: bool): (r: Step)
    ensures s.deleted == [] ==> r == Step(s, BadRequest)
    ensures s.deleted != [] && !r.outcome.Ok? ==> r.outcome == StorageFailure
    ensures r.state.deletedIDs == s.deletedIDs
    ensures s.deleted != [] ==> s.deleted == r.state.deleted + [s.deleted[|s.deleted| - 1]]
    ensures r.outcome.Ok? <==>
              s.deleted != [] && !writeFails && s.deleted[|s.deleted| - 1].id !in s.db
    ensures r.outcome.Ok? ==>
              var rec := r.outcome.record;
              && s.deleted != []
              && rec == s.deleted[|s.deleted| - 1]
              && r.state.db.Keys == s.db.Keys + {rec.id}
              && r.state.db[rec.id] == rec
              && OthersUnchanged(s.db, r.state.db, rec.id)
    ensures !r.outcome.Ok? ==> r.state.db == s.db
  {
    if s.deleted == [] then Step(s, BadRequest)
    else
      var item := s.deleted[|s.deleted| - 1];
      var s' := s.(deleted := s.deleted[..|s.deleted| - 1]);
      if writeFails || item.id in s.db then Step(s', StorageFailure)
      else Step(s'.(db := s.db[item.id := item]), Ok(item))
  }
}
