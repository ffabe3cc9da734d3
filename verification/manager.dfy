/**
 * The request handlers over the process-wide state: the table, the pool of
 * released ids and the stack of deleted snapshots. Each handler updates that
 * state in place; its contract ties the new state and the outcome to the
 * matching transition of `Lifecycle`.
 */
module Manager {
  import opened Records
  import opened Stacks
  import opened Allocator
  import opened Lifecycle

  class ReturManager {
    var db: map<int, Retur>
    var deletedIDs: seq<int>
    const deletedStack: Stack<Retur>

    ghost predicate Valid()
      reads this
    {
      Keyed(db)
    }

    /** The abstract state the handlers act on. */
    ghost function Current(): State
      reads this, deletedStack
    {
      State(db, deletedIDs, deletedStack.items)
    }

    /** Process start: the table as it already is, an empty pool and an empty stack. */
    constructor (table: map<int, Retur>)
      requires Keyed(table)
      ensures Valid() && fresh(deletedStack)
      ensures Current() == State(table, [], [])
    {
      db := table;
      deletedIDs := [];
      deletedStack := new Stack<Retur>();
    }

    method Create(input: Retur, queryFails: bool, writeFails: bool) returns (out: Outcome)
      requires Valid()
      modifies this
      ensures Valid()
      ensures Step(Current(), out) == CreateRetur(old(Current()), input, queryFails, writeFails)
    {
      var rec := input;
      if |deletedIDs| > 0 {
        rec := rec.(id := deletedIDs[|deletedIDs| - 1]);
        deletedIDs := deletedIDs[..|deletedIDs| - 1];
      } else if db.Keys != {} && !queryFails {
        ghost var top := MaxOf(db.Keys);
        var last :| last in db && forall k :: k in db ==> k <= last;
        assert last == top;
        rec := rec.(id := last + 1);
      } else {
        rec := rec.(id := 1);
      }
      rec := rec.(status := Pending);
      if writeFails || rec.id in db {
        return StorageFailure;
      }
      db := db[rec.id := rec];
      out := Ok(rec);
    }

    method Approve(id: int, pengembalian: string, readFails: bool, writeFails: bool) returns (out: Outcome)
      requires Valid()
      modifies this
      ensures Valid()
      ensures Step(Current(), out) == ApproveRetur(old(Current()), id, pengembalian, readFails, writeFails)
    {
      if pengembalian != ResolutionItem && pengembalian != ResolutionMoney {
        return BadRequest;
      }
      if readFails || id !in db {
        return NotFound;
      }
      var retur := db[id];
      retur := retur.(pengembalian := pengembalian);
      retur := retur.(status := Approved);
      if writeFails {
        return StorageFailure;
      }
      db := db[retur.id := retur];
      out := Ok(retur);
    }

    method Disapprove(id: int, readFails: bool, writeFails: bool) returns (out: Outcome)
      requires Valid()
      modifies this
      ensures Valid()
      ensures Step(Current(), out) == DisapproveRetur(old(Current()), id, readFails, writeFails)
    {
      if readFails || id !in db {
        return NotFound;
      }
      var retur := db[id];
      retur := retur.(status := Rejected);
      if writeFails {
        return StorageFailure;
      }
      db := db[retur.id := retur];
      out := Ok(retur);
    }

    method Delete(id: int, readFails: bool, writeFails: bool) returns (out: Outcome)
      requires Valid()
      modifies this, deletedStack
      ensures Valid()
      ensures Step(Current(), out) == DeleteRetur(old(Current()), id, readFails, writeFails)
    {
      if readFails || id !in db {
        return NotFound;
      }
      var retur := db[id];
      deletedIDs := deletedIDs + [retur.id];
      deletedStack.Push(retur);
      if writeFails {
        return StorageFailure;
      }
      db := db - {retur.id};
      out := Deleted(id);
    }

    method Undo(writeFails: bool) returns (out: Outcome)
      requires Valid()
      modifies this, deletedStack
      ensures Valid()
      ensures Step(Current(), out) == UndoDelete(old(Current()), writeFails)
    {
      if deletedStack.IsEmpty() {
        return BadRequest;
      }
      var item, _ := deletedStack.Pop();
      if writeFails || item.id in db {
        return StorageFailure;
      }
      db := db[item.id := item];
      out := Ok(item);
    }
  }
}
