/**
 * Properties that relate several handlers: undo after delete, the order in
 * which undo restores and create reuses ids, and the window in which a
 * released id still sits in the pool while its record is live again.
 */
module Properties {
  import opened Records
  import opened Allocator
  import opened Lifecycle

  /** Delete then undo, with no fault in between, gives back the table and the stack. */
  lemma DeleteThenUndoRestores(s: State, id: int)
    requires Keyed(s.db) && id in s.db
    ensures var d := DeleteRetur(s, id, false, false);
            var u := UndoDelete(d.state, false);
            && u.outcome == Ok(s.db[id])
            && u.state.db == s.db
            && u.state.deleted == s.deleted
            && u.state.deletedIDs == s.deletedIDs + [id]
  {
  }

  /** Delete `a` then `b`: the first undo restores `b`, the second restores `a`. */
  lemma UndoRestoresLastDeletedFirst(s: State, a: int, b: int)
    requires Keyed(s.db) && a in s.db && b in s.db && a != b
    ensures var d1 := DeleteRetur(s, a, false, false);
            var d2 := DeleteRetur(d1.state, b, false, false);
            var u1 := UndoDelete(d2.state, false);
            var u2 := UndoDelete(u1.state, false);
            && u1.outcome == Ok(s.db[b])
            && u2.outcome == Ok(s.db[a])
            && u2.state.db == s.db
            && u2.state.deleted == s.deleted
  {
  }

  /** Delete then create, with no fault in between, hands the deleted id to the new record. */
  lemma CreateReusesDeletedId(s: State, id: int, input: Retur, queryFails: bool)
    requires Keyed(s.db) && id in s.db
    ensures var d := DeleteRetur(s, id, false, false);
            var c := CreateRetur(d.state, input, queryFails, false);
            && c.outcome == Ok(input.(id := id, status := Pending))
            && c.state.deletedIDs == s.deletedIDs
  {
  }

  /** Delete `a` then `b`, then create: the new record gets `b`, and `a` stays pooled. */
  lemma CreateReusesMostRecentlyFreed(s: State, a: int, b: int, input: Retur, queryFails: bool)
    requires Keyed(s.db) && a in s.db && b in s.db && a != b
    ensures var d1 := DeleteRetur(s, a, false, false);
            var d2 := DeleteRetur(d1.state, b, false, false);
            var c := CreateRetur(d2.state, input, queryFails, false);
            && c.outcome == Ok(input.(id := b, status := Pending))
            && c.state.deletedIDs == s.deletedIDs + [a]
  {
  }

  /**
   * Undo does not take the id back out of the pool, so the next create is
   * handed the id of the record undo just restored. The insert then fails on
   * the duplicate key, and the pooled id is used up all the same.
   */
  lemma CreateAfterUndoCollides(s: State, id: int, input: Retur, queryFails: bool)
    requires Keyed(s.db) && id in s.db
    ensures var d := DeleteRetur(s, id, false, false);
            var u := UndoDelete(d.state, false);
            var c := CreateRetur(u.state, input, queryFails, false);
            && u.state.deletedIDs == s.deletedIDs + [id]
            && NextId(u.state.deletedIDs, u.state.db.Keys, queryFails) == id
            && id in u.state.db
            && c.outcome == StorageFailure
            && c.state == s
  {
  }

  /**
   * Create between a delete and its undo takes over the deleted id; the undo
   * then fails on the duplicate key and the snapshot it popped is lost.
   */
  lemma UndoAfterReuseLosesSnapshot(s: State, id: int, input: Retur, queryFails: bool)
    requires Keyed(s.db) && id in s.db
    ensures var d := DeleteRetur(s, id, false, false);
            var c := CreateRetur(d.state, input, queryFails, false);
            var u := UndoDelete(c.state, false);
            && c.outcome == Ok(input.(id := id, status := Pending))
            && u.outcome == StorageFailure
            && u.state.deleted == s.deleted
            && u.state.db == c.state.db
            && id in u.state.db && u.state.db[id] == input.(id := id, status := Pending)
  {
  }

  /**
   * From an empty table: "laptop" gets id 1, "phone" gets id 2; after
   * deleting 1, "tablet" gets id 1 again and the phone record is untouched.
   */
  lemma FreshTableWalkthrough()
    ensures var s0 := State(map[], [], []);
            var laptop := Retur(0, "laptop", "damaged", "", "");
            var phone := Retur(0, "phone", "damaged", "", "");
            var tablet := Retur(0, "tablet", "scratch", "", "");
            var c1 := CreateRetur(s0, laptop, false, false);
            var c2 := CreateRetur(c1.state, phone, false, false);
            var d := DeleteRetur(c2.state, 1, false, false);
            var c3 := CreateRetur(d.state, tablet, false, false);
            && c1.outcome == Ok(laptop.(id := 1, status := Pending))
            && c2.outcome == Ok(phone.(id := 2, status := Pending))
            && d.outcome == Deleted(1)
            && NextId(d.state.deletedIDs, d.state.db.Keys, false) == 1
            && c3.outcome == Ok(tablet.(id := 1, status := Pending))
            && c3.state.db == map[1 := tablet.(id := 1, status := Pending), 2 := phone.(id := 2, status := Pending)]
  {
  }
}
