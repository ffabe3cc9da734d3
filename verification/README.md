# Return-request manager (retur), modelled in Dafny

The `retur` service records requests to return merchandise (`Retur`: an id, the item
`barang`, the reason `alasan`, a `status` and a resolution `pengembalian`). It moves
them through a small workflow:

- create sets the status to "Dalam Proses" (pending);
- approve sets it to "Disetujui" and stores the resolution "barang" (replacement) or "uang" (refund);
- disapprove sets it to "Tidak Disetujui".

Delete can be undone. Each deleted row's full snapshot goes onto an in-memory stack, and
its id goes into a pool of released ids. Create takes ids from that pool, most recently
released first, before it mints max + 1.

The model has these modules:

- `Records`: the row type, the status and resolution literals, and the invariant that the
  table is keyed by each row's own id.
- `Stacks`: the generic slice-backed `Stack` class with `Push`, `Pop` and `IsEmpty`.
- `Allocator`: the id rule. `MaxOf` is the table's largest id. `NextId` is the id create
  assigns. `Consume` is the pool after an allocation.
- `Lifecycle`: every handler as a function from the state before to the state after and
  the outcome. The state is the table (`map<int, Retur>`), the pool (`seq<int>`) and the
  stack contents (`seq<Retur>`). The outcome is `Ok`, `Deleted`, `BadRequest`, `NotFound`
  or `StorageFailure`.
- `Manager`: the class `ReturManager`. It holds the table, the pool and the stack object,
  and has one method per handler that updates them in place. Each method is proved to do
  exactly what the matching `Lifecycle` function says.
- `Properties`: lemmas that relate several handlers.

The repository is a map from primary key to row, with these rules:

- A lookup (`db.First`) may fail. The handlers report every lookup failure as NotFound.
  This is the `readFails` input.
- A write (`Save`, `Delete`, `Create`) may fail. This is the `writeFails` input.
- An insert also fails when its key is already present, because `id` is the table's
  primary key.
- The "largest id" query (`Order("id desc").First`) may fail. The source then uses id 1,
  the same as for an empty table. This is the `queryFails` input.

Three behaviours a reader might not expect:

- Create does not clear the resolution: it keeps whatever the caller sent and only
  overwrites the status (main.go:114).
- Delete adds the id to the pool and pushes the snapshot before it removes the row
  (main.go:197-199), so a failed removal still leaves both changes.
- Undo pops before it inserts (main.go:213-214), so a failed insert loses the snapshot.

The accepted resolutions are the literals "barang" and "uang"; the predicate
`Records.ValidResolution` is that check (main.go:139) and is stated through
`Lifecycle.ApproveRetur`'s contract. An empty undo stack gets the same 400 answer as a bad
resolution (`BadRequest`); every failed write answers `StorageFailure`.

Undo leaves the restored id in the pool. Two lemmas show the hazard this creates:

- `Properties.CreateAfterUndoCollides`: after delete and undo, the next create is handed
  the live id. Its insert fails, and the pooled id is used up anyway.
- `Properties.UndoAfterReuseLosesSnapshot`: if a create reuses the id between a delete and
  its undo, the undo fails and its snapshot is lost.

## Model

| member | source | states |
|---|---|---|
| Stacks.Stack.constructor | main.go:54-58 | a fresh stack (the zero-value global) is empty |
| Stacks.Stack.Push | main.go:32-34 | the item is appended at the top; the items below are unchanged |
| Stacks.Stack.Pop | main.go:38-46 | on an empty stack, reports false and leaves the stack unchanged; otherwise returns the last pushed item and removes exactly that item |
| Stacks.Stack.IsEmpty | main.go:49-51 | true exactly when the stack holds no items |
| Stacks.PushThenPop | main.go:32-46 | Push then Pop returns the pushed item with true and restores the previous contents (LIFO round trip) |
| Allocator.MaxOf | main.go:106-108 | the largest id is stored in the table, and no stored id exceeds it |
| Allocator.NextId | main.go:101-112 | with a non-empty pool, the new id is the last released one; otherwise it is one above the largest stored id (so it is fresh); or 1 when the table is empty or the max-id query fails |
| Allocator.Consume | main.go:102-104 | allocation removes exactly the last pooled id and nothing else |
| Lifecycle.CreateRetur | main.go:101-119 | the pool shrinks by exactly the allocated id, even when the insert fails; success means no write fault and a free id; the new record has that id, status "Dalam Proses", and the caller's item, reason and resolution; no other stored record changes; the stack is untouched |
| Lifecycle.ApproveRetur | main.go:139-156 | a resolution other than "barang"/"uang" gives BadRequest with nothing changed, even for a missing id; a missing id gives NotFound with nothing changed; a failed save gives StorageFailure with nothing changed; success changes only that record's status (to "Disetujui") and resolution; pool and stack are untouched |
| Lifecycle.DisapproveRetur | main.go:168-179 | a missing id gives NotFound with nothing changed; a failed save gives StorageFailure with nothing changed; success sets only the status to "Tidak Disetujui" and keeps the resolution; no other record, nor the pool or stack, changes |
| Lifecycle.DeleteRetur | main.go:191-203 | a missing id gives NotFound with nothing changed; an existing id is appended to the pool and its exact snapshot is pushed, even if the removal then fails, which answers StorageFailure; success removes exactly that key and leaves every other record |
| Lifecycle.UndoDelete | main.go:208-218 | an empty stack gives BadRequest with nothing changed; otherwise the top snapshot is popped, even if the insert fails, which answers StorageFailure; success re-inserts it verbatim under its own id; the pool is never touched |
| Manager.ReturManager.constructor | main.go:54-58 | the handlers start with the existing table, an empty pool and an empty stack |
| Manager.ReturManager.Create | main.go:94-120 | the in-place update and the outcome are exactly Lifecycle.CreateRetur's; the table stays keyed by record id |
| Manager.ReturManager.Approve | main.go:123-157 | the in-place update and the outcome are exactly Lifecycle.ApproveRetur's; the table stays keyed by record id |
| Manager.ReturManager.Disapprove | main.go:160-180 | the in-place update and the outcome are exactly Lifecycle.DisapproveRetur's; the table stays keyed by record id |
| Manager.ReturManager.Delete | main.go:183-204 | the in-place update of the table, the pool and the stack object, and the outcome, are exactly Lifecycle.DeleteRetur's |
| Manager.ReturManager.Undo | main.go:207-219 | the in-place update of the table and the stack object, and the outcome, are exactly Lifecycle.UndoDelete's |
| Properties.DeleteThenUndoRestores | main.go:197-214 | delete then undo gives back the deleted record verbatim; the table and stack return to their original contents; the id stays pooled |
| Properties.UndoRestoresLastDeletedFirst | main.go:197-214 | after deleting a then b, the first undo restores b and the second restores a, and the table is as before |
| Properties.CreateReusesDeletedId | main.go:101-104 | delete then create gives the new record the deleted id and returns the pool to what it was |
| Properties.CreateReusesMostRecentlyFreed | main.go:101-104 | after deleting a then b, create assigns b (not a, not max + 1), and a stays pooled |
| Properties.CreateAfterUndoCollides | main.go:101-115 | after delete and undo, the pool hands out the id of a live record; create fails on the duplicate key and still consumes that id |
| Properties.UndoAfterReuseLosesSnapshot | main.go:101-115 | a create between a delete and its undo takes over the id; the undo then fails and the snapshot is gone from the stack |
| Properties.FreshTableWalkthrough | main.go:101-119 | from an empty table, two creates get ids 1 and 2; after deleting 1, the next create gets 1 again and record 2 is untouched |

## Left out

- HTTP routing, JSON responses and error bodies (`respondJSON`, `handleError`, `main`, main.go:72-81, 222-235): outcomes are a datatype, not status codes.
- Decoding of request bodies and parsing of the `{id}` path segment (main.go:96, 125-137, 162-166, 185-189): the handlers take parsed arguments, and a malformed body or id is the caller's BadRequest before any state is read.
- Listing all returns (`getReturs`, main.go:84-91): a read-only query whose order is chosen by the database; it changes no state.
- The MySQL connection, migration and gorm (`initDB`, main.go:61-69): replaced by the map-based repository described above, with faults as boolean inputs.
- gorm inserts a row whose primary key is 0 under an auto-increment id. The model always keys the row by its own id. That differs only if a stored id is -1 or 0 was pooled, which cannot happen when every stored id is positive.
- Go's `int` is 64 bits wide, and "largest id + 1" could wrap around. The model uses unbounded integers.
- Concurrency: the globals are shared between `net/http` handler goroutines without a lock. The model is sequential, one handler at a time.
- Stacks.Stack.Pop: on an empty stack it does not state which item is returned. Go returns the zero value of the element type, which a generic contract cannot name.
