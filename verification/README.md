# One-time secrets: expiry scheduler and request rules

A model, in Dafny, of the core of a one-time secret sharing service. A user
stores a text or a file under a password with an expiry of at most seven
days; the first correct view reveals it and deletes it, and a background
scheduler purges secrets whose deadline has passed. The model covers:

- `SecretHeap` (`heap.dfy`): the Go `SecretHeap` slice of items ordered by
  deadline, its `heap.Interface` methods (`Swap`, `Push`, `Pop`) and the
  `container/heap` algorithms that drive them (`up`, `down`, `Push`, `Pop`,
  `Remove`). Each item records its own slot in `index`; the model keeps
  that field and proves it stays correct.
- `Scheduler` (`scheduler.dfy`): the `SecretScheduler`, which is the heap
  plus the `indexMap` from id to item. Its operations are `AddSecret` and
  `RemoveSecret`, the sweep of the scheduler loop that pops and purges
  every due secret, and `LoadPendingSecrets`, which rebuilds the schedule
  from storage after a restart. Storage is a map from id to `expires_at`
  holding the rows that have not been purged.
- `Handlers` (`handlers.dfy`): the rules of the create handlers (JSON
  `createSecretHandler` and form `sharePageHandler`) and the view handlers
  (`viewSecretHandler` and `submitViewPageHandler`). Covered are the
  validation chain with its limits, the status and message of every
  refusal, the deadline of an accepted secret, and what a view does to
  storage and to the schedule.
- `Monitor` (`monitor.dfy`): the unit `formatBytes` picks for a byte count.

Go's `indexMap` holds pointers to heap items. Ids are unique in the heap,
so a pointer is modelled by the id it leads to: following it is
`Scheduler.Locate`, and the slot `RemoveSecret` hands to `heap.Remove` is
the located item's `index` field. The scheduler invariant `Scheduler.Valid`
has four parts:

- the heap order holds;
- every item's `index` is its slot;
- each id appears once;
- the index holds exactly the ids in the heap.

Time is an integer count of nanoseconds. A Go `time.Time` comparison
`a.Before(b)` is `a < b`.

## Model

| member | source | states |
|---|---|---|
| SecretHeap.Parent | backend/pkg/heap/main_heap.go:22-23 | The parent slot of a heap slot, with Go's truncating division: the root is its own parent, and every other slot is one of its parent's two children and lies after it. |
| SecretHeap.Records | backend/pkg/heap/main_heap.go:14-20 | Definition, not a proved property: the abstraction from the slice of items to its (id, deadline) records, slot by slot, dropping `index`. The heap contracts below are stated over it. |
| SecretHeap.Less | backend/pkg/heap/main_heap.go:23 | Definition: slot `i` is less than slot `j` when its deadline is strictly before `j`'s, as `ExpiresAt.Before` is. |
| SecretHeap.Append | backend/pkg/heap/main_heap.go:30-34 | The type's `Push`: the old entries are kept in place, and the new entry goes last, stamped with `index` equal to the old length. |
| SecretHeap.Detach | backend/pkg/heap/main_heap.go:36-44 | The type's `Pop`: it needs a non-empty slice. The last entry is returned with `index` -1, and the slice shrinks by one with every other entry unchanged. |
| SecretHeap.Swap | backend/pkg/heap/main_heap.go:24-28 | The type's `Swap` exchanges the two entries and stamps each with its new slot; every other slot is unchanged. |
| SecretHeap.SwapContents | backend/pkg/heap/main_heap.go:24-28 | Swapping two slots keeps the multiset of records the heap holds. |
| SecretHeap.SwapSlotted | backend/pkg/heap/main_heap.go:24-28 | Swapping two slots restamps both items, so every item's `index` stays equal to its slot. |
| SecretHeap.SwapInvolution | backend/pkg/heap/main_heap.go:24-28 | Swapping the same two slots twice restores a heap whose `index` fields are correct. |
| SecretHeap.DetachAppend | backend/pkg/heap/main_heap.go:30-44 | The type's `Pop` undoes its `Push`: it gives back the same slice and the pushed item, now marked with index -1. |
| SecretHeap.AppendDetach | backend/pkg/heap/main_heap.go:30-44 | The type's `Push` undoes its `Pop` on a slice whose `index` fields are correct. |
| SecretHeap.RootIsMin | backend/pkg/heap/main_heap.go:22-23 | In a heap ordered by `Less`, no deadline is earlier than the root's. |
| SecretHeap.RootIsMinAll | backend/pkg/heap/main_heap.go:106-108 | The item the scheduler loop reads at slot 0 has the earliest deadline in the heap. |
| SecretHeap.SiftUp | backend/pkg/heap/main_heap.go:22-28 | `container/heap`'s `up`: an entry that may be earlier than its parent is moved up until the prefix is a heap again. The records are kept and the `index` fields stay correct. |
| SecretHeap.SiftDown | backend/pkg/heap/main_heap.go:22-28 | `container/heap`'s `down`: an entry that may be later than its children is moved down. The records are kept. If it moved, the prefix is a heap; if not, only the edge to its parent can still be out of order. |
| SecretHeap.DownOnce | backend/pkg/heap/main_heap.go:22-28 | One round of `down`. Either the entry is no later than its earlier child, so sifting stops with the entry in place. Or it is swapped with the child `Sink` picks and moves one level deeper. |
| SecretHeap.Push | backend/pkg/heap/main_heap.go:30-34 | `heap.Push`: the result is a heap holding the old records plus the pushed one. It is one item longer and its `index` fields stay correct. |
| SecretHeap.PopMin | backend/pkg/heap/main_heap.go:36-44 | `heap.Pop`: returns an item with the earliest deadline, marked with index -1. The rest is still a heap, one item shorter, holding every other record, with correct `index` fields. |
| SecretHeap.Remove | backend/pkg/heap/main_heap.go:36-44 | `heap.Remove(h, i)`: returns the item that was at slot `i`, marked with index -1. The rest is a heap holding every other record, with correct `index` fields. |
| SecretHeap.Reposition | backend/pkg/heap/main_heap.go:24-28 | The first half of `heap.Remove`: the item at slot `i` is moved to the last slot and the rest is reordered into a heap. The records and the `index` fields are kept. |
| Scheduler.Locate | backend/pkg/heap/main_heap.go:53 | Following the index entry of a scheduled id leads to a heap item with that id. |
| Scheduler.LocateSlot | backend/pkg/heap/main_heap.go:87-92 | The item an index entry leads to sits at the slot its own `index` field names, so `heap.Remove` gets the right slot. |
| Scheduler.DeadlineIsRecord | backend/pkg/heap/main_heap.go:53 | A scheduled id has exactly one deadline in the heap. |
| Scheduler.NewScheduler | backend/pkg/heap/main_heap.go:56-65 | A new scheduler is valid, with an empty heap and an empty index. |
| Scheduler.AddSecret | backend/pkg/heap/main_heap.go:68-80 | Scheduling an id that is already scheduled changes nothing. Otherwise the id joins the index, its record joins the heap, and its deadline is the one given. The invariant is kept. |
| Scheduler.RemoveSecret | backend/pkg/heap/main_heap.go:83-94 | Cancelling an unknown id changes nothing. Otherwise the id leaves the index and exactly its record leaves the heap; every other id keeps its record. The invariant is kept. |
| Scheduler.Purge | backend/pkg/heap/main_heap.go:129-142 | Definition of the storage operation `purge(id)` that the sweep's delete stands for: the id has no row afterwards and every other row is as it was. |
| Scheduler.Sweep | backend/pkg/heap/main_heap.go:119-143 | The sweep pops exactly the records due by `now`, in deadline order. Every record left is later than `now`. Every unexpired record stays. The popped ids leave the index, and their rows are purged unless the purge fails. |
| Scheduler.ExpireFirst | backend/pkg/heap/main_heap.go:120-122 | One pass of the sweep pops a due earliest record, appends it after the earlier ones and keeps the sweep's invariant. |
| Scheduler.RowsAfter | backend/pkg/heap/main_heap.go:162-175 | Definition of the two storage queries: the rows a purge of `expires_at <= t` leaves, which are also the rows a listing of `expires_at > t` returns. Those are the rows later than `t`, each with its deadline. |
| Scheduler.ListedMembers | backend/pkg/heap/main_heap.go:174-181 | A record is among those scheduled from a listing exactly when its id is listed with that deadline. |
| Scheduler.ScheduleAll | backend/pkg/heap/main_heap.go:179-181 | `AddSecret` over every listed row: every listed id joins the index, and exactly the records of listed ids that were not scheduled before join the heap. |
| Scheduler.LoadPendingAsWritten | backend/pkg/heap/main_heap.go:152-183 | The load as written, with two clock readings. An error from either storage step is returned and stops the load. On success the listed ids join the index. Each listed row whose id was not already scheduled enters the heap with its own `expires_at`, and nothing else enters. A row whose deadline falls between the two readings is neither purged nor scheduled. |
| Scheduler.LoadPending | backend/pkg/heap/main_heap.go:152-183 | The load with one clock reading. Exactly the rows later than `now` survive, with their deadlines. Every surviving row's id is scheduled. A surviving row whose id was not already scheduled enters the heap with its own deadline; an id already scheduled keeps the record it had. Nothing else enters the heap, so nothing already due is added. |
| Handlers.Fails | backend/pkg/routes/handlers.go:83-154 | Definition of each check's rejection condition: no text and no file; text or file over 10 MB; expiry unparsable or at most 0; expiry over 10080; password empty, under 6 or over 72 bytes. The page handler has the same conditions at lines 406-429. |
| Handlers.MessagesDistinct | backend/pkg/routes/handlers.go:406-429 | Each check's refusal message is different from every other check's, so a refusal names the check that rejected. |
| Handlers.FirstFailure | backend/pkg/routes/handlers.go:83-154 | The check the chain reports rejects the request and is one of the chain's checks. |
| Handlers.FirstFailureIsFirst | backend/pkg/routes/handlers.go:406-429 | The chain reports a check exactly when that check rejects and every earlier one passes; it reports nothing exactly when every check passes. |
| Handlers.FirstFailureAppend | backend/pkg/routes/handlers.go:83-154 | Running one stretch of checks and then another reports what running them as one chain reports. |
| Handlers.ChecksSplit | backend/pkg/routes/handlers.go:83-154 | The JSON handler's split of the chain around its storage work reports the same check as the whole chain. |
| Handlers.PassingRequest | backend/pkg/routes/handlers.go:25-30 | A request no check rejects has text or a file, both within 10 MB, an expiry of 1 to 10080 minutes and a password of 6 to 72 bytes. |
| Handlers.Deadline | backend/pkg/routes/handlers.go:171 | An accepted secret expires a whole number of minutes after its creation: at least one minute and at most seven days. |
| Handlers.CreateApi | backend/pkg/routes/handlers.go:33-192 | The JSON handler as written. It creates a secret only when no check rejects, with the requested deadline. Every refusal is a 400 or a 500. |
| Handlers.CreateApiValidated | backend/pkg/routes/handlers.go:33-192 | The JSON handler with its checks first. It creates only requests no check rejects, with the requested deadline. Nothing is uploaded for a request some check rejects. |
| Handlers.CreatePage | backend/pkg/routes/handlers.go:369-490 | The page handler. It creates only requests no check rejects, with the requested deadline. Nothing is uploaded for a request some check rejects. |
| Handlers.CreateDecision | backend/pkg/routes/handlers.go:83-154 | When no collaborator fails, all three create paths accept exactly the requests no check rejects. Otherwise each answers 400 with the message of the first check that rejects. |
| Handlers.OrphanedUpload | backend/pkg/routes/handlers.go:108-129 | For a file request with a 0-minute expiry, the JSON handler as written answers 400 after the file was uploaded. The reordered handler uploads nothing. |
| Handlers.ReorderOnlyMovesRejections | backend/pkg/routes/handlers.go:96-192 | On a request no check rejects, the JSON handler as written and the reordered one give the same result. |
| Handlers.CreateSecret | backend/pkg/routes/handlers.go:162-180 | The reply is the page handler's or, for the JSON path, the handler's as written. An accepted request inserts its row under the new id and schedules that id: a new id gets exactly one more record, carrying the row's deadline. A refused request changes neither storage nor the schedule. The scheduler invariant is kept. |
| Handlers.Decide | backend/pkg/routes/handlers.go:195-295 | A view reveals the secret exactly when every step passes: valid id, live row, parsed body (JSON handler only), a correct password, a deadline not passed and working decryption. It says "expired" exactly when the password is right and the deadline has passed, and "wrong password" exactly when the password is given and wrong. A deleted row is not found. |
| Handlers.Status | backend/pkg/routes/handlers.go:508-589 | Only a reveal answers 200; 404, 401 and 410 each answer exactly one verdict (not found, wrong password, expired). |
| Handlers.LookupIn | backend/pkg/routes/handlers.go:210-219 | The lookup finds a row exactly when storage holds one and the query does not fail, and it reports "no row" exactly when storage holds none. A found row carries the stored deadline and is live. |
| Handlers.ViewSecret | backend/pkg/routes/handlers.go:251-312 | The verdict is `Decide`'s on the stored row. A reveal cancels the id, and every other id keeps its deadline. After a reveal, and for an expired secret, the row is deleted unless the delete fails; a failed delete leaves it in storage. An expired secret stays scheduled. Every other verdict changes nothing, and an id with no row is not found. |
| Handlers.ViewedOnce | backend/pkg/routes/handlers.go:295-312 | Once a reveal's delete has succeeded, any later view of that id is answered "not found". |
| Monitor.ScaleBrackets | backend/cmd/monitor/main.go:85-96 | The unit a count belongs in is the power of 1024 the count reaches and whose next power it stays under. |
| Monitor.BracketUnique | backend/cmd/monitor/main.go:85-96 | At most one power of 1024 brackets a count that way. |
| Monitor.FormatBytes | backend/cmd/monitor/main.go:85-96 | Counts under 1024 are shown in bytes. Otherwise the divisor is the power of 1024 that brackets the count. It never overflows 64 bits, and the letter index stays inside "KMGTPE". |

## Left out

- The scheduler's lock, condition variable and timer wait: each operation is one atomic step. The timer wait cannot be cut short by a newly added earlier deadline; that timing behaviour is not modelled.
- Waiting for the next deadline is not modelled; the sweep is given the time `now`.
- The sweep reads the clock again on every pass; the model uses one `now` for the whole sweep.
- Storage errors in the sweep are given as the set of ids whose purge fails. The source only logs them, and the popped item is not rescheduled.
- The two deletion modes chosen by `APPDEBUG`, and the process exit when it is unset. Storage holds the rows not yet deleted, as in hard-delete mode. In soft-delete mode a marked row stays in the table and the restart listing does not filter it out; that is not modelled.
- A row marked deleted but kept in the table is still modelled on the view side (`Row.deleted`), where it is answered "not found".
- The database assigns ids; `Handlers.CreateSecret` takes the new id as a parameter.
- Encryption, bcrypt hashing, MinIO, the database driver, HTTP parsing, templates and logging are collaborators. Each is reduced to whether it fails on this request, or to whether the password matches.
- Extracting the fields of a create request (form values, the JSON fallback, `Sscanf`) is left out. The model starts from the extracted byte lengths and the parsed expiry.
- The response bodies of a reveal (decrypted text, file name, file bytes) are not modelled.
- Messages are modelled for the create checks only; the view handlers are modelled down to the HTTP status.
- Handlers.CreateApi: the JSON handler exits the process with `log.Fatal` when `FRONTEND_URL` is unset (handlers.go:182-185). That happens after the row is saved and the id is scheduled. The model always answers `Created` on that path and does not model the exit or the environment variable.
- Handlers.CreateSecret: it is given the deadline computed from one clock reading. The source stamps `CreatedAt` from a separate reading.
- Monitor.FormatBytes: only the divisor and the unit letter are modelled. The shown value is a float64 division printed with one decimal, and that is not modelled, so neither is its rounding.
- Monitor.FormatBytes: the parameter is a natural number below 2^64, standing for `uint64`.
- The metrics handler, the monitor's screen loop, the seeder, the startup wiring and the source files that no longer build against the rest are outside this model.
- `container/heap` is part of Go's standard library, not of this repository. `up`, `down`, `Push`, `Pop` and `Remove` are modelled from that library's algorithm.

## Findings

| source | as written | input that shows it | evidently intended | confidence | as-written member | corrected member |
|---|---|---|---|---|---|---|
| backend/pkg/heap/main_heap.go:153-175 | The purge deletes rows with `expires_at <= now`, reading `now` once. The listing then selects `expires_at > time.Now()`, reading the clock a second time. | Storage `{7: 5}`, purge clock 4, listing clock 6: row 7 survives the purge and is not listed, so it stays in storage and is never scheduled (the last `ensures` of `Scheduler.LoadPendingAsWritten`). | One reading for both steps: every row is either purged or scheduled. | not executed | Scheduler.LoadPendingAsWritten | Scheduler.LoadPending |
| backend/pkg/routes/handlers.go:108-129 | The JSON create handler encrypts and uploads the file before it checks the expiry and the password. | A request with a 1-byte file, expiry 0 minutes and an 8-byte password: the answer is 400, and the uploaded object stays in MinIO with no row pointing at it (`Handlers.OrphanedUpload`). | Every check runs before any storage work, as the page handler does (lines 406-429). | not executed | Handlers.CreateApi | Handlers.CreateApiValidated |
