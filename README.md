# In-memory key/value store

A model of the store at the heart of a small Go HTTP key/value server. The
store is a map from string keys to records. Each record holds the key, the
value, a creation time and an update time. The store has four operations:
`Set` overwrites a record, `Get` looks one up, `Delete` removes one, and a
cleanup routine evicts records created more than 24 hours ago.

The project has three modules:

- `KeyValue` (key_value.dfy) is the value level. It holds the `Entry` record,
  the map type `Data`, and the store's invariant `Consistent`. That invariant
  says every record carries its own key and no record was updated before it
  was created. The module also has one pure function per operation (`Put`,
  `Lookup`, `Remove`, `Sweep`), the JSON round trip of `Get` (`Canonicalized`)
  and the input check of the `/set` handler (`SetInputAccepted`). Lemmas state
  what these functions promise.
- `Store` (store.dfy) is the `KeyValueStore` object. It is a class whose `data`
  field is a `map`, updated in place by `Set`, `Delete` and `CleanupPass`.
  Each method is proved to keep `Valid()`. Each one leaves `data` equal to the
  matching `KeyValue` function applied to the old map. `CleanupPass` is the
  loop over the map that deletes expired entries as it goes. Its loop
  invariants tie every visited and every pending key to `Sweep`.
- `Serialized` (serialized.dfy) covers histories. In the source, every
  operation holds the store's read-write lock for its whole duration. So the
  map goes through some sequence of whole operations, whatever the interleaving
  of request handlers and the cleanup goroutine. `Run` replays such a sequence.
  The lemmas about histories state the store's promises across many operations:
  the invariant always holds, a key never set is never found, a record
  survives anything that does not touch its key and that no cleanup pass
  finds older than 24 hours, `Get` after `Set` and `Get` after `Delete` behave
  as expected, and sets of distinct keys commute.

Time is an integer number of nanoseconds. An instant stands for the clock
reading that Go compares and subtracts: the monotonic reading that `time.Now()`
carries and that `time.Since` uses (main.go:90). Durations use the unit of
`time.Duration`, so the 24-hour limit is `MaxAge = 24 * 3_600_000_000_000`.
The zero `KeyValueEntry`, which `Get` returns on a miss, is
`Entry("", "", 0, 0)`. Every clock reading is a parameter. `Set` takes two
readings, because the source calls `time.Now()` twice, once for `CreatedAt` and
once for `UpdatedAt`. Its precondition `createdNow <= updatedNow` holds because
the monotonic clock never runs backwards.

Two behaviours follow directly from the code:

- An overwrite refreshes `CreatedAt`. `Set` builds a new record from two fresh
  `time.Now()` readings and never looks at the old one (main.go:42-48;
  `LookupAfterPut`).
- A record exactly 24 hours old survives a cleanup pass. The test is
  `time.Since(CreatedAt) > 24h` (main.go:90; `SweepBoundary`).

Go's `time.Since` saturates at the largest `time.Duration` instead of wrapping
around. The model computes the age `now - createdAt` with unbounded integers.
For the `> 24h` test this gives the same answer: a saturated age is still more
than 24 hours, and any true age above 24 hours stays above it after saturation.

## Model

| member | source | states |
|---|---|---|
| KeyValue.Put | main.go:39-49 | after `Set` the key is present with a record holding the key, the value and the two clock readings; every other key keeps its record |
| KeyValue.Remove | main.go:78-82 | after `Delete` the key is absent whether or not it was present; every remaining key keeps its record |
| KeyValue.Lookup | main.go:52-58 | the lookup reports found exactly when the key is stored; found gives that key's record, not found gives the zero record |
| KeyValue.Sweep | main.go:89-93 | a pass keeps exactly the records aged at most 24 hours, each one unchanged |
| KeyValue.Canonicalized | main.go:59-74 | the JSON round trip changes only the value: the raw text when parsing or re-serialising fails, the re-serialised text otherwise |
| KeyValue.EmptyLookupMisses | main.go:32-36 | a newly made store is empty, so every lookup misses with the zero record |
| KeyValue.LookupAfterPut | main.go:42-48 | after `Set(k, v)` the lookup of `k` finds the new record, whose creation time is the new clock reading even on an overwrite |
| KeyValue.LookupOtherKeys | main.go:39-82 | `Set(k, _)` and `Delete(k)` leave the lookup of every other key unchanged |
| KeyValue.LookupAfterRemove | main.go:78-82 | after `Delete(k)` the lookup of `k` misses |
| KeyValue.RemoveAbsent | main.go:81 | deleting an absent key leaves the map unchanged |
| KeyValue.PutConsistent | main.go:42-48 | `Set` with ordered clock readings keeps every record under its own key and keeps its update time no earlier than its creation time |
| KeyValue.RemoveConsistent | main.go:81 | `Delete` cannot break that invariant |
| KeyValue.SweepConsistent | main.go:89-93 | a cleanup pass cannot break that invariant |
| KeyValue.SweepShrinks | main.go:89-93 | the keys after a pass are a subset of the keys before it, and the surviving records are unchanged |
| KeyValue.SweepBoundary | main.go:90 | a record exactly 24 hours old survives a pass; one a nanosecond older is evicted |
| KeyValue.SweepIdempotent | main.go:89-93 | a second pass at the same instant changes nothing |
| KeyValue.SweepMonotone | main.go:86-93 | a later pass evicts at least what an earlier one does, and an earlier pass followed by a later one equals the later one alone |
| KeyValue.AcceptedSetIsFound | main.go:111-115 | an input the `/set` handler accepts (non-empty key and value) is stored under a non-empty key with a non-empty value and is found afterwards |
| Store.KeyValueStore.constructor | main.go:32-36 | `NewKeyValueStore` makes a valid store with an empty map |
| Store.KeyValueStore.Set | main.go:39-49 | `Set` keeps the invariant and leaves the map equal to `Put` of the old map |
| Store.KeyValueStore.Get | main.go:52-75 | `Get` does not change the store; found exactly when the key is stored; on a hit, the stored record after the JSON round trip, under its own key with ordered timestamps; on a miss, the zero record |
| Store.KeyValueStore.Delete | main.go:78-82 | `Delete` keeps the invariant and leaves the map equal to `Remove` of the old map, absent key included |
| Store.KeyValueStore.CleanupPass | main.go:88-94 | the loop that deletes during iteration leaves the map equal to `Sweep` of the old map, whatever order it visits the keys in, and keeps the invariant |
| Store.SetGetDelete | main.go:32-82 | on a new store, `Get` after `Set(k, v)` finds the record built from `k`, `v` and that `Set`'s clock readings, with `v` passed through the JSON round trip, and `Get` after `Delete` misses |
| Serialized.RunConsistent | main.go:38-94 | every history of locked `Set`, `Delete` and cleanup steps keeps the store's invariant |
| Serialized.UntouchedKeyKept | main.go:38-94 | a record that no step of a history sets or deletes, and no pass finds expired, is still there unchanged: operations on other keys never lose it |
| Serialized.SetThenGet | main.go:39-58 | after `Set(k, v)`, the lookup of `k` finds `v` with that `Set`'s timestamps until `k` is set again, deleted or swept (`Get` returns that record after its JSON round trip) |
| Serialized.NeverSetMisses | main.go:52-58 | a key absent at the start and named by no `Set` of a history is still not found after it |
| Serialized.AcceptedSetsKeepNonEmpty | main.go:137-141 | a store written only through inputs the `/set` handler accepts never holds an empty key or an empty value, whatever deletes and passes come between |
| Serialized.DeleteThenGet | main.go:78-82 | after any history, `Delete(k)` makes the next `Get(k)` miss |
| Serialized.SweepLeavesNoExpired | main.go:84-96 | after any history, a pass at `now` leaves no record older than 24 hours at `now` |
| Serialized.DistinctSetsCommute | main.go:39-49 | two `Set`s of distinct keys give the same map in either lock order, so neither update is lost |

## Left out

- HTTP handlers, request parsing, response writing and the server start (main.go:106-226): I/O glue around the store. Only the empty key/value check of `/set` (main.go:111, main.go:137) is modelled, as `SetInputAccepted`.
- `sync.RWMutex` locking (main.go:28): concurrency. Each method is one atomic step, and `Serialized` models the orders the lock allows.
- The `go store.CleanupRoutine()` goroutine and the `for { time.Sleep(24 * time.Hour) ... }` loop (main.go:86-87, main.go:103): scheduling. The model has one cleanup pass, `CleanupPass`, at a given instant.
- `time.Now()` and `time.Since` (main.go:45-46, main.go:90): the clock. It is replaced by integer instants passed as parameters.
- The wall-clock part of the stored timestamps (main.go:45-46), which `/get` sends out (main.go:178-179), is not modelled. The instants are the monotonic readings. After a wall-clock step between the two `time.Now()` calls, the wall values of `UpdatedAt` and `CreatedAt` can be out of order, even though `TimesOrdered` holds of the monotonic readings.
- Store.KeyValueStore.CleanupPass: uses one instant for the whole pass. The source reads the clock again for each entry it visits, so a record whose age crosses 24 hours during the pass could go either way.
- Store.KeyValueStore.Get: treats the `encoding/json` round trip (main.go:59-74) as the function parameter `canonical`, `None` when `json.Unmarshal` or `json.Marshal` fails. The JSON grammar and serialisation themselves are not modelled.
- The POST body decoding and the panicking type assertion `data["key"].(string)` (main.go:120-136): foreign calls into `encoding/json` and Go runtime behaviour of `interface{}`, not store logic.
