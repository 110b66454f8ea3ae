/**
 The value level of the in-memory key/value store: the entry record, the map the
 store keeps, and the pure functions that say what each store operation does to
 that map. The class in store.dfy is proved against these functions, and the
 traces in serialized.dfy are built from them.

 Instants are the monotonic clock readings Go compares and subtracts, in
 nanoseconds, and durations are in the unit of Go's `time.Duration`. The zero
 `KeyValueEntry` carries no reading and is represented with both instants 0.
 */
module KeyValue {

  datatype Option<T> = None | Some(value: T)

  /** One hour as a `time.Duration`, in nanoseconds. */
  const Hour: int := 3_600_000_000_000

  /** The fixed age past which the cleanup pass evicts an entry (24 hours). */
  const MaxAge: int := 24 * Hour

  /** A stored record: the key it was set under, its value and two timestamps. */
  datatype Entry = Entry(key: string, value: string, createdAt: int, updatedAt: int)

  /** The zero value of the record, which a lookup that misses hands back. */
  const ZeroEntry: Entry := Entry("", "", 0, 0)

  /** The store's map from key to record. */
  type Data = map<string, Entry>

  /** Every record carries the key it is stored under. */
  ghost predicate WellKeyed(m: Data)
  {
    forall k :: k in m ==> m[k].key == k
  }

  /** Every record was updated no earlier than it was created. */
  ghost predicate TimesOrdered(m: Data)
  {
    forall k :: k in m ==> m[k].createdAt <= m[k].updatedAt
  }

  /** The invariant of the store's map. */
  ghost predicate Consistent(m: Data)
  {
    WellKeyed(m) && TimesOrdered(m)
  }

  /** What `Set` does to the map: the record under `key` is replaced by a new one
      built from `value` and two clock readings; no other key changes. */
  function Put(m: Data, key: string, value: string, createdAt: int, updatedAt: int): (r: Data)
    ensures r.Keys == m.Keys + {key}
    ensures r[key].key == key && r[key].value == value
    ensures r[key].createdAt == createdAt && r[key].updatedAt == updatedAt
    ensures forall k :: k in m && k != key ==> r[k] == m[k]
  {
    m[key := Entry(key, value, createdAt, updatedAt)]
  }

  /** What `Delete` does to the map: `key` is gone, whether or not it was there;
      no other key changes. */
  function Remove(m: Data, key: string): (r: Data)
    ensures r.Keys == m.Keys - {key}
    ensures forall k :: k in r ==> r[k] == m[k]
  {
    m - {key}
  }

  /** The lookup part of `Get`: the record and `true`, or the zero record and `false`. */
  function Lookup(m: Data, key: string): (r: (Entry, bool))
    ensures r.1 <==> key in m
    ensures r.1 ==> r.0 == m[key]
    ensures !r.1 ==> r.0 == ZeroEntry
  {
    if key in m then (m[key], true) else (ZeroEntry, false)
  }

  /** The cleanup test: an entry is evicted when its age is strictly more than 24 hours. */
  predicate Expired(e: Entry, now: int)
  {
    now - e.createdAt > MaxAge
  }

  /** What one cleanup pass at instant `now` does to the map. */
  function Sweep(m: Data, now: int): (r: Data)
    ensures forall k :: k in r <==> k in m && now - m[k].createdAt <= MaxAge
    ensures forall k :: k in r ==> r[k] == m[k]
  {
    map k | k in m && !Expired(m[k], now) :: m[k]
  }

  /** The JSON round trip `Get` applies to a found value. `canonical` stands for
      `json.Unmarshal` followed by `json.Marshal`: `None` when either fails,
      otherwise the re-serialised text. Only the value can change. */
  function Canonicalized(e: Entry, canonical: string -> Option<string>): (r: Entry)
    ensures r.key == e.key && r.createdAt == e.createdAt && r.updatedAt == e.updatedAt
    ensures canonical(e.value).None? ==> r.value == e.value
    ensures canonical(e.value).Some? ==> r.value == canonical(e.value).value
  {
    match canonical(e.value)
    case None => e
    case Some(text) => e.(value := text)
  }

  /** The input check of the `/set` handler: both key and value must be non-empty. */
  predicate SetInputAccepted(key: string, value: string)
  {
    key != "" && value != ""
  }

  // ---------------------------------------------------------------------------
  // Properties of the operations on the map

  /** A new store is empty, so every lookup misses. */
  lemma EmptyLookupMisses(key: string)
    ensures Lookup(map[], key) == (ZeroEntry, false)
  {
  }

  /** After `Put`, the key is found with the fresh record, whose creation time is
      the new clock reading even when the key held an older record. */
  lemma LookupAfterPut(m: Data, key: string, value: string, createdAt: int, updatedAt: int)
    ensures Lookup(Put(m, key, value, createdAt, updatedAt), key)
         == (Entry(key, value, createdAt, updatedAt), true)
  {
  }

  /** `Put` and `Remove` leave the lookup of every other key as it was. */
  lemma LookupOtherKeys(m: Data, key: string, value: string, createdAt: int, updatedAt: int, other: string)
    requires other != key
    ensures Lookup(Put(m, key, value, createdAt, updatedAt), other) == Lookup(m, other)
    ensures Lookup(Remove(m, key), other) == Lookup(m, other)
  {
  }

  /** After `Remove`, the key misses. */
  lemma LookupAfterRemove(m: Data, key: string)
    ensures Lookup(Remove(m, key), key) == (ZeroEntry, false)
  {
  }

  /** Removing an absent key changes nothing. */
  lemma RemoveAbsent(m: Data, key: string)
    requires key !in m
    ensures Remove(m, key) == m
  {
  }

  /** `Put` with ordered clock readings keeps the invariant. */
  lemma PutConsistent(m: Data, key: string, value: string, createdAt: int, updatedAt: int)
    requires Consistent(m)
    requires createdAt <= updatedAt
    ensures Consistent(Put(m, key, value, createdAt, updatedAt))
  {
  }

  /** `Remove` keeps the invariant. */
  lemma RemoveConsistent(m: Data, key: string)
    requires Consistent(m)
    ensures Consistent(Remove(m, key))
  {
  }

  /** A cleanup pass keeps the invariant. */
  lemma SweepConsistent(m: Data, now: int)
    requires Consistent(m)
    ensures Consistent(Sweep(m, now))
  {
  }

  /** A cleanup pass only removes: its keys are among the old ones, and a
      surviving record is unchanged. */
  lemma SweepShrinks(m: Data, now: int)
    ensures Sweep(m, now).Keys <= m.Keys
    ensures forall k :: k in Sweep(m, now) ==> Sweep(m, now)[k] == m[k]
  {
  }

  /** The boundary of the age test: an entry exactly 24 hours old survives a
      pass, one a nanosecond older is evicted. */
  lemma SweepBoundary(m: Data, key: string, now: int)
    requires key in m
    ensures now - m[key].createdAt == MaxAge ==> Lookup(Sweep(m, now), key) == (m[key], true)
    ensures now - m[key].createdAt == MaxAge + 1 ==> Lookup(Sweep(m, now), key) == (ZeroEntry, false)
  {
  }

  /** A second pass at the same instant changes nothing. */
  lemma SweepIdempotent(m: Data, now: int)
    ensures Sweep(Sweep(m, now), now) == Sweep(m, now)
  {
  }

  /** A later pass evicts at least what an earlier one does. */
  lemma SweepMonotone(m: Data, earlier: int, later: int)
    requires earlier <= later
    ensures Sweep(m, later).Keys <= Sweep(m, earlier).Keys
    ensures Sweep(Sweep(m, earlier), later) == Sweep(m, later)
  {
  }

  /** An input the `/set` handler accepts is stored under a non-empty key with a
      non-empty value, and a later lookup finds it. This is one step of the
      history fact `Serialized.AcceptedSetsKeepNonEmpty`. */
  lemma AcceptedSetIsFound(m: Data, key: string, value: string, createdAt: int, updatedAt: int)
    requires SetInputAccepted(key, value)
    ensures var (e, found) := Lookup(Put(m, key, value, createdAt, updatedAt), key);
            found && e.key != "" && e.value != ""
  {
  }
}
