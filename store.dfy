/**
 The store object of main.go: a map updated in place by `Set`, `Delete` and the
 cleanup pass, and read by `Get`. Every operation runs under the store's
 read-write lock in the source; here each method is one atomic step. The clock
 is passed in as integer instants.
 */
module Store {
  import opened KeyValue

  class KeyValueStore {
    var data: Data

    /** The object invariant: the map is `Consistent`. */
    ghost predicate Valid()
      reads this
    {
      Consistent(data)
    }

    /** `NewKeyValueStore`: an empty map. */
    constructor ()
      ensures Valid()
      ensures data == map[]
    {
      data := map[];
    }

    /** `Set`: overwrite the record under `key`. The two instants are the two
        `time.Now()` readings, in the order the source takes them. */
    method Set(key: string, value: string, createdNow: int, updatedNow: int)
      requires Valid()
      requires createdNow <= updatedNow
      modifies this
      ensures Valid()
      ensures data == Put(old(data), key, value, createdNow, updatedNow)
    {
      var entry := Entry(key, value, createdNow, updatedNow);
      data := data[key := entry];
      PutConsistent(old(data), key, value, createdNow, updatedNow);
    }

    /** `Get`: the record and whether it was found; a found value goes through
        the JSON round trip `canonical`. The map is not changed. */
    method Get(key: string, canonical: string -> Option<string>) returns (entry: Entry, found: bool)
      ensures found <==> key in data
      ensures !found ==> entry == ZeroEntry
      ensures found ==> entry == Canonicalized(data[key], canonical)
      ensures found && Valid() ==> entry.key == key && entry.createdAt <= entry.updatedAt
    {
      if key !in data {
        return ZeroEntry, false;
      }
      entry := data[key];
      match canonical(entry.value) {
        case None =>
        case Some(text) =>
          entry := entry.(value := text);
      }
      found := true;
    }

    /** `Delete`: remove `key`; an absent key is not an error. */
    method Delete(key: string)
      requires Valid()
      modifies this
      ensures Valid()
      ensures data == Remove(old(data), key)
    {
      data := data - {key};
      RemoveConsistent(old(data), key);
    }

    /** One pass of `CleanupRoutine` at instant `now`: visit every key and delete
        the entries older than 24 hours, in whatever order the keys come. */
    method CleanupPass(now: int)
      requires Valid()
      modifies this
      ensures Valid()
      ensures data == Sweep(old(data), now)
    {
      ghost var before := data;
      var pending := data.Keys;
      while pending != {}
        invariant pending <= before.Keys
        invariant data.Keys <= before.Keys
        invariant forall k :: k in data ==> data[k] == before[k]
        invariant forall k :: k in pending ==> k in data
        invariant forall k :: k in before && k !in pending ==> (k in data <==> !Expired(before[k], now))
        decreases pending
      {
        var key :| key in pending;
        if Expired(data[key], now) {
          data := data - {key};
        }
        pending := pending - {key};
      }
      SweepConsistent(before, now);
    }
  }

  /** A client of the store: set a key, read it back, delete it, read again.
      `canonical` is the JSON round trip of `Get`. */
  method SetGetDelete(key: string, value: string, createdNow: int, updatedNow: int,
                      canonical: string -> Option<string>)
    returns (first: Entry, foundFirst: bool, foundAfterDelete: bool)
    requires createdNow <= updatedNow
    ensures foundFirst && !foundAfterDelete
    ensures first == Canonicalized(Entry(key, value, createdNow, updatedNow), canonical)
    ensures first.key == key && first.createdAt == createdNow && first.updatedAt == updatedNow
  {
    var store := new KeyValueStore();
    var absent: Entry, foundBefore: bool := store.Get(key, canonical);
    assert !foundBefore;
    store.Set(key, value, createdNow, updatedNow);
    first, foundFirst := store.Get(key, canonical);
    store.Delete(key);
    var _, gone := store.Get(key, canonical);
    foundAfterDelete := gone;
  }
}
