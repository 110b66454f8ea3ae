/**
 Histories of the store. Every operation of main.go holds the store's
 read-write lock for its whole duration, so whatever the interleaving of request
 handlers and the cleanup goroutine, the map goes through the operations one at
 a time in some order. A history is that order, as a sequence of operations.
 */
module Serialized {
  import opened KeyValue

  /** One locked step: a `Set` with its two clock readings, a `Delete`, or a
      cleanup pass at an instant. */
  datatype Op =
    | SetOp(key: string, value: string, createdAt: int, updatedAt: int)
    | DeleteOp(key: string)
    | SweepOp(now: int)

  /** The clock never runs backwards between the two readings of one `Set`. */
  predicate ClockOrdered(op: Op)
  {
    op.SetOp? ==> op.createdAt <= op.updatedAt
  }

  /** The operation names `key` (a `Set` or `Delete` of that key). */
  predicate Touches(op: Op, key: string)
  {
    (op.SetOp? || op.DeleteOp?) && op.key == key
  }

  /** The map after one locked step. */
  function Apply(m: Data, op: Op): (r: Data)
  {
    match op
    case SetOp(k, v, c, u) => Put(m, k, v, c, u)
    case DeleteOp(k) => Remove(m, k)
    case SweepOp(now) => Sweep(m, now)
  }

  /** The map after a history of operations. */
  function Run(m: Data, ops: seq<Op>): (r: Data)
    decreases |ops|
  {
    if ops == [] then m else Run(Apply(m, ops[0]), ops[1..])
  }

  /** Running a history and then one more operation is running the longer history. */
  lemma {:induction false} RunSnoc(m: Data, ops: seq<Op>, op: Op)
    ensures Run(m, ops + [op]) == Apply(Run(m, ops), op)
    decreases |ops|
  {
    if ops == [] {
      assert ops + [op] == [op];
    } else {
      assert (ops + [op])[1..] == ops[1..] + [op];
      RunSnoc(Apply(m, ops[0]), ops[1..], op);
    }
  }

  /** Every history of well-clocked operations keeps the store's invariant. */
  lemma {:induction false} RunConsistent(m: Data, ops: seq<Op>)
    requires Consistent(m)
    requires forall i :: 0 <= i < |ops| ==> ClockOrdered(ops[i])
    ensures Consistent(Run(m, ops))
    decreases |ops|
  {
    if ops != [] {
      match ops[0] {
        case SetOp(k, v, c, u) => PutConsistent(m, k, v, c, u);
        case DeleteOp(k) => RemoveConsistent(m, k);
        case SweepOp(now) => SweepConsistent(m, now);
      }
      RunConsistent(Apply(m, ops[0]), ops[1..]);
    }
  }

  /** A key that no operation of the history names, and that no pass of the
      history finds older than 24 hours, keeps its record untouched: operations
      on other keys never lose it. */
  lemma {:induction false} UntouchedKeyKept(m: Data, ops: seq<Op>, key: string)
    requires key in m
    requires forall i :: 0 <= i < |ops| ==> !Touches(ops[i], key)
    requires forall i :: 0 <= i < |ops| && ops[i].SweepOp? ==> !Expired(m[key], ops[i].now)
    ensures Lookup(Run(m, ops), key) == (m[key], true)
    decreases |ops|
  {
    if ops != [] {
      var next := Apply(m, ops[0]);
      assert !Touches(ops[0], key);
      assert key in next && next[key] == m[key];
      forall i | 0 <= i < |ops[1..]|
        ensures !Touches(ops[1..][i], key)
        ensures ops[1..][i].SweepOp? ==> !Expired(next[key], ops[1..][i].now)
      {
        assert ops[1..][i] == ops[i + 1];
      }
      UntouchedKeyKept(next, ops[1..], key);
    }
  }

  /** After `Set(k, v)`, the lookup of `k` at any later point finds `v` with the
      clock readings of that `Set`, until a `Set` or `Delete` of `k`, or a pass
      that finds it older than 24 hours. (`Get` then hands back that record
      after its JSON round trip, `Canonicalized`.) */
  lemma SetThenGet(m: Data, key: string, value: string, createdAt: int, updatedAt: int, ops: seq<Op>)
    requires forall i :: 0 <= i < |ops| ==> !Touches(ops[i], key)
    requires forall i :: 0 <= i < |ops| && ops[i].SweepOp? ==> ops[i].now - createdAt <= MaxAge
    ensures Lookup(Run(m, [SetOp(key, value, createdAt, updatedAt)] + ops), key)
         == (Entry(key, value, createdAt, updatedAt), true)
  {
    var h := [SetOp(key, value, createdAt, updatedAt)] + ops;
    assert h[0] == SetOp(key, value, createdAt, updatedAt) && h[1..] == ops;
    UntouchedKeyKept(Put(m, key, value, createdAt, updatedAt), ops, key);
  }

  /** A key that is not in the store and that no `Set` of the history names is
      still missing afterwards: a key never set is never found. */
  lemma {:induction false} NeverSetMisses(m: Data, ops: seq<Op>, key: string)
    requires key !in m
    requires forall i :: 0 <= i < |ops| ==> !(ops[i].SetOp? && ops[i].key == key)
    ensures Lookup(Run(m, ops), key) == (ZeroEntry, false)
    decreases |ops|
  {
    if ops != [] {
      assert !(ops[0].SetOp? && ops[0].key == key);
      assert key !in Apply(m, ops[0]);
      forall i | 0 <= i < |ops[1..]|
        ensures !(ops[1..][i].SetOp? && ops[1..][i].key == key)
      {
        assert ops[1..][i] == ops[i + 1];
      }
      NeverSetMisses(Apply(m, ops[0]), ops[1..], key);
    }
  }

  /** No key is empty and no value is empty. */
  ghost predicate NoEmptyEntries(m: Data)
  {
    forall k :: k in m ==> k != "" && m[k].value != ""
  }

  /** A store written only through the `/set` handler, which turns away an
      empty key or value, never holds an empty key or an empty value, whatever
      deletes and cleanup passes come in between. */
  lemma {:induction false} AcceptedSetsKeepNonEmpty(m: Data, ops: seq<Op>)
    requires NoEmptyEntries(m)
    requires forall i :: 0 <= i < |ops| && ops[i].SetOp? ==> SetInputAccepted(ops[i].key, ops[i].value)
    ensures NoEmptyEntries(Run(m, ops))
    decreases |ops|
  {
    if ops != [] {
      var next := Apply(m, ops[0]);
      assert NoEmptyEntries(next);
      forall i | 0 <= i < |ops[1..]| && ops[1..][i].SetOp?
        ensures SetInputAccepted(ops[1..][i].key, ops[1..][i].value)
      {
        assert ops[1..][i] == ops[i + 1];
      }
      AcceptedSetsKeepNonEmpty(next, ops[1..]);
    }
  }

  /** Whatever came before, a `Delete(k)` makes the next `Get(k)` miss. */
  lemma DeleteThenGet(m: Data, ops: seq<Op>, key: string)
    ensures Lookup(Run(m, ops + [DeleteOp(key)]), key) == (ZeroEntry, false)
  {
    RunSnoc(m, ops, DeleteOp(key));
  }

  /** Whatever came before, a pass at `now` leaves no entry older than 24 hours. */
  lemma SweepLeavesNoExpired(m: Data, ops: seq<Op>, now: int)
    ensures forall k :: k in Run(m, ops + [SweepOp(now)]) ==> !Expired(Run(m, ops + [SweepOp(now)])[k], now)
  {
    RunSnoc(m, ops, SweepOp(now));
  }

  /** Two `Set`s of distinct keys give the same map in either order: no update
      is lost whichever request takes the lock first. */
  lemma DistinctSetsCommute(m: Data, a: Op, b: Op)
    requires a.SetOp? && b.SetOp? && a.key != b.key
    ensures Run(m, [a, b]) == Run(m, [b, a])
  {
    assert [a, b][1..] == [b] && [b, a][1..] == [a];
    var ab := Put(Put(m, a.key, a.value, a.createdAt, a.updatedAt), b.key, b.value, b.createdAt, b.updatedAt);
    var ba := Put(Put(m, b.key, b.value, b.createdAt, b.updatedAt), a.key, a.value, a.createdAt, a.updatedAt);
    assert Run(m, [a, b]) == Run(Apply(m, a), [b]) == Apply(Apply(m, a), b) == ab;
    assert Run(m, [b, a]) == Run(Apply(m, b), [a]) == Apply(Apply(m, b), a) == ba;
    assert ab == ba;
  }
}
