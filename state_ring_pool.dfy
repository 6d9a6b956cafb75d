/**
 * StateRingPool: a fixed array of slots, each holding an optional value and
 * an integer state chosen by the callers; operations move a slot from an
 * expected state to a new one.
 *
 * Each operation is specified by a function on a snapshot of the pool, and
 * the class updates its array in place and is proved to have that snapshot
 * effect. Sequentially, "read the state, compare it with `expected`, then
 * `compareAndSet(expected, update)`" is a single test followed by the write.
 * The capacity is a power of two, for which `x & indexMask` is `x % capacity`.
 */
module StatePool {
  import opened Wrappers
  import opened Probing
  import opened Counting

  /** One slot: its value (`null` is `None`) and its state. */
  datatype Holder<T> = Holder(value: Option<T>, state: int)

  predicate EmptySlot<T>(h: Holder<T>) { h.value.None? }

  /** The capacities the pool is built for: `capacity - 1` is then a bit mask. */
  predicate IsPow2(n: nat)
  {
    n == 1 || (n > 1 && n % 2 == 0 && IsPow2(n / 2))
  }

  /**
   * The slots `acquire(expected, update)` accepts: holding a value, in state
   * `expected`, and passing the pool's filter `fn`.
   */
  function Acquirable<T>(accept: T -> bool, expected: int): Holder<T> -> bool
  {
    (h: Holder<T>) => h.value.Some? && h.state == expected && accept(h.value.value)
  }

  /** The filter `fn` of StateRingPool itself: every value passes. */
  function AcceptAll<T>(): T -> bool
  {
    _ => true
  }

  /** The slots in state `k`. */
  function InState<T>(k: int): Holder<T> -> bool
  {
    (h: Holder<T>) => h.state == k
  }

  /** The pool's slots and the calling thread's cursor. */
  datatype PoolState<T> = PoolState(slots: seq<Holder<T>>, cursor: nat)

  predicate WellFormed<T>(p: PoolState<T>)
  {
    0 < |p.slots| && p.cursor < |p.slots|
  }

  /** The slots `put` and `acquire` examine, in order. */
  function Probe<T>(p: PoolState<T>): (probe: seq<nat>)
    requires WellFormed(p)
    ensures InRange(probe, |p.slots|) && |probe| == |p.slots|
  {
    MaskProbe(|p.slots|, p.cursor)
  }

  /** Whether the probe from `ptr` examines slot `j`: all but `(ptr-1) & indexMask`, unless that is 0. */
  predicate Examined(capacity: nat, ptr: nat, j: int)
    requires ptr < capacity
  {
    0 <= j < capacity && (j == 0 || j != MaskSkipped(capacity, ptr))
  }

  /** A new pool: every slot empty in state 0; the cursor comes from the thread's hash. */
  function Init<T>(capacity: nat, threadHash: nat): (p: PoolState<T>)
    requires capacity > 0
    ensures WellFormed(p) && |p.slots| == capacity
    ensures forall j :: 0 <= j < capacity ==> p.slots[j] == Holder(None, 0)
    ensures p.cursor == threadHash % capacity
  {
    PoolState(seq(capacity, _ => Holder(None, 0)), threadHash % capacity)
  }

  /** `acquire(expected, update)`: the handle (or -1) and the new pool. */
  function AcquireStep<T>(p: PoolState<T>, accept: T -> bool, expected: int, update: int): (r: (int, PoolState<T>))
    requires WellFormed(p)
    ensures WellFormed(r.1) && |r.1.slots| == |p.slots|
    ensures r.0 == -1 ==> r.1 == p
    ensures forall j :: 0 <= j < |p.slots| ==> r.1.slots[j].value == p.slots[j].value
  {
    var t := Pick(p.slots, Probe(p), Acquirable(accept, expected));
    if t == -1 then (-1, p)
    else (t, PoolState(p.slots[t := p.slots[t].(state := update)], t))
  }

  /** `put(value, state)`: the result and the new pool. */
  function PutStep<T>(p: PoolState<T>, value: T, state: int): (r: (bool, PoolState<T>))
    requires WellFormed(p)
    ensures WellFormed(r.1) && |r.1.slots| == |p.slots|
    ensures !r.0 ==> r.1 == p
    ensures forall j :: 0 <= j < |p.slots| && p.slots[j].value.Some? ==> r.1.slots[j] == p.slots[j]
  {
    var t := Pick(p.slots, Probe(p), EmptySlot);
    if t == -1 then (false, p)
    else (true, PoolState(p.slots[t := Holder(Some(value), state)], t))
  }

  /** `release(ptr, expected, update)`: the CAS from `expected` to `update`. */
  function ReleaseStep<T>(p: PoolState<T>, ptr: nat, expected: int, update: int): (r: (bool, PoolState<T>))
    requires WellFormed(p) && ptr < |p.slots|
    ensures WellFormed(r.1) && |r.1.slots| == |p.slots|
    ensures !r.0 ==> r.1 == p
    ensures r.1.cursor == p.cursor
    ensures forall j :: 0 <= j < |p.slots| ==> r.1.slots[j].value == p.slots[j].value
  {
    if p.slots[ptr].state == expected
    then (true, p.(slots := p.slots[ptr := p.slots[ptr].(state := update)]))
    else (false, p)
  }

  /** `release(ptr, update)`: the `getAndSet(update)` of the state. */
  function SwapStep<T>(p: PoolState<T>, ptr: nat, update: int): (r: (int, PoolState<T>))
    requires WellFormed(p) && ptr < |p.slots|
    ensures WellFormed(r.1) && |r.1.slots| == |p.slots|
    ensures r.1.cursor == p.cursor
    ensures forall j :: 0 <= j < |p.slots| ==> r.1.slots[j].value == p.slots[j].value
  {
    (p.slots[ptr].state, p.(slots := p.slots[ptr := p.slots[ptr].(state := update)]))
  }

  /** `delete(ptr, state)`: when the slot is in `state`, it ends empty in state 0. */
  function DeleteStep<T>(p: PoolState<T>, ptr: nat, state: int): (r: (bool, PoolState<T>))
    requires WellFormed(p) && ptr < |p.slots|
    ensures WellFormed(r.1) && |r.1.slots| == |p.slots|
    ensures r.1.cursor == p.cursor
    ensures forall j :: 0 <= j < |p.slots| && j != ptr ==> r.1.slots[j] == p.slots[j]
  {
    if p.slots[ptr].state == state
    then (true, p.(slots := p.slots[ptr := Holder(None, 0)]))
    else (false, p)
  }

  /** `getStats()`: each state that occurs, mapped to the number of slots in it. */
  function Census<T>(s: seq<Holder<T>>): (r: map<int, int>)
    ensures forall k :: k in r ==> 0 < r[k] <= |s|
  {
    if |s| == 0 then map[]
    else
      var m := Census(s[..|s| - 1]);
      var st := s[|s| - 1].state;
      m[st := CounterOf(m, st) + 1]
  }

  // ---------------------------------------------------------------------------
  // Properties of the operations

  /** `Examined` is exactly membership in the probe. */
  lemma ProbeExamines(capacity: nat, ptr: nat, j: nat)
    requires ptr < capacity
    ensures j in MaskProbe(capacity, ptr) <==> Examined(capacity, ptr, j)
  {
    MaskProbeVisits(capacity, ptr);
  }

  /**
   * `acquire(expected, update)` takes the first examined slot that holds a
   * value in state `expected` accepted by the filter, sets its state to
   * `update` and moves the cursor there, changing nothing else. It returns -1
   * with nothing changed exactly when no examined slot qualifies.
   */
  lemma AcquireTakesFirstMatch<T>(p: PoolState<T>, accept: T -> bool, expected: int, update: int)
    requires WellFormed(p)
    ensures AcquireStep(p, accept, expected, update).0 == -1 <==>
      forall j :: Examined(|p.slots|, p.cursor, j) ==> !Acquirable(accept, expected)(p.slots[j])
    ensures AcquireStep(p, accept, expected, update).0 == -1 ==> AcquireStep(p, accept, expected, update).1 == p
    ensures var (h, q) := AcquireStep(p, accept, expected, update);
      h != -1 ==>
        && 0 <= h && Examined(|p.slots|, p.cursor, h) && q.cursor == h
        && FirstIn(p.slots, Probe(p), Acquirable(accept, expected), h)
        && p.slots[h].value.Some? && p.slots[h].state == expected && accept(p.slots[h].value.value)
        && q.slots == p.slots[h := p.slots[h].(state := update)]
  {
    var probe := Probe(p);
    var t := Pick(p.slots, probe, Acquirable(accept, expected));
    if t == -1 {
      forall j | Examined(|p.slots|, p.cursor, j)
        ensures !Acquirable(accept, expected)(p.slots[j])
      {
        var k := MaskProbePosition(|p.slots|, p.cursor, j);
        assert !Acquirable(accept, expected)(p.slots[probe[k]]);
      }
    } else {
      var k := FirstPos(p.slots, probe, Acquirable(accept, expected));
      MaskProbeHits(|p.slots|, p.cursor, k);
      assert Acquirable(accept, expected)(p.slots[t]);
    }
  }

  /**
   * `put(value, state)` fills the first examined empty slot, whatever its
   * state was, gives it `state` and moves the cursor there, changing nothing
   * else. It fails with nothing changed exactly when every examined slot
   * holds a value.
   */
  lemma PutFillsFirstEmptySlot<T>(p: PoolState<T>, value: T, state: int)
    requires WellFormed(p)
    ensures PutStep(p, value, state).0 <==>
      exists j :: Examined(|p.slots|, p.cursor, j) && p.slots[j].value.None?
    ensures !PutStep(p, value, state).0 ==> PutStep(p, value, state).1 == p
    ensures var (ok, q) := PutStep(p, value, state);
      ok ==> && Examined(|p.slots|, p.cursor, q.cursor) && p.slots[q.cursor].value.None?
             && FirstIn(p.slots, Probe(p), EmptySlot, q.cursor)
             && q.slots == p.slots[q.cursor := Holder(Some(value), state)]
  {
    var probe := Probe(p);
    var t := Pick(p.slots, probe, EmptySlot);
    if t == -1 {
      forall j | Examined(|p.slots|, p.cursor, j)
        ensures p.slots[j].value.Some?
      {
        var k := MaskProbePosition(|p.slots|, p.cursor, j);
        assert !EmptySlot(p.slots[probe[k]]);
      }
    } else {
      var k := FirstPos(p.slots, probe, EmptySlot);
      MaskProbeHits(|p.slots|, p.cursor, k);
      assert Examined(|p.slots|, p.cursor, t);
    }
  }

  /**
   * With cursor 0 the last slot is never examined: when every other slot
   * holds a value, `put` fails even though the last slot may be empty.
   */
  lemma PutFromZeroSkipsLastSlot<T>(p: PoolState<T>, value: T, state: int)
    requires WellFormed(p) && |p.slots| > 1 && p.cursor == 0
    requires forall j :: 0 <= j < |p.slots| - 1 ==> p.slots[j].value.Some?
    ensures PutStep(p, value, state) == (false, p)
  {
    PutFillsFirstEmptySlot(p, value, state);
  }

  /**
   * `release(ptr, expected, update)` succeeds exactly when the slot is in state
   * `expected`, and then leaves it in `update`; the reverse release brings the
   * pool back. On failure nothing changes.
   */
  lemma ReleaseRoundTrip<T>(p: PoolState<T>, ptr: nat, expected: int, update: int)
    requires WellFormed(p) && ptr < |p.slots|
    ensures var (ok, q) := ReleaseStep(p, ptr, expected, update);
      && ok == (p.slots[ptr].state == expected)
      && (ok ==> q.slots[ptr].state == update && q.slots[ptr].value == p.slots[ptr].value
                 && ReleaseStep(q, ptr, update, expected) == (true, p))
      && (!ok ==> q == p)
      && q.cursor == p.cursor
      && (forall j :: 0 <= j < |p.slots| && j != ptr ==> q.slots[j] == p.slots[j])
  {
    if p.slots[ptr].state == expected {
      var q := ReleaseStep(p, ptr, expected, update).1;
      assert q.slots[ptr := q.slots[ptr].(state := expected)] == p.slots;
    }
  }

  /**
   * `release(ptr, update)` returns the previous state and always leaves
   * `update`; setting the previous state back restores the pool.
   */
  lemma SwapRoundTrip<T>(p: PoolState<T>, ptr: nat, update: int)
    requires WellFormed(p) && ptr < |p.slots|
    ensures var (prev, q) := SwapStep(p, ptr, update);
      && prev == p.slots[ptr].state
      && q.slots[ptr] == p.slots[ptr].(state := update)
      && SwapStep(q, ptr, prev) == (update, p)
  {
    var q := SwapStep(p, ptr, update).1;
    assert q.slots[ptr := q.slots[ptr].(state := p.slots[ptr].state)] == p.slots;
  }

  /**
   * `delete(ptr, state)` succeeds exactly when the slot is in `state`; it
   * then ends empty in state 0 and `put` can use it again. On failure
   * nothing changes.
   */
  lemma DeleteEmptiesMatchingSlot<T>(p: PoolState<T>, ptr: nat, state: int)
    requires WellFormed(p) && ptr < |p.slots|
    ensures var (ok, q) := DeleteStep(p, ptr, state);
      && ok == (p.slots[ptr].state == state)
      && (ok ==> q.slots[ptr] == Holder(None, 0) && EmptySlot(q.slots[ptr]))
      && (!ok ==> q == p)
      && q.cursor == p.cursor
      && (forall j :: 0 <= j < |p.slots| && j != ptr ==> q.slots[j] == p.slots[j])
  {
  }

  /**
   * The state machine the pool is built for: a slot acquired from state 0
   * into 1, released from 1 into 2 and deleted in state 2 ends empty in
   * state 0, and the next `put` from the moved cursor succeeds.
   */
  lemma AcquireReleaseDeleteCycle<T>(p: PoolState<T>, accept: T -> bool, value: T, state: int)
    requires WellFormed(p)
    ensures var (h, q1) := AcquireStep(p, accept, 0, 1);
      h != -1 ==>
        && ReleaseStep(q1, h, 1, 2).0
        && var q2 := ReleaseStep(q1, h, 1, 2).1;
        && DeleteStep(q2, h, 2).0
        && var q3 := DeleteStep(q2, h, 2).1;
        && q3.slots[h] == Holder(None, 0)
        && PutStep(q3, value, state).0
  {
    var (h, q1) := AcquireStep(p, accept, 0, 1);
    AcquireTakesFirstMatch(p, accept, 0, 1);
    if h != -1 {
      var q3 := DeleteStep(ReleaseStep(q1, h, 1, 2).1, h, 2).1;
      assert q3.cursor == h;
      var c := |q3.slots|;
      if c > 1 {
        assert (h + c - 1) % c != h by {
          assert (h + c - 1) % c == Wrap(h + c - 1, c);
        }
      }
      assert Examined(c, h, h);
      PutFillsFirstEmptySlot(q3, value, state);
    }
  }

  /** The census counts, state by state, the slots in that state; only occurring states are keys. */
  lemma {:induction false} CensusCounts<T>(s: seq<Holder<T>>, k: int)
    ensures CounterOf(Census(s), k) == Count(s, InState(k))
    ensures k in Census(s) <==> Count(s, InState(k)) > 0
  {
    if |s| > 0 {
      CensusCounts(s[..|s| - 1], k);
    }
  }

  /** The census counts add up to the number of slots. */
  lemma {:induction false} CensusTotal<T>(s: seq<Holder<T>>)
    ensures Total(Census(s)) == |s|
  {
    if |s| > 0 {
      var m := Census(s[..|s| - 1]);
      var st := s[|s| - 1].state;
      CensusTotal(s[..|s| - 1]);
      TotalUpdate(m, st, CounterOf(m, st) + 1);
    }
  }

  // ---------------------------------------------------------------------------
  // The pool object

  class StateRingPool<T> {
    const capacity: nat
    /** The filter `fn` that `acquire` applies to a slot's value. */
    const accept: T -> bool
    const objects: array<Holder<T>>
    /** The calling thread's `localPointer`: where its next probe starts. */
    var cursor: nat

    ghost function State(): PoolState<T>
      reads this, objects
    {
      PoolState(objects[..], cursor)
    }

    ghost predicate Valid()
      reads this, objects
    {
      objects.Length == capacity && IsPow2(capacity) && WellFormed(State())
    }

    /**
     * Every slot starts empty in state 0, and `fn` accepts every value.
     * `threadHash` stands for the calling thread's `hashCode()`, from which
     * `getLocalPointer` derives the cursor.
     */
    constructor (capacity: nat, threadHash: nat)
      requires IsPow2(capacity)
      ensures Valid() && fresh(objects) && this.capacity == capacity
      ensures State() == Init(capacity, threadHash) && accept == AcceptAll()
    {
      this.capacity := capacity;
      this.accept := AcceptAll();
      objects := new Holder<T>[capacity](_ => Holder(None, 0));
      cursor := threadHash % capacity;
    }

    /** A pool whose `fn` is `accept`, as a subclass overriding `fn` would have it. */
    constructor WithFilter(capacity: nat, threadHash: nat, accept: T -> bool)
      requires IsPow2(capacity)
      ensures Valid() && fresh(objects) && this.capacity == capacity
      ensures State() == Init(capacity, threadHash) && this.accept == accept
    {
      this.capacity := capacity;
      this.accept := accept;
      objects := new Holder<T>[capacity](_ => Holder(None, 0));
      cursor := threadHash % capacity;
    }

    /** `getLocalPointer()`: the cursor, always a slot index. */
    function LocalPointer(): (ptr: nat)
      reads this, objects
      requires Valid()
      ensures ptr < capacity && ptr < objects.Length
    {
      cursor
    }

    /** `acquire(expected, update)`, with the mask probe. */
    method Acquire(expected: int, update: int) returns (handle: int)
      requires Valid()
      modifies objects, this`cursor
      ensures Valid()
      ensures (handle, State()) == AcquireStep(old(State()), accept, expected, update)
    {
      ghost var s := objects[..];
      var ptr := cursor;
      ghost var probe := MaskProbe(capacity, ptr);
      var j, i := 0, 0;
      while j < capacity
        invariant j <= capacity && i == MaskStep(capacity, ptr, j)
        invariant forall m :: 0 <= m < j ==> !Acquirable(accept, expected)(s[probe[m]])
        invariant objects[..] == s && cursor == ptr
      {
        assert probe[j] == i;
        if objects[i].value.Some? {
          if objects[i].state == expected {
            if accept(objects[i].value.value) {
              objects[i] := objects[i].(state := update);
              cursor := i;
              assert FirstPos(s, probe, Acquirable(accept, expected)) == j;
              return i;
            }
          }
        }
        i := (ptr + j) % capacity;
        j := j + 1;
      }
      return -1;
    }

    /** `release(ptr, expected, update)`. */
    method Release(ptr: nat, expected: int, update: int) returns (ok: bool)
      requires Valid() && ptr < capacity
      modifies objects
      ensures Valid()
      ensures (ok, State()) == ReleaseStep(old(State()), ptr, expected, update)
    {
      if objects[ptr].state == expected {
        objects[ptr] := objects[ptr].(state := update);
        return true;
      }
      return false;
    }

    /** `release(ptr, update)`: sets the state, returning the one it replaced. */
    method Swap(ptr: nat, update: int) returns (prev: int)
      requires Valid() && ptr < capacity
      modifies objects
      ensures Valid()
      ensures (prev, State()) == SwapStep(old(State()), ptr, update)
    {
      prev := objects[ptr].state;
      objects[ptr] := objects[ptr].(state := update);
    }

    /** `get(ptr)`: the slot's value, read without any ownership check. */
    function Get(ptr: nat): (v: Option<T>)
      reads this, objects
      requires Valid() && ptr < capacity
      ensures v == objects[ptr].value
    {
      objects[ptr].value
    }

    /** `getState(ptr)`. */
    function GetState(ptr: nat): (st: int)
      reads this, objects
      requires Valid() && ptr < capacity
      ensures st == objects[ptr].state
    {
      objects[ptr].state
    }

    /**
     * `delete(ptr, state)`: the slot is reserved with state -1, emptied, and
     * set to state 0.
     */
    method Delete(ptr: nat, state: int) returns (ok: bool)
      requires Valid() && ptr < capacity
      modifies objects
      ensures Valid()
      ensures (ok, State()) == DeleteStep(old(State()), ptr, state)
    {
      if objects[ptr].state == state {
        objects[ptr] := objects[ptr].(state := -1);
        objects[ptr] := objects[ptr].(value := None);
        objects[ptr] := objects[ptr].(state := 0);
        assert objects[..] == old(objects[..])[ptr := Holder(None, 0)];
        return true;
      }
      return false;
    }

    /** `put(value, state)`, with the mask probe. */
    method Put(value: T, state: int) returns (ok: bool)
      requires Valid()
      modifies objects, this`cursor
      ensures Valid()
      ensures (ok, State()) == PutStep(old(State()), value, state)
    {
      ghost var s := objects[..];
      var ptr := cursor;
      ghost var probe := MaskProbe(capacity, ptr);
      var j, i := 0, 0;
      while j < capacity
        invariant j <= capacity && i == MaskStep(capacity, ptr, j)
        invariant forall m :: 0 <= m < j ==> !EmptySlot(s[probe[m]])
        invariant objects[..] == s && cursor == ptr
      {
        assert probe[j] == i;
        if objects[i].value.None? {
          objects[i] := objects[i].(value := Some(value));
          objects[i] := objects[i].(state := state);
          cursor := i;
          assert objects[..] == s[i := Holder(Some(value), state)];
          assert FirstPos(s, probe, EmptySlot) == j;
          return true;
        }
        i := (ptr + j) % capacity;
        j := j + 1;
      }
      return false;
    }

    /** `getStats()`: one scan building the map from state to slot count. */
    method GetStats() returns (stats: map<int, int>)
      requires Valid()
      ensures stats == Census(objects[..])
      ensures forall k :: CounterOf(stats, k) == Count(objects[..], InState(k))
      ensures Total(stats) == capacity
    {
      stats := map[];
      var i := 0;
      while i < capacity
        invariant i <= capacity && stats == Census(objects[..i])
      {
        assert objects[..i + 1][..i] == objects[..i];
        var state := objects[i].state;
        if state !in stats {
          stats := stats[state := 0];
        }
        var prev := stats[state];
        stats := stats[state := prev + 1];
        i := i + 1;
      }
      assert objects[..i] == objects[..];
      forall k ensures CounterOf(stats, k) == Count(objects[..], InState(k)) {
        CensusCounts(objects[..], k);
      }
      CensusTotal(objects[..]);
    }
  }
}
