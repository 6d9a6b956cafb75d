/**
 * BlockingStateRingPool: a StateRingPool that also keeps, per state, a
 * counter of the slots it believes to be in that state. Every successful
 * transition made through its own operations moves one unit between
 * counters; a blocked `acquire` waits on the counter of the state it expects.
 *
 * The Java class extends StateRingPool; here the pool is a `StateRingPool`
 * object it owns, and each operation calls the pool's operation and then
 * updates the counters as the wrapper does.
 */
module BlockingStatePool {
  import opened Wrappers
  import opened Counting
  import opened StatePool

  /** `incr(state)`: one more in `state`; a missing counter starts at 1. */
  function Incremented(m: map<int, int>, state: int): (r: map<int, int>)
    ensures r.Keys == m.Keys + {state}
    ensures r[state] == CounterOf(m, state) + 1
    ensures forall k :: k in m && k != state ==> r[k] == m[k]
  {
    m[state := CounterOf(m, state) + 1]
  }

  /** `decr(state)`: one fewer in `state`; a missing counter starts at -1. */
  function Decremented(m: map<int, int>, state: int): (r: map<int, int>)
    ensures r.Keys == m.Keys + {state}
    ensures r[state] == CounterOf(m, state) - 1
    ensures forall k :: k in m && k != state ==> r[k] == m[k]
  {
    m[state := CounterOf(m, state) - 1]
  }

  /** `decr(from)` followed by `incr(to)`: one unit moved between states. */
  function Moved(m: map<int, int>, from: int, to: int): (r: map<int, int>)
    ensures r.Keys == m.Keys + {from, to}
    ensures from == to ==> r[to] == CounterOf(m, to)
    ensures from != to ==> r[from] == CounterOf(m, from) - 1 && r[to] == CounterOf(m, to) + 1
    ensures forall k :: k in m && k != from && k != to ==> r[k] == m[k]
  {
    Incremented(Decremented(m, from), to)
  }

  /** The slots holding a value in state `k`: what the counter for `k` stands for. */
  function HeldIn<T>(k: int): Holder<T> -> bool
  {
    (h: Holder<T>) => h.value.Some? && h.state == k
  }

  /** The counters agree, state by state, with the slots that hold a value. */
  ghost predicate Tracks<T>(counters: map<int, int>, s: seq<Holder<T>>)
    ensures Tracks(counters, s) ==> forall k :: 0 <= CounterOf(counters, k) <= |s|
  {
    forall k :: CounterOf(counters, k) == Count(s, HeldIn(k))
  }

  // ---------------------------------------------------------------------------
  // Counter arithmetic

  /**
   * `incr` and `decr` change the one counter named, by one, and no other;
   * the named state becomes a key. The sum of all counters changes by the
   * same one.
   */
  lemma IncrDecrChangeOneCounter(m: map<int, int>, state: int)
    ensures forall k :: CounterOf(Incremented(m, state), k) == CounterOf(m, k) + (if k == state then 1 else 0)
    ensures forall k :: CounterOf(Decremented(m, state), k) == CounterOf(m, k) - (if k == state then 1 else 0)
    ensures Incremented(m, state).Keys == Decremented(m, state).Keys == m.Keys + {state}
    ensures Total(Incremented(m, state)) == Total(m) + 1
    ensures Total(Decremented(m, state)) == Total(m) - 1
  {
    TotalUpdate(m, state, CounterOf(m, state) + 1);
    TotalUpdate(m, state, CounterOf(m, state) - 1);
  }

  /**
   * Moving a unit from `from` to `to` lowers the one counter and raises the
   * other (leaving it as it was when they are the same state), and keeps the
   * sum of all counters.
   */
  lemma MoveKeepsTotal(m: map<int, int>, from: int, to: int)
    ensures forall k :: CounterOf(Moved(m, from, to), k)
                     == CounterOf(m, k) - (if k == from then 1 else 0) + (if k == to then 1 else 0)
    ensures Total(Moved(m, from, to)) == Total(m)
  {
    IncrDecrChangeOneCounter(m, from);
    IncrDecrChangeOneCounter(Decremented(m, from), to);
  }

  // ---------------------------------------------------------------------------
  // The counters follow the slots

  /** Replacing one slot keeps the counters in step when they change as its held state does. */
  lemma TracksUpdate<T>(m: map<int, int>, s: seq<Holder<T>>, i: nat, y: Holder<T>, m': map<int, int>)
    requires Tracks(m, s) && i < |s|
    requires forall k :: CounterOf(m', k) == CounterOf(m, k) - (if HeldIn(k)(s[i]) then 1 else 0)
                                                + (if HeldIn(k)(y) then 1 else 0)
    ensures Tracks(m', s[i := y])
  {
    forall k ensures CounterOf(m', k) == Count(s[i := y], HeldIn(k)) {
      CountUpdate(s, i, y, HeldIn(k));
    }
  }

  /** `put0`: a successful put adds one to the counter of the new state; the counters stay in step. */
  lemma Put0KeepsTracking<T>(p: PoolState<T>, m: map<int, int>, value: T, state: int)
    requires WellFormed(p) && Tracks(m, p.slots)
    ensures var (ok, q) := PutStep(p, value, state);
      Tracks(if ok then Incremented(m, state) else m, q.slots)
  {
    var (ok, q) := PutStep(p, value, state);
    PutFillsFirstEmptySlot(p, value, state);
    if ok {
      IncrDecrChangeOneCounter(m, state);
      TracksUpdate(m, p.slots, q.cursor, Holder(Some(value), state), Incremented(m, state));
    }
  }

  /** `acquire0`: a successful acquire moves one unit from `expected` to `update`; the counters stay in step. */
  lemma Acquire0KeepsTracking<T>(p: PoolState<T>, m: map<int, int>, accept: T -> bool, expected: int, update: int)
    requires WellFormed(p) && Tracks(m, p.slots)
    ensures var (h, q) := AcquireStep(p, accept, expected, update);
      Tracks(if h >= 0 then Moved(m, expected, update) else m, q.slots)
  {
    var (h, q) := AcquireStep(p, accept, expected, update);
    AcquireTakesFirstMatch(p, accept, expected, update);
    if h >= 0 {
      MoveKeepsTotal(m, expected, update);
      TracksUpdate(m, p.slots, h, p.slots[h].(state := update), Moved(m, expected, update));
    }
  }

  /**
   * `release0` on a slot that holds a value: success moves one unit from
   * `expected` to `update`; the counters stay in step.
   */
  lemma Release0KeepsTracking<T>(p: PoolState<T>, m: map<int, int>, ptr: nat, expected: int, update: int)
    requires WellFormed(p) && ptr < |p.slots| && Tracks(m, p.slots)
    requires p.slots[ptr].value.Some?
    ensures var (ok, q) := ReleaseStep(p, ptr, expected, update);
      Tracks(if ok then Moved(m, expected, update) else m, q.slots)
  {
    var (ok, q) := ReleaseStep(p, ptr, expected, update);
    if ok {
      MoveKeepsTotal(m, expected, update);
      TracksUpdate(m, p.slots, ptr, p.slots[ptr].(state := update), Moved(m, expected, update));
    }
  }

  /**
   * `release(ptr, update)` on a slot that holds a value: one unit moves from
   * the previous state to `update`; the counters stay in step.
   */
  lemma SwapKeepsTracking<T>(p: PoolState<T>, m: map<int, int>, ptr: nat, update: int)
    requires WellFormed(p) && ptr < |p.slots| && Tracks(m, p.slots)
    requires p.slots[ptr].value.Some?
    ensures var (prev, q) := SwapStep(p, ptr, update);
      Tracks(Moved(m, prev, update), q.slots)
  {
    var prev := p.slots[ptr].state;
    MoveKeepsTotal(m, prev, update);
    TracksUpdate(m, p.slots, ptr, p.slots[ptr].(state := update), Moved(m, prev, update));
  }

  /**
   * `delete0` on a slot that holds a value: success takes one from the
   * counter of `state`; the counters stay in step.
   */
  lemma Delete0KeepsTracking<T>(p: PoolState<T>, m: map<int, int>, ptr: nat, state: int)
    requires WellFormed(p) && ptr < |p.slots| && Tracks(m, p.slots)
    requires p.slots[ptr].value.Some?
    ensures var (ok, q) := DeleteStep(p, ptr, state);
      Tracks(if ok then Decremented(m, state) else m, q.slots)
  {
    var (ok, q) := DeleteStep(p, ptr, state);
    if ok {
      IncrDecrChangeOneCounter(m, state);
      TracksUpdate(m, p.slots, ptr, Holder(None, 0), Decremented(m, state));
    }
  }

  /**
   * The counters follow only what happens to slots holding a value: deleting
   * an empty slot in state 0 succeeds and lowers the counter of state 0,
   * which then disagrees with the slots.
   */
  lemma DeleteOfEmptySlotDrifts<T>(p: PoolState<T>, m: map<int, int>, ptr: nat)
    requires WellFormed(p) && ptr < |p.slots| && Tracks(m, p.slots)
    requires p.slots[ptr] == Holder(None, 0)
    ensures var (ok, q) := DeleteStep(p, ptr, 0);
      ok && q == p && !Tracks(Decremented(m, 0), q.slots)
  {
    var q := DeleteStep(p, ptr, 0).1;
    assert p.slots[ptr := Holder(None, 0)] == p.slots;
    IncrDecrChangeOneCounter(m, 0);
    assert CounterOf(Decremented(m, 0), 0) != Count(q.slots, HeldIn(0));
  }

  // ---------------------------------------------------------------------------
  // The pool object

  class BlockingStateRingPool<T> {
    /** The underlying pool whose slots the operations change. */
    const pool: StateRingPool<T>
    /** `counters`: the per-state counts, keyed by state. */
    var counters: map<int, int>

    ghost predicate Valid()
      reads this, pool, pool.objects
    {
      pool.Valid()
    }

    /** A pool with every slot empty in state 0 and no counters. */
    constructor (capacity: nat, threadHash: nat)
      requires IsPow2(capacity)
      ensures Valid() && fresh(pool) && fresh(pool.objects)
      ensures pool.State() == Init(capacity, threadHash) && pool.accept == AcceptAll()
      ensures counters == map[] && Tracks(counters, pool.objects[..])
    {
      pool := new StateRingPool(capacity, threadHash);
      counters := map[];
      new;
      forall k ensures CounterOf(counters, k) == Count(pool.objects[..], HeldIn(k)) {
        assert Count(pool.objects[..], HeldIn(k)) == 0;
      }
    }

    /** `incr(state)`. */
    method Incr(state: int)
      modifies this`counters
      ensures counters == Incremented(old(counters), state)
    {
      if state in counters {
        counters := counters[state := counters[state] + 1];
      } else {
        counters := counters[state := 1];
      }
    }

    /** `decr(state)`. */
    method Decr(state: int)
      modifies this`counters
      ensures counters == Decremented(old(counters), state)
    {
      if state in counters {
        counters := counters[state := counters[state] - 1];
      } else {
        counters := counters[state := -1];
      }
    }

    /** `acquire0(expected, update)`: the pool's acquire, then one unit moved between counters. */
    method Acquire0(expected: int, update: int) returns (tid: int)
      requires Valid()
      modifies this`counters, pool, pool.objects
      ensures Valid()
      ensures (tid, pool.State()) == AcquireStep(old(pool.State()), pool.accept, expected, update)
      ensures counters == if tid >= 0 then Moved(old(counters), expected, update) else old(counters)
      ensures Total(counters) == Total(old(counters))
      ensures Tracks(old(counters), old(pool.objects[..])) ==> Tracks(counters, pool.objects[..])
    {
      if Tracks(counters, pool.objects[..]) {
        Acquire0KeepsTracking(pool.State(), counters, pool.accept, expected, update);
      }
      tid := pool.Acquire(expected, update);
      if tid >= 0 {
        Decr(expected);
        Incr(update);
        MoveKeepsTotal(old(counters), expected, update);
      }
    }

    /** `put0(value, state)`: the pool's put, then one more in `state`. */
    method Put0(value: T, state: int) returns (success: bool)
      requires Valid()
      modifies this`counters, pool, pool.objects
      ensures Valid()
      ensures (success, pool.State()) == PutStep(old(pool.State()), value, state)
      ensures counters == if success then Incremented(old(counters), state) else old(counters)
      ensures Total(counters) == Total(old(counters)) + (if success then 1 else 0)
      ensures Tracks(old(counters), old(pool.objects[..])) ==> Tracks(counters, pool.objects[..])
    {
      if Tracks(counters, pool.objects[..]) {
        Put0KeepsTracking(pool.State(), counters, value, state);
      }
      success := pool.Put(value, state);
      if success {
        Incr(state);
        IncrDecrChangeOneCounter(old(counters), state);
      }
    }

    /** `delete0(ptr, state)`, which `delete(ptr, state)` forwards to: the pool's delete, then one fewer in `state`. */
    method Delete0(ptr: nat, state: int) returns (success: bool)
      requires Valid() && ptr < pool.capacity
      modifies this`counters, pool.objects
      ensures Valid()
      ensures (success, pool.State()) == DeleteStep(old(pool.State()), ptr, state)
      ensures counters == if success then Decremented(old(counters), state) else old(counters)
      ensures Total(counters) == Total(old(counters)) - (if success then 1 else 0)
      ensures Tracks(old(counters), old(pool.objects[..])) && old(pool.objects[ptr].value).Some?
              ==> Tracks(counters, pool.objects[..])
    {
      if pool.objects[ptr].value.Some? && Tracks(counters, pool.objects[..]) {
        Delete0KeepsTracking(pool.State(), counters, ptr, state);
      }
      success := pool.Delete(ptr, state);
      if success {
        Decr(state);
        IncrDecrChangeOneCounter(old(counters), state);
      }
    }

    /** `release0(ptr, expected, update)`: the pool's release, then one unit moved between counters. */
    method Release0(ptr: nat, expected: int, update: int) returns (success: bool)
      requires Valid() && ptr < pool.capacity
      modifies this`counters, pool.objects
      ensures Valid()
      ensures (success, pool.State()) == ReleaseStep(old(pool.State()), ptr, expected, update)
      ensures counters == if success then Moved(old(counters), expected, update) else old(counters)
      ensures Total(counters) == Total(old(counters))
      ensures Tracks(old(counters), old(pool.objects[..])) && old(pool.objects[ptr].value).Some?
              ==> Tracks(counters, pool.objects[..])
    {
      if pool.objects[ptr].value.Some? && Tracks(counters, pool.objects[..]) {
        Release0KeepsTracking(pool.State(), counters, ptr, expected, update);
      }
      success := pool.Release(ptr, expected, update);
      if success {
        Decr(expected);
        Incr(update);
        MoveKeepsTotal(old(counters), expected, update);
      }
    }

    /** `release(ptr, update)`: the pool's unconditional release, then one unit moved from the previous state. */
    method Swap(ptr: nat, update: int) returns (prev: int)
      requires Valid() && ptr < pool.capacity
      modifies this`counters, pool.objects
      ensures Valid()
      ensures (prev, pool.State()) == SwapStep(old(pool.State()), ptr, update)
      ensures counters == Moved(old(counters), prev, update)
      ensures Total(counters) == Total(old(counters))
      ensures Tracks(old(counters), old(pool.objects[..])) && old(pool.objects[ptr].value).Some?
              ==> Tracks(counters, pool.objects[..])
    {
      if pool.objects[ptr].value.Some? && Tracks(counters, pool.objects[..]) {
        SwapKeepsTracking(pool.State(), counters, ptr, update);
      }
      prev := pool.Swap(ptr, update);
      Decr(prev);
      Incr(update);
      MoveKeepsTotal(old(counters), prev, update);
    }
  }
}
