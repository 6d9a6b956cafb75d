/**
 * PipelineRingPool: a fixed array of slots, each holding an optional value and
 * a pipeline level that counts how many holders currently share the slot.
 *
 * As in `BinaryPool`, each operation is specified by a function on a snapshot
 * of the pool, and the class updates its array in place and is proved to have
 * that snapshot effect. Sequentially, `incrementAndGet` is a read-add-write and
 * `compareAndSet(0, pipeline)` is the test "the level is 0" followed by the
 * write; `put`'s transient level `pipeline` is written out and then reset.
 */
module PipelinePool {
  import opened Wrappers
  import opened Probing
  import opened Counting

  /** One slot: its value (`null` is `None`) and its `pipeline_level`. */
  datatype Holder<T> = Holder(value: Option<T>, level: int)

  predicate IdleSlot<T>(h: Holder<T>) { h.level == 0 }
  predicate EmptySlot<T>(h: Holder<T>) { h.value.None? }

  /** A slot `put` fills: empty, and its CAS of the level from 0 succeeds. */
  predicate CanPut<T>(h: Holder<T>) { h.value.None? && h.level == 0 }

  /**
   * The slots `acquire` accepts for a given pipeline width: one more holder
   * keeps the level below `pipeline`. The value is not looked at.
   */
  function Admits<T>(pipeline: int): Holder<T> -> bool
  {
    (h: Holder<T>) => h.level + 1 < pipeline
  }

  /** The pool's slots and the calling thread's cursor. */
  datatype PoolState<T> = PoolState(slots: seq<Holder<T>>, cursor: nat)

  predicate WellFormed<T>(p: PoolState<T>)
  {
    0 < |p.slots| && p.cursor < |p.slots|
  }

  /** The highest level a slot can reach between operations. */
  function Ceiling(pipeline: int): (c: nat)
    ensures pipeline >= 1 ==> c == pipeline - 1
    ensures pipeline < 1 ==> c == 0
  {
    if pipeline >= 1 then pipeline - 1 else 0
  }

  /** The invariant every operation keeps: no level exceeds `Ceiling(pipeline)`. */
  predicate LevelsBounded<T>(s: seq<Holder<T>>, pipeline: int)
  {
    forall i :: 0 <= i < |s| ==> s[i].level <= Ceiling(pipeline)
  }

  predicate Inv<T>(p: PoolState<T>, pipeline: int)
  {
    WellFormed(p) && LevelsBounded(p.slots, pipeline)
  }

  /** A new pool: every slot empty at level 0; the cursor comes from the thread's hash. */
  function Init<T>(capacity: nat, threadHash: nat): (p: PoolState<T>)
    requires capacity > 0
    ensures WellFormed(p) && |p.slots| == capacity
    ensures forall pipeline :: Inv(p, pipeline)
    ensures forall j :: 0 <= j < capacity ==> p.slots[j] == Holder(None, 0)
    ensures p.cursor == threadHash % capacity
  {
    PoolState(seq(capacity, _ => Holder(None, 0)), threadHash % capacity)
  }

  /** `acquire()`: the handle (or -1) and the new pool. */
  function AcquireStep<T>(p: PoolState<T>, pipeline: int): (r: (int, PoolState<T>))
    requires WellFormed(p)
    ensures WellFormed(r.1) && |r.1.slots| == |p.slots|
    ensures Inv(p, pipeline) ==> Inv(r.1, pipeline)
    ensures r.0 == -1 ==> r.1 == p
    ensures forall j :: 0 <= j < |p.slots| ==> r.1.slots[j].value == p.slots[j].value
  {
    var t := Pick(p.slots, ModuloProbe(|p.slots|, p.cursor), Admits(pipeline));
    if t == -1 then (-1, p)
    else (t, PoolState(p.slots[t := p.slots[t].(level := p.slots[t].level + 1)], t))
  }

  /** `put(value)`: the result and the new pool. */
  function PutStep<T>(p: PoolState<T>, value: T): (r: (bool, PoolState<T>))
    requires WellFormed(p)
    ensures WellFormed(r.1) && |r.1.slots| == |p.slots|
    ensures !r.0 ==> r.1 == p
    ensures forall j :: 0 <= j < |p.slots| ==> r.1.slots[j].level == p.slots[j].level
    ensures forall j :: 0 <= j < |p.slots| && p.slots[j].value.Some? ==> r.1.slots[j] == p.slots[j]
  {
    var t := Pick(p.slots, ModuloProbe(|p.slots|, p.cursor), CanPut);
    if t == -1 then (false, p)
    else (true, PoolState(p.slots[t := Holder(Some(value), 0)], t))
  }

  /** `release(ptr)`: one holder fewer, whatever the level was. */
  function ReleaseStep<T>(p: PoolState<T>, ptr: nat): (r: (bool, PoolState<T>))
    requires WellFormed(p) && ptr < |p.slots|
    ensures WellFormed(r.1) && |r.1.slots| == |p.slots|
    ensures r.1.cursor == p.cursor
    ensures forall j :: 0 <= j < |p.slots| ==> r.1.slots[j].value == p.slots[j].value
  {
    (true, p.(slots := p.slots[ptr := p.slots[ptr].(level := p.slots[ptr].level - 1)]))
  }

  function Min(a: int, b: int): int { if a <= b then a else b }

  /** What one slot contributes to `busy_pipes`. */
  function PipesHeld<T>(h: Holder<T>, pipeline: int): int
  {
    if h.level > 0 then Min(h.level, pipeline) else 0
  }

  /** `busy_pipes`: the sum of `min(level, pipeline)` over slots with a positive level. */
  function BusyPipes<T>(s: seq<Holder<T>>, pipeline: int): (r: int)
    ensures pipeline >= 0 ==> 0 <= r <= |s| * pipeline
  {
    if |s| == 0 then 0
    else BusyPipes(s[..|s| - 1], pipeline) + PipesHeld(s[|s| - 1], pipeline)
  }

  /** The six counts `getStats` reports. */
  datatype Stats = Stats(freeObjects: int, busyObjects: int, freePipes: int,
                         busyPipes: int, nullObjects: int, notnullObjects: int)

  /** `getStats()`: idle (level 0) slots, pipes in use and empty slots, and their complements. */
  function StatsOf<T>(s: seq<Holder<T>>, pipeline: int): (r: Stats)
    ensures 0 <= r.freeObjects <= |s| && 0 <= r.busyObjects <= |s|
    ensures 0 <= r.nullObjects <= |s| && 0 <= r.notnullObjects <= |s|
    ensures pipeline >= 0 ==> 0 <= r.busyPipes && 0 <= r.freePipes
  {
    var free := Count(s, IdleSlot);
    var busyPipes := BusyPipes(s, pipeline);
    var nullObjects := Count(s, EmptySlot);
    Stats(free, |s| - free, |s| * pipeline - busyPipes, busyPipes, nullObjects, |s| - nullObjects)
  }

  // ---------------------------------------------------------------------------
  // Properties of the operations

  /**
   * `acquire` raises the level of the first slot in probe order whose level
   * plus one stays below `pipeline`, by exactly one, and moves the cursor
   * there; every other level is as before, and the new level is below
   * `pipeline`. It returns -1 with nothing changed exactly when no slot other
   * than the cursor's admits one more holder.
   */
  lemma AcquireRaisesFirstAdmittingLevel<T>(p: PoolState<T>, pipeline: int)
    requires Inv(p, pipeline)
    ensures Inv(AcquireStep(p, pipeline).1, pipeline)
    ensures AcquireStep(p, pipeline).0 == -1 <==>
      forall j :: 0 <= j < |p.slots| && j != p.cursor ==> p.slots[j].level + 1 >= pipeline
    ensures AcquireStep(p, pipeline).0 == -1 ==> AcquireStep(p, pipeline).1 == p
    ensures var (h, q) := AcquireStep(p, pipeline);
      h != -1 ==> 0 <= h < |p.slots| && h != p.cursor && q.cursor == h
                  && FirstIn(p.slots, ModuloProbe(|p.slots|, p.cursor), Admits(pipeline), h)
                  && q.slots[h].level == p.slots[h].level + 1 < pipeline
                  && q.slots == p.slots[h := p.slots[h].(level := p.slots[h].level + 1)]
  {
    var probe := ModuloProbe(|p.slots|, p.cursor);
    var t := Pick(p.slots, probe, Admits(pipeline));
    ModuloProbeVisitsAllButCursor(|p.slots|, p.cursor);
    if t == -1 {
      forall j | 0 <= j < |p.slots| && j != p.cursor
        ensures p.slots[j].level + 1 >= pipeline
      {
        var k := ModuloProbePosition(|p.slots|, p.cursor, j);
        assert !Admits(pipeline)(p.slots[probe[k]]);
      }
    } else {
      assert t != p.cursor;
      assert Admits(pipeline)(p.slots[t]);
      var q := AcquireStep(p, pipeline).1;
      assert q.slots == p.slots[t := p.slots[t].(level := p.slots[t].level + 1)];
      assert LevelsBounded(q.slots, pipeline);
    }
  }

  /** When the `k`-th probed slot is the first to admit a holder, `acquire` takes it. */
  lemma AcquireAt<T>(p: PoolState<T>, pipeline: int, k: nat)
    requires WellFormed(p) && k < |p.slots| - 1
    requires var probe := ModuloProbe(|p.slots|, p.cursor);
      && Admits(pipeline)(p.slots[probe[k]])
      && forall m :: 0 <= m < k ==> !Admits(pipeline)(p.slots[probe[m]])
    ensures var t := ModuloProbe(|p.slots|, p.cursor)[k];
      AcquireStep(p, pipeline) == (t, PoolState(p.slots[t := p.slots[t].(level := p.slots[t].level + 1)], t))
  {
    PickAt(p.slots, ModuloProbe(|p.slots|, p.cursor), Admits(pipeline), k);
  }

  /**
   * `put` succeeds exactly when some slot other than the cursor's is empty at
   * level 0; it fills the first such slot in probe order, leaves its level at
   * 0, moves the cursor there and changes no other slot. Otherwise nothing
   * changes.
   */
  lemma PutFillsFirstIdleEmptySlot<T>(p: PoolState<T>, pipeline: int, value: T)
    requires Inv(p, pipeline)
    ensures Inv(PutStep(p, value).1, pipeline)
    ensures PutStep(p, value).0 <==>
      exists j :: 0 <= j < |p.slots| && j != p.cursor && CanPut(p.slots[j])
    ensures var (ok, q) := PutStep(p, value);
      ok ==> q.cursor != p.cursor && CanPut(p.slots[q.cursor])
             && FirstIn(p.slots, ModuloProbe(|p.slots|, p.cursor), CanPut, q.cursor)
             && q.slots == p.slots[q.cursor := Holder(Some(value), 0)]
    ensures !PutStep(p, value).0 ==> PutStep(p, value).1 == p
  {
    var probe := ModuloProbe(|p.slots|, p.cursor);
    var t := Pick(p.slots, probe, CanPut);
    ModuloProbeVisitsAllButCursor(|p.slots|, p.cursor);
    if t == -1 {
      forall j | 0 <= j < |p.slots| && j != p.cursor
        ensures !CanPut(p.slots[j])
      {
        var k := ModuloProbePosition(|p.slots|, p.cursor, j);
        assert !CanPut(p.slots[probe[k]]);
      }
    } else {
      assert t != p.cursor;
      var q := PutStep(p, value).1;
      assert q.slots == p.slots[t := Holder(Some(value), 0)];
      assert LevelsBounded(q.slots, pipeline);
    }
  }

  /**
   * `acquire` does not look at the value: in a fresh two-slot pool with
   * pipeline 2 it hands out the empty slot 1.
   */
  lemma AcquireTakesEmptySlot()
    ensures AcquireStep(Init<int>(2, 0), 2)
         == (1, PoolState([Holder(None, 0), Holder(None, 1)], 1))
  {
    var p := Init<int>(2, 0);
    assert p == PoolState([Holder(None, 0), Holder(None, 0)], 0);
    ModuloProbeAt(2, 0, 0);
    assert ModuloProbe(|p.slots|, p.cursor) == [1];
    assert FirstPos(p.slots, ModuloProbe(|p.slots|, p.cursor), Admits(2)) == 0;
    assert p.slots[1 := Holder(None, 1)] == [Holder(None, 0), Holder(None, 1)];
  }

  /**
   * With a pipeline of 1 or less, and no level below 0, `acquire` never
   * succeeds: a pipeline of `n` admits at most `n - 1` holders per slot.
   */
  lemma NarrowPipelineNeverAcquires<T>(p: PoolState<T>, pipeline: int)
    requires WellFormed(p) && pipeline <= 1
    requires forall i :: 0 <= i < |p.slots| ==> p.slots[i].level >= 0
    ensures AcquireStep(p, pipeline) == (-1, p)
  {
  }

  /**
   * `release` always returns true and lowers the level by one, touching no
   * other slot; the invariant is kept. Releasing an idle slot takes its level
   * below 0, after which `put` can no longer fill it and `getStats` counts it
   * neither as free nor as a busy pipe.
   */
  lemma ReleaseLowersLevel<T>(p: PoolState<T>, pipeline: int, ptr: nat)
    requires Inv(p, pipeline) && ptr < |p.slots|
    ensures var (ok, q) := ReleaseStep(p, ptr);
      && ok && Inv(q, pipeline) && q.cursor == p.cursor
      && q.slots[ptr].level == p.slots[ptr].level - 1
      && q.slots[ptr].value == p.slots[ptr].value
      && (forall j :: 0 <= j < |p.slots| && j != ptr ==> q.slots[j] == p.slots[j])
    ensures var q := ReleaseStep(p, ptr).1;
      p.slots[ptr].level == 0 ==>
        && q.slots[ptr].level < 0
        && !CanPut(q.slots[ptr]) && !IdleSlot(q.slots[ptr])
        && PipesHeld(q.slots[ptr], pipeline) == 0
  {
  }

  /** `busy_pipes` is never negative and, under the invariant, at most `Ceiling(pipeline)` per slot. */
  lemma {:induction false} BusyPipesBounded<T>(s: seq<Holder<T>>, pipeline: int)
    requires LevelsBounded(s, pipeline)
    ensures 0 <= BusyPipes(s, pipeline) <= |s| * Ceiling(pipeline)
  {
    if |s| > 0 {
      var init := s[..|s| - 1];
      assert LevelsBounded(init, pipeline) by {
        forall i | 0 <= i < |init| ensures init[i].level <= Ceiling(pipeline) {
          assert init[i] == s[i];
        }
      }
      BusyPipesBounded(init, pipeline);
      assert s[|s| - 1].level <= Ceiling(pipeline);
      assert |init| * Ceiling(pipeline) + Ceiling(pipeline) == |s| * Ceiling(pipeline);
    }
  }

  /**
   * The statistics add up: free plus busy objects and empty plus filled
   * objects are each the capacity, free plus busy pipes are
   * `capacity * pipeline`, and under the invariant the busy pipes fit in the
   * pipes there are, leaving at least one free pipe per slot.
   */
  lemma StatsAddUp<T>(s: seq<Holder<T>>, pipeline: int)
    ensures var st := StatsOf(s, pipeline);
      && st.freeObjects + st.busyObjects == |s|
      && st.freePipes + st.busyPipes == |s| * pipeline
      && st.nullObjects + st.notnullObjects == |s|
      && 0 <= st.freeObjects && 0 <= st.busyObjects
      && 0 <= st.nullObjects && 0 <= st.notnullObjects
    ensures LevelsBounded(s, pipeline) && pipeline >= 1 ==>
      0 <= StatsOf(s, pipeline).busyPipes && |s| <= StatsOf(s, pipeline).freePipes
  {
    if LevelsBounded(s, pipeline) && pipeline >= 1 {
      BusyPipesBounded(s, pipeline);
      assert |s| * Ceiling(pipeline) == |s| * pipeline - |s|;
    }
  }

  // ---------------------------------------------------------------------------
  // The pool object

  class PipelineRingPool<T> {
    const capacity: nat
    const pipeline: int
    const objects: array<Holder<T>>
    /** The calling thread's `localPointer`: where its next probe starts. */
    var cursor: nat

    ghost function State(): PoolState<T>
      reads this, objects
    {
      PoolState(objects[..], cursor)
    }

    ghost predicate Valid()
      reads this, objects
    {
      objects.Length == capacity && Inv(State(), pipeline)
    }

    /**
     * Every slot starts empty at level 0. `threadHash` stands for the calling
     * thread's `hashCode()`, from which `getLocalPointer` derives the cursor.
     */
    constructor (capacity: nat, pipeline: int, threadHash: nat)
      requires capacity > 0
      ensures Valid() && fresh(objects)
      ensures this.capacity == capacity && this.pipeline == pipeline
      ensures State() == Init(capacity, threadHash)
    {
      this.capacity := capacity;
      this.pipeline := pipeline;
      objects := new Holder<T>[capacity](_ => Holder(None, 0));
      cursor := threadHash % capacity;
    }

    /** `getLocalPointer()`: the cursor, always a slot index. */
    function LocalPointer(): (ptr: nat)
      reads this, objects
      requires Valid()
      ensures ptr < capacity && ptr < objects.Length
    {
      cursor
    }

    /**
     * `acquire()`: each probed slot's level is incremented; if it is then
     * below `pipeline` the slot is taken, otherwise the increment is undone.
     */
    method Acquire() returns (handle: int)
      requires Valid()
      modifies objects, this`cursor
      ensures Valid()
      ensures (handle, State()) == AcquireStep(old(State()), pipeline)
    {
      ghost var s := objects[..];
      var ptr := cursor;
      ghost var probe := ModuloProbe(capacity, ptr);
      var i := (ptr + 1) % capacity;
      ghost var k: nat := 0;
      assert i == Wrap(ptr + 1, capacity);
      while i != ptr
        invariant k <= capacity - 1 && i == Wrap(ptr + 1 + k, capacity)
        invariant forall m :: 0 <= m < k ==> !Admits(pipeline)(s[probe[m]])
        invariant objects[..] == s && cursor == ptr
        decreases capacity - 1 - k
      {
        ModuloProbeAt(capacity, ptr, k);
        var held := objects[i];
        var raised := held.(level := held.level + 1);
        objects[i] := raised;
        if raised.level < pipeline {
          cursor := i;
          assert objects[..] == s[i := raised];
          AcquireAt(old(State()), pipeline, k);
          return i;
        } else {
          objects[i] := held;
          assert objects[..] == s;
        }
        assert (i + 1) % capacity == Wrap(i + 1, capacity);
        i := (i + 1) % capacity;
        k := k + 1;
      }
      return -1;
    }

    /**
     * `put(value)`: an empty slot whose level goes from 0 to `pipeline` is
     * reserved, given the value and set back to level 0.
     */
    method Put(value: T) returns (ok: bool)
      requires Valid()
      modifies objects, this`cursor
      ensures Valid()
      ensures (ok, State()) == PutStep(old(State()), value)
    {
      ghost var s := objects[..];
      var ptr := cursor;
      ghost var probe := ModuloProbe(capacity, ptr);
      var i := (ptr + 1) % capacity;
      ghost var k: nat := 0;
      assert i == Wrap(ptr + 1, capacity);
      while i != ptr
        invariant k <= capacity - 1 && i == Wrap(ptr + 1 + k, capacity)
        invariant forall m :: 0 <= m < k ==> !CanPut(s[probe[m]])
        invariant objects[..] == s && cursor == ptr
        decreases capacity - 1 - k
      {
        ModuloProbeAt(capacity, ptr, k);
        if objects[i].value.None? {
          if objects[i].level == 0 {
            objects[i] := objects[i].(level := pipeline);
            objects[i] := objects[i].(value := Some(value));
            objects[i] := objects[i].(level := 0);
            cursor := i;
            assert objects[..] == s[i := Holder(Some(value), 0)];
            assert FirstPos(s, probe, CanPut) == k;
            PutFillsFirstIdleEmptySlot(old(State()), pipeline, value);
            return true;
          }
        }
        assert (i + 1) % capacity == Wrap(i + 1, capacity);
        i := (i + 1) % capacity;
        k := k + 1;
      }
      return false;
    }

    /** `release(ptr)`: decrements the level, always reporting success. */
    method Release(ptr: nat) returns (ok: bool)
      requires Valid() && ptr < capacity
      modifies objects
      ensures Valid()
      ensures (ok, State()) == ReleaseStep(old(State()), ptr)
    {
      ReleaseLowersLevel(State(), pipeline, ptr);
      objects[ptr] := objects[ptr].(level := objects[ptr].level - 1);
      return true;
    }

    /** `get(ptr)`: the slot's value, read without any ownership check. */
    function Get(ptr: nat): (v: Option<T>)
      reads this, objects
      requires Valid() && ptr < capacity
      ensures v == objects[ptr].value
    {
      objects[ptr].value
    }

    /** `delete(ptr, isAcquired)`: this pool never deletes. */
    method Delete(ptr: int, isAcquired: bool) returns (ok: bool)
      ensures !ok
    {
      return false;
    }

    /** `getStats()`: one scan counting idle slots, pipes in use and empty slots. */
    method GetStats() returns (stats: Stats)
      requires Valid()
      ensures stats == StatsOf(objects[..], pipeline)
      ensures stats.freeObjects + stats.busyObjects == capacity
      ensures stats.freePipes + stats.busyPipes == capacity * pipeline
      ensures stats.nullObjects + stats.notnullObjects == capacity
      ensures pipeline >= 1 ==> 0 <= stats.busyPipes && capacity <= stats.freePipes
    {
      var freeObjects, busyPipes, nullObjects := 0, 0, 0;
      var i := 0;
      while i < capacity
        invariant i <= capacity
        invariant freeObjects == Count(objects[..i], IdleSlot)
        invariant busyPipes == BusyPipes(objects[..i], pipeline)
        invariant nullObjects == Count(objects[..i], EmptySlot)
      {
        assert objects[..i + 1][..i] == objects[..i];
        var level := objects[i].level;
        if level == 0 {
          freeObjects := freeObjects + 1;
        }
        if level > 0 {
          busyPipes := busyPipes + Min(level, pipeline);
        }
        if objects[i].value.None? {
          nullObjects := nullObjects + 1;
        }
        i := i + 1;
      }
      assert objects[..i] == objects[..];
      StatsAddUp(objects[..], pipeline);
      stats := Stats(freeObjects, capacity - freeObjects, capacity * pipeline - busyPipes,
                     busyPipes, nullObjects, capacity - nullObjects);
    }

    /**
     * `busyLevel(ptr)`: the level capped at `pipeline`; with a pipeline of at
     * least 1 the cap never bites.
     */
    function BusyLevel(ptr: nat): (r: int)
      reads this, objects
      requires Valid() && ptr < capacity
      ensures r <= pipeline && r <= objects[ptr].level
      ensures r == objects[ptr].level || r == pipeline
      ensures pipeline >= 1 ==> r == objects[ptr].level < pipeline
    {
      Min(objects[ptr].level, pipeline)
    }
  }
}
