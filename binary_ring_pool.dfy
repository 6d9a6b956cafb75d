/**
 * BinaryRingPool: a fixed array of slots, each holding an optional value and a
 * FREE/BUSY flag, scanned from a per-thread cursor.
 *
 * Each operation is specified by a function on a snapshot of the pool (its
 * slots and the cursor); the class `BinaryRingPool` updates its array in place
 * and its methods are proved to have the snapshot effect of those functions.
 * Sequentially, `state.compareAndSet(FREE, BUSY)` is the test "the slot is
 * FREE" followed by the write; the transient BUSY that `put` and `delete` hold
 * while they write the value is written out, then released.
 */
module BinaryPool {
  import opened Wrappers
  import opened Probing
  import opened Counting

  /** `Holder.FREE` and `Holder.BUSY`: the two values of a slot's AtomicBoolean. */
  const FREE: bool := false
  const BUSY: bool := true

  /** One slot: its value (`null` is `None`) and its FREE/BUSY state. */
  datatype Holder<T> = Holder(value: Option<T>, busy: bool)

  predicate FreeSlot<T>(h: Holder<T>) { h.busy == FREE }
  predicate BusySlot<T>(h: Holder<T>) { h.busy == BUSY }
  predicate EmptySlot<T>(h: Holder<T>) { h.value.None? }
  predicate FilledSlot<T>(h: Holder<T>) { h.value.Some? }

  /** A slot `put` fills: empty, and its CAS from FREE to BUSY succeeds. */
  predicate CanPut<T>(h: Holder<T>) { h.value.None? && h.busy == FREE }

  /** A slot `acquire` hands out: holding a value, and FREE. */
  predicate CanAcquire<T>(h: Holder<T>) { h.value.Some? && h.busy == FREE }

  /** The pool's slots and the calling thread's cursor. */
  datatype PoolState<T> = PoolState(slots: seq<Holder<T>>, cursor: nat)

  predicate WellFormed<T>(p: PoolState<T>)
  {
    0 < |p.slots| && p.cursor < |p.slots|
  }

  /** The invariant every operation keeps: an empty slot is never BUSY. */
  predicate EmptyIsFree<T>(s: seq<Holder<T>>)
  {
    forall i :: 0 <= i < |s| ==> s[i].value.None? ==> s[i].busy == FREE
  }

  predicate Inv<T>(p: PoolState<T>)
  {
    WellFormed(p) && EmptyIsFree(p.slots)
  }

  /** The slots `put` and `acquire` examine, in order. */
  function Probe<T>(p: PoolState<T>): (probe: seq<nat>)
    requires WellFormed(p)
    ensures InRange(probe, |p.slots|) && |probe| == |p.slots| - 1
  {
    ModuloProbe(|p.slots|, p.cursor)
  }

  /**
   * A new pool: every slot empty and FREE; the cursor is what
   * `getLocalPointer` derives from the thread's hash code.
   */
  function Init<T>(capacity: nat, threadHash: nat): (p: PoolState<T>)
    requires capacity > 0
    ensures Inv(p) && |p.slots| == capacity
    ensures forall j :: 0 <= j < capacity ==> p.slots[j] == Holder(None, FREE)
    ensures p.cursor == threadHash % capacity
  {
    PoolState(seq(capacity, _ => Holder(None, FREE)), threadHash % capacity)
  }

  /** `put(value)`: the result and the new pool. */
  function PutStep<T>(p: PoolState<T>, value: T): (r: (bool, PoolState<T>))
    requires WellFormed(p)
    ensures WellFormed(r.1) && |r.1.slots| == |p.slots|
    ensures Inv(p) ==> Inv(r.1)
    ensures !r.0 ==> r.1 == p
    ensures forall j :: 0 <= j < |p.slots| && p.slots[j].value.Some? ==> r.1.slots[j] == p.slots[j]
  {
    var t := Pick(p.slots, Probe(p), CanPut);
    if t == -1 then (false, p)
    else (true, PoolState(p.slots[t := Holder(Some(value), FREE)], t))
  }

  /** `acquire()`: the handle (or -1) and the new pool. */
  function AcquireStep<T>(p: PoolState<T>): (r: (int, PoolState<T>))
    requires WellFormed(p)
    ensures WellFormed(r.1) && |r.1.slots| == |p.slots|
    ensures Inv(p) ==> Inv(r.1)
    ensures r.0 == -1 ==> r.1 == p
    ensures forall j :: 0 <= j < |p.slots| ==> r.1.slots[j].value == p.slots[j].value
  {
    var t := Pick(p.slots, Probe(p), CanAcquire);
    if t == -1 then (-1, p)
    else (t, PoolState(p.slots[t := p.slots[t].(busy := BUSY)], t))
  }

  /** `release(ptr)`: the CAS from BUSY to FREE. */
  function ReleaseStep<T>(p: PoolState<T>, ptr: nat): (r: (bool, PoolState<T>))
    requires WellFormed(p) && ptr < |p.slots|
    ensures WellFormed(r.1) && |r.1.slots| == |p.slots|
    ensures Inv(p) ==> Inv(r.1)
    ensures r.1.cursor == p.cursor
    ensures forall j :: 0 <= j < |p.slots| ==> r.1.slots[j].value == p.slots[j].value
  {
    if p.slots[ptr].busy == BUSY
    then (true, p.(slots := p.slots[ptr := p.slots[ptr].(busy := FREE)]))
    else (false, p)
  }

  /** `delete(ptr, isAcquired)`. */
  function DeleteStep<T>(p: PoolState<T>, ptr: nat, isAcquired: bool): (r: (bool, PoolState<T>))
    requires WellFormed(p) && ptr < |p.slots|
    ensures WellFormed(r.1) && |r.1.slots| == |p.slots|
    ensures Inv(p) ==> Inv(r.1)
    ensures r.1.cursor == p.cursor
    ensures forall j :: 0 <= j < |p.slots| && j != ptr ==> r.1.slots[j] == p.slots[j]
  {
    if !isAcquired && p.slots[ptr].busy == BUSY then (false, p)
    else (true, p.(slots := p.slots[ptr := Holder(None, FREE)]))
  }

  /** The four counts `getStats` reports. */
  datatype Stats = Stats(free: int, busy: int, nullObjects: int, notnullObjects: int)

  /** `getStats()`: FREE and empty slots are counted; BUSY and filled are the rest. */
  function StatsOf<T>(s: seq<Holder<T>>): (r: Stats)
    ensures 0 <= r.free <= |s| && 0 <= r.busy <= |s|
    ensures 0 <= r.nullObjects <= |s| && 0 <= r.notnullObjects <= |s|
  {
    var free := Count(s, FreeSlot);
    var nullObjects := Count(s, EmptySlot);
    Stats(free, |s| - free, nullObjects, |s| - nullObjects)
  }

  // ---------------------------------------------------------------------------
  // Properties of the operations

  /**
   * `put` succeeds exactly when some slot other than the cursor's is empty;
   * it then fills the first such slot in probe order, leaves it FREE, moves
   * the cursor there and changes no other slot. Otherwise nothing changes.
   */
  lemma PutFillsFirstEmptySlot<T>(p: PoolState<T>, value: T)
    requires Inv(p)
    ensures Inv(PutStep(p, value).1)
    ensures PutStep(p, value).0 <==> exists j :: 0 <= j < |p.slots| && j != p.cursor && p.slots[j].value.None?
    ensures var (ok, q) := PutStep(p, value);
      ok ==> q.cursor != p.cursor && p.slots[q.cursor].value.None?
             && FirstIn(p.slots, Probe(p), CanPut, q.cursor)
             && q.slots == p.slots[q.cursor := Holder(Some(value), FREE)]
    ensures !PutStep(p, value).0 ==> PutStep(p, value).1 == p
  {
    var probe := Probe(p);
    var t := Pick(p.slots, probe, CanPut);
    ModuloProbeVisitsAllButCursor(|p.slots|, p.cursor);
    if t == -1 {
      forall j | 0 <= j < |p.slots| && j != p.cursor
        ensures p.slots[j].value.Some?
      {
        var k := ModuloProbePosition(|p.slots|, p.cursor, j);
        assert !CanPut(p.slots[probe[k]]);
      }
    } else {
      assert t != p.cursor;
      var q := PutStep(p, value).1;
      assert q.slots == p.slots[t := Holder(Some(value), FREE)];
      assert EmptyIsFree(q.slots);
    }
  }

  /**
   * `acquire` hands out the first slot in probe order that holds a value and
   * is FREE, marks it BUSY and moves the cursor there; the handle is never the
   * cursor's own slot and never an empty slot. It returns -1 with nothing
   * changed exactly when no other slot holds a value and is FREE.
   */
  lemma AcquireTakesFirstFreeValue<T>(p: PoolState<T>)
    requires Inv(p)
    ensures Inv(AcquireStep(p).1)
    ensures AcquireStep(p).0 == -1 <==>
      forall j :: 0 <= j < |p.slots| && j != p.cursor ==> !CanAcquire(p.slots[j])
    ensures AcquireStep(p).0 == -1 ==> AcquireStep(p).1 == p
    ensures var (h, q) := AcquireStep(p);
      h != -1 ==> 0 <= h < |p.slots| && h != p.cursor && q.cursor == h
                  && p.slots[h].value.Some? && p.slots[h].busy == FREE
                  && FirstIn(p.slots, Probe(p), CanAcquire, h)
                  && q.slots == p.slots[h := p.slots[h].(busy := BUSY)]
  {
    var probe := Probe(p);
    var t := Pick(p.slots, probe, CanAcquire);
    ModuloProbeVisitsAllButCursor(|p.slots|, p.cursor);
    if t == -1 {
      forall j | 0 <= j < |p.slots| && j != p.cursor
        ensures !CanAcquire(p.slots[j])
      {
        var k := ModuloProbePosition(|p.slots|, p.cursor, j);
        assert !CanAcquire(p.slots[probe[k]]);
      }
    } else {
      assert t != p.cursor;
      var q := AcquireStep(p).1;
      assert q.slots == p.slots[t := p.slots[t].(busy := BUSY)];
      assert EmptyIsFree(q.slots);
    }
  }

  /** When the slot just after the cursor is empty and FREE, `put` takes it. */
  lemma PutTakesNextSlot<T>(p: PoolState<T>, value: T)
    requires WellFormed(p) && |p.slots| > 1
    requires CanPut(p.slots[(p.cursor + 1) % |p.slots|])
    ensures var next := (p.cursor + 1) % |p.slots|;
      PutStep(p, value) == (true, PoolState(p.slots[next := Holder(Some(value), FREE)], next))
  {
    ModuloProbeAt(|p.slots|, p.cursor, 0);
    assert FirstPos(p.slots, Probe(p), CanPut) == 0;
  }

  /** When the slot just after the cursor holds a value and is FREE, `acquire` takes it. */
  lemma AcquireTakesNextSlot<T>(p: PoolState<T>)
    requires WellFormed(p) && |p.slots| > 1
    requires CanAcquire(p.slots[(p.cursor + 1) % |p.slots|])
    ensures var next := (p.cursor + 1) % |p.slots|;
      AcquireStep(p) == (next, PoolState(p.slots[next := p.slots[next].(busy := BUSY)], next))
  {
    ModuloProbeAt(|p.slots|, p.cursor, 0);
    assert FirstPos(p.slots, Probe(p), CanAcquire) == 0;
  }

  /** With a single slot nothing is ever examined: `put` fails and `acquire` returns -1. */
  lemma SingleSlotPoolIsUnusable<T>(p: PoolState<T>, value: T)
    requires WellFormed(p) && |p.slots| == 1
    ensures PutStep(p, value) == (false, p)
    ensures AcquireStep(p) == (-1, p)
  {
    ModuloProbeSingleSlot(p.cursor);
  }

  /**
   * `release` succeeds exactly when the slot was BUSY and leaves it FREE with
   * its value; so releasing the same handle a second time fails.
   */
  lemma ReleaseOnlyOnce<T>(p: PoolState<T>, ptr: nat)
    requires Inv(p) && ptr < |p.slots|
    ensures var (ok, q) := ReleaseStep(p, ptr);
      && Inv(q)
      && ok == (p.slots[ptr].busy == BUSY)
      && q.slots[ptr] == p.slots[ptr].(busy := FREE)
      && ReleaseStep(q, ptr) == (false, q)
  {
  }

  /**
   * `delete(ptr, false)` refuses a BUSY slot and changes nothing; otherwise,
   * and always with `isAcquired`, the slot ends empty and FREE.
   */
  lemma DeleteEmptiesUnlessHeld<T>(p: PoolState<T>, ptr: nat, isAcquired: bool)
    requires Inv(p) && ptr < |p.slots|
    ensures var (ok, q) := DeleteStep(p, ptr, isAcquired);
      && Inv(q)
      && ok == (isAcquired || p.slots[ptr].busy == FREE)
      && (ok ==> q.slots[ptr] == Holder(None, FREE) && q.cursor == p.cursor)
      && (forall j :: 0 <= j < |p.slots| && j != ptr ==> q.slots[j] == p.slots[j])
      && (!ok ==> q == p)
  {
  }

  /**
   * The statistics add up: FREE plus BUSY slots and empty plus filled slots are
   * each the capacity, and under the invariant no more slots are BUSY than
   * hold a value.
   */
  lemma StatsAddUp<T>(s: seq<Holder<T>>)
    ensures var st := StatsOf(s);
      && st.busy == Count(s, BusySlot)
      && st.notnullObjects == Count(s, FilledSlot)
      && st.free + st.busy == |s| && st.nullObjects + st.notnullObjects == |s|
      && (EmptyIsFree(s) ==> st.busy <= st.notnullObjects)
  {
    CountComplement(s, FreeSlot, BusySlot);
    CountComplement(s, EmptySlot, FilledSlot);
    if EmptyIsFree(s) {
      CountMonotone(s, BusySlot, FilledSlot);
    }
  }

  /** The pool the four-slot walk-through fills: values 40, 10, 20, 30, all FREE, cursor 0. */
  function FullFourSlotPool(): PoolState<int>
  {
    PoolState([Holder(Some(40), FREE), Holder(Some(10), FREE),
               Holder(Some(20), FREE), Holder(Some(30), FREE)], 0)
  }

  /** Holder with the value `v`, FREE: what a successful `put(v)` leaves behind. */
  function Stored(v: int): Holder<int>
  {
    Holder(Some(v), FREE)
  }

  /** An empty FREE slot. */
  function Vacant(): Holder<int>
  {
    Holder(None, FREE)
  }

  /**
   * Four-slot walk-through, first half: from cursor 0, four puts fill slots
   * 1, 2, 3 and then wrap round to 0; a fifth put finds no slot.
   */
  lemma FourPutsFillFourSlots()
    ensures Init<int>(4, 0) == PoolState([Vacant(), Vacant(), Vacant(), Vacant()], 0)
    ensures PutStep(PoolState([Vacant(), Vacant(), Vacant(), Vacant()], 0), 10)
         == (true, PoolState([Vacant(), Stored(10), Vacant(), Vacant()], 1))
    ensures PutStep(PoolState([Vacant(), Stored(10), Vacant(), Vacant()], 1), 20)
         == (true, PoolState([Vacant(), Stored(10), Stored(20), Vacant()], 2))
    ensures PutStep(PoolState([Vacant(), Stored(10), Stored(20), Vacant()], 2), 30)
         == (true, PoolState([Vacant(), Stored(10), Stored(20), Stored(30)], 3))
    ensures PutStep(PoolState([Vacant(), Stored(10), Stored(20), Stored(30)], 3), 40)
         == (true, FullFourSlotPool())
    ensures PutStep(FullFourSlotPool(), 50) == (false, FullFourSlotPool())
  {
    FirstPut();
    SecondPut();
    ThirdPut();
    FourthPut();
    FifthPut();
  }

  lemma FifthPut()
    ensures PutStep(FullFourSlotPool(), 50) == (false, FullFourSlotPool())
  {
    PutFillsFirstEmptySlot(FullFourSlotPool(), 50);
  }

  lemma FirstPut()
    ensures PutStep(PoolState([Vacant(), Vacant(), Vacant(), Vacant()], 0), 10)
         == (true, PoolState([Vacant(), Stored(10), Vacant(), Vacant()], 1))
  {
    PutTakesNextSlot(PoolState([Vacant(), Vacant(), Vacant(), Vacant()], 0), 10);
    assert [Vacant(), Vacant(), Vacant(), Vacant()][1 := Stored(10)]
        == [Vacant(), Stored(10), Vacant(), Vacant()];
  }

  lemma SecondPut()
    ensures PutStep(PoolState([Vacant(), Stored(10), Vacant(), Vacant()], 1), 20)
         == (true, PoolState([Vacant(), Stored(10), Stored(20), Vacant()], 2))
  {
    PutTakesNextSlot(PoolState([Vacant(), Stored(10), Vacant(), Vacant()], 1), 20);
    assert [Vacant(), Stored(10), Vacant(), Vacant()][2 := Stored(20)]
        == [Vacant(), Stored(10), Stored(20), Vacant()];
  }

  lemma ThirdPut()
    ensures PutStep(PoolState([Vacant(), Stored(10), Stored(20), Vacant()], 2), 30)
         == (true, PoolState([Vacant(), Stored(10), Stored(20), Stored(30)], 3))
  {
    PutTakesNextSlot(PoolState([Vacant(), Stored(10), Stored(20), Vacant()], 2), 30);
    assert [Vacant(), Stored(10), Stored(20), Vacant()][3 := Stored(30)]
        == [Vacant(), Stored(10), Stored(20), Stored(30)];
  }

  lemma FourthPut()
    ensures PutStep(PoolState([Vacant(), Stored(10), Stored(20), Stored(30)], 3), 40)
         == (true, FullFourSlotPool())
  {
    PutTakesNextSlot(PoolState([Vacant(), Stored(10), Stored(20), Stored(30)], 3), 40);
    assert [Vacant(), Stored(10), Stored(20), Stored(30)][0 := Stored(40)]
        == FullFourSlotPool().slots;
  }

  /**
   * Four-slot walk-through, second half: on the full pool `acquire` takes
   * slot 1 (value 10), and releasing it succeeds once only.
   */
  lemma AcquireReleaseOnFullPool()
    ensures AcquireStep(FullFourSlotPool())
         == (1, PoolState([Stored(40), Held(10), Stored(20), Stored(30)], 1))
    ensures ReleaseStep(PoolState([Stored(40), Held(10), Stored(20), Stored(30)], 1), 1)
         == (true, PoolState([Stored(40), Stored(10), Stored(20), Stored(30)], 1))
    ensures ReleaseStep(PoolState([Stored(40), Stored(10), Stored(20), Stored(30)], 1), 1)
         == (false, PoolState([Stored(40), Stored(10), Stored(20), Stored(30)], 1))
  {
    FirstAcquire();
    FirstRelease();
  }

  /**
   * Four-slot walk-through, end: with nothing held, deleting slots 0..3 in
   * turn empties the pool, and the statistics then report four FREE, empty
   * slots.
   */
  lemma DeletesEmptyReleasedPool()
    ensures DeleteStep(PoolState([Stored(40), Stored(10), Stored(20), Stored(30)], 1), 0, false)
         == (true, PoolState([Vacant(), Stored(10), Stored(20), Stored(30)], 1))
    ensures DeleteStep(PoolState([Vacant(), Stored(10), Stored(20), Stored(30)], 1), 1, false)
         == (true, PoolState([Vacant(), Vacant(), Stored(20), Stored(30)], 1))
    ensures DeleteStep(PoolState([Vacant(), Vacant(), Stored(20), Stored(30)], 1), 2, false)
         == (true, PoolState([Vacant(), Vacant(), Vacant(), Stored(30)], 1))
    ensures DeleteStep(PoolState([Vacant(), Vacant(), Vacant(), Stored(30)], 1), 3, false)
         == (true, PoolState([Vacant(), Vacant(), Vacant(), Vacant()], 1))
    ensures StatsOf([Vacant(), Vacant(), Vacant(), Vacant()]) == Stats(4, 0, 4, 0)
  {
    DeleteEach();
    StatsAddUp([Vacant(), Vacant(), Vacant(), Vacant()]);
  }

  /** Holder with the value `v`, acquired. */
  function Held(v: int): Holder<int>
  {
    Holder(Some(v), BUSY)
  }

  lemma FirstAcquire()
    ensures AcquireStep(FullFourSlotPool())
         == (1, PoolState([Stored(40), Held(10), Stored(20), Stored(30)], 1))
  {
    AcquireTakesNextSlot(FullFourSlotPool());
    assert FullFourSlotPool().slots[1 := Held(10)] == [Stored(40), Held(10), Stored(20), Stored(30)];
  }

  lemma FirstRelease()
    ensures ReleaseStep(PoolState([Stored(40), Held(10), Stored(20), Stored(30)], 1), 1)
         == (true, PoolState([Stored(40), Stored(10), Stored(20), Stored(30)], 1))
  {
    assert [Stored(40), Held(10), Stored(20), Stored(30)][1 := Stored(10)]
        == [Stored(40), Stored(10), Stored(20), Stored(30)];
  }

  lemma DeleteEach()
    ensures DeleteStep(PoolState([Stored(40), Stored(10), Stored(20), Stored(30)], 1), 0, false)
         == (true, PoolState([Vacant(), Stored(10), Stored(20), Stored(30)], 1))
    ensures DeleteStep(PoolState([Vacant(), Stored(10), Stored(20), Stored(30)], 1), 1, false)
         == (true, PoolState([Vacant(), Vacant(), Stored(20), Stored(30)], 1))
    ensures DeleteStep(PoolState([Vacant(), Vacant(), Stored(20), Stored(30)], 1), 2, false)
         == (true, PoolState([Vacant(), Vacant(), Vacant(), Stored(30)], 1))
    ensures DeleteStep(PoolState([Vacant(), Vacant(), Vacant(), Stored(30)], 1), 3, false)
         == (true, PoolState([Vacant(), Vacant(), Vacant(), Vacant()], 1))
  {
    assert [Stored(40), Stored(10), Stored(20), Stored(30)][0 := Vacant()]
        == [Vacant(), Stored(10), Stored(20), Stored(30)];
    assert [Vacant(), Stored(10), Stored(20), Stored(30)][1 := Vacant()]
        == [Vacant(), Vacant(), Stored(20), Stored(30)];
    assert [Vacant(), Vacant(), Stored(20), Stored(30)][2 := Vacant()]
        == [Vacant(), Vacant(), Vacant(), Stored(30)];
    assert [Vacant(), Vacant(), Vacant(), Stored(30)][3 := Vacant()]
        == [Vacant(), Vacant(), Vacant(), Vacant()];
  }

  // ---------------------------------------------------------------------------
  // The pool object

  class BinaryRingPool<T> {
    const capacity: nat
    const objects: array<Holder<T>>
    /** The calling thread's `localPointer`: where its next probe starts. */
    var cursor: nat

    ghost function State(): PoolState<T>
      reads this, objects
    {
      PoolState(objects[..], cursor)
    }

    ghost predicate Valid()
      reads this, objects
    {
      objects.Length == capacity && Inv(State())
    }

    /**
     * Every slot starts empty and FREE. `threadHash` stands for the calling
     * thread's `hashCode()`, from which `getLocalPointer` derives the cursor.
     */
    constructor (capacity: nat, threadHash: nat)
      requires capacity > 0
      ensures Valid() && fresh(objects) && this.capacity == capacity
      ensures State() == Init(capacity, threadHash)
    {
      this.capacity := capacity;
      objects := new Holder<T>[capacity](_ => Holder(None, FREE));
      cursor := threadHash % capacity;
    }

    /** `getLocalPointer()`: the cursor, always a slot index. */
    function LocalPointer(): (ptr: nat)
      reads this, objects
      requires Valid()
      ensures ptr < capacity && ptr < objects.Length
    {
      cursor
    }

    /** `put(value)`, probing from the cursor with `(i + 1) % capacity`. */
    method Put(value: T) returns (ok: bool)
      requires Valid()
      modifies objects, this`cursor
      ensures Valid()
      ensures (ok, State()) == PutStep(old(State()), value)
    {
      ghost var s := objects[..];
      var ptr := cursor;
      ghost var probe := ModuloProbe(capacity, ptr);
      var i := (ptr + 1) % capacity;
      ghost var k: nat := 0;
      assert i == Wrap(ptr + 1, capacity);
      while i != ptr
        invariant k <= capacity - 1 && i == Wrap(ptr + 1 + k, capacity)
        invariant forall m :: 0 <= m < k ==> !CanPut(s[probe[m]])
        invariant objects[..] == s && cursor == ptr
        decreases capacity - 1 - k
      {
        ModuloProbeAt(capacity, ptr, k);
        if objects[i].value.None? {
          if objects[i].busy == FREE {
            objects[i] := objects[i].(busy := BUSY);
            objects[i] := objects[i].(value := Some(value));
            objects[i] := objects[i].(busy := FREE);
            cursor := i;
            assert objects[..] == s[i := Holder(Some(value), FREE)];
            assert FirstPos(s, probe, CanPut) == k;
            return true;
          }
        }
        assert (i + 1) % capacity == Wrap(i + 1, capacity);
        i := (i + 1) % capacity;
        k := k + 1;
      }
      return false;
    }

    /** `acquire()`, probing like `put`. */
    method Acquire() returns (handle: int)
      requires Valid()
      modifies objects, this`cursor
      ensures Valid()
      ensures (handle, State()) == AcquireStep(old(State()))
    {
      ghost var s := objects[..];
      var ptr := cursor;
      ghost var probe := ModuloProbe(capacity, ptr);
      var i := (ptr + 1) % capacity;
      ghost var k: nat := 0;
      assert i == Wrap(ptr + 1, capacity);
      while i != ptr
        invariant k <= capacity - 1 && i == Wrap(ptr + 1 + k, capacity)
        invariant forall m :: 0 <= m < k ==> !CanAcquire(s[probe[m]])
        invariant objects[..] == s && cursor == ptr
        decreases capacity - 1 - k
      {
        ModuloProbeAt(capacity, ptr, k);
        if objects[i].value.Some? {
          if objects[i].busy == FREE {
            objects[i] := objects[i].(busy := BUSY);
            cursor := i;
            assert FirstPos(s, probe, CanAcquire) == k;
            return i;
          }
        }
        assert (i + 1) % capacity == Wrap(i + 1, capacity);
        i := (i + 1) % capacity;
        k := k + 1;
      }
      return -1;
    }

    /** `release(ptr)`. */
    method Release(ptr: nat) returns (ok: bool)
      requires Valid() && ptr < capacity
      modifies objects
      ensures Valid()
      ensures (ok, State()) == ReleaseStep(old(State()), ptr)
    {
      ReleaseOnlyOnce(State(), ptr);
      ok := objects[ptr].busy == BUSY;
      if ok {
        objects[ptr] := objects[ptr].(busy := FREE);
      }
    }

    /** `get(ptr)`: the slot's value, read without any ownership check. */
    function Get(ptr: nat): (v: Option<T>)
      reads this, objects
      requires Valid() && ptr < capacity
      ensures v == objects[ptr].value
      ensures v.None? ==> objects[ptr].busy == FREE
    {
      objects[ptr].value
    }

    /** `delete(ptr, isAcquired)`. */
    method Delete(ptr: nat, isAcquired: bool) returns (ok: bool)
      requires Valid() && ptr < capacity
      modifies objects
      ensures Valid()
      ensures (ok, State()) == DeleteStep(old(State()), ptr, isAcquired)
    {
      DeleteEmptiesUnlessHeld(State(), ptr, isAcquired);
      var acquired := isAcquired;
      if !acquired {
        acquired := objects[ptr].busy == FREE;
        if acquired {
          objects[ptr] := objects[ptr].(busy := BUSY);
        }
        if !acquired {
          return false;
        }
      }
      objects[ptr] := objects[ptr].(value := None);
      objects[ptr] := objects[ptr].(busy := FREE);
      assert objects[..] == old(objects[..])[ptr := Holder(None, FREE)];
      return true;
    }

    /** `getStats()`: one scan counting FREE slots and empty slots. */
    method GetStats() returns (stats: Stats)
      requires Valid()
      ensures stats == StatsOf(objects[..])
      ensures stats.free + stats.busy == capacity && stats.busy == Count(objects[..], BusySlot)
      ensures stats.nullObjects + stats.notnullObjects == capacity
      ensures stats.busy <= stats.notnullObjects
    {
      var free, nullObjects := 0, 0;
      var i := 0;
      while i < capacity
        invariant i <= capacity
        invariant free == Count(objects[..i], FreeSlot)
        invariant nullObjects == Count(objects[..i], EmptySlot)
      {
        assert objects[..i + 1][..i] == objects[..i];
        if objects[i].busy == FREE {
          free := free + 1;
        }
        if objects[i].value.None? {
          nullObjects := nullObjects + 1;
        }
        i := i + 1;
      }
      assert objects[..i] == objects[..];
      StatsAddUp(objects[..]);
      stats := Stats(free, capacity - free, nullObjects, capacity - nullObjects);
    }

    /** `isBusy(ptr)`: the slot's state; a BUSY slot always holds a value. */
    function IsBusy(ptr: nat): (b: bool)
      reads this, objects
      requires Valid() && ptr < capacity
      ensures b == (objects[ptr].busy == BUSY)
      ensures b ==> objects[ptr].value.Some?
    {
      objects[ptr].busy
    }
  }
}
