# Ring pools in Dafny

This project models the lock-free object pools of the `me.schiz.ringpool`
Java library, run by one thread at a time. Each pool is a fixed array of
slots. A slot holds an optional value and a state. Every operation scans the
array from a per-thread cursor and changes the first eligible slot with a
guarded compare-and-set. The model covers four classes:

- `BinaryRingPool` (module `BinaryPool`): a FREE/BUSY flag per slot.
- `PipelineRingPool` (module `PipelinePool`): a pipeline level per slot, so
  several holders can share one slot.
- `StateRingPool` (module `StatePool`): an integer state per slot, moved by
  `expect -> update` transitions, with an optional filter `fn` on values.
- `BlockingStateRingPool` (module `BlockingStatePool`): a `StateRingPool`
  plus a per-state counter map that its wrappers update after every
  successful transition.

Each pool appears twice:

- a pure snapshot: the slots as a `seq` plus the cursor, with one step
  function per operation (`PutStep`, `AcquireStep`, ...) and lemmas stating
  what each step does;
- a class that keeps the slots in an `array` and the cursor in a field. Its
  methods run the Java loops (the modulo probe
  `i = (ptr+1) % capacity; i != ptr` and the mask probe
  `j = 0, i = 0; j < capacity; i = (ptr + j++) & indexMask`). Each method is
  proved to have exactly the effect of the step function.

Shared pieces:

- `Probing`: the two probe orders, what they visit, and the choice of the
  first eligible slot.
- `Counting`: counts over sequences and sums over counter maps.
- `Wrappers`: `Option`, which stands for a nullable value.

A compare-and-set is modelled sequentially: the test "the slot is in the
expected state" followed by the write. Transient reservations are written
out and then undone: BUSY while `put` writes in `BinaryRingPool`, level
`pipeline` in `PipelineRingPool`, state -1 in `delete`. `getLocalPointer` is
the `cursor` field. The constructor sets it from a `threadHash` parameter,
which stands for `Thread.currentThread().hashCode()` and is taken to be
non-negative.

`StateRingPool` requires a power-of-two capacity. For such a capacity and a
non-negative `x`, `x & indexMask` equals `x % capacity`, and the model writes
the latter.

`BlockingStateRingPool` extends `StateRingPool` in Java. In the model it owns
a `StateRingPool` object instead. It does not override `put` or the
three-argument `release`, so those change no counters when called on the
inner pool. Its own `fn` and `getState` only delegate to the inner pool.

Four behaviours of the code are easy to misread; the model follows the
code:

- Pipeline `acquire` never looks at the value. The test at
  `PipelineRingPool.java:17` is on the holder, which is never null. So an
  empty slot can be acquired (`PipelinePool.AcquireTakesEmptySlot`).
- A pipeline level can drop below 0, because `release` decrements
  unconditionally (`PipelinePool.ReleaseLowersLevel`). Acquisition keeps
  every level at most `pipeline - 1`, so a slot has at most `pipeline - 1`
  holders, not `pipeline`.
- The mask probe does not visit every slot once. It examines slot 0 first
  and never examines `(ptr-1) & indexMask` unless that slot is 0
  (`Probing.MaskProbeVisits`).
- The modulo probe never examines the cursor's own slot
  (`Probing.ModuloProbeVisitsAllButCursor`).

## Model

| member | source | states |
|---|---|---|
| Probing.ModuloProbe | src/main/java/me/schiz/ringpool/BinaryRingPool.java:33 | defines the modulo probe; it has capacity-1 in-range indices |
| Probing.MaskProbe | src/main/java/me/schiz/ringpool/StateRingPool.java:28 | defines the mask probe; it has capacity in-range indices |
| Probing.ModuloProbeVisitsAllButCursor | src/main/java/me/schiz/ringpool/BinaryRingPool.java:33 | the modulo probe examines capacity-1 distinct in-range indices: every slot except the cursor's own |
| Probing.ModuloProbeSingleSlot | src/main/java/me/schiz/ringpool/BinaryRingPool.java:49 | with capacity 1 the modulo probe examines nothing |
| Probing.MaskProbeVisits | src/main/java/me/schiz/ringpool/StateRingPool.java:28 | the mask probe runs capacity iterations, examines slot 0 first, and examines slot j iff j is 0 or j is not (ptr-1) mod capacity |
| Probing.MaskProbeFromZeroMissesLast | src/main/java/me/schiz/ringpool/StateRingPool.java:82 | from cursor 0 the mask probe never examines the last slot |
| Probing.MaskProbePosition | src/main/java/me/schiz/ringpool/StateRingPool.java:28 | every slot the mask probe reaches has a position in the probe |
| BinaryPool.Init | src/main/java/me/schiz/ringpool/BinaryRingPool.java:12-20 | a new pool has capacity slots and satisfies the invariant (an empty slot is FREE) |
| BinaryPool.PutStep | src/main/java/me/schiz/ringpool/BinaryRingPool.java:31-44 | defines put on a snapshot; the result keeps the slot count and the invariant, a failed put changes nothing, and no slot that holds a value is touched |
| BinaryPool.AcquireStep | src/main/java/me/schiz/ringpool/BinaryRingPool.java:46-58 | defines acquire on a snapshot; the invariant is kept, -1 changes nothing, and no slot's value changes |
| BinaryPool.ReleaseStep | src/main/java/me/schiz/ringpool/BinaryRingPool.java:60-63 | defines release on a snapshot; the invariant is kept, the cursor stays, and no slot's value changes |
| BinaryPool.DeleteStep | src/main/java/me/schiz/ringpool/BinaryRingPool.java:70-79 | defines delete on a snapshot; the invariant is kept, the cursor stays, and every other slot is unchanged |
| BinaryPool.StatsOf | src/main/java/me/schiz/ringpool/BinaryRingPool.java:81-93 | defines getStats; each of the four counts lies between 0 and the capacity |
| BinaryPool.PutFillsFirstEmptySlot | src/main/java/me/schiz/ringpool/BinaryRingPool.java:31-44 | put succeeds iff some slot other than the cursor's is empty; it then fills the first empty FREE slot in probe order, leaves it FREE, moves the cursor there and changes no other slot; on failure nothing changes; the invariant is kept |
| BinaryPool.AcquireTakesFirstFreeValue | src/main/java/me/schiz/ringpool/BinaryRingPool.java:46-58 | acquire returns -1 with nothing changed iff no other slot holds a value and is FREE; otherwise the handle is in range, not the cursor, and the first slot in probe order that held a value and was FREE; it becomes BUSY and becomes the cursor, and nothing else changes |
| BinaryPool.PutTakesNextSlot | src/main/java/me/schiz/ringpool/BinaryRingPool.java:31-44 | when the slot after the cursor is empty and FREE, put fills exactly that slot |
| BinaryPool.AcquireTakesNextSlot | src/main/java/me/schiz/ringpool/BinaryRingPool.java:46-58 | when the slot after the cursor holds a value and is FREE, acquire takes exactly that slot |
| BinaryPool.SingleSlotPoolIsUnusable | src/main/java/me/schiz/ringpool/BinaryRingPool.java:31-58 | with one slot, put returns false and acquire returns -1, changing nothing |
| BinaryPool.ReleaseOnlyOnce | src/main/java/me/schiz/ringpool/BinaryRingPool.java:60-63 | release returns true iff the slot was BUSY, leaves it FREE, keeps the invariant; releasing it again returns false and changes nothing |
| BinaryPool.DeleteEmptiesUnlessHeld | src/main/java/me/schiz/ringpool/BinaryRingPool.java:70-79 | delete(ptr, false) on a BUSY slot returns false and changes nothing; otherwise the slot ends empty and FREE, no other slot changes, the invariant is kept |
| BinaryPool.StatsAddUp | src/main/java/me/schiz/ringpool/BinaryRingPool.java:81-93 | free + busy == capacity and null + notnull == capacity; busy counts the BUSY slots; under the invariant busy <= notnull |
| BinaryPool.FourPutsFillFourSlots | src/main/java/me/schiz/ringpool/BinaryRingPool.java:31-44 | from a fresh 4-slot pool with cursor 0, puts of 10, 20, 30, 40 fill slots 1, 2, 3, 0 in turn and a fifth put fails |
| BinaryPool.AcquireReleaseOnFullPool | src/main/java/me/schiz/ringpool/BinaryRingPool.java:46-63 | on that full pool acquire returns 1 (value 10) and marks it BUSY; releasing it succeeds once, then fails and changes nothing |
| BinaryPool.DeletesEmptyReleasedPool | src/main/java/me/schiz/ringpool/BinaryRingPool.java:70-93 | with nothing held, deleting slots 0..3 in turn empties the pool, and the stats read 4 free, 0 busy, 4 null, 0 notnull |
| BinaryPool.BinaryRingPool.constructor | src/main/java/me/schiz/ringpool/BinaryRingPool.java:12-20 | every slot starts empty and FREE; the cursor is the thread hash modulo capacity |
| BinaryPool.BinaryRingPool.LocalPointer | src/main/java/me/schiz/ringpool/BinaryRingPool.java:22-29 | the cursor is a slot index |
| BinaryPool.BinaryRingPool.Put | src/main/java/me/schiz/ringpool/BinaryRingPool.java:31-44 | the probing loop has exactly the effect of PutStep on the slots and cursor, and keeps the invariant |
| BinaryPool.BinaryRingPool.Acquire | src/main/java/me/schiz/ringpool/BinaryRingPool.java:46-58 | the probing loop has exactly the effect of AcquireStep, and keeps the invariant |
| BinaryPool.BinaryRingPool.Release | src/main/java/me/schiz/ringpool/BinaryRingPool.java:60-63 | has exactly the effect of ReleaseStep |
| BinaryPool.BinaryRingPool.Get | src/main/java/me/schiz/ringpool/BinaryRingPool.java:65-68 | returns the slot's value with no ownership check; an empty slot is FREE |
| BinaryPool.BinaryRingPool.Delete | src/main/java/me/schiz/ringpool/BinaryRingPool.java:70-79 | the reserve-clear-free sequence has exactly the effect of DeleteStep |
| BinaryPool.BinaryRingPool.GetStats | src/main/java/me/schiz/ringpool/BinaryRingPool.java:81-93 | the counting loop returns StatsOf of the slots; the counts add up to capacity and busy <= notnull |
| BinaryPool.BinaryRingPool.IsBusy | src/main/java/me/schiz/ringpool/BinaryRingPool.java:95-97 | returns whether the slot is BUSY; a BUSY slot holds a value |
| PipelinePool.Init | src/main/java/me/schiz/ringpool/PipelineRingPool.java:29-38 | a new pool has capacity empty slots at level 0 and satisfies the level bound for every pipeline |
| PipelinePool.AcquireStep | src/main/java/me/schiz/ringpool/PipelineRingPool.java:13-27 | defines acquire on a snapshot; the level bound for this pipeline is kept, -1 changes nothing, and no slot's value changes |
| PipelinePool.PutStep | src/main/java/me/schiz/ringpool/PipelineRingPool.java:49-62 | defines put on a snapshot; a failed put changes nothing, no level changes, and no slot that holds a value is touched |
| PipelinePool.ReleaseStep | src/main/java/me/schiz/ringpool/PipelineRingPool.java:64-68 | defines release on a snapshot; the cursor stays and no slot's value changes |
| PipelinePool.BusyPipes | src/main/java/me/schiz/ringpool/PipelineRingPool.java:80-97 | defines busy_pipes; for a non-negative pipeline it lies between 0 and capacity * pipeline |
| PipelinePool.StatsOf | src/main/java/me/schiz/ringpool/PipelineRingPool.java:80-97 | defines getStats; the object counts lie between 0 and the capacity, and for a non-negative pipeline both pipe counts are non-negative |
| PipelinePool.AcquireRaisesFirstAdmittingLevel | src/main/java/me/schiz/ringpool/PipelineRingPool.java:13-27 | acquire returns -1 with nothing changed iff no other slot has level+1 < pipeline; otherwise the taken slot is the first in probe order that admits one more holder, exactly its level rises by one, stays below pipeline, the cursor moves there, and the level bound is kept |
| PipelinePool.PutFillsFirstIdleEmptySlot | src/main/java/me/schiz/ringpool/PipelineRingPool.java:49-62 | put succeeds iff some other slot is empty at level 0; it fills the first such slot in probe order, leaves level 0, moves the cursor, changes nothing else; on failure nothing changes |
| PipelinePool.AcquireTakesEmptySlot | src/main/java/me/schiz/ringpool/PipelineRingPool.java:13-27 | in a fresh 2-slot pool with pipeline 2, acquire hands out slot 1 although it holds no value |
| PipelinePool.NarrowPipelineNeverAcquires | src/main/java/me/schiz/ringpool/PipelineRingPool.java:18 | with pipeline <= 1 and no negative level, acquire always returns -1: a pipeline of n admits at most n-1 holders |
| PipelinePool.ReleaseLowersLevel | src/main/java/me/schiz/ringpool/PipelineRingPool.java:64-68 | release always returns true, lowers exactly that level by one and keeps the bound; from level 0 the level goes negative, after which put cannot fill the slot and it counts as neither free nor a busy pipe |
| PipelinePool.BusyPipesBounded | src/main/java/me/schiz/ringpool/PipelineRingPool.java:80-97 | under the level bound, 0 <= busy_pipes <= capacity * (pipeline-1) |
| PipelinePool.StatsAddUp | src/main/java/me/schiz/ringpool/PipelineRingPool.java:80-97 | free + busy objects == capacity, free + busy pipes == capacity*pipeline, null + notnull == capacity; under the bound with pipeline >= 1, free_pipes >= capacity |
| PipelinePool.PipelineRingPool.constructor | src/main/java/me/schiz/ringpool/PipelineRingPool.java:29-38 | every slot starts empty at level 0; the cursor is the thread hash modulo capacity |
| PipelinePool.PipelineRingPool.LocalPointer | src/main/java/me/schiz/ringpool/PipelineRingPool.java:40-47 | the cursor is a slot index |
| PipelinePool.PipelineRingPool.Acquire | src/main/java/me/schiz/ringpool/PipelineRingPool.java:13-27 | the increment-test-undo loop has exactly the effect of AcquireStep and keeps the level bound |
| PipelinePool.PipelineRingPool.Put | src/main/java/me/schiz/ringpool/PipelineRingPool.java:49-62 | the reserve-write-reset loop has exactly the effect of PutStep |
| PipelinePool.PipelineRingPool.Release | src/main/java/me/schiz/ringpool/PipelineRingPool.java:64-68 | has exactly the effect of ReleaseStep: true, level minus one |
| PipelinePool.PipelineRingPool.Get | src/main/java/me/schiz/ringpool/PipelineRingPool.java:70-73 | returns the slot's value with no ownership check |
| PipelinePool.PipelineRingPool.Delete | src/main/java/me/schiz/ringpool/PipelineRingPool.java:75-78 | for any handle, in range or not, returns false and changes nothing |
| PipelinePool.PipelineRingPool.GetStats | src/main/java/me/schiz/ringpool/PipelineRingPool.java:80-97 | the summing loop returns StatsOf of the slots, with the identities of StatsAddUp |
| PipelinePool.PipelineRingPool.BusyLevel | src/main/java/me/schiz/ringpool/PipelineRingPool.java:99-101 | the level capped at pipeline: never above pipeline or the level, equal to one of them, and equal to the level when pipeline >= 1 |
| StatePool.Init | src/main/java/me/schiz/ringpool/StateRingPool.java:12-20 | a new pool has capacity slots, each empty in state 0 |
| StatePool.AcquireStep | src/main/java/me/schiz/ringpool/StateRingPool.java:22-41 | defines acquire on a snapshot; -1 changes nothing and no slot's value changes |
| StatePool.PutStep | src/main/java/me/schiz/ringpool/StateRingPool.java:80-91 | defines put on a snapshot; a failed put changes nothing and no slot that holds a value is touched |
| StatePool.ReleaseStep | src/main/java/me/schiz/ringpool/StateRingPool.java:43-50 | defines release on a snapshot; a failed release changes nothing, the cursor stays, and no slot's value changes |
| StatePool.SwapStep | src/main/java/me/schiz/ringpool/StateRingPool.java:52-54 | defines the two-argument release on a snapshot; the cursor stays and no slot's value changes |
| StatePool.DeleteStep | src/main/java/me/schiz/ringpool/StateRingPool.java:60-69 | defines delete on a snapshot; the cursor stays and every other slot is unchanged |
| StatePool.Census | src/main/java/me/schiz/ringpool/StateRingPool.java:97-106 | defines getStats; every state in the map has a count between 1 and the capacity |
| StatePool.ProbeExamines | src/main/java/me/schiz/ringpool/StateRingPool.java:28 | a slot is in the mask probe iff it is Examined: 0, or not (ptr-1) mod capacity |
| StatePool.AcquireTakesFirstMatch | src/main/java/me/schiz/ringpool/StateRingPool.java:22-41 | acquire returns -1 with nothing changed iff no examined slot holds a value in state expected that passes fn; otherwise the handle is the first such slot in probe order, its state becomes update, the cursor moves there, nothing else changes |
| StatePool.PutFillsFirstEmptySlot | src/main/java/me/schiz/ringpool/StateRingPool.java:80-91 | put succeeds iff some examined slot is empty, whatever its state; it fills the first one in probe order with the value and the given state, moves the cursor, changes nothing else; on failure nothing changes |
| StatePool.PutFromZeroSkipsLastSlot | src/main/java/me/schiz/ringpool/StateRingPool.java:80-91 | from cursor 0, put fails when all slots but the last hold values, even if the last is empty |
| StatePool.ReleaseRoundTrip | src/main/java/me/schiz/ringpool/StateRingPool.java:43-50 | release(ptr, expected, update) succeeds iff the state is expected, then leaves update and the reverse release restores the pool; on failure nothing changes |
| StatePool.SwapRoundTrip | src/main/java/me/schiz/ringpool/StateRingPool.java:52-54 | release(ptr, update) returns the previous state and sets update; setting the previous state back restores the pool |
| StatePool.DeleteEmptiesMatchingSlot | src/main/java/me/schiz/ringpool/StateRingPool.java:60-69 | delete(ptr, state) succeeds iff the slot is in state; it then ends empty in state 0; on failure nothing changes; no other slot changes |
| StatePool.AcquireReleaseDeleteCycle | src/main/java/me/schiz/ringpool/StateRingPool.java:26-91 | a slot acquired 0->1, released 1->2 and deleted in 2 ends empty in state 0, and the next put succeeds |
| StatePool.CensusCounts | src/main/java/me/schiz/ringpool/StateRingPool.java:97-106 | the stats map gives each state the number of slots in it, and has a key exactly for the states that occur |
| StatePool.CensusTotal | src/main/java/me/schiz/ringpool/StateRingPool.java:97-106 | the stats counts sum to the number of slots |
| StatePool.StateRingPool.constructor | src/main/java/me/schiz/ringpool/StateRingPool.java:12-24 | a power-of-two capacity; every slot empty in state 0; fn accepts everything |
| StatePool.StateRingPool.WithFilter | src/main/java/me/schiz/ringpool/StateRingPool.java:22-24 | the same pool with a given fn |
| StatePool.StateRingPool.LocalPointer | src/main/java/me/schiz/ringpool/StateRingPool.java:71-78 | the cursor is a slot index |
| StatePool.StateRingPool.Acquire | src/main/java/me/schiz/ringpool/StateRingPool.java:26-41 | the mask-probe loop has exactly the effect of AcquireStep |
| StatePool.StateRingPool.Release | src/main/java/me/schiz/ringpool/StateRingPool.java:43-50 | has exactly the effect of ReleaseStep |
| StatePool.StateRingPool.Swap | src/main/java/me/schiz/ringpool/StateRingPool.java:52-54 | has exactly the effect of SwapStep |
| StatePool.StateRingPool.Get | src/main/java/me/schiz/ringpool/StateRingPool.java:56-58 | returns the slot's value |
| StatePool.StateRingPool.Delete | src/main/java/me/schiz/ringpool/StateRingPool.java:60-69 | the reserve(-1)-clear-reset(0) sequence has exactly the effect of DeleteStep |
| StatePool.StateRingPool.Put | src/main/java/me/schiz/ringpool/StateRingPool.java:80-91 | the mask-probe loop has exactly the effect of PutStep |
| StatePool.StateRingPool.GetState | src/main/java/me/schiz/ringpool/StateRingPool.java:93-95 | returns the slot's state |
| StatePool.StateRingPool.GetStats | src/main/java/me/schiz/ringpool/StateRingPool.java:97-106 | the map-building loop returns the census: per-state counts that sum to capacity |
| BlockingStatePool.Incremented | src/main/java/me/schiz/ringpool/BlockingStateRingPool.java:109-120 | defines incr: the map gains the key, its counter is the old one (0 if absent) plus 1, and every other entry is kept |
| BlockingStatePool.Decremented | src/main/java/me/schiz/ringpool/BlockingStateRingPool.java:128-139 | defines decr: the map gains the key, its counter is the old one (0 if absent) minus 1, and every other entry is kept |
| BlockingStatePool.Moved | src/main/java/me/schiz/ringpool/BlockingStateRingPool.java:70-71 | defines decr(from) then incr(to): both keys present, from loses one and to gains one (no change when they are equal), every other entry is kept |
| BlockingStatePool.Tracks | src/main/java/me/schiz/ringpool/BlockingStateRingPool.java:67-107 | the counters agree, state by state, with the slots holding a value; when they do, each counter lies between 0 and the capacity |
| BlockingStatePool.IncrDecrChangeOneCounter | src/main/java/me/schiz/ringpool/BlockingStateRingPool.java:109-139 | incr/decr change only the named counter, by +1/-1 (a missing one counts as 0), add it as a key, and change the sum of counters by +1/-1 |
| BlockingStatePool.MoveKeepsTotal | src/main/java/me/schiz/ringpool/BlockingStateRingPool.java:67-107 | decr(from) then incr(to) lowers one counter, raises the other, and keeps the sum of all counters |
| BlockingStatePool.Put0KeepsTracking | src/main/java/me/schiz/ringpool/BlockingStateRingPool.java:87-91 | counters that agree per state with the held slots still agree after put0 |
| BlockingStatePool.Acquire0KeepsTracking | src/main/java/me/schiz/ringpool/BlockingStateRingPool.java:67-74 | counters that agree with the held slots still agree after acquire0 |
| BlockingStatePool.Release0KeepsTracking | src/main/java/me/schiz/ringpool/BlockingStateRingPool.java:93-100 | on a slot holding a value, agreeing counters still agree after release0 |
| BlockingStatePool.SwapKeepsTracking | src/main/java/me/schiz/ringpool/BlockingStateRingPool.java:102-107 | on a slot holding a value, agreeing counters still agree after release(ptr, update) |
| BlockingStatePool.Delete0KeepsTracking | src/main/java/me/schiz/ringpool/BlockingStateRingPool.java:76-85 | on a slot holding a value, agreeing counters still agree after delete0 |
| BlockingStatePool.DeleteOfEmptySlotDrifts | src/main/java/me/schiz/ringpool/BlockingStateRingPool.java:81-85 | deleting an empty slot in state 0 succeeds, changes no slot, and leaves the counter of state 0 one below the slots |
| BlockingStatePool.BlockingStateRingPool.constructor | src/main/java/me/schiz/ringpool/BlockingStateRingPool.java:11-14 | a fresh state pool with no counters, which agree with the (empty) slots |
| BlockingStatePool.BlockingStateRingPool.Incr | src/main/java/me/schiz/ringpool/BlockingStateRingPool.java:109-120 | counters[state] becomes old+1, or 1 if absent |
| BlockingStatePool.BlockingStateRingPool.Decr | src/main/java/me/schiz/ringpool/BlockingStateRingPool.java:128-139 | counters[state] becomes old-1, or -1 if absent |
| BlockingStatePool.BlockingStateRingPool.Acquire0 | src/main/java/me/schiz/ringpool/BlockingStateRingPool.java:67-74 | the pool changes as AcquireStep; on success one unit moves from expected to update, on -1 the counters are untouched; the sum of the counters is unchanged |
| BlockingStatePool.BlockingStateRingPool.Put0 | src/main/java/me/schiz/ringpool/BlockingStateRingPool.java:87-91 | the pool changes as PutStep; counters[state] rises by one exactly on success, and so does the sum of the counters |
| BlockingStatePool.BlockingStateRingPool.Delete0 | src/main/java/me/schiz/ringpool/BlockingStateRingPool.java:76-85 | the pool changes as DeleteStep; counters[state] falls by one exactly on success, and so does the sum of the counters |
| BlockingStatePool.BlockingStateRingPool.Release0 | src/main/java/me/schiz/ringpool/BlockingStateRingPool.java:93-100 | the pool changes as ReleaseStep; one unit moves from expected to update exactly on success; the sum of the counters is unchanged |
| BlockingStatePool.BlockingStateRingPool.Swap | src/main/java/me/schiz/ringpool/BlockingStateRingPool.java:102-107 | the pool changes as SwapStep; one unit always moves from the returned previous state to update; the sum of the counters is unchanged |

## Left out

- Concurrency is not modelled. That covers lock-freedom, linearizability,
  and interleavings between the reserve, write and restore steps. It also
  covers `volatile` and `lazySet` ordering and the `ConcurrentHashMap`
  `putIfAbsent` races in `incr` and `decr`. The model runs one thread.
- `ThreadLocal` and `Thread.hashCode()` are not modelled. The cursor is a
  field, set from a non-negative `threadHash` parameter. Java's negative `%`
  result for a negative hash is not modelled.
- Capacity 0 is excluded from `BinaryRingPool` and `PipelineRingPool`,
  because their probes compute `% capacity`, which throws for 0. In
  `StateRingPool` and `BlockingStateRingPool` it is excluded by the
  power-of-two requirement: the Java code uses `& indexMask` there, and with
  capacity 0 its `acquire` returns -1 and its `put` returns false.
- Handles outside `[0, capacity)` are excluded from every operation that
  reads or writes `objects[ptr]`, because Java then throws
  `ArrayIndexOutOfBoundsException`. `PipelineRingPool.delete` never touches
  the array and accepts any handle.
- `put(null)` is not modelled. A null value would read as an empty slot, and
  `put` takes a `T`.
- Java `int` overflow is not modelled: of pipeline levels, of
  `capacity * pipeline`, or of the counters. Integers are unbounded.
- StatePool.StateRingPool.constructor: a capacity that is not a power of two
  is excluded. `& indexMask` then differs from `% capacity`. The equality of
  the two for powers of two is stated, not proved.
- The blocking `acquire(expect, update, timeout, unit)` loop is not
  modelled, and neither is the `acquire(expect, update)` override that calls
  it. Their substance is `wait`, `System.nanoTime` deadlines and
  `TimeoutException`. `Acquire0` is the non-blocking step they retry.
- The `notify` in `incr` (`BlockingStateRingPool.java:121-125`) is not
  modelled, because it is a monitor operation.
- `BlockingStateRingPool.delete` is not a separate member, because it only
  forwards to `delete0`. `fn` and `getState` in that class only delegate to
  the inner pool's `accept` and `GetState`.
- BlockingStatePool.Release0KeepsTracking, SwapKeepsTracking and
  Delete0KeepsTracking require the handle to hold a value. On an empty slot
  the wrappers still change the counters, and they drift from the slots
  (`DeleteOfEmptySlotDrifts`).
- `BlockingBinaryRingPool` is not part of this model. It is monitor
  wait/notify and timeouts around `BinaryRingPool`.
- The `RingPool` interface is not part of this model, because it has no
  behaviour.
- The cache-line padding fields of `StateRingPool.Holder` are not modelled.
- The boxing of statistics into `HashMap<String, Object>` is not modelled.
  The statistics are a record (`Stats`) or a `map<int, int>`.
