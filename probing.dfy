/**
 * The orders in which the pools scan their slot arrays, and the choice of the
 * first eligible slot in such an order.
 *
 * Two probe orders exist in the repository:
 *  - the modulo probe of BinaryRingPool and PipelineRingPool,
 *    `for (i = (ptr+1) % capacity; i != ptr; i = (i+1) % capacity)`;
 *  - the mask probe of StateRingPool,
 *    `for (j = 0, i = 0; j < capacity; i = (ptr + j++) & indexMask)`.
 */
module Probing {

  /** `x % c` for `0 <= x < 2c`, without a division. */
  function Wrap(x: nat, c: nat): (r: nat)
    requires 0 < c && x < 2 * c
    ensures r < c && r == x % c
  {
    if x < c then x else x - c
  }

  /** Every index of `probe` addresses one of `n` slots. */
  predicate InRange(probe: seq<nat>, n: nat)
  {
    forall k :: 0 <= k < |probe| ==> probe[k] < n
  }

  /**
   * The indices the modulo probe examines, in order, for cursor `ptr`:
   * `(ptr+1) % capacity`, `(ptr+2) % capacity`, ... until the index comes
   * back to `ptr`, which is not examined.
   */
  function ModuloProbe(capacity: nat, ptr: nat): (p: seq<nat>)
    requires ptr < capacity
    ensures |p| == capacity - 1 && InRange(p, capacity)
  {
    seq(capacity - 1, k requires 0 <= k < capacity - 1 => (ptr + 1 + k) % capacity)
  }

  /** The index the mask probe examines at iteration `j`. */
  function MaskStep(capacity: nat, ptr: nat, j: nat): nat
    requires ptr < capacity
  {
    if j == 0 then 0 else (ptr + j - 1) % capacity
  }

  /**
   * The indices the mask probe examines, in order, for cursor `ptr`: first
   * index 0 (the loop's initial `i = 0`), then `(ptr + k) & indexMask` for
   * `k = 0 .. capacity-2`. For a power-of-two capacity and `x >= 0`,
   * `x & (capacity-1)` is `x % capacity`, which is what is written here.
   */
  function MaskProbe(capacity: nat, ptr: nat): (p: seq<nat>)
    requires ptr < capacity
    ensures |p| == capacity && InRange(p, capacity)
  {
    seq(capacity, j requires 0 <= j < capacity => MaskStep(capacity, ptr, j))
  }

  /** The `k`-th index of the modulo probe, without a division. */
  lemma ModuloProbeAt(capacity: nat, ptr: nat, k: nat)
    requires ptr < capacity && k < capacity - 1
    ensures ModuloProbe(capacity, ptr)[k] == Wrap(ptr + 1 + k, capacity)
  {
  }

  /** The `j`-th index of the mask probe, without a division. */
  lemma MaskProbeAt(capacity: nat, ptr: nat, j: nat)
    requires ptr < capacity && 0 < j < capacity
    ensures MaskProbe(capacity, ptr)[j] == Wrap(ptr + j - 1, capacity)
  {
  }

  /** Where the modulo probe examines slot `j`, for any `j` other than the cursor. */
  lemma ModuloProbePosition(capacity: nat, ptr: nat, j: nat) returns (k: nat)
    requires ptr < capacity && j < capacity && j != ptr
    ensures k < capacity - 1 && ModuloProbe(capacity, ptr)[k] == j
  {
    k := if ptr < j then j - ptr - 1 else capacity - ptr - 1 + j;
    ModuloProbeAt(capacity, ptr, k);
  }

  /**
   * The modulo probe visits exactly the `capacity-1` indices other than the
   * cursor, each once, in increasing order from `ptr+1` with wrap-around.
   */
  lemma ModuloProbeVisitsAllButCursor(capacity: nat, ptr: nat)
    requires ptr < capacity
    ensures var p := ModuloProbe(capacity, ptr);
      && |p| == capacity - 1
      && InRange(p, capacity)
      && ptr !in p
      && (forall k1, k2 :: 0 <= k1 < k2 < |p| ==> p[k1] != p[k2])
      && (forall j :: 0 <= j < capacity && j != ptr ==> j in p)
  {
    var p := ModuloProbe(capacity, ptr);
    forall k | 0 <= k < |p|
      ensures p[k] < capacity && p[k] != ptr
    {
      ModuloProbeAt(capacity, ptr, k);
    }
    forall k1, k2 | 0 <= k1 < k2 < |p|
      ensures p[k1] != p[k2]
    {
      ModuloProbeAt(capacity, ptr, k1);
      ModuloProbeAt(capacity, ptr, k2);
    }
    forall j | 0 <= j < capacity && j != ptr
      ensures j in p
    {
      var k := ModuloProbePosition(capacity, ptr, j);
    }
  }

  /** With a single slot the modulo probe examines nothing. */
  lemma ModuloProbeSingleSlot(ptr: nat)
    requires ptr < 1
    ensures ModuloProbe(1, ptr) == []
  {
  }

  /**
   * The mask probe runs `capacity` iterations and examines index 0 first; it
   * reaches every index except `(ptr-1) & indexMask`, which it examines only
   * when that index is 0.
   */
  lemma MaskProbeVisits(capacity: nat, ptr: nat)
    requires ptr < capacity
    ensures var p := MaskProbe(capacity, ptr);
      && |p| == capacity
      && InRange(p, capacity)
      && (capacity > 0 ==> p[0] == 0)
      && (forall j :: j in p <==> 0 <= j < capacity && (j == 0 || j != (ptr + capacity - 1) % capacity))
  {
    var p := MaskProbe(capacity, ptr);
    var last := Wrap(ptr + capacity - 1, capacity);
    forall k | 0 < k < |p|
      ensures p[k] < capacity && p[k] != last
    {
      MaskProbeAt(capacity, ptr, k);
    }
    forall j | 0 <= j < capacity && (j == 0 || j != last)
      ensures j in p
    {
      if j == 0 {
        assert p[0] == 0;
      } else {
        var k := if ptr <= j then j - ptr + 1 else capacity - ptr + j + 1;
        MaskProbeAt(capacity, ptr, k);
      }
    }
  }

  /** The one slot the mask probe skips unless it is 0: `(ptr-1) & indexMask`. */
  function MaskSkipped(capacity: nat, ptr: nat): (r: nat)
    requires ptr < capacity
    ensures r < capacity && r == (ptr + capacity - 1) % capacity
  {
    Wrap(ptr + capacity - 1, capacity)
  }

  /** Every index the mask probe examines is 0 or not the skipped one. */
  lemma MaskProbeHits(capacity: nat, ptr: nat, k: nat)
    requires ptr < capacity && k < capacity
    ensures var j := MaskProbe(capacity, ptr)[k];
      j < capacity && (j == 0 || j != MaskSkipped(capacity, ptr))
  {
    if k > 0 {
      MaskProbeAt(capacity, ptr, k);
    }
  }

  /** Where the mask probe examines a slot it reaches. */
  lemma MaskProbePosition(capacity: nat, ptr: nat, j: nat) returns (k: nat)
    requires ptr < capacity && j < capacity
    requires j == 0 || j != MaskSkipped(capacity, ptr)
    ensures k < capacity && MaskProbe(capacity, ptr)[k] == j
  {
    if j == 0 {
      k := 0;
    } else {
      k := if ptr <= j then j - ptr + 1 else capacity - ptr + j + 1;
      MaskProbeAt(capacity, ptr, k);
    }
  }

  /** With cursor 0 and more than one slot, the mask probe never examines the last slot. */
  lemma MaskProbeFromZeroMissesLast(capacity: nat)
    requires capacity > 1
    ensures capacity - 1 !in MaskProbe(capacity, 0)
  {
    MaskProbeVisits(capacity, 0);
  }

  /**
   * The position in `probe` of the first index whose slot satisfies `ok`, or
   * -1 when no examined slot does.
   */
  function FirstPos<S>(s: seq<S>, probe: seq<nat>, ok: S -> bool): (r: int)
    requires InRange(probe, |s|)
    ensures -1 <= r < |probe|
    ensures 0 <= r ==> ok(s[probe[r]])
    ensures forall k :: 0 <= k < |probe| && (r < 0 || k < r) ==> !ok(s[probe[k]])
    decreases |probe|
  {
    if probe == [] then -1
    else if ok(s[probe[0]]) then 0
    else
      var r := FirstPos(s, probe[1..], ok);
      if r < 0 then -1 else r + 1
  }

  /** Slot `i` is examined by `probe`, and no slot examined before it satisfies `ok`. */
  predicate FirstIn<S>(s: seq<S>, probe: seq<nat>, ok: S -> bool, i: nat)
    requires InRange(probe, |s|)
  {
    exists k :: 0 <= k < |probe| && probe[k] == i && forall m :: 0 <= m < k ==> !ok(s[probe[m]])
  }

  /**
   * The slot index a probe settles on: the first examined index whose slot
   * satisfies `ok`, or -1.
   */
  function Pick<S>(s: seq<S>, probe: seq<nat>, ok: S -> bool): (i: int)
    requires InRange(probe, |s|)
    ensures i == -1 <==> forall k :: 0 <= k < |probe| ==> !ok(s[probe[k]])
    ensures i != -1 ==> 0 <= i < |s| && ok(s[i]) && i in probe
    ensures i != -1 ==> FirstIn(s, probe, ok, i)
  {
    var k := FirstPos(s, probe, ok);
    if k < 0 then -1 else probe[k]
  }

  /** When the `k`-th probed slot is the first to satisfy `ok`, it is the one picked. */
  lemma PickAt<S>(s: seq<S>, probe: seq<nat>, ok: S -> bool, k: nat)
    requires InRange(probe, |s|) && k < |probe| && ok(s[probe[k]])
    requires forall m :: 0 <= m < k ==> !ok(s[probe[m]])
    ensures FirstPos(s, probe, ok) == k && Pick(s, probe, ok) == probe[k]
  {
  }
}
