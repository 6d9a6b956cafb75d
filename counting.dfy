/**
 * Counting over slot snapshots and summing over counter maps: the arithmetic
 * behind the pools' statistics and the per-state counters.
 */
module Counting {

  /** How many elements of `s` satisfy `p` (counted from the end, as a scan fills it). */
  function Count<S>(s: seq<S>, p: S -> bool): (n: nat)
    ensures n <= |s|
    ensures n == 0 <==> forall i :: 0 <= i < |s| ==> !p(s[i])
    decreases |s|
  {
    if s == [] then 0
    else Count(s[..|s| - 1], p) + (if p(s[|s| - 1]) then 1 else 0)
  }

  /** Two complementary predicates split a sequence between them. */
  lemma {:induction false} CountComplement<S>(s: seq<S>, p: S -> bool, q: S -> bool)
    requires forall x :: p(x) == !q(x)
    ensures Count(s, p) + Count(s, q) == |s|
    decreases |s|
  {
    if s != [] {
      CountComplement(s[..|s| - 1], p, q);
    }
  }

  /** A predicate that holds wherever another does counts at least as many elements. */
  lemma {:induction false} CountMonotone<S>(s: seq<S>, p: S -> bool, q: S -> bool)
    requires forall i :: 0 <= i < |s| ==> p(s[i]) ==> q(s[i])
    ensures Count(s, p) <= Count(s, q)
    decreases |s|
  {
    if s != [] {
      CountMonotone(s[..|s| - 1], p, q);
    }
  }

  /** Replacing one element changes a count by at most the two elements involved. */
  lemma {:induction false} CountUpdate<S>(s: seq<S>, i: nat, y: S, p: S -> bool)
    requires i < |s|
    ensures Count(s[i := y], p)
         == Count(s, p) - (if p(s[i]) then 1 else 0) + (if p(y) then 1 else 0)
    decreases |s|
  {
    var n := |s| - 1;
    if i == n {
      assert s[i := y][..n] == s[..n];
    } else {
      assert s[i := y][..n] == s[..n][i := y];
      CountUpdate(s[..n], i, y, p);
    }
  }

  /** The value a counter map holds for `k`, 0 for a missing key. */
  function CounterOf(m: map<int, int>, k: int): int
  {
    if k in m then m[k] else 0
  }

  /** A set that is not empty has an element. */
  lemma NonEmptyHasElement(keys: set<int>)
    ensures keys != {} ==> exists k :: k in keys
  {
    if forall k :: k !in keys {
      assert keys == {};
    }
  }

  /** The sum of all values of a counter map. */
  ghost function Total(m: map<int, int>): int
    decreases |m.Keys|
  {
    if m.Keys == {} then 0
    else
      NonEmptyHasElement(m.Keys);
      var k :| k in m.Keys;
      assert |(m - {k}).Keys| < |m.Keys| by { assert (m - {k}).Keys == m.Keys - {k}; }
      m[k] + Total(m - {k})
  }

  /** Any key can be taken out first when summing a counter map. */
  lemma {:induction false} TotalRemove(m: map<int, int>, k: int)
    requires k in m
    ensures Total(m) == m[k] + Total(m - {k})
    decreases |m.Keys|
  {
    var j :| j in m && Total(m) == m[j] + Total(m - {j});
    if j != k {
      assert (m - {j}).Keys == m.Keys - {j};
      assert (m - {k}).Keys == m.Keys - {k};
      TotalRemove(m - {j}, k);
      TotalRemove(m - {k}, j);
      assert m - {j} - {k} == m - {k} - {j};
    }
  }

  /** Setting one counter to `v` changes the sum by `v` minus its previous value. */
  lemma TotalUpdate(m: map<int, int>, k: int, v: int)
    ensures Total(m[k := v]) == Total(m) - CounterOf(m, k) + v
  {
    TotalRemove(m[k := v], k);
    if k in m {
      TotalRemove(m, k);
      assert m[k := v] - {k} == m - {k};
    } else {
      assert m[k := v] - {k} == m;
    }
  }
}
