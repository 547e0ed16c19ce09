/**
  * The in-place ternary quicksort: sequences of records, what rearranging a block means, and the
  * partitions still to be sorted.
  */
module QsortSpec {

  /** The comparison function is a total preorder: signs are opposite when swapped, and `<= 0` is transitive. */
  ghost predicate Preorder<T(!new)>(cmp: (T, T) -> int) {
    && (forall x, y :: (cmp(x, y) < 0 <==> cmp(y, x) > 0) && (cmp(x, y) == 0 <==> cmp(y, x) == 0))
    && (forall x, y, z :: cmp(x, y) <= 0 && cmp(y, z) <= 0 ==> cmp(x, z) <= 0)
  }

  ghost predicate Sorted<T>(cmp: (T, T) -> int, s: seq<T>) {
    forall i, j :: 0 <= i < j < |s| ==> cmp(s[i], s[j]) <= 0
  }

  /** `u` is `s` with the records of the block from `lo` up to `hi` permuted and all others in place. */
  ghost predicate Rearranged<T>(s: seq<T>, u: seq<T>, lo: int, hi: int) {
    && 0 <= lo <= hi <= |s| == |u|
    && (forall i :: 0 <= i < lo ==> u[i] == s[i])
    && (forall i :: hi <= i < |s| ==> u[i] == s[i])
    && multiset(u[lo..hi]) == multiset(s[lo..hi])
  }

  function Swapped<T>(s: seq<T>, i: int, j: int): seq<T>
    requires 0 <= i < |s| && 0 <= j < |s|
  {
    s[i := s[j]][j := s[i]]
  }

  lemma {:induction false} SwapRearranges<T>(s: seq<T>, i: int, j: int, lo: int, hi: int)
    requires 0 <= lo <= i < hi <= |s| && lo <= j < hi
    ensures Rearranged(s, Swapped(s, i, j), lo, hi)
  {
    assert Swapped(s, i, j)[lo..hi] == Swapped(s[lo..hi], i - lo, j - lo);
  }

  lemma {:induction false} RearrangedTrans<T>(s: seq<T>, u: seq<T>, w: seq<T>, lo: int, hi: int)
    requires Rearranged(s, u, lo, hi) && Rearranged(u, w, lo, hi)
    ensures Rearranged(s, w, lo, hi)
  {
  }

  /** Every record of a rearranged block was somewhere in it before. */
  lemma {:induction false} RearrangedFrom<T>(s: seq<T>, u: seq<T>, lo: int, hi: int, k: int) returns (j: int)
    requires Rearranged(s, u, lo, hi) && lo <= k < hi
    ensures lo <= j < hi && s[j] == u[k]
  {
    assert u[lo..hi][k - lo] == u[k];
    assert u[k] in multiset(s[lo..hi]);
    var i :| 0 <= i < hi - lo && s[lo..hi][i] == u[k];
    j := lo + i;
  }

  /** Rearranging a block rearranges the whole sequence. */
  lemma {:induction false} RearrangedWhole<T>(s: seq<T>, u: seq<T>, lo: int, hi: int)
    requires Rearranged(s, u, lo, hi)
    ensures multiset(u) == multiset(s)
  {
    assert s == s[..lo] + s[lo..hi] + s[hi..];
    assert u == u[..lo] + u[lo..hi] + u[hi..];
    assert s[..lo] == u[..lo] && s[hi..] == u[hi..];
  }

  /** A partition still to be sorted: `n` records from `lo`. */
  datatype Part = Part(lo: nat, n: nat)

  ghost predicate Holds(p: Part, i: int) {
    p.lo <= i < p.lo + p.n
  }

  ghost predicate Together(parts: seq<Part>, i: int, j: int) {
    exists k :: 0 <= k < |parts| && Holds(parts[k], i) && Holds(parts[k], j)
  }

  /** The pending partitions lie in the array and do not overlap. */
  ghost predicate Disjoint(parts: seq<Part>, len: nat) {
    && (forall k :: 0 <= k < |parts| ==> parts[k].lo + parts[k].n <= len)
    && (forall k, l, i :: 0 <= k < l < |parts| && Holds(parts[k], i) ==> !Holds(parts[l], i))
  }

  /** Any two records that are not in one pending partition are in order. */
  ghost predicate SortedExcept<T>(cmp: (T, T) -> int, s: seq<T>, parts: seq<Part>) {
    forall i, j :: 0 <= i < j < |s| && !Together(parts, i, j) ==> cmp(s[i], s[j]) <= 0
  }

  function Pow2(k: nat): (p: nat)
    ensures p >= 1
  {
    if k == 0 then 1 else 2 * Pow2(k - 1)
  }

  /** The size of a pending partition halves with every level of the stack. */
  ghost predicate Shrinking(parts: seq<Part>, len: nat) {
    forall k :: 0 <= k < |parts| ==> parts[k].n * Pow2(k) <= len
  }

  /** The records below index `b` are less than the pivot, those above `t` greater, those between equal to it. */
  ghost predicate ThreeWay<T>(cmp: (T, T) -> int, s: seq<T>, lo: int, b: int, t: int, hi: int, pivot: T) {
    && 0 <= lo <= b <= t < hi <= |s|
    && (forall i :: lo <= i < b ==> cmp(s[i], pivot) < 0)
    && (forall i :: b <= i <= t ==> cmp(s[i], pivot) == 0)
    && (forall i :: t < i < hi ==> cmp(s[i], pivot) > 0)
  }

  lemma {:induction false} ThreeWayOrder<T(!new)>(cmp: (T, T) -> int, s: seq<T>, lo: int, b: int, t: int, hi: int,
                                                  pivot: T, i: int, j: int)
    requires Preorder(cmp) && ThreeWay(cmp, s, lo, b, t, hi, pivot) && lo <= i < j < hi
    ensures cmp(s[i], s[j]) <= 0 || j < b || t < i
  {
    if b <= j && i <= t {
      assert cmp(s[i], pivot) <= 0 && cmp(pivot, s[j]) <= 0;
    }
  }

  /** What one pass leaves: the popped partition gives way to the records less and the records greater than the
      pivot. */
  lemma {:induction false} PassKeepsOrder<T(!new)>(cmp: (T, T) -> int, s: seq<T>, u: seq<T>, rest: seq<Part>, p: Part,
                                                   b: int, t: int, pivot: T, p1: Part, p2: Part)
    requires Preorder(cmp) && Disjoint(rest + [p], |s|) && SortedExcept(cmp, s, rest + [p])
    requires Rearranged(s, u, p.lo, p.lo + p.n) && ThreeWay(cmp, u, p.lo, b, t, p.lo + p.n, pivot)
    requires var below, above := Part(p.lo, b - p.lo), Part(t + 1, p.lo + p.n - t - 1);
             (p1 == below && p2 == above) || (p1 == above && p2 == below)
    ensures SortedExcept(cmp, u, rest + [p1, p2])
  {
    var after := rest + [p1, p2];
    forall i, j | 0 <= i < j < |u| && !Together(after, i, j)
      ensures cmp(u[i], u[j]) <= 0
    {
      if Holds(p, i) && Holds(p, j) {
        ThreeWayOrder(cmp, u, p.lo, b, t, p.lo + p.n, pivot, i, j);
        assert Holds(after[|rest|], i) && Holds(after[|rest|], j) ==> Together(after, i, j);
        assert Holds(after[|rest| + 1], i) && Holds(after[|rest| + 1], j) ==> Together(after, i, j);
      } else {
        PairOutside(cmp, s, u, rest, p, after, i, j);
      }
    }
  }

  /** A pair of which one record is outside the rearranged partition stays in order. */
  lemma {:induction false} PairOutside<T(!new)>(cmp: (T, T) -> int, s: seq<T>, u: seq<T>, rest: seq<Part>, p: Part,
                                                after: seq<Part>, i: int, j: int)
    requires Disjoint(rest + [p], |s|) && SortedExcept(cmp, s, rest + [p]) && Rearranged(s, u, p.lo, p.lo + p.n)
    requires |rest| <= |after| && after[..|rest|] == rest
    requires 0 <= i < j < |u| && !Together(after, i, j) && !(Holds(p, i) && Holds(p, j))
    ensures cmp(u[i], u[j]) <= 0
  {
    var i', j' := i, j;
    if Holds(p, i) {
      i' := RearrangedFrom(s, u, p.lo, p.lo + p.n, i);
    }
    if Holds(p, j) {
      j' := RearrangedFrom(s, u, p.lo, p.lo + p.n, j);
    }
    var parts := rest + [p];
    assert parts[|rest|] == p;
    forall k | 0 <= k < |parts|
      ensures !(Holds(parts[k], i') && Holds(parts[k], j'))
    {
      if k < |rest| {
        assert after[k] == rest[k] == parts[k];
      }
    }
  }

  /** The new partitions lie inside the popped one. */
  lemma {:induction false} PassKeepsDisjoint(rest: seq<Part>, p: Part, p1: Part, p2: Part, len: nat)
    requires Disjoint(rest + [p], len)
    requires p.lo <= p1.lo && p1.lo + p1.n <= p.lo + p.n && p.lo <= p2.lo && p2.lo + p2.n <= p.lo + p.n
    requires p1.lo + p1.n <= p2.lo || p2.lo + p2.n <= p1.lo
    ensures Disjoint(rest + [p1, p2], len)
  {
    var before, after := rest + [p], rest + [p1, p2];
    assert before[|rest|] == p;
    assert forall k | 0 <= k < |rest| :: after[k] == before[k] == rest[k];
    forall k, l, i | 0 <= k < l < |after| && Holds(after[k], i)
      ensures !Holds(after[l], i)
    {
      if k < |rest| && l >= |rest| {
        assert Holds(before[k], i);
        assert !Holds(p, i);
      }
    }
  }

  /** Pushing the larger partition first keeps the sizes halving. */
  lemma {:induction false} PassKeepsShrinking(rest: seq<Part>, p: Part, larger: Part, smaller: Part, len: nat)
    requires Shrinking(rest + [p], len) && larger.n + smaller.n < p.n && smaller.n <= larger.n
    ensures Shrinking(rest + [larger, smaller], len)
  {
    var before, after, j := rest + [p], rest + [larger, smaller], |rest|;
    assert before[j] == p;
    assert forall k | 0 <= k < j :: after[k] == before[k];
    ScaleUp(larger.n, p.n, Pow2(j));
    ScaleUp(2 * smaller.n, p.n, Pow2(j));
    assert smaller.n * Pow2(j + 1) == 2 * smaller.n * Pow2(j);
    forall k | 0 <= k < |after| ensures after[k].n * Pow2(k) <= len {
      if k < j {
        assert before[k].n * Pow2(k) <= len;
      }
    }
  }

  lemma {:induction false} ScaleUp(x: nat, y: nat, p: nat)
    requires x <= y
    ensures x * p <= y * p
  {
  }

  /** A sort of the popped partition settles it. */
  lemma {:induction false} SettledOrder<T(!new)>(cmp: (T, T) -> int, s: seq<T>, u: seq<T>, rest: seq<Part>, p: Part)
    requires Disjoint(rest + [p], |s|) && SortedExcept(cmp, s, rest + [p])
    requires Rearranged(s, u, p.lo, p.lo + p.n) && Sorted(cmp, u[p.lo..p.lo + p.n])
    ensures SortedExcept(cmp, u, rest) && Disjoint(rest, |s|)
  {
    assert forall k | 0 <= k < |rest| :: (rest + [p])[k] == rest[k];
    forall i, j | 0 <= i < j < |u| && !Together(rest, i, j)
      ensures cmp(u[i], u[j]) <= 0
    {
      if Holds(p, i) && Holds(p, j) {
        var v := u[p.lo..p.lo + p.n];
        assert v[i - p.lo] == u[i] && v[j - p.lo] == u[j];
      } else {
        PairOutside(cmp, s, u, rest, p, rest, i, j);
      }
    }
  }

  /** The integer part of the base-two logarithm. */
  function Log2(n: nat): (k: nat)
    requires n >= 1
    ensures Pow2(k) <= n < Pow2(k + 1)
  {
    if n == 1 then 0 else 1 + Log2(n / 2)
  }

  lemma {:induction false} Log2AtLeast(n: nat, k: nat)
    requires n >= 1 && Pow2(k) <= n
    ensures k <= Log2(n)
  {
    if k > 0 {
      Log2AtLeast(n / 2, k - 1);
    }
  }

  lemma {:induction false} Log2Below(n: nat, k: nat)
    requires 1 <= n < Pow2(k)
    ensures Log2(n) < k
  {
    if n > 1 {
      Log2Below(n / 2, k - 1);
    }
  }

  /** The number of stack entries that `len` records can need. */
  function Depth(len: nat): nat {
    if len == 0 then 1 else Log2(len) + 1
  }

  /** A partition large enough to be split leaves room for the two it becomes. */
  lemma {:induction false} RoomForTwo(rest: seq<Part>, p: Part, len: nat)
    requires Shrinking(rest + [p], len) && p.n >= 5
    ensures |rest| + 2 <= Depth(len)
  {
    var j := |rest|;
    assert (rest + [p])[j] == p;
    assert p.n * Pow2(j) <= len;
    ScaleUp(4, p.n, Pow2(j));
    assert Pow2(j + 2) == 4 * Pow2(j);
    Log2AtLeast(len, j + 2);
  }

  /** Record counts that fit an int need at most 31 entries. */
  lemma {:induction false} DepthFits(len: nat)
    requires len < 0x8000_0000
    ensures Depth(len) <= 31
  {
    assert Pow2(31) == 0x8000_0000 by {
      assert Pow2(8) == 256;
      assert Pow2(16) == 0x1_0000;
      assert Pow2(24) == 0x100_0000;
    }
    if len >= 1 {
      Log2Below(len, 31);
    }
  }

  /** What is left to do: it falls with every partition taken off the stack. */
  ghost function Weight(parts: seq<Part>): nat {
    if parts == [] then 0 else Weight(parts[..|parts| - 1]) + 2 * parts[|parts| - 1].n + 1
  }

  lemma {:induction false} WeightPush(rest: seq<Part>, p: Part)
    ensures Weight(rest + [p]) == Weight(rest) + 2 * p.n + 1
  {
    assert (rest + [p])[..|rest|] == rest;
  }

  lemma {:induction false} PassKeepsStack<T(!new)>(cmp: (T, T) -> int, s: seq<T>, u: seq<T>, rest: seq<Part>, p: Part,
                                                   b: int, t: int, hi: int, pivot: T)
    returns (below: Part, above: Part, after: seq<Part>)
    requires Preorder(cmp) && Pending(cmp, s, rest + [p]) && p.n >= 5 && hi == p.lo + p.n
    requires Rearranged(s, u, p.lo, hi) && ThreeWay(cmp, u, p.lo, b, t, hi, pivot)
    ensures below == Part(p.lo, b - p.lo) && above == Part(t + 1, hi - 1 - t)
    ensures after == rest + if below.n < above.n then [above, below] else [below, above]
    ensures Pending(cmp, u, after) && Weight(after) < Weight(rest + [p])
  {
    below, above := Part(p.lo, b - p.lo), Part(t + 1, hi - 1 - t);
    var p1, p2 := if below.n < above.n then above else below, if below.n < above.n then below else above;
    after := rest + [p1, p2];
    PassKeepsOrder(cmp, s, u, rest, p, b, t, pivot, p1, p2);
    PassKeepsDisjoint(rest, p, p1, p2, |s|);
    PassKeepsShrinking(rest, p, p1, p2, |s|);
    RoomForTwo(rest, p, |s|);
    WeightPush(rest, p);
    WeightPush(rest, p1);
    WeightPush(rest + [p1], p2);
    assert rest + [p1] + [p2] == after;
  }

  /** The stack of pending partitions between two passes. */
  ghost predicate Pending<T>(cmp: (T, T) -> int, s: seq<T>, parts: seq<Part>) {
    Disjoint(parts, |s|) && SortedExcept(cmp, s, parts) && Shrinking(parts, |s|) && |parts| <= Depth(|s|)
  }

  lemma {:induction false} PendingStart<T(!new)>(cmp: (T, T) -> int, s: seq<T>)
    ensures Pending(cmp, s, [Part(0, |s|)])
  {
    var parts := [Part(0, |s|)];
    forall i, j | 0 <= i < j < |s| ensures Together(parts, i, j) {
      assert Holds(parts[0], i) && Holds(parts[0], j);
    }
  }

  lemma {:induction false} PendingEnd<T(!new)>(cmp: (T, T) -> int, s: seq<T>)
    requires Pending(cmp, s, [])
    ensures Sorted(cmp, s)
  {
    assert forall i, j :: !Together([], i, j);
  }

  lemma {:induction false} SettledStack<T(!new)>(cmp: (T, T) -> int, s: seq<T>, u: seq<T>, rest: seq<Part>, p: Part,
                                                 hi: int)
    requires Pending(cmp, s, rest + [p]) && hi == p.lo + p.n
    requires Rearranged(s, u, p.lo, hi) && Sorted(cmp, u[p.lo..hi])
    ensures Pending(cmp, u, rest) && Weight(rest) < Weight(rest + [p])
  {
    SettledOrder(cmp, s, u, rest, p);
    WeightPush(rest, p);
    assert forall k | 0 <= k < |rest| :: (rest + [p])[k] == rest[k];
  }
}
