/**
  * The quicksort itself: pivot choice, partitioning with duplicates parked at both ends, an explicit
  * stack of pending partitions, and insertion sort for the small ones.
  */
module Qsort {
  import opened QsortSpec

  const THRESH_L := 5
  const THRESH_M3 := 20
  const THRESH_M9 := 50

  /** The number of stack entries: 8 * sizeof (size_t) + 1. */
  const STACK_SIZE := 65

  method Swap<T>(a: array<T>, i: nat, j: nat)
    requires i < a.Length && j < a.Length
    modifies a
    ensures a[..] == Swapped(old(a[..]), i, j)
  {
    a[i], a[j] := a[j], a[i];
  }

  /** Swap two records of the block being rearranged since `s`. */
  method SwapWithin<T>(a: array<T>, i: nat, j: nat, ghost s: seq<T>, ghost lo: int, ghost hi: int)
    requires Rearranged(s, a[..], lo, hi) && lo <= i < hi && lo <= j < hi
    modifies a
    ensures a[..] == Swapped(old(a[..]), i, j) && Rearranged(s, a[..], lo, hi)
  {
    ghost var u := a[..];
    Swap(a, i, j);
    SwapRearranges(u, i, j, lo, hi);
    RearrangedTrans(s, u, a[..], lo, hi);
  }

  /** A swap below `m` leaves everything from `m` on alone. */
  method SwapLow<T>(a: array<T>, i: nat, j: nat, ghost m: nat, ghost s: seq<T>, ghost lo: int, ghost hi: int)
    requires Rearranged(s, a[..], lo, hi) && lo <= i < m < hi && lo <= j < m
    modifies a
    ensures a[..] == Swapped(old(a[..]), i, j) && Rearranged(s, a[..], lo, hi) && a[m..] == old(a[m..])
  {
    SwapWithin(a, i, j, s, lo, hi);
  }

  /** A swap above `m` leaves everything up to `m` alone. */
  method SwapHigh<T>(a: array<T>, i: nat, j: nat, ghost m: nat, ghost s: seq<T>, ghost lo: int, ghost hi: int)
    requires Rearranged(s, a[..], lo, hi) && lo <= m < i < hi && m < j < hi
    modifies a
    ensures a[..] == Swapped(old(a[..]), i, j) && Rearranged(s, a[..], lo, hi) && a[..m + 1] == old(a[..m + 1])
  {
    SwapWithin(a, i, j, s, lo, hi);
  }

  /** Comparing with a record equal to the pivot is comparing with the pivot. */
  lemma {:induction false} SameSide<T(!new)>(cmp: (T, T) -> int, x: T, y: T, pivot: T)
    requires Preorder(cmp) && cmp(y, pivot) == 0
    ensures (cmp(x, y) < 0 <==> cmp(x, pivot) < 0) && (cmp(x, y) == 0 <==> cmp(x, pivot) == 0)
  {
  }

  ghost predicate Between<T>(cmp: (T, T) -> int, x: T, m: T, y: T) {
    (cmp(x, m) <= 0 && cmp(m, y) <= 0) || (cmp(y, m) <= 0 && cmp(m, x) <= 0)
  }

  /** An index among three whose record lies between the other two. */
  method Med3<T(!new)>(a: array<T>, cmp: (T, T) -> int, i: nat, j: nat, k: nat) returns (m: nat)
    requires Preorder(cmp) && i < a.Length && j < a.Length && k < a.Length
    ensures || (m == i && Between(cmp, a[j], a[i], a[k]))
            || (m == j && Between(cmp, a[i], a[j], a[k]))
            || (m == k && Between(cmp, a[i], a[k], a[j]))
  {
    if cmp(a[i], a[j]) < 0 {
      m := if cmp(a[j], a[k]) < 0 then j else if cmp(a[i], a[k]) < 0 then k else i;
    } else {
      m := if cmp(a[j], a[k]) > 0 then j else if cmp(a[i], a[k]) > 0 then k else i;
    }
  }

  /**
    * A partition from `lo` up to `hi` being split.  Records equal to the pivot are parked below `bDup`
    * and above `tDup`; up to `bPar` come smaller ones and down to `tPar` greater ones, except that
    * `m2`, the record compared with, may still be among either.
    */
  ghost predicate Splitting<T>(cmp: (T, T) -> int, s: seq<T>, lo: int, bDup: int, bPar: int, m2: int, tPar: int,
                               tDup: int, hi: int, pivot: T) {
    && 0 <= lo <= bDup <= bPar <= tPar + 1 && tPar <= tDup < hi <= |s|
    && bDup <= m2 <= tDup && cmp(s[m2], pivot) == 0
    && (forall i :: lo <= i < bDup ==> cmp(s[i], pivot) == 0)
    && (forall i :: bDup <= i < bPar && i != m2 ==> cmp(s[i], pivot) < 0)
    && (forall i :: tPar < i <= tDup && i != m2 ==> cmp(s[i], pivot) > 0)
    && (forall i :: tDup < i < hi ==> cmp(s[i], pivot) == 0)
  }

  /** The bottom pointer passes a record that is not greater than the pivot. */
  lemma {:induction false} PassUp<T(!new)>(cmp: (T, T) -> int, s: seq<T>, lo: int, bDup: int, bPar: int, m2: int,
                                           tPar: int, tDup: int, hi: int, pivot: T)
    returns (s': seq<T>, bDup': nat, m2': nat)
    requires Splitting(cmp, s, lo, bDup, bPar, m2, tPar, tDup, hi, pivot) && bPar <= tPar
    requires bPar == m2 || cmp(s[bPar], pivot) <= 0
    ensures Splitting(cmp, s', lo, bDup', bPar + 1, m2', tPar, tDup, hi, pivot)
    ensures if bPar == m2 || cmp(s[bPar], pivot) < 0 then s' == s && bDup' == bDup && m2' == m2
            else bDup' == bDup + 1
                 && if bDup == m2 then s' == s && m2' == bPar else s' == Swapped(s, bDup, bPar) && m2' == m2
  {
    s', bDup', m2' := s, bDup, m2;
    if bPar != m2 && cmp(s[bPar], pivot) == 0 {
      bDup' := bDup + 1;
      if bDup == m2 {
        m2' := bPar;
      } else {
        s' := Swapped(s, bDup, bPar);
      }
    }
  }

  /** The top pointer passes a record that is not less than the pivot. */
  lemma {:induction false} PassDown<T(!new)>(cmp: (T, T) -> int, s: seq<T>, lo: int, bDup: int, bPar: int, m2: int,
                                             tPar: int, tDup: int, hi: int, pivot: T)
    returns (s': seq<T>, tDup': int, m2': nat)
    requires Splitting(cmp, s, lo, bDup, bPar, m2, tPar, tDup, hi, pivot) && bPar < tPar
    requires tPar == m2 || cmp(s[tPar], pivot) >= 0
    ensures Splitting(cmp, s', lo, bDup, bPar, m2', tPar - 1, tDup', hi, pivot)
    ensures if tPar == m2 || cmp(s[tPar], pivot) > 0 then s' == s && tDup' == tDup && m2' == m2
            else tDup' == tDup - 1
                 && if tDup == m2 then s' == s && m2' == tPar else s' == Swapped(s, tDup, tPar) && m2' == m2
  {
    s', tDup', m2' := s, tDup, m2;
    if tPar != m2 && cmp(s[tPar], pivot) == 0 {
      tDup' := tDup - 1;
      if tDup == m2 {
        m2' := tPar;
      } else {
        s' := Swapped(s, tDup, tPar);
      }
    }
  }

  /** Park the record at the bottom pointer if it equals the pivot. */
  method ParkUp<T(!new)>(a: array<T>, equal: bool, bDup0: nat, bPar: nat, m0: nat, ghost cmp: (T, T) -> int,
                         ghost s0: seq<T>,
                         ghost lo: nat, ghost tPar: int, ghost tDup: int, ghost hi: nat, ghost pivot: T)
    returns (bDup: nat, m2: nat)
    requires Splitting(cmp, a[..], lo, bDup0, bPar, m0, tPar, tDup, hi, pivot) && bPar <= tPar
    requires Rearranged(s0, a[..], lo, hi)
    requires bPar == m0 || cmp(a[bPar], pivot) <= 0
    requires equal <==> bPar != m0 && cmp(a[bPar], pivot) == 0
    modifies a
    ensures Splitting(cmp, a[..], lo, bDup, bPar + 1, m2, tPar, tDup, hi, pivot) && Rearranged(s0, a[..], lo, hi)
  {
    ghost var s, d, m := PassUp(cmp, a[..], lo, bDup0, bPar, m0, tPar, tDup, hi, pivot);
    bDup, m2 := bDup0, m0;
    if equal {
      if bDup == m2 {
        m2 := bPar;
      } else if bDup != bPar {
        SwapWithin(a, bDup, bPar, s0, lo, hi);
      }
      bDup := bDup + 1;
    }
    assert a[..] == s;
  }

  /** Park the record at the top pointer if it equals the pivot. */
  method ParkDown<T(!new)>(a: array<T>, equal: bool, m0: nat, tPar: int, tDup0: int, ghost cmp: (T, T) -> int,
                           ghost s0: seq<T>,
                           ghost lo: nat, ghost bDup: nat, ghost bPar: nat, ghost hi: nat, ghost pivot: T)
    returns (m2: nat, tDup: int)
    requires Splitting(cmp, a[..], lo, bDup, bPar, m0, tPar, tDup0, hi, pivot) && bPar < tPar
    requires Rearranged(s0, a[..], lo, hi)
    requires tPar == m0 || cmp(a[tPar], pivot) >= 0
    requires equal <==> tPar != m0 && cmp(a[tPar], pivot) == 0
    modifies a
    ensures Splitting(cmp, a[..], lo, bDup, bPar, m2, tPar - 1, tDup, hi, pivot) && Rearranged(s0, a[..], lo, hi)
    ensures a[bPar] == old(a[bPar]) && (bPar != m0 ==> bPar != m2)
  {
    ghost var s, d, m := PassDown(cmp, a[..], lo, bDup, bPar, m0, tPar, tDup0, hi, pivot);
    m2, tDup := m0, tDup0;
    if equal {
      if tDup == m2 {
        m2 := tPar;
      } else if tDup != tPar {
        SwapWithin(a, tDup, tPar, s0, lo, hi);
      }
      tDup := tDup - 1;
    }
    assert a[..] == s;
    assert a[bPar] == s[bPar];
  }

  /** Move the bottom pointer up to a record greater than the pivot, parking equal ones at the bottom. */
  method ScanUp<T(!new)>(a: array<T>, cmp: (T, T) -> int, ghost s0: seq<T>, ghost lo: nat, bDup0: nat, bPar0: nat,
                         m0: nat, tPar: int, ghost tDup: int, ghost hi: nat, ghost pivot: T)
    returns (bDup: nat, bPar: nat, m2: nat)
    requires Preorder(cmp) && Splitting(cmp, a[..], lo, bDup0, bPar0, m0, tPar, tDup, hi, pivot)
    requires Rearranged(s0, a[..], lo, hi)
    modifies a
    ensures Splitting(cmp, a[..], lo, bDup, bPar, m2, tPar, tDup, hi, pivot) && Rearranged(s0, a[..], lo, hi)
    ensures bPar0 <= bPar && (bPar <= tPar ==> bPar != m2 && cmp(a[bPar], pivot) > 0)
  {
    bDup, bPar, m2 := bDup0, bPar0, m0;
    while bPar <= tPar
      invariant Splitting(cmp, a[..], lo, bDup, bPar, m2, tPar, tDup, hi, pivot) && bPar0 <= bPar
      invariant Rearranged(s0, a[..], lo, hi)
      decreases tPar - bPar
    {
      SameSide(cmp, a[bPar], a[m2], pivot);
      if bPar != m2 && cmp(a[bPar], a[m2]) > 0 {
        return;
      }
      var equal := bPar != m2 && cmp(a[bPar], a[m2]) == 0;
      bDup, m2 := ParkUp(a, equal, bDup, bPar, m2, cmp, s0, lo, tPar, tDup, hi, pivot);
      bPar := bPar + 1;
    }
  }

  /** Move the top pointer down to a record less than the pivot, parking equal ones at the top. */
  method ScanDown<T(!new)>(a: array<T>, cmp: (T, T) -> int, ghost s0: seq<T>, ghost lo: nat, ghost bDup: nat,
                           bPar: nat, m0: nat, tPar0: int, tDup0: int, ghost hi: nat, ghost pivot: T)
    returns (m2: nat, tPar: int, tDup: int)
    requires Preorder(cmp) && Splitting(cmp, a[..], lo, bDup, bPar, m0, tPar0, tDup0, hi, pivot)
    requires bPar <= tPar0 ==> bPar != m0 && cmp(a[bPar], pivot) > 0
    requires Rearranged(s0, a[..], lo, hi)
    modifies a
    ensures Splitting(cmp, a[..], lo, bDup, bPar, m2, tPar, tDup, hi, pivot) && Rearranged(s0, a[..], lo, hi)
    ensures tPar <= tPar0 && (bPar <= tPar ==> bPar != m2 && cmp(a[bPar], pivot) > 0)
    ensures bPar < tPar ==> tPar != m2 && cmp(a[tPar], pivot) < 0
  {
    m2, tPar, tDup := m0, tPar0, tDup0;
    while bPar < tPar
      invariant Splitting(cmp, a[..], lo, bDup, bPar, m2, tPar, tDup, hi, pivot) && tPar <= tPar0
      invariant bPar <= tPar ==> bPar != m2 && cmp(a[bPar], pivot) > 0
      invariant Rearranged(s0, a[..], lo, hi)
      decreases tPar - bPar
    {
      SameSide(cmp, a[tPar], a[m2], pivot);
      if tPar != m2 && cmp(a[tPar], a[m2]) < 0 {
        return;
      }
      var equal := tPar != m2 && cmp(a[tPar], a[m2]) == 0;
      m2, tDup := ParkDown(a, equal, m2, tPar, tDup, cmp, s0, lo, bDup, bPar, hi, pivot);
      tPar := tPar - 1;
    }
  }

  /** Exchanging a greater record at the bottom pointer with a smaller one at the top pointer passes both. */
  lemma {:induction false} ExchangePasses<T(!new)>(cmp: (T, T) -> int, s: seq<T>, lo: int, bDup: int, bPar: int,
                                                   m2: int, tPar: int, tDup: int, hi: int, pivot: T)
    requires Splitting(cmp, s, lo, bDup, bPar, m2, tPar, tDup, hi, pivot) && bPar < tPar
    requires bPar != m2 && cmp(s[bPar], pivot) > 0 && tPar != m2 && cmp(s[tPar], pivot) < 0
    ensures Splitting(cmp, Swapped(s, bPar, tPar), lo, bDup, bPar + 1, m2, tPar - 1, tDup, hi, pivot)
  {
  }

  /** Split the partition from `lo` up to `hi` around the record at `m0`. */
  method Split<T(!new)>(a: array<T>, cmp: (T, T) -> int, lo: nat, hi: nat, m0: nat, ghost s0: seq<T>, ghost pivot: T)
    returns (bDup: nat, bPar: nat, m2: nat, tPar: int, tDup: int)
    requires Preorder(cmp) && lo <= m0 < hi <= a.Length && pivot == a[m0] && Rearranged(s0, a[..], lo, hi)
    modifies a
    ensures Splitting(cmp, a[..], lo, bDup, bPar, m2, tPar, tDup, hi, pivot) && Rearranged(s0, a[..], lo, hi)
    ensures tPar <= bPar && (bPar == tPar ==> bPar != m2 && cmp(a[bPar], pivot) > 0)
  {
    bDup, bPar, m2, tPar, tDup := lo, lo, m0, hi - 1, hi - 1;
    while true
      invariant Splitting(cmp, a[..], lo, bDup, bPar, m2, tPar, tDup, hi, pivot) && Rearranged(s0, a[..], lo, hi)
      decreases tPar - bPar + 1
    {
      bDup, bPar, m2 := ScanUp(a, cmp, s0, lo, bDup, bPar, m2, tPar, tDup, hi, pivot);
      m2, tPar, tDup := ScanDown(a, cmp, s0, lo, bDup, bPar, m2, tPar, tDup, hi, pivot);
      if bPar >= tPar {
        return;
      }
      ExchangePasses(cmp, a[..], lo, bDup, bPar, m2, tPar, tDup, hi, pivot);
      SwapWithin(a, bPar, tPar, s0, lo, hi);
      bPar := bPar + 1;
      tPar := tPar - 1;
    }
  }

  /** The pivot is in place at `m`: smaller records and parked ones below it, greater and parked ones above. */
  ghost predicate Placed<T>(cmp: (T, T) -> int, s: seq<T>, lo: int, bDup: int, m: int, tDup: int, hi: int, pivot: T) {
    && 0 <= lo <= bDup <= m <= tDup < hi <= |s|
    && cmp(s[m], pivot) == 0
    && (forall i :: lo <= i < bDup ==> cmp(s[i], pivot) == 0)
    && (forall i :: bDup <= i < m ==> cmp(s[i], pivot) < 0)
    && (forall i :: m < i <= tDup ==> cmp(s[i], pivot) > 0)
    && (forall i :: tDup < i < hi ==> cmp(s[i], pivot) == 0)
  }

  /** The place where the pivot belongs once the pointers have met or crossed. */
  function PivotPlace(bPar: nat, m2: nat, tPar: int): int {
    if tPar < bPar then if m2 < tPar then tPar else if m2 > bPar then bPar else m2
    else if m2 < tPar then tPar - 1 else bPar
  }

  lemma {:induction false} PivotPlaced<T(!new)>(cmp: (T, T) -> int, s: seq<T>, lo: int, bDup: int, bPar: nat, m2: nat,
                                                tPar: int, tDup: int, hi: int, pivot: T)
    requires Splitting(cmp, s, lo, bDup, bPar, m2, tPar, tDup, hi, pivot)
    requires tPar <= bPar && (bPar == tPar ==> bPar != m2 && cmp(s[bPar], pivot) > 0)
    ensures var m := PivotPlace(bPar, m2, tPar);
            lo <= m < hi && Placed(cmp, Swapped(s, m2, m), lo, bDup, m, tDup, hi, pivot)
  {
  }

  /** Swap the pivot record to its final position. */
  method PlacePivot<T(!new)>(a: array<T>, ghost cmp: (T, T) -> int, ghost lo: nat, ghost bDup: nat, bPar0: nat,
                             m0: nat, tPar0: int, ghost tDup: int, ghost hi: nat, ghost s0: seq<T>, ghost pivot: T)
    returns (m2: nat)
    requires Splitting(cmp, a[..], lo, bDup, bPar0, m0, tPar0, tDup, hi, pivot) && Rearranged(s0, a[..], lo, hi)
    requires tPar0 <= bPar0 && (bPar0 == tPar0 ==> bPar0 != m0 && cmp(a[bPar0], pivot) > 0)
    modifies a
    ensures Placed(cmp, a[..], lo, bDup, m2, tDup, hi, pivot) && Rearranged(s0, a[..], lo, hi)
  {
    PivotPlaced(cmp, a[..], lo, bDup, bPar0, m0, tPar0, tDup, hi, pivot);
    var bPar, tPar := bPar0, tPar0;
    if tPar < bPar {
      if m0 < tPar {
        SwapWithin(a, m0, tPar, s0, lo, hi);
        m2 := tPar;
      } else if m0 > bPar {
        SwapWithin(a, m0, bPar, s0, lo, hi);
        m2 := bPar;
      } else {
        assert Swapped(a[..], m0, m0) == a[..];
        m2 := m0;
      }
    } else {
      if m0 < tPar {
        tPar := tPar - 1;
        bPar := tPar;
      }
      if m0 != bPar {
        SwapWithin(a, m0, bPar, s0, lo, hi);
      } else {
        assert Swapped(a[..], m0, m0) == a[..];
      }
      m2 := tPar;
    }
  }

  /**
    * The records from `lo` up to `m` while the `k` outermost parked ones are exchanged with the `k`
    * smaller ones nearest the pivot; `r` exchanges are still to be done and `e` was the boundary.
    */
  ghost predicate GatheringLow<T>(cmp: (T, T) -> int, s: seq<T>, lo: int, e: int, m: int, k: int, r: int, pivot: T) {
    && 0 <= lo <= e <= m < |s| && 0 <= r <= k && lo + k <= e <= m - k
    && (forall i :: lo <= i < lo + r ==> cmp(s[i], pivot) == 0)
    && (forall i :: lo + r <= i < lo + k ==> cmp(s[i], pivot) < 0)
    && (forall i :: lo + k <= i < e ==> cmp(s[i], pivot) == 0)
    && (forall i :: e <= i < m - k + r ==> cmp(s[i], pivot) < 0)
    && (forall i :: m - k + r <= i < m ==> cmp(s[i], pivot) == 0)
  }

  lemma {:induction false} GatherLowStep<T(!new)>(cmp: (T, T) -> int, s: seq<T>, lo: int, e: int, m: int, k: int,
                                                  r: int, i: int, j: int, pivot: T)
    returns (s': seq<T>)
    requires GatheringLow(cmp, s, lo, e, m, k, r, pivot) && r > 0 && i == lo + r - 1 && j == m - k + r - 1
    ensures s' == Swapped(s, i, j) && GatheringLow(cmp, s', lo, e, m, k, r - 1, pivot)
  {
    s' := Swapped(s, i, j);
  }

  /** Smaller records up to `b`, then records equal to the pivot up to `m`. */
  ghost predicate LowGathered<T>(cmp: (T, T) -> int, s: seq<T>, lo: int, b: int, m: int, pivot: T) {
    && 0 <= lo <= b <= m < |s|
    && (forall i :: lo <= i < b ==> cmp(s[i], pivot) < 0)
    && (forall i :: b <= i < m ==> cmp(s[i], pivot) == 0)
  }

  /** Records equal to the pivot up to `e`, then smaller ones up to `m`. */
  ghost predicate ParkedLow<T>(cmp: (T, T) -> int, s: seq<T>, lo: int, e: int, m: int, pivot: T) {
    && 0 <= lo <= e <= m < |s|
    && (forall i :: lo <= i < e ==> cmp(s[i], pivot) == 0)
    && (forall i :: e <= i < m ==> cmp(s[i], pivot) < 0)
  }

  lemma {:induction false} GatherLowEnds<T(!new)>(cmp: (T, T) -> int, s: seq<T>, lo: int, e: int, m: int, k: int,
                                                  pivot: T)
    requires lo <= e <= m && k == if m - e < e - lo then m - e else e - lo
    ensures ParkedLow(cmp, s, lo, e, m, pivot) ==> GatheringLow(cmp, s, lo, e, m, k, k, pivot)
    ensures GatheringLow(cmp, s, lo, e, m, k, 0, pivot) ==> LowGathered(cmp, s, lo, m - (e - lo), m, pivot)
  {
  }

  /** Move the bottom duplicates next to the pivot. */
  method GatherLow<T(!new)>(a: array<T>, ghost cmp: (T, T) -> int, lo: nat, e: nat, m: nat, ghost hi: nat,
                            ghost s0: seq<T>, ghost pivot: T)
    returns (b: nat)
    requires ParkedLow(cmp, a[..], lo, e, m, pivot) && m < hi <= a.Length && Rearranged(s0, a[..], lo, hi)
    modifies a
    ensures b == m - (e - lo) && LowGathered(cmp, a[..], lo, b, m, pivot) && Rearranged(s0, a[..], lo, hi)
    ensures a[m..] == old(a[m..])
  {
    var bDup, bPar, d := e, m, e - lo;
    if bPar - bDup < d {
      bDup := lo + (bPar - bDup);
    }
    ghost var k := bDup - lo;
    ghost var r := k;
    GatherLowEnds(cmp, a[..], lo, e, m, k, pivot);
    while bDup > lo
      invariant bDup == lo + r && bPar == m - k + r
      invariant GatheringLow(cmp, a[..], lo, e, m, k, r, pivot) && Rearranged(s0, a[..], lo, hi)
      invariant a[m..] == old(a[m..])
      decreases r
    {
      bDup := bDup - 1;
      bPar := bPar - 1;
      ghost var s := GatherLowStep(cmp, a[..], lo, e, m, k, r, bDup, bPar, pivot);
      SwapLow(a, bDup, bPar, m, s0, lo, hi);
      r := r - 1;
      assert a[..] == s;
    }
    GatherLowEnds(cmp, a[..], lo, e, m, k, pivot);
    b := m - d;
  }

  /** The same above the pivot, from `m` up to the end `hi`, where parked records start after `e`. */
  ghost predicate GatheringHigh<T>(cmp: (T, T) -> int, s: seq<T>, m: int, e: int, hi: int, k: int, r: int, pivot: T) {
    && 0 <= m <= e < hi <= |s| && 0 <= r <= k && m + k <= e && e < hi - k
    && (forall i :: m < i <= m + k - r ==> cmp(s[i], pivot) == 0)
    && (forall i :: m + k - r < i <= e ==> cmp(s[i], pivot) > 0)
    && (forall i :: e < i < hi - k ==> cmp(s[i], pivot) == 0)
    && (forall i :: hi - k <= i < hi - r ==> cmp(s[i], pivot) > 0)
    && (forall i :: hi - r <= i < hi ==> cmp(s[i], pivot) == 0)
  }

  lemma {:induction false} GatherHighStep<T(!new)>(cmp: (T, T) -> int, s: seq<T>, m: int, e: int, hi: int, k: int,
                                                   r: int, i: int, j: int, pivot: T)
    returns (s': seq<T>)
    requires GatheringHigh(cmp, s, m, e, hi, k, r, pivot) && r > 0 && i == hi - r && j == m + k - r + 1
    ensures s' == Swapped(s, i, j) && GatheringHigh(cmp, s', m, e, hi, k, r - 1, pivot)
  {
    s' := Swapped(s, i, j);
  }

  /** Records equal to the pivot after `m` up to `t`, then greater records. */
  ghost predicate HighGathered<T>(cmp: (T, T) -> int, s: seq<T>, m: int, t: int, hi: int, pivot: T) {
    && 0 <= m <= t < hi <= |s|
    && (forall i :: m < i <= t ==> cmp(s[i], pivot) == 0)
    && (forall i :: t < i < hi ==> cmp(s[i], pivot) > 0)
  }

  /** Greater records after `m` up to `e`, then records equal to the pivot. */
  ghost predicate ParkedHigh<T>(cmp: (T, T) -> int, s: seq<T>, m: int, e: int, hi: int, pivot: T) {
    && 0 <= m <= e < hi <= |s|
    && (forall i :: m < i <= e ==> cmp(s[i], pivot) > 0)
    && (forall i :: e < i < hi ==> cmp(s[i], pivot) == 0)
  }

  lemma {:induction false} GatherHighEnds<T(!new)>(cmp: (T, T) -> int, s: seq<T>, m: int, e: int, hi: int, k: int,
                                                   pivot: T)
    requires m <= e < hi && k == if e - m < hi - 1 - e then e - m else hi - 1 - e
    ensures ParkedHigh(cmp, s, m, e, hi, pivot) ==> GatheringHigh(cmp, s, m, e, hi, k, k, pivot)
    ensures GatheringHigh(cmp, s, m, e, hi, k, 0, pivot) ==> HighGathered(cmp, s, m, m + (hi - 1 - e), hi, pivot)
  {
  }

  /** Move the top duplicates next to the pivot. */
  method GatherHigh<T(!new)>(a: array<T>, ghost cmp: (T, T) -> int, ghost lo: nat, m: nat, e: nat, hi: nat,
                             ghost s0: seq<T>, ghost pivot: T)
    returns (t: nat)
    requires lo <= m && ParkedHigh(cmp, a[..], m, e, hi, pivot) && Rearranged(s0, a[..], lo, hi)
    modifies a
    ensures t == m + (hi - 1 - e) && HighGathered(cmp, a[..], m, t, hi, pivot) && Rearranged(s0, a[..], lo, hi)
    ensures a[..m + 1] == old(a[..m + 1])
  {
    var tLim := hi - 1;
    var tDup, tPar, d := e, m, tLim - e;
    if tDup - tPar < d {
      tDup := tLim - (tDup - tPar);
    }
    ghost var k := tLim - tDup;
    ghost var r := k;
    GatherHighEnds(cmp, a[..], m, e, hi, k, pivot);
    while tDup < tLim
      invariant tDup == tLim - r && tPar == m + k - r
      invariant GatheringHigh(cmp, a[..], m, e, hi, k, r, pivot) && Rearranged(s0, a[..], lo, hi)
      invariant a[..m + 1] == old(a[..m + 1])
      decreases r
    {
      tDup := tDup + 1;
      tPar := tPar + 1;
      ghost var s := GatherHighStep(cmp, a[..], m, e, hi, k, r, tDup, tPar, pivot);
      SwapHigh(a, tDup, tPar, m, s0, lo, hi);
      r := r - 1;
      assert a[..] == s;
    }
    GatherHighEnds(cmp, a[..], m, e, hi, k, pivot);
    t := m + d;
  }

  /** Move all duplicates next to the pivot. */
  method Gather<T(!new)>(a: array<T>, ghost cmp: (T, T) -> int, lo: nat, bDup: nat, m: nat, tDup: int, hi: nat,
                         ghost s0: seq<T>, ghost pivot: T)
    returns (b: nat, t: nat)
    requires Placed(cmp, a[..], lo, bDup, m, tDup, hi, pivot) && Rearranged(s0, a[..], lo, hi)
    modifies a
    ensures ThreeWay(cmp, a[..], lo, b, t, hi, pivot) && Rearranged(s0, a[..], lo, hi)
  {
    ghost var s := a[..];
    b := GatherLow(a, cmp, lo, bDup, m, hi, s0, pivot);
    ghost var u := a[..];
    assert forall i | m <= i < |s| :: u[i] == s[i] by {
      assert forall i | m <= i < |s| :: u[i] == u[m..][i - m] && s[i] == s[m..][i - m];
    }
    t := GatherHigh(a, cmp, lo, m, tDup, hi, s0, pivot);
    assert forall i | 0 <= i <= m :: a[..][i] == a[..m + 1][i] && u[i] == u[..m + 1][i];
  }

  /** The record to split around: the middle one, a median of three, or an approximate median of nine. */
  method ChoosePivot<T(!new)>(a: array<T>, cmp: (T, T) -> int, lo: nat, n: nat) returns (m2: nat)
    requires Preorder(cmp) && n >= THRESH_L && lo + n <= a.Length
    ensures lo <= m2 < lo + n
  {
    if n < THRESH_M3 {
      m2 := lo + n / 2;
    } else if n < THRESH_M9 {
      var i := (n - 1) / 2;
      m2 := Med3(a, cmp, lo, lo + i, lo + 2 * i);
    } else {
      var i := (n - 1) / 8;
      var m1 := Med3(a, cmp, lo, lo + i, lo + 2 * i);
      m2 := Med3(a, cmp, lo + 3 * i, lo + 4 * i, lo + 5 * i);
      var m3 := Med3(a, cmp, lo + 6 * i, lo + 7 * i, lo + 8 * i);
      m2 := Med3(a, cmp, m1, m2, m3);
    }
  }

  /** One pass: less, equal and greater blocks, the equal one not empty. */
  method Pass<T(!new)>(a: array<T>, cmp: (T, T) -> int, lo: nat, hi: nat) returns (b: nat, t: nat, ghost pivot: T)
    requires Preorder(cmp) && lo + THRESH_L <= hi <= a.Length
    modifies a
    ensures ThreeWay(cmp, a[..], lo, b, t, hi, pivot) && Rearranged(old(a[..]), a[..], lo, hi)
  {
    ghost var s0 := a[..];
    var m0 := ChoosePivot(a, cmp, lo, hi - lo);
    pivot := a[m0];
    var bDup, bPar, m1, tPar, tDup := Split(a, cmp, lo, hi, m0, s0, pivot);
    var m2 := PlacePivot(a, cmp, lo, bDup, bPar, m1, tPar, tDup, hi, s0, pivot);
    b, t := Gather(a, cmp, lo, bDup, m2, tDup, hi, s0, pivot);
  }

  /** The block from `lo` up to and including `top` is sorted except that the record at `b` may belong further down. */
  ghost predicate Inserting<T>(cmp: (T, T) -> int, s: seq<T>, lo: int, b: int, top: int) {
    && 0 <= lo <= b <= top < |s|
    && (forall i, j :: lo <= i < j <= top && i != b && j != b ==> cmp(s[i], s[j]) <= 0)
    && (forall j :: b < j <= top ==> cmp(s[b], s[j]) <= 0)
  }

  lemma {:induction false} InsertDown<T(!new)>(cmp: (T, T) -> int, s: seq<T>, lo: int, b: int, top: int)
    returns (s': seq<T>)
    requires Preorder(cmp) && Inserting(cmp, s, lo, b, top) && lo < b && cmp(s[b - 1], s[b]) > 0
    ensures s' == Swapped(s, b - 1, b) && Inserting(cmp, s', lo, b - 1, top)
  {
    s' := Swapped(s, b - 1, b);
  }

  lemma {:induction false} InsertEnd<T(!new)>(cmp: (T, T) -> int, s: seq<T>, lo: int, b: int, top: int)
    requires Preorder(cmp) && Inserting(cmp, s, lo, b, top) && (lo < b ==> cmp(s[b - 1], s[b]) <= 0)
    ensures SortedBlock(cmp, s, lo, top + 1)
  {
  }

  ghost predicate SortedBlock<T>(cmp: (T, T) -> int, s: seq<T>, lo: int, hi: int) {
    0 <= lo <= hi <= |s| && forall i, j :: lo <= i < j < hi ==> cmp(s[i], s[j]) <= 0
  }

  /** Sift the record at `top` down into the sorted block below it. */
  method SiftDown<T(!new)>(a: array<T>, cmp: (T, T) -> int, lo: nat, top: nat, ghost hi: nat, ghost s0: seq<T>)
    requires Preorder(cmp) && lo <= top < hi <= a.Length && Rearranged(s0, a[..], lo, hi)
    requires SortedBlock(cmp, a[..], lo, top)
    modifies a
    ensures Rearranged(s0, a[..], lo, hi) && SortedBlock(cmp, a[..], lo, top + 1)
  {
    var b := top;
    while b > lo
      invariant Inserting(cmp, a[..], lo, b, top) && Rearranged(s0, a[..], lo, hi)
    {
      if cmp(a[b - 1], a[b]) <= 0 {
        break;
      }
      ghost var s := InsertDown(cmp, a[..], lo, b, top);
      SwapWithin(a, b - 1, b, s0, lo, hi);
      assert a[..] == s;
      b := b - 1;
    }
    InsertEnd(cmp, a[..], lo, b, top);
  }

  /** Linear insertion sort of a small partition. */
  method InsertionSort<T(!new)>(a: array<T>, cmp: (T, T) -> int, lo: nat, hi: nat)
    requires Preorder(cmp) && lo <= hi <= a.Length
    modifies a
    ensures Rearranged(old(a[..]), a[..], lo, hi) && Sorted(cmp, a[lo..hi])
  {
    ghost var s0 := a[..];
    var i := 1;
    while i < hi - lo
      invariant 1 <= i && Rearranged(s0, a[..], lo, hi)
      invariant SortedBlock(cmp, a[..], lo, if hi == lo then lo else lo + i)
    {
      SiftDown(a, cmp, lo, lo + i, hi, s0);
      i := i + 1;
    }
  }

  /** Split a pending partition: what is left of it takes its place, the larger part first. */
  method SplitPart<T(!new)>(a: array<T>, cmp: (T, T) -> int, p: Part, hi: nat, ghost rest: seq<Part>)
    returns (below: Part, above: Part, ghost after: seq<Part>)
    requires Preorder(cmp) && p.n >= THRESH_L && Pending(cmp, a[..], rest + [p]) && hi == p.lo + p.n <= a.Length
    modifies a
    ensures Pending(cmp, a[..], after) && Weight(after) < Weight(rest + [p]) && multiset(a[..]) == multiset(old(a[..]))
    ensures after == rest + if below.n < above.n then [above, below] else [below, above]
  {
    ghost var s := a[..];
    var b, t, pivot := Pass(a, cmp, p.lo, hi);
    RearrangedWhole(s, a[..], p.lo, hi);
    below, above := Part(p.lo, b - p.lo), Part(t + 1, hi - 1 - t);
    ghost var below', above';
    below', above', after := PassKeepsStack(cmp, s, a[..], rest, p, b, t, hi, pivot);
  }

  /** Sort a small pending partition outright. */
  method SettlePart<T(!new)>(a: array<T>, cmp: (T, T) -> int, p: Part, hi: nat, ghost rest: seq<Part>)
    requires Preorder(cmp) && Pending(cmp, a[..], rest + [p]) && hi == p.lo + p.n <= a.Length
    modifies a
    ensures Pending(cmp, a[..], rest) && Weight(rest) < Weight(rest + [p]) && multiset(a[..]) == multiset(old(a[..]))
  {
    ghost var s := a[..];
    InsertionSort(a, cmp, p.lo, hi);
    RearrangedWhole(s, a[..], p.lo, hi);
    SettledStack(cmp, s, a[..], rest, p, hi);
  }

  method PushTwo(stack: array<Part>, sp0: nat, below: Part, above: Part) returns (sp: nat)
    requires sp0 + 2 <= stack.Length
    modifies stack
    ensures sp == sp0 + 2
    ensures stack[..sp] == old(stack[..sp0]) + if below.n < above.n then [above, below] else [below, above]
  {
    if below.n < above.n {
      stack[sp0] := above;
      stack[sp0 + 1] := below;
    } else {
      stack[sp0] := below;
      stack[sp0 + 1] := above;
    }
    sp := sp0 + 2;
  }

  /** Deal with the partition on top of the stack: sort it if it is small, split it otherwise. */
  method SortTop<T(!new)>(a: array<T>, cmp: (T, T) -> int, stack: array<Part>, sp0: nat, ghost parts: seq<Part>)
    returns (sp: nat, ghost after: seq<Part>)
    requires Preorder(cmp) && stack as object != a && Pending(cmp, a[..], parts) && Depth(a.Length) <= stack.Length
    requires 0 < sp0 == |parts| && stack[..sp0] == parts
    modifies a, stack
    ensures Pending(cmp, a[..], after) && sp == |after| <= stack.Length && stack[..sp] == after
    ensures Weight(after) < Weight(parts) && multiset(a[..]) == multiset(old(a[..]))
  {
    sp := sp0 - 1;
    var p := stack[sp];
    ghost var rest := parts[..sp];
    assert parts == rest + [p] && parts[sp] == p;
    if p.n < THRESH_L {
      SettlePart(a, cmp, p, p.lo + p.n, rest);
      after := rest;
    } else {
      var below, above;
      below, above, after := SplitPart(a, cmp, p, p.lo + p.n, rest);
      ghost var u := a[..];
      sp := PushTwo(stack, sp, below, above);
      assert a[..] == u;
    }
  }

  /** Sort an array in place: terminates with a sorted permutation; `peak` is the greatest number of stack entries in
      use. */
  method Sort<T(!new)>(a: array<T>, cmp: (T, T) -> int) returns (ghost peak: nat)
    requires Preorder(cmp) && a.Length < 0x8000_0000
    modifies a
    ensures Sorted(cmp, a[..]) && multiset(a[..]) == multiset(old(a[..]))
    ensures peak <= Depth(a.Length) <= 31 < STACK_SIZE
  {
    var stack := new Part[STACK_SIZE](_ => Part(0, 0));
    stack[0] := Part(0, a.Length);
    var sp := 1;
    ghost var parts := [Part(0, a.Length)];
    peak := sp;
    PendingStart(cmp, a[..]);
    DepthFits(a.Length);
    while sp > 0
      invariant Pending(cmp, a[..], parts) && sp == |parts| <= Depth(a.Length) <= stack.Length && stack[..sp] == parts
      invariant sp <= peak <= Depth(a.Length)
      invariant fresh(stack) && multiset(a[..]) == multiset(old(a[..]))
      decreases Weight(parts)
    {
      sp, parts := SortTop(a, cmp, stack, sp, parts);
      peak := if sp > peak then sp else peak;
    }
    PendingEnd(cmp, a[..]);
  }
}
