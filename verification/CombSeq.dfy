/**
  * The collected combining sequence in its buffers, and the loop that orders it in place by
  * swapping neighbouring runs of bytes of different lengths.
  */
module CombSeq {
  import opened CanonOrder

  // ---------- bytes, starts and sizes as sequences ----------

  ghost predicate Adjoins(st: seq<nat>, dp: seq<nat>, i: int)
    requires 0 < i < |st| == |dp|
  {
    st[i] == st[i - 1] + dp[i - 1]
  }

  /** The characters lie side by side in the buffer. */
  ghost predicate Contiguous(st: seq<nat>, dp: seq<nat>, limit: nat) {
    && |st| == |dp|
    && (forall i :: 0 <= i < |st| ==> st[i] + dp[i] <= limit)
    && (forall i :: 1 <= i < |st| ==> Adjoins(st, dp, i))
  }

  ghost predicate AllFit(dp: seq<nat>, limit: nat) {
    forall i :: 0 <= i < |dp| ==> dp[i] <= limit
  }

  ghost function MarksOf(bytes: seq<int>, st: seq<nat>, dp: seq<nat>, cs: seq<nat>): (ms: seq<Mark>)
    requires Contiguous(st, dp, |bytes|) && |cs| == |st|
    ensures |ms| == |st| && forall i :: 0 <= i < |ms| ==> ms[i] == Mark(cs[i], bytes[st[i]..st[i] + dp[i]])
  {
    seq(|st|, i requires 0 <= i < |st| => Mark(cs[i], bytes[st[i]..st[i] + dp[i]]))
  }

  lemma {:induction false} Apart(st: seq<nat>, dp: seq<nat>, limit: nat, p: nat, q: nat)
    requires Contiguous(st, dp, limit) && p < q < |st|
    ensures st[p] + dp[p] <= st[q]
    decreases q
  {
    if p < q - 1 {
      Apart(st, dp, limit, p, q - 1);
    }
    assert Adjoins(st, dp, q);
  }

  /** The bytes with two neighbouring runs, of `da` and `db` bytes from `sa` on, exchanged. */
  ghost function Exchanged(bytes: seq<int>, sa: nat, da: nat, db: nat): (r: seq<int>)
    requires sa + da + db <= |bytes|
    ensures |r| == |bytes|
  {
    bytes[..sa] + bytes[sa + da..sa + da + db] + bytes[sa..sa + da] + bytes[sa + da + db..]
  }

  lemma {:induction false} ExchangedParts(bytes: seq<int>, sa: nat, da: nat, db: nat, r: seq<int>)
    requires sa + da + db <= |bytes| && r == Exchanged(bytes, sa, da, db)
    ensures r[sa..sa + db] == bytes[sa + da..sa + da + db] && r[sa + db..sa + db + da] == bytes[sa..sa + da]
  {
  }

  lemma {:induction false} ExchangedOutside(bytes: seq<int>, sa: nat, da: nat, db: nat, r: seq<int>, lo: nat, hi: nat)
    requires sa + da + db <= |bytes| && r == Exchanged(bytes, sa, da, db)
    requires lo <= hi <= sa || sa + da + db <= lo <= hi <= |bytes|
    ensures r[lo..hi] == bytes[lo..hi]
  {
  }

  /** What the swap does to the starts and the sizes. */
  ghost predicate Swapped(st: seq<nat>, dp: seq<nat>, cs: seq<nat>, j: nat, st': seq<nat>, dp': seq<nat>,
                          cs': seq<nat>) {
    && |st| == |dp| == |cs| && 0 < j < |st|
    && st' == st[j := st[j - 1] + dp[j]]
    && dp' == dp[j - 1 := dp[j]][j := dp[j - 1]]
    && cs' == cs[j - 1 := cs[j]][j := cs[j - 1]]
  }

  lemma {:induction false} SwappedContiguous(st: seq<nat>, dp: seq<nat>, cs: seq<nat>, j: nat,
                                             st': seq<nat>, dp': seq<nat>, cs': seq<nat>, limit: nat)
    requires Contiguous(st, dp, limit) && Swapped(st, dp, cs, j, st', dp', cs')
    ensures Contiguous(st', dp', limit)
  {
    assert Adjoins(st, dp, j);
    forall i | 1 <= i < |st'|
      ensures Adjoins(st', dp', i)
    {
      assert Adjoins(st, dp, i);
    }
  }

  lemma {:induction false} SwappedFit(st: seq<nat>, dp: seq<nat>, cs: seq<nat>, j: nat,
                                      st': seq<nat>, dp': seq<nat>, cs': seq<nat>, limit: nat)
    requires AllFit(dp, limit) && Swapped(st, dp, cs, j, st', dp', cs')
    ensures AllFit(dp', limit)
  {
  }

  lemma {:induction false} SwappedElsewhere(bytes: seq<int>, st: seq<nat>, dp: seq<nat>, j: nat, bytes': seq<int>,
                                            i: nat)
    requires Contiguous(st, dp, |bytes|) && 0 < j < |st| && i < |st| && i != j && i != j - 1
    requires st[j - 1] + dp[j - 1] + dp[j] <= |bytes| && bytes' == Exchanged(bytes, st[j - 1], dp[j - 1], dp[j])
    ensures st[i] + dp[i] <= |bytes| && bytes'[st[i]..st[i] + dp[i]] == bytes[st[i]..st[i] + dp[i]]
  {
    assert Adjoins(st, dp, j);
    if i < j - 1 {
      Apart(st, dp, |bytes|, i, j - 1);
    } else {
      Apart(st, dp, |bytes|, j, i);
    }
    ExchangedOutside(bytes, st[j - 1], dp[j - 1], dp[j], bytes', st[i], st[i] + dp[i]);
  }

  /** The swap of the bytes and of the tables exchanges two characters and leaves the others as they are. */
  lemma {:induction false} SwappedMarks(bytes: seq<int>, st: seq<nat>, dp: seq<nat>, cs: seq<nat>, j: nat,
                                        bytes': seq<int>, st': seq<nat>, dp': seq<nat>, cs': seq<nat>)
    requires Contiguous(st, dp, |bytes|) && Swapped(st, dp, cs, j, st', dp', cs')
    requires st[j - 1] + dp[j - 1] + dp[j] <= |bytes| && bytes' == Exchanged(bytes, st[j - 1], dp[j - 1], dp[j])
    requires Contiguous(st', dp', |bytes'|)
    ensures var ms := MarksOf(bytes, st, dp, cs);
      MarksOf(bytes', st', dp', cs') == ms[j - 1 := ms[j]][j := ms[j - 1]]
  {
    var ms, ms' := MarksOf(bytes, st, dp, cs), MarksOf(bytes', st', dp', cs');
    assert Adjoins(st, dp, j);
    ExchangedParts(bytes, st[j - 1], dp[j - 1], dp[j], bytes');
    assert ms'[j - 1] == ms[j] && ms'[j] == ms[j - 1];
    forall i | 0 <= i < |ms| && i != j && i != j - 1
      ensures ms'[i] == ms[i]
    {
      SwappedElsewhere(bytes, st, dp, j, bytes', i);
    }
  }

  /** The place the characters take in the buffer, and everything outside it, are the same. */
  ghost predicate Confined(bytes: seq<int>, st: seq<nat>, dp: seq<nat>, bytes': seq<int>, st': seq<nat>,
                           dp': seq<nat>) {
    && |bytes'| == |bytes| && |st'| == |st| == |dp| == |dp'|
    && (|st| > 0 ==>
      var lo, hi := st[0], st[|st| - 1] + dp[|st| - 1];
      && st'[0] == lo && st'[|st| - 1] + dp'[|st| - 1] == hi
      && lo <= hi <= |bytes| && bytes'[..lo] == bytes[..lo] && bytes'[hi..] == bytes[hi..])
  }

  lemma {:induction false} SwappedConfined(bytes: seq<int>, st: seq<nat>, dp: seq<nat>, cs: seq<nat>, j: nat,
                                           bytes': seq<int>, st': seq<nat>, dp': seq<nat>, cs': seq<nat>)
    requires Contiguous(st, dp, |bytes|) && Swapped(st, dp, cs, j, st', dp', cs')
    requires st[j - 1] + dp[j - 1] + dp[j] <= |bytes| && bytes' == Exchanged(bytes, st[j - 1], dp[j - 1], dp[j])
    ensures Confined(bytes, st, dp, bytes', st', dp')
  {
    var last := |st| - 1;
    assert Adjoins(st, dp, j);
    if j - 1 > 0 {
      Apart(st, dp, |bytes|, 0, j - 1);
    }
    if j < last {
      Apart(st, dp, |bytes|, j, last);
    }
    Outside(bytes, st[j - 1], dp[j - 1], dp[j], st[0], st[last] + dp[last]);
  }

  lemma {:induction false} ConfinedSelf(bytes: seq<int>, st: seq<nat>, dp: seq<nat>)
    requires Contiguous(st, dp, |bytes|)
    ensures Confined(bytes, st, dp, bytes, st, dp)
  {
    if |st| > 1 {
      Apart(st, dp, |bytes|, 0, |st| - 1);
    }
  }

  lemma {:induction false} ConfinedTwice(bytes: seq<int>, st: seq<nat>, dp: seq<nat>, bytes': seq<int>, st': seq<nat>,
                                         dp': seq<nat>, bytes'': seq<int>, st'': seq<nat>, dp'': seq<nat>)
    requires Confined(bytes, st, dp, bytes', st', dp') && Confined(bytes', st', dp', bytes'', st'', dp'')
    ensures Confined(bytes, st, dp, bytes'', st'', dp'')
  {
  }

  lemma {:induction false} Outside(bytes: seq<int>, sa: nat, da: nat, db: nat, lo: nat, hi: nat)
    requires lo <= sa && sa + da + db <= hi <= |bytes|
    ensures var r := Exchanged(bytes, sa, da, db); r[..lo] == bytes[..lo] && r[hi..] == bytes[hi..]
  {
  }

  // ---------- the classes during the loop ----------

  /** No starter behind `p`, up to `q`. */
  predicate SameRun(cs: seq<nat>, p: int, q: int)
    requires 0 <= p <= q < |cs|
  {
    forall r :: p < r <= q ==> cs[r] != 0
  }

  /** What stands at `p` is no greater than what follows in its run. */
  predicate LeastAt(cs: seq<nat>, p: int)
    requires 0 <= p < |cs|
  {
    forall q {:trigger SameRun(cs, p, q)} :: p < q < |cs| && SameRun(cs, p, q) ==> cs[p] <= cs[q]
  }

  predicate Settled(cs: seq<nat>, i: nat)
    requires i <= |cs|
  {
    forall p :: 0 <= p < i ==> LeastAt(cs, p)
  }

  /** A pass starts with nothing to the right, and ends with the next place settled. */
  lemma {:induction false} PassEnds(cs: seq<nat>, i: nat)
    requires cs != [] && i < |cs|
    ensures LeastAt(cs, |cs| - 1)
    ensures Settled(cs, i) && LeastAt(cs, i) ==> Settled(cs, i + 1)
  {
  }

  /** A comparison of the neighbours at `j`, with the swap if there is one. */
  lemma {:induction false} Bubbles(cs: seq<nat>, i: nat, j: nat, cs': seq<nat>)
    requires i < j < |cs| && Settled(cs, i) && LeastAt(cs, j)
    requires cs' == if cs[j] != 0 && cs[j - 1] > cs[j] then cs[j - 1 := cs[j]][j := cs[j - 1]] else cs
    ensures Settled(cs', i) && LeastAt(cs', j - 1)
  {
    forall p, q | 0 <= p < q < |cs| && SameRun(cs', p, q)
      ensures SameRun(cs, p, q)
    {
    }
    if cs' != cs {
      assert cs[j] != 0 && cs[j - 1] != 0;
      forall p | 0 <= p < i
        ensures LeastAt(cs', p)
      {
        forall q | p < q < |cs'| && SameRun(cs', p, q)
          ensures cs'[p] <= cs'[q]
        {
          assert SameRun(cs, p, q) && LeastAt(cs, p);
          assert q == j - 1 ==> SameRun(cs, p, j);
          assert q == j ==> SameRun(cs, p, j - 1);
        }
      }
    }
    forall q | j - 1 < q < |cs'| && SameRun(cs', j - 1, q)
      ensures cs'[j - 1] <= cs'[q]
    {
      assert q > j ==> SameRun(cs, j, q);
    }
  }

  lemma {:induction false} SettledInOrder(ms: seq<Mark>, cs: seq<nat>)
    requires |cs| == |ms| && (forall i :: 0 <= i < |ms| ==> cs[i] == ms[i].cc) && (|cs| > 0 ==> Settled(cs, |cs| - 1))
    ensures InOrder(ms)
  {
    forall q | 1 <= q < |ms| && ms[q].cc != 0
      ensures ms[q - 1].cc <= ms[q].cc
    {
      assert LeastAt(cs, q - 1) && SameRun(cs, q - 1, q);
    }
  }

  // ---------- the buffers ----------

  /** u8s with the collected bytes, u8t for the swap, and the tables start, disp and comb_class. */
  class Collected {
    const u8s: array<int>
    const u8t: array<int>
    const start: array<nat>
    const disp: array<nat>
    const classes: array<nat>

    constructor (u8s: array<int>, u8t: array<int>, start: array<nat>, disp: array<nat>, classes: array<nat>)
      ensures this.u8s == u8s && this.u8t == u8t && this.start == start && this.disp == disp && this.classes == classes
    {
      this.u8s, this.u8t, this.start, this.disp, this.classes := u8s, u8t, start, disp, classes;
    }

    ghost function Starts(n: nat): seq<nat>
      requires n <= start.Length
      reads start
    {
      start[..n]
    }

    ghost function Sizes(n: nat): seq<nat>
      requires n <= disp.Length
      reads disp
    {
      disp[..n]
    }

    ghost function Classes(n: nat): seq<nat>
      requires n <= classes.Length
      reads classes
    {
      classes[..n]
    }

    /** `n` characters are collected; the swap buffer holds any one of them. */
    ghost predicate Valid(n: nat)
      reads u8s, start, disp, classes
    {
      && u8s != u8t && start != disp && start != classes && disp != classes
      && n <= start.Length && n <= disp.Length && n <= classes.Length
      && Contiguous(Starts(n), Sizes(n), u8s.Length)
      && AllFit(Sizes(n), u8t.Length)
    }

    ghost function Marks(n: nat): seq<Mark>
      requires Valid(n)
      reads u8s, start, disp, classes
    {
      MarksOf(u8s[..], Starts(n), Sizes(n), Classes(n))
    }

    /** The first copying loop of the swap: the run of `n` bytes at `from` is set aside. */
    method SetAside(from: nat, n: nat)
      requires u8s != u8t && from + n <= u8s.Length && n <= u8t.Length
      modifies u8t
      ensures u8t[..n] == u8s[from..from + n]
    {
      for k := 0 to n
        invariant u8t[..k] == u8s[from..from + k]
      {
        u8t[k] := u8s[from + k];
      }
    }

    /** The second one: a run moves down; source and target may overlap. */
    method MoveDown(to: nat, from: nat, n: nat)
      requires to <= from && from + n <= u8s.Length
      modifies u8s
      ensures u8s[..] == old(u8s[..to] + u8s[from..from + n] + u8s[to + n..])
    {
      ghost var before := u8s[..];
      for k := 0 to n
        invariant u8s[..to] == before[..to] && u8s[to..to + k] == before[from..from + k]
        invariant u8s[to + k..] == before[to + k..]
      {
        assert u8s[from + k] == u8s[to + k..][from - to] == before[from + k];
        u8s[to + k] := u8s[from + k];
      }
      assert u8s[..] == before[..to] + before[from..from + n] + before[to + n..];
    }

    /** The third one: what was set aside is put in behind it. */
    method PutBack(to: nat, n: nat)
      requires u8s != u8t && to + n <= u8s.Length && n <= u8t.Length
      modifies u8s
      ensures u8s[..] == old(u8s[..to]) + u8t[..n] + old(u8s[to + n..])
    {
      ghost var before := u8s[..];
      for k := 0 to n
        invariant forall i :: 0 <= i < u8s.Length ==> u8s[i] == if to <= i < to + k then u8t[i - to] else before[i]
      {
        u8s[to + k] := u8t[k];
      }
      assert u8s[..] == before[..to] + u8t[..n] + before[to + n..];
    }

    /** Two neighbouring runs of bytes change places. */
    method SwapBytes(sa: nat, da: nat, db: nat)
      requires u8s != u8t && sa + da + db <= u8s.Length && da <= u8t.Length
      modifies u8s, u8t
      ensures u8s[..] == Exchanged(old(u8s[..]), sa, da, db)
    {
      ghost var before := u8s[..];
      SetAside(sa, da);
      MoveDown(sa, sa + da, db);
      ghost var moved := u8s[..];
      PutBack(sa + db, da);
      ExchangeInSteps(before, sa, da, db, moved, u8s[..]);
    }

    /** The entries of the tables change places; only the second start is new. */
    method SwapTables(j: nat, ghost n: nat)
      requires start != disp && start != classes && disp != classes
      requires 0 < j < n && n <= start.Length && n <= disp.Length && n <= classes.Length
      modifies start, disp, classes
      ensures Swapped(old(Starts(n)), old(Sizes(n)), old(Classes(n)), j, Starts(n), Sizes(n), Classes(n))
    {
      start[j] := start[j - 1] + disp[j];
      classes[j - 1], classes[j] := classes[j], classes[j - 1];
      disp[j - 1], disp[j] := disp[j], disp[j - 1];
    }

    /** U8_SWAP_COMB_MARKS on the characters `j - 1` and `j`. */
    method Swap(j: nat, ghost n: nat)
      requires Valid(n) && 0 < j < n
      modifies u8s, u8t, start, disp, classes
      ensures Valid(n) && Marks(n) == old(Marks(n)[j - 1 := Marks(n)[j]][j := Marks(n)[j - 1]])
      ensures Classes(n) == old(Classes(n)[j - 1 := Classes(n)[j]][j := Classes(n)[j - 1]])
      ensures Confined(old(u8s[..]), old(Starts(n)), old(Sizes(n)), u8s[..], Starts(n), Sizes(n))
    {
      ghost var bytes, st, dp, cs := u8s[..], Starts(n), Sizes(n), Classes(n);
      assert Adjoins(st, dp, j);
      SwapBytes(start[j - 1], disp[j - 1], disp[j]);
      SwapTables(j, n);
      ghost var st', dp', cs' := Starts(n), Sizes(n), Classes(n);
      SwappedContiguous(st, dp, cs, j, st', dp', cs', |bytes|);
      SwappedFit(st, dp, cs, j, st', dp', cs', u8t.Length);
      SwappedMarks(bytes, st, dp, cs, j, u8s[..], st', dp', cs');
      SwappedConfined(bytes, st, dp, cs, j, u8s[..], st', dp', cs');
    }

    /** One comparison: the smaller class moves to the left, a starter stays. */
    method Compare(n: nat, ghost i: nat, j: nat)
      requires Valid(n) && i < j < n && Settled(Classes(n), i) && LeastAt(Classes(n), j)
      modifies u8s, u8t, start, disp, classes
      ensures Valid(n) && Canon(Marks(n)) == old(Canon(Marks(n)))
      ensures Settled(Classes(n), i) && LeastAt(Classes(n), j - 1)
      ensures Confined(old(u8s[..]), old(Starts(n)), old(Sizes(n)), u8s[..], Starts(n), Sizes(n))
    {
      ghost var cs, ms := Classes(n), Marks(n);
      ConfinedSelf(u8s[..], Starts(n), Sizes(n));
      if classes[j] != 0 && classes[j - 1] > classes[j] {
        Swap(j, n);
        CanonSwap(ms, j);
      }
      Bubbles(cs, i, j, Classes(n));
    }

    /** One pass from the right end down to `i`. */
    method Pass(n: nat, i: nat)
      requires Valid(n) && i < n && Settled(Classes(n), i)
      modifies u8s, u8t, start, disp, classes
      ensures Valid(n) && Canon(Marks(n)) == old(Canon(Marks(n))) && Settled(Classes(n), i + 1)
      ensures Confined(old(u8s[..]), old(Starts(n)), old(Sizes(n)), u8s[..], Starts(n), Sizes(n))
    {
      hide Canon, MarksOf, Contiguous, Confined, LeastAt, Settled;
      ghost var goal, b0, st0, dp0 := Canon(Marks(n)), u8s[..], Starts(n), Sizes(n);
      ConfinedSelf(b0, st0, dp0);
      PassEnds(Classes(n), i);
      var j := n - 1;
      while j > i
        invariant i <= j < n && Valid(n) && Canon(Marks(n)) == goal
        invariant Confined(b0, st0, dp0, u8s[..], Starts(n), Sizes(n))
        invariant Settled(Classes(n), i) && LeastAt(Classes(n), j)
      {
        ghost var b, st, dp := u8s[..], Starts(n), Sizes(n);
        Compare(n, i, j);
        ConfinedTwice(b0, st0, dp0, b, st, dp, u8s[..], Starts(n), Sizes(n));
        j := j - 1;
      }
      PassEnds(Classes(n), i);
    }

    /**
      * The ordering loop: the characters end up in canonical order, side by side as before.  collect_a_seq runs
      * it only if it has collected at least one more non-starter behind the first character's decomposition;
      * otherwise that decomposition, already ordered in the tables, stays as it is.
      */
    method Order(n: nat)
      requires Valid(n)
      modifies u8s, u8t, start, disp, classes
      ensures Valid(n) && Marks(n) == old(Canon(Marks(n)))
      ensures Confined(old(u8s[..]), old(Starts(n)), old(Sizes(n)), u8s[..], Starts(n), Sizes(n))
    {
      hide Canon, MarksOf, Contiguous, Confined;
      ghost var goal, b0, st0, dp0 := Canon(Marks(n)), u8s[..], Starts(n), Sizes(n);
      ConfinedSelf(b0, st0, dp0);
      var i := 0;
      while i + 1 < n
        invariant 0 <= i <= n && (n > 0 ==> i < n) && Valid(n) && Canon(Marks(n)) == goal
        invariant Confined(b0, st0, dp0, u8s[..], Starts(n), Sizes(n))
        invariant Settled(Classes(n), i)
      {
        ghost var b, st, dp := u8s[..], Starts(n), Sizes(n);
        Pass(n, i);
        ConfinedTwice(b0, st0, dp0, b, st, dp, u8s[..], Starts(n), Sizes(n));
        i := i + 1;
      }
      SettledInOrder(Marks(n), Classes(n));
      CanonSame(Marks(n));
    }
  }

  lemma {:induction false} ExchangeInSteps(before: seq<int>, sa: nat, da: nat, db: nat, moved: seq<int>,
                                           after: seq<int>)
    requires sa + da + db <= |before|
    requires moved == before[..sa] + before[sa + da..sa + da + db] + before[sa + db..]
    requires after == moved[..sa + db] + before[sa..sa + da] + moved[sa + db + da..]
    ensures after == Exchanged(before, sa, da, db)
  {
    assert moved[..sa + db] == before[..sa] + before[sa + da..sa + da + db];
    assert moved[sa + db + da..] == before[sa + da + db..];
  }
}
