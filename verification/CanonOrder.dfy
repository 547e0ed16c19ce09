/**
  * Canonical ordering of combining marks (section 3.11 of the Unicode Standard): a reference on
  * sequences of characters, and the loop that swaps runs of bytes in place.
  */
module CanonOrder {

  /** A character: its combining class, 0 for a starter, and its bytes. */
  datatype Mark = Mark(cc: nat, bytes: seq<int>)

  // ---------- the reference: a stable insertion that no starter is crossed by ----------

  /** Put `m` in front, or behind the marks of a smaller class that are not starters. */
  function Insert(m: Mark, ms: seq<Mark>): (r: seq<Mark>)
    ensures |r| == |ms| + 1
  {
    if ms == [] || ms[0].cc == 0 || m.cc <= ms[0].cc then [m] + ms else [ms[0]] + Insert(m, ms[1..])
  }

  function Canon(ms: seq<Mark>): (r: seq<Mark>)
    ensures |r| == |ms|
  {
    if ms == [] then [] else Insert(ms[0], Canon(ms[1..]))
  }

  /** No mark stands behind one of a greater class in its run. */
  predicate InOrder(ms: seq<Mark>) {
    forall q :: 1 <= q < |ms| && ms[q].cc != 0 ==> ms[q - 1].cc <= ms[q].cc
  }

  // ---------- what the reference does ----------

  lemma {:induction false} InsertFirst(m: Mark, ms: seq<Mark>)
    ensures Insert(m, ms)[0] == if ms == [] || ms[0].cc == 0 || m.cc <= ms[0].cc then m else ms[0]
  {
  }

  lemma {:induction false} InsertInOrder(m: Mark, ms: seq<Mark>)
    requires InOrder(ms)
    ensures InOrder(Insert(m, ms))
  {
    if ms != [] && ms[0].cc != 0 && m.cc > ms[0].cc {
      assert forall q :: 1 <= q < |ms[1..]| ==> ms[1..][q - 1] == ms[q] && ms[1..][q] == ms[q + 1];
      InsertInOrder(m, ms[1..]);
      InsertFirst(m, ms[1..]);
    }
  }

  /** The result is in order. */
  lemma {:induction false} CanonInOrder(ms: seq<Mark>)
    ensures InOrder(Canon(ms))
  {
    if ms != [] {
      CanonInOrder(ms[1..]);
      InsertInOrder(ms[0], Canon(ms[1..]));
    }
  }

  lemma {:induction false} InsertMultiset(m: Mark, ms: seq<Mark>)
    ensures multiset(Insert(m, ms)) == multiset(ms) + multiset{m}
  {
    if ms != [] {
      assert ms == [ms[0]] + ms[1..];
      if !(ms[0].cc == 0 || m.cc <= ms[0].cc) {
        InsertMultiset(m, ms[1..]);
      }
    }
  }

  /** It is a permutation. */
  lemma {:induction false} CanonMultiset(ms: seq<Mark>)
    ensures multiset(Canon(ms)) == multiset(ms)
  {
    if ms != [] {
      CanonMultiset(ms[1..]);
      InsertMultiset(ms[0], Canon(ms[1..]));
      assert ms == [ms[0]] + ms[1..];
    }
  }

  /** The marks of one class, in order. */
  function OfClass(ms: seq<Mark>, c: nat): seq<Mark> {
    if ms == [] then [] else (if ms[0].cc == c then [ms[0]] else []) + OfClass(ms[1..], c)
  }

  lemma {:induction false} InsertStable(m: Mark, ms: seq<Mark>, c: nat)
    ensures OfClass(Insert(m, ms), c) == OfClass([m] + ms, c)
  {
    assert ([m] + ms)[1..] == ms;
    if ms != [] && ms[0].cc != 0 && m.cc > ms[0].cc {
      InsertStable(m, ms[1..], c);
      assert ([m] + ms[1..])[1..] == ms[1..];
      assert Insert(m, ms)[1..] == Insert(m, ms[1..]);
    }
  }

  /** It is stable: marks of one class keep their order. */
  lemma {:induction false} CanonStable(ms: seq<Mark>, c: nat)
    ensures OfClass(Canon(ms), c) == OfClass(ms, c)
  {
    if ms != [] {
      CanonStable(ms[1..], c);
      InsertStable(ms[0], Canon(ms[1..]), c);
      assert ([ms[0]] + Canon(ms[1..]))[1..] == Canon(ms[1..]);
    }
  }

  lemma {:induction false} InsertBefore(m: Mark, ms: seq<Mark>, s: Mark, rest: seq<Mark>)
    requires s.cc == 0
    ensures Insert(m, ms + [s] + rest) == Insert(m, ms) + [s] + rest
  {
    var all := ms + [s] + rest;
    if ms == [] {
      assert all[0] == s;
      assert all == [s] + rest;
    } else if ms[0].cc != 0 && m.cc > ms[0].cc {
      InsertBefore(m, ms[1..], s, rest);
      assert all[1..] == ms[1..] + [s] + rest;
    }
  }

  /** Nothing crosses a starter: what is before it and what is behind it are ordered on their own. */
  lemma {:induction false} CanonStarter(ms: seq<Mark>, s: Mark, rest: seq<Mark>)
    requires s.cc == 0
    ensures Canon(ms + [s] + rest) == Canon(ms) + [s] + Canon(rest)
  {
    var all := ms + [s] + rest;
    if ms == [] {
      assert all == [s] + rest && all[1..] == rest;
    } else {
      assert all[1..] == ms[1..] + [s] + rest;
      CanonStarter(ms[1..], s, rest);
      InsertBefore(ms[0], Canon(ms[1..]), s, Canon(rest));
    }
  }

  // ---------- a legal swap does not change the reference ----------

  lemma {:induction false} InsertSwap(a: Mark, b: Mark, ms: seq<Mark>)
    requires a.cc > b.cc > 0
    ensures Insert(a, Insert(b, ms)) == Insert(b, Insert(a, ms))
  {
    if ms != [] && ms[0].cc != 0 && b.cc > ms[0].cc {
      InsertSwap(a, b, ms[1..]);
      assert Insert(b, ms)[1..] == Insert(b, ms[1..]);
      assert Insert(a, ms)[1..] == Insert(a, ms[1..]);
    } else {
      var r := Insert(b, ms);
      assert r == [b] + ms && r[1..] == ms;
      assert Insert(a, r) == [b] + Insert(a, ms);
      InsertFirst(a, ms);
    }
  }

  /** Exchanging two neighbours of which the second has the smaller class, and is not a starter, gives the same
      ordering. */
  lemma {:induction false} CanonSwap(ms: seq<Mark>, j: nat)
    requires 0 < j < |ms| && 0 < ms[j].cc < ms[j - 1].cc
    ensures Canon(ms[j - 1 := ms[j]][j := ms[j - 1]]) == Canon(ms)
  {
    var r := ms[j - 1 := ms[j]][j := ms[j - 1]];
    if j == 1 {
      assert ms[1..][1..] == r[1..][1..];
      InsertSwap(ms[0], ms[1], Canon(ms[1..][1..]));
    } else {
      CanonSwap(ms[1..], j - 1);
      assert r[1..] == ms[1..][j - 2 := ms[1..][j - 1]][j - 1 := ms[1..][j - 2]];
    }
  }

  /** What is in order is its own ordering. */
  lemma {:induction false} CanonSame(ms: seq<Mark>)
    requires InOrder(ms)
    ensures Canon(ms) == ms
  {
    if ms != [] {
      assert forall q :: 1 <= q < |ms[1..]| ==> ms[1..][q - 1] == ms[q] && ms[1..][q] == ms[q + 1];
      CanonSame(ms[1..]);
      assert |ms| > 1 ==> ms[1..][0] == ms[1];
    }
  }
}
