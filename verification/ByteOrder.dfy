/**
  * Numbers as bytes, lowest first, and bytes in the opposite order.
  */
module ByteOrder {

  type Byte = x: int | 0 <= x < 256

  /** 256 to the power `w`. */
  function Limit(w: nat): (r: int)
    ensures r >= 1
  {
    if w == 0 then 1 else 256 * Limit(w - 1)
  }

  /** The low `w` bytes of `n` in two's complement, lowest first. */
  function Low(w: nat, n: int): (r: seq<Byte>)
    ensures |r| == w
    decreases w
  {
    if w == 0 then [] else [n % 256] + Low(w - 1, n / 256)
  }

  function Sum(bs: seq<Byte>): (n: nat)
  {
    if bs == [] then 0 else bs[0] + 256 * Sum(bs[1..])
  }

  function Reverse(bs: seq<Byte>): (r: seq<Byte>)
    ensures |r| == |bs| && forall i :: 0 <= i < |bs| ==> r[i] == bs[|bs| - 1 - i]
  {
    seq(|bs|, i requires 0 <= i < |bs| => bs[|bs| - 1 - i])
  }

  lemma {:induction false} SumLow(w: nat, n: int)
    requires 0 <= n < Limit(w)
    ensures Sum(Low(w, n)) == n
    decreases w
  {
    if w > 0 {
      SumLow(w - 1, n / 256);
      assert Low(w, n)[1..] == Low(w - 1, n / 256);
    }
  }

  /** Byte `i` of a number, counted from the lowest. */
  function ByteOf(n: int, i: nat): Byte {
    n / Limit(i) % 256
  }

  lemma {:induction false} Multiple(d: int, q: int)
    requires d > 0 && q > 0
    ensures d * q >= d
  {
  }

  lemma {:induction false} QuotientOnce(d: int, q: int, r: int, q': int, r': int)
    requires d > 0 && d * q + r == d * q' + r' && 0 <= r < d && 0 <= r' < d
    ensures q == q'
  {
    if q > q' {
      Multiple(d, q - q');
    } else if q < q' {
      Multiple(d, q' - q);
    }
  }

  lemma {:induction false} ByteOfNext(n: int, i: nat)
    ensures ByteOf(n, i + 1) == ByteOf(n / 256, i)
  {
    hide Limit;
    var d, m := Limit(i), n / 256;
    assert Limit(i + 1) == 256 * d by {
      LimitNext(i);
    }
    var q, q' := m / d, n / (256 * d);
    assert m == d * q + m % d && n == (256 * d) * q' + n % (256 * d);
    assert (256 * d) * q == 256 * (d * q);
    QuotientOnce(256 * d, q, 256 * (m % d) + n % 256, q', n % (256 * d));
  }

  lemma {:induction false} LimitNext(i: nat)
    ensures Limit(i + 1) == 256 * Limit(i)
  {
  }

  lemma {:induction false} LowAt(w: nat, n: int, i: nat)
    requires i < w
    ensures Low(w, n)[i] == ByteOf(n, i)
    decreases w
  {
    if i > 0 {
      LowAt(w - 1, n / 256, i - 1);
      ByteOfNext(n, i - 1);
    }
  }

  lemma {:induction false} SumBound(bs: seq<Byte>)
    ensures Sum(bs) < Limit(|bs|)
  {
    if bs != [] {
      SumBound(bs[1..]);
    }
  }

  lemma {:induction false} LowWraps(w: nat, n: int)
    ensures Low(w, n + Limit(w)) == Low(w, n)
    decreases w
  {
    if w > 0 {
      LowWraps(w - 1, n / 256);
      assert (n + Limit(w)) / 256 == n / 256 + Limit(w - 1);
      assert (n + Limit(w)) % 256 == n % 256;
    }
  }

  lemma {:induction false} ReverseTwice(bs: seq<Byte>)
    ensures Reverse(Reverse(bs)) == bs
  {
  }

  /** Bytes are the bytes of the number they stand for. */
  lemma {:induction false} LowSum(bs: seq<Byte>)
    ensures Low(|bs|, Sum(bs)) == bs
  {
    if bs != [] {
      LowSum(bs[1..]);
      assert Sum(bs) == bs[0] + 256 * Sum(bs[1..]);
      assert Sum(bs) % 256 == bs[0] && Sum(bs) / 256 == Sum(bs[1..]);
    }
  }
}
