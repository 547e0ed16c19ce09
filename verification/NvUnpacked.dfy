/**
  * What nvlist_unpack can deliver, whatever the bytes are, and what becomes of it when it is copied.
  */
module NvUnpacked {
  import opened ByteOrder
  import opened Errno
  import opened NvData
  import opened NvNative
  import opened NvRoundTrip
  import opened NvlistSpec

  // ---------- every decoded pair can be held, packed and added ----------

  predicate Sound(p: Pair) {
    GoodPair(p) && HeldPair(p) && NamesFitPair(p)
  }

  predicate SoundValue(v: Value) {
    GoodValue(v) && HeldValue(v) && NamesFitValue(v)
  }

  predicate SoundList(l: NvList) {
    GoodList(l) && HeldList(l) && NamesFitPairs(l.pairs)
  }

  lemma {:induction false} SoundPairs(flag: int, ps: seq<Pair>)
    requires 0 <= flag && forall i :: 0 <= i < |ps| ==> Sound(ps[i])
    ensures HeldList(NvList(flag, ps)) && NamesFitPairs(ps)
    ensures forall i :: 0 <= i < |ps| ==> GoodPair(ps[i])
  {
    NamesFitEach(ps);
  }

  lemma {:induction false} SignedBelow(big: bool, bs: seq<Byte>)
    ensures -Limit(|bs|) <= 2 * ReadSigned(big, bs) < Limit(|bs|) && ReadUnsigned(big, bs) < Limit(|bs|)
  {
    SumBound(if big then Reverse(bs) else bs);
  }

  lemma {:induction false} NumberInRange(big: bool, k: Kind, bs: seq<Byte>)
    requires |bs| == Width(k)
    ensures var x := ReadNumber(big, k, bs); (k.Truth? ==> x == 0 || x == 1) ==> InRange(k, x)
  {
    SignedBelow(big, bs);
  }

  lemma {:induction false} NumbersInRange(big: bool, k: Kind, n: nat, bs: seq<Byte>)
    requires n * Width(k) <= |bs| && ReadNumbers(big, k, n, bs).Ok?
    ensures forall i :: 0 <= i < |ReadNumbers(big, k, n, bs).value| ==> InRange(k, ReadNumbers(big, k, n, bs).value[i])
    decreases n
  {
    if n > 0 {
      assert n * Width(k) == Width(k) + (n - 1) * Width(k) && (n - 1) * Width(k) >= 0;
      NumberInRange(big, k, bs[..Width(k)]);
      NumbersInRange(big, k, n - 1, bs[Width(k)..]);
    }
  }

  lemma {:induction false} TextsAreTexts(n: nat, bs: seq<Byte>)
    requires ReadTexts(n, bs).Ok?
    ensures forall i :: 0 <= i < |ReadTexts(n, bs).value| ==> IsText(ReadTexts(n, bs).value[i])
    decreases n
  {
    if n > 0 {
      TextsAreTexts(n - 1, bs[StringEnd(bs) + 1..]);
    }
  }

  lemma {:induction false} ValueSound(big: bool, tag: Tag, nelem: nat, area: seq<Byte>, rest: seq<Byte>)
    requires 0 <= FixedSize(tag, nelem) <= |area| && DecodeValue(big, tag, nelem, area, rest).Ok?
    requires tag != NumbersTag(Hrtime)
    ensures SoundValue(DecodeValue(big, tag, nelem, area, rest).value.item)
    decreases |rest|, 3
  {
    match tag
    case NumberTag(k) => NumberInRange(big, k, area[..Width(k)]);
    case NumbersTag(k) => NumbersInRange(big, k, nelem, area);
    case TextsTag => TextsAreTexts(nelem, area[8 * nelem..]);
    case NestedTag => ListSound(big, area, rest);
    case NestedArrayTag => ListsSound(big, nelem, area[8 * nelem..], rest);
    case _ =>
  }

  lemma {:induction false} ListSound(big: bool, area: seq<Byte>, rest: seq<Byte>)
    requires |area| >= 24 && DecodeList(big, area, rest).Ok?
    ensures SoundList(DecodeList(big, area, rest).value.item)
    decreases |rest|, 1
  {
    PairsSound(big, rest);
    var l := DecodeList(big, area, rest).value.item;
    SoundPairs(l.flag, l.pairs);
  }

  lemma {:induction false} ListsSound(big: bool, n: nat, area: seq<Byte>, rest: seq<Byte>)
    requires 24 * n <= |area| && DecodeLists(big, n, area, rest).Ok?
    ensures var ls := DecodeLists(big, n, area, rest).value.item;
      NamesFitLists(ls) && forall i :: 0 <= i < |ls| ==> SoundList(ls[i])
    decreases |rest|, 2, n
  {
    if n > 0 {
      ListSound(big, area[..24], rest);
      var l := DecodeList(big, area[..24], rest).value;
      ListsSound(big, n - 1, area[24..], l.rest);
      var ls := DecodeLists(big, n - 1, area[24..], l.rest).value.item;
      assert ([l.item] + ls)[1..] == ls;
    }
  }

  lemma {:induction false} PairSound(big: bool, nvp: seq<Byte>, rest: seq<Byte>)
    requires 24 <= |nvp| <= INT32_MAX && DecodePair(big, nvp, rest).Ok?
    ensures Sound(DecodePair(big, nvp, rest).value.item)
    decreases |rest|, 4
  {
    Limits();
    var nameSize := ReadSigned(big, nvp[4..6]);
    SignedBelow(big, nvp[4..6]);
    var nelem, tag := ReadUnsigned(big, nvp[8..12]), Decoded(ReadSigned(big, nvp[12..16]));
    var area := nvp[Align8(16 + nameSize)..];
    ValueSound(big, tag, nelem, area, rest);
    var p := DecodePair(big, nvp, rest).value.item;
    assert p.name == nvp[16..][..nameSize - 1] && PairSize(p) == |nvp|;
  }

  lemma {:induction false} PairsSound(big: bool, rest: seq<Byte>)
    requires DecodePairs(big, rest).Ok?
    ensures var ps := DecodePairs(big, rest).value.item; forall i :: 0 <= i < |ps| ==> Sound(ps[i])
    decreases |rest|, 0
  {
    Limits();
    var len := ReadSigned(big, rest[..4]);
    SignedBelow(big, rest[..4]);
    if len != 0 {
      PairSound(big, rest[..len], rest[len..]);
      PairsSound(big, DecodePair(big, rest[..len], rest[len..]).value.rest);
    }
  }

  /** Whatever bytes nvlist_unpack accepts, the list can be held, and packed again with the same result; only its
      flags, and pairs that clash, may be what no operation builds. */
  lemma {:induction false} UnpackedSound(big: bool, buf: seq<Byte>)
    requires Unpack(big, buf).Ok?
    ensures var l := Unpack(big, buf).value;
      && GoodTop(l) && HeldList(l) && NamesFitPairs(l.pairs)
      && (ListTotal(l) <= INT32_MAX ==> Unpack(big, Packed(big, l)) == Ok(l))
  {
    var l := Unpack(big, buf).value;
    SignedBelow(big, buf[8..12]);
    PairsSound(big, buf[12..]);
    SoundPairs(l.flag, l.pairs);
    if ListTotal(l) <= INT32_MAX {
      RoundTrip(big, l);
    }
  }

  // ---------- what is read, and what is not ----------

  lemma {:induction false} Longer(s: seq<Byte>, x: seq<Byte>, n: nat)
    requires n <= |s|
    ensures (s + x)[..n] == s[..n] && (s + x)[n..] == s[n..] + x
  {
  }

  lemma {:induction false} PairsMore(big: bool, s: seq<Byte>, x: seq<Byte>)
    requires DecodePairs(big, s).Ok?
    ensures var r := DecodePairs(big, s).value;
      DecodePairs(big, s + x) == Ok(Parsed(r.item, r.rest + x)) && |s| - |r.rest| == PairsTotal(r.item)
    decreases |s|, 0
  {
    hide DecodePair, PairTotal;
    Limits();
    var len := ReadSigned(big, s[..4]);
    SignedBelow(big, s[..4]);
    Longer(s, x, 4);
    if len != 0 {
      Longer(s, x, len);
      PairMore(big, s[..len], s[len..], x);
      var p := DecodePair(big, s[..len], s[len..]).value;
      PairsMore(big, p.rest, x);
      var ps := DecodePairs(big, p.rest).value.item;
      assert ([p.item] + ps)[1..] == ps;
    }
  }

  lemma {:induction false} PairMore(big: bool, nvp: seq<Byte>, rest: seq<Byte>, x: seq<Byte>)
    requires 24 <= |nvp| && DecodePair(big, nvp, rest).Ok?
    ensures var r := DecodePair(big, nvp, rest).value;
      DecodePair(big, nvp, rest + x) == Ok(Parsed(r.item, r.rest + x)) && |nvp| + |rest| - |r.rest| == PairTotal(r.item)
    decreases |rest|, 4
  {
    hide DecodeValue, Limit, Sum;
    var nameSize := ReadSigned(big, nvp[4..6]);
    var nelem, tag := ReadUnsigned(big, nvp[8..12]), Decoded(ReadSigned(big, nvp[12..16]));
    var area := nvp[Align8(16 + nameSize)..];
    ValueMore(big, tag, nelem, area, rest, x);
  }

  lemma {:induction false} ValueMore(big: bool, tag: Tag, nelem: nat, area: seq<Byte>, rest: seq<Byte>, x: seq<Byte>)
    requires 0 <= FixedSize(tag, nelem) <= |area| && DecodeValue(big, tag, nelem, area, rest).Ok?
    ensures var r := DecodeValue(big, tag, nelem, area, rest).value;
      && DecodeValue(big, tag, nelem, area, rest + x) == Ok(Parsed(r.item, r.rest + x))
      && |rest| - |r.rest| == TailTotal(r.item)
    decreases |rest|, 3
  {
    hide DecodeList, DecodeLists;
    match tag
    case NestedTag => ListMore(big, area, rest, x);
    case NestedArrayTag => ListsMore(big, nelem, area[8 * nelem..], rest, x);
    case _ =>
  }

  lemma {:induction false} ListMore(big: bool, area: seq<Byte>, rest: seq<Byte>, x: seq<Byte>)
    requires |area| >= 24 && DecodeList(big, area, rest).Ok?
    ensures var r := DecodeList(big, area, rest).value;
      && DecodeList(big, area, rest + x) == Ok(Parsed(r.item, r.rest + x))
      && |rest| - |r.rest| == PairsTotal(r.item.pairs)
    decreases |rest|, 1
  {
    hide DecodePairs;
    PairsMore(big, rest, x);
  }

  lemma {:induction false} ListsMore(big: bool, n: nat, area: seq<Byte>, rest: seq<Byte>, x: seq<Byte>)
    requires 24 * n <= |area| && DecodeLists(big, n, area, rest).Ok?
    ensures var r := DecodeLists(big, n, area, rest).value;
      && DecodeLists(big, n, area, rest + x) == Ok(Parsed(r.item, r.rest + x))
      && |rest| - |r.rest| == ListsTotal(r.item)
    decreases |rest|, 2, n
  {
    if n > 0 {
      hide DecodeList;
      ListMore(big, area[..24], rest, x);
      var l := DecodeList(big, area[..24], rest).value;
      ListsMore(big, n - 1, area[24..], l.rest, x);
      var ls := DecodeLists(big, n - 1, area[24..], l.rest).value.item;
      assert ([l.item] + ls)[1..] == ls;
    }
  }

  /** What nvlist_unpack accepts is at least as long as nvlist_size says of the result, and what follows does not
      matter. */
  lemma {:induction false} UnpackedSize(big: bool, buf: seq<Byte>, x: seq<Byte>)
    requires Unpack(big, buf).Ok?
    ensures Unpack(big, buf + x) == Unpack(big, buf) && ListTotal(Unpack(big, buf).value) <= |buf|
  {
    hide DecodePairs, PairsTotal;
    Longer(buf, x, 12);
    assert (buf + x)[8..12] == (buf + x)[..12][8..] && buf[8..12] == buf[..12][8..];
    PairsMore(big, buf[12..], x);
  }

  /** No part of a packed list that lacks its end is accepted. */
  lemma {:induction false} Truncated(big: bool, l: NvList, n: nat)
    requires GoodTop(l) && ListTotal(l) <= INT32_MAX && NamesFitPairs(l.pairs) && n < ListTotal(l)
    ensures Unpack(big, Packed(big, l)[..n]).Err? && (n < 4 ==> Unpack(big, Packed(big, l)[..n]) == Err(EINVAL))
  {
    hide Packed, ListTotal;
    var buf := Packed(big, l);
    RoundTrip(big, l);
    assert buf[..n] + buf[n..] == buf;
    if Unpack(big, buf[..n]).Ok? {
      UnpackedSize(big, buf[..n], buf[n..]);
      assert false;
    }
  }

  // ---------- lists that a copy does not equal ----------

  /** A list that comes back from its packed bytes and not from nvlist_dup. */
  predicate NotCopied(big: bool, l: NvList) {
    HeldList(l) && Unpack(big, Packed(big, l)) == Ok(l) && CopiedList(l) != l
  }

  lemma {:induction false} Returns(big: bool, l: NvList)
    requires GoodTop(l) && HeldList(l) && ListTotal(l) <= INT32_MAX && NamesFitPairs(l.pairs) && !DeepList(l)
    ensures NotCopied(big, l)
  {
    RoundTrip(big, l);
    CopiedListExactly(l);
  }

  const A := Pair([97], Flag)

  /** Two pairs of one name under NV_UNIQUE_NAME. */
  const TWICE := NvList(1, [A, A])

  lemma {:induction false} TwiceSound()
    ensures SoundList(TWICE) && PairsTotal(TWICE.pairs) == 52 && !DeepList(TWICE)
  {
    var ps := TWICE.pairs;
    assert PairTotal(A) == 24 && PairsTotal([A]) == 28 by {
      assert [A][1..] == [];
    }
    assert ps[1..] == [A];
    NamesFitEach(ps);
    assert Clash(1, ps[0], ps[1]);
  }

  lemma {:induction false} ClashNotCopied(big: bool)
    ensures NotCopied(big, TWICE)
  {
    TwiceSound();
    Limits();
    Returns(big, TWICE);
  }

  /** The same inside a list without flags, whose own pairs cannot clash. */
  lemma {:induction false} InnerClashNotCopied(big: bool)
    ensures var l := NvList(0, [Pair([120], Nested(TWICE))]); Distinct(l.flag, l.pairs) && NotCopied(big, l)
  {
    var p := Pair([120], Nested(TWICE));
    var l := NvList(0, [p]);
    TwiceSound();
    Limits();
    assert PairTotal(p) == 48 + 52 && l.pairs[1..] == [];
    NamesFitEach(l.pairs);
    Returns(big, l);
  }

  /** Flags that nvlist_init does not keep. */
  lemma {:induction false} FlagsNotCopied(big: bool)
    ensures NotCopied(big, NvList(4, []))
  {
    Limits();
    Returns(big, NvList(4, []));
  }
}
