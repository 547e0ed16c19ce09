/**
  * Unpacking undoes packing, for lists of any depth.
  */
module NvRoundTrip {
  import opened ByteOrder
  import opened Errno
  import opened NvData
  import opened NvNative

  // ---------- concatenation ----------

  lemma {:induction false} Regroup(a: seq<Byte>, b: seq<Byte>, c: seq<Byte>)
    ensures (a + b) + c == a + (b + c)
  {
  }

  lemma {:induction false} Parts(a: seq<Byte>, b: seq<Byte>, s: seq<Byte>)
    requires s == a + b
    ensures s[..|a|] == a && s[|a|..] == b
  {
  }

  lemma {:induction false} HeadTail<T>(s: seq<T>)
    requires s != []
    ensures [s[0]] + s[1..] == s
  {
  }

  // ---------- strings and numbers ----------

  lemma {:induction false} StringEndAt(s: seq<Byte>, rest: seq<Byte>)
    requires IsText(s)
    ensures StringEnd(s + [0] + rest) == |s|
  {
    if s != [] {
      assert (s + [0] + rest)[1..] == s[1..] + [0] + rest;
      StringEndAt(s[1..], rest);
    }
  }

  lemma {:induction false} TextsBack(ss: seq<seq<Byte>>, rest: seq<Byte>)
    requires forall i :: 0 <= i < |ss| ==> IsText(ss[i])
    ensures ReadTexts(|ss|, TextsBytes(ss) + rest) == Ok(ss)
  {
    if ss != [] {
      var bs := TextsBytes(ss) + rest;
      var more := TextsBytes(ss[1..]) + rest;
      assert bs == ss[0] + [0] + more;
      StringEndAt(ss[0], more);
      assert bs[..|ss[0]|] == ss[0];
      assert bs[|ss[0]| + 1..] == more;
      TextsBack(ss[1..], rest);
      HeadTail(ss);
    }
  }

  lemma {:induction false} NumbersStep(big: bool, k: Kind, n: nat, first: seq<Byte>, more: seq<Byte>, xs: seq<int>)
    requires n > 0 && |first| == Width(k) && (n - 1) * Width(k) <= |more|
    requires InRange(k, ReadNumber(big, k, first))
    requires ReadNumbers(big, k, n - 1, more) == Ok(xs)
    ensures n * Width(k) <= |first + more|
    ensures ReadNumbers(big, k, n, first + more) == Ok([ReadNumber(big, k, first)] + xs)
  {
    assert n * Width(k) == Width(k) + (n - 1) * Width(k);
    Parts(first, more, first + more);
  }

  lemma {:induction false} NumbersBack(big: bool, k: Kind, ns: seq<int>, rest: seq<Byte>)
    requires forall i :: 0 <= i < |ns| ==> InRange(k, ns[i])
    ensures ReadNumbers(big, k, |ns|, NumbersBytes(big, k, ns) + rest) == Ok(ns)
  {
    if ns != [] {
      var first, more := Word(big, Width(k), ns[0]), NumbersBytes(big, k, ns[1..]);
      Regroup(first, more, rest);
      NumberBack(big, k, ns[0]);
      NumbersBack(big, k, ns[1..], rest);
      NumbersStep(big, k, |ns|, first, more + rest, ns[1..]);
      HeadTail(ns);
    }
  }

  // ---------- the fields of a pair ----------

  lemma {:induction false} Fields(a: seq<Byte>, b: seq<Byte>, c: seq<Byte>, d: seq<Byte>, e: seq<Byte>, s: seq<Byte>)
    requires |a| == |d| == |e| == 4 && |b| == |c| == 2
    requires |s| >= 16 && s[..16] == a + b + c + d + e
    ensures s[..4] == a && s[4..6] == b && s[8..12] == d && s[12..16] == e
  {
    var head := s[..16];
    assert head[..4] == a && head[4..6] == b && head[8..12] == d && head[12..16] == e;
  }

  lemma {:induction false} HeadFields(big: bool, p: Pair, nvp: seq<Byte>)
    requires |nvp| >= 16 && nvp[..16] == HeadBytes(big, p)
    ensures nvp[..4] == Word(big, 4, PairSize(p)) && nvp[4..6] == Word(big, 2, |p.name| + 1)
    ensures nvp[8..12] == Word(big, 4, Nelem(p.value)) && nvp[12..16] == Word(big, 4, Code(p.value))
  {
    Fields(Word(big, 4, PairSize(p)), Word(big, 2, |p.name| + 1), Word(big, 2, 0),
           Word(big, 4, Nelem(p.value)), Word(big, 4, Code(p.value)), nvp);
  }

  lemma {:induction false} HeadBack(big: bool, p: Pair, nvp: seq<Byte>)
    requires |p.name| <= MAX_NAME && PairSize(p) <= INT32_MAX && Nelem(p.value) <= INT32_MAX
    requires p.value.Numbers? ==> !p.value.kind.Hrtime?
    requires |nvp| >= 16 && nvp[..16] == HeadBytes(big, p)
    ensures ReadSigned(big, nvp[..4]) == PairSize(p)
    ensures ReadSigned(big, nvp[4..6]) == |p.name| + 1
    ensures ReadUnsigned(big, nvp[8..12]) == Nelem(p.value)
    ensures Decoded(ReadSigned(big, nvp[12..16])) == TagOf(p.value)
  {
    HeadFields(big, p, nvp);
    Limits();
    SignedBack(big, 4, PairSize(p));
    SignedBack(big, 2, |p.name| + 1);
    UnsignedBack(big, 4, Nelem(p.value));
    CodeBack(p.value);
    SignedBack(big, 4, Code(p.value));
  }

  lemma {:induction false} Limits()
    ensures Limit(2) == 0x1_0000 && Limit(4) == 0x1_0000_0000
  {
    assert Limit(1) == 256;
    assert Limit(3) == 256 * Limit(2);
  }

  lemma {:induction false} NameEnds(nvp: seq<Byte>, name: seq<Byte>, area: seq<Byte>)
    requires |nvp| >= 16 && IsText(name) && nvp[16..] == NameBytes(name) + area
    ensures StringEnd(nvp[16..]) == |name|
  {
    var pad := Pad(16 + |name| + 1);
    StringEndAt(name, pad + area);
    Regroup(name + [0], pad, area);
  }

  /** The name check passes, and the name and the value are where the check puts them. */
  lemma {:induction false} NameBack(nvp: seq<Byte>, name: seq<Byte>, area: seq<Byte>)
    requires |nvp| >= 16 && IsText(name) && nvp[16..] == NameBytes(name) + area
    ensures NameOk(nvp, |name| + 1) && nvp[16..16 + |name|] == name && nvp[Align8(16 + |name| + 1)..] == area
  {
    NameEnds(nvp, name, area);
    var tail := nvp[16..];
    assert tail[..|name|] == name && tail[|name|] == 0;
    Parts(NameBytes(name), area, tail);
    assert nvp[Align8(16 + |name| + 1)..] == tail[|NameBytes(name)|..];
  }

  // ---------- values and pairs ----------

  lemma {:induction false} FixedFits(v: Value) returns (size: nat)
    requires ValueSize(v) <= INT32_MAX
    ensures size == FixedSize(TagOf(v), Nelem(v)) <= ValueSize(v) && Align8(size) <= Align8(ValueSize(v))
    ensures Nelem(v) <= INT32_MAX
  {
    size := FixedSize(TagOf(v), Nelem(v));
    Align8Grows(size, ValueSize(v));
  }

  lemma {:induction false} NumberValueBack(big: bool, k: Kind, n: int, pad: seq<Byte>, rest: seq<Byte>)
    requires InRange(k, n)
    ensures DecodeValue(big, NumberTag(k), 1, Word(big, Width(k), n) + pad, rest) == Ok(Parsed(Number(k, n), rest))
  {
    NumberBack(big, k, n);
    assert (Word(big, Width(k), n) + pad)[..Width(k)] == Word(big, Width(k), n);
  }

  lemma {:induction false} NumbersValueBack(big: bool, k: Kind, ns: seq<int>, pad: seq<Byte>, rest: seq<Byte>)
    requires (forall i :: 0 <= i < |ns| ==> InRange(k, ns[i])) && |ns| * Width(k) <= INT32_MAX
    ensures DecodeValue(big, NumbersTag(k), |ns|, NumbersBytes(big, k, ns) + pad, rest)
        == Ok(Parsed(Numbers(k, ns), rest))
  {
    NumbersBack(big, k, ns, pad);
  }

  lemma {:induction false} TextValueBack(big: bool, s: seq<Byte>, pad: seq<Byte>, rest: seq<Byte>)
    requires IsText(s)
    ensures DecodeValue(big, TextTag, 1, s + [0] + pad, rest) == Ok(Parsed(Text(s), rest))
  {
    StringEndAt(s, pad);
    assert (s + [0] + pad)[..|s|] == s;
  }

  lemma {:induction false} TextsValueBack(big: bool, ss: seq<seq<Byte>>, pad: seq<Byte>, rest: seq<Byte>)
    requires (forall i :: 0 <= i < |ss| ==> IsText(ss[i])) && 8 * |ss| <= INT32_MAX
    ensures DecodeValue(big, TextsTag, |ss|, Zeros(8 * |ss|) + TextsBytes(ss) + pad, rest)
        == Ok(Parsed(Texts(ss), rest))
  {
    TextsBack(ss, pad);
    assert (Zeros(8 * |ss|) + TextsBytes(ss) + pad)[8 * |ss|..] == TextsBytes(ss) + pad;
  }

  lemma {:induction false} ListHeader(big: bool, l: NvList, area: seq<Byte>)
    requires 0 <= l.flag < 4 && |area| >= 24 && area[..24] == ListBytes(big, l)
    ensures ReadSigned(big, area[..4]) == 0 && ReadUnsigned(big, area[4..8]) == l.flag
  {
    var header := area[..24];
    Limits();
    SignedBack(big, 4, 0);
    assert area[..4] == header[..4] == Word(big, 4, 0);
    UnsignedBack(big, 4, l.flag);
    assert area[4..8] == header[4..8] == Word(big, 4, l.flag);
  }

  lemma {:induction false} ListBack(big: bool, l: NvList, area: seq<Byte>, rest: seq<Byte>, after: seq<Byte>)
    requires 0 <= l.flag < 4 && |area| >= 24 && ReadSigned(big, area[..4]) == 0
    requires ReadUnsigned(big, area[4..8]) == l.flag
    requires DecodePairs(big, rest) == Ok(Parsed(l.pairs, after))
    ensures DecodeList(big, area, rest) == Ok(Parsed(l, after))
  {
  }

  lemma {:induction false} ListsStep(big: bool, n: nat, area: seq<Byte>, rest: seq<Byte>, l: Parsed<NvList>,
                                     ls: Parsed<seq<NvList>>)
    requires n > 0 && 24 * n <= |area|
    requires DecodeList(big, area[..24], rest) == Ok(l)
    requires DecodeLists(big, n - 1, area[24..], l.rest) == Ok(ls)
    ensures DecodeLists(big, n, area, rest) == Ok(Parsed([l.item] + ls.item, ls.rest))
  {
  }

  lemma {:induction false} ListsBack(big: bool, ls: seq<NvList>, pad: seq<Byte>, rest: seq<Byte>)
    requires (forall i :: 0 <= i < |ls| ==> GoodList(ls[i])) && ListsTotal(ls) <= INT32_MAX && NamesFitLists(ls)
    ensures DecodeLists(big, |ls|, ListsBytes(big, ls) + pad, PackedLists(big, ls) + rest) == Ok(Parsed(ls, rest))
    decreases ls
  {
    if ls == [] {
      assert PackedLists(big, ls) + rest == rest;
    } else {
      var area, more := ListsBytes(big, ls) + pad, PackedLists(big, ls[1..]) + rest;
      PairsBack(big, ls[0].pairs, more);
      Regroup(ListBytes(big, ls[0]), ListsBytes(big, ls[1..]), pad);
      Parts(ListBytes(big, ls[0]), ListsBytes(big, ls[1..]) + pad, area);
      ListHeader(big, ls[0], area[..24]);
      ListBack(big, ls[0], area[..24], PackedPairs(big, ls[0].pairs) + more, more);
      Regroup(PackedPairs(big, ls[0].pairs), PackedLists(big, ls[1..]), rest);
      ListsBack(big, ls[1..], pad, rest);
      ListsStep(big, |ls|, area, PackedLists(big, ls) + rest, Parsed(ls[0], more), Parsed(ls[1..], rest));
      HeadTail(ls);
    }
  }

  lemma {:induction false} NestedArrayValueBack(big: bool, ls: seq<NvList>, pad: seq<Byte>, rest: seq<Byte>,
                                                after: seq<Byte>)
    requires 32 * |ls| <= INT32_MAX
    requires DecodeLists(big, |ls|, ListsBytes(big, ls) + pad, rest) == Ok(Parsed(ls, after))
    ensures DecodeValue(big, NestedArrayTag, |ls|, Zeros(8 * |ls|) + ListsBytes(big, ls) + pad, rest)
      == Ok(Parsed(NestedArray(ls), after))
  {
    assert (Zeros(8 * |ls|) + ListsBytes(big, ls) + pad)[8 * |ls|..] == ListsBytes(big, ls) + pad;
  }

  lemma {:induction false} NestedValueBack(big: bool, l: NvList, area: seq<Byte>, rest: seq<Byte>, after: seq<Byte>)
    requires |area| >= 24 && DecodeList(big, area, rest) == Ok(Parsed(l, after))
    ensures DecodeValue(big, NestedTag, 1, area, rest) == Ok(Parsed(Nested(l), after))
  {
  }

  lemma {:induction false} PlainBack(big: bool, v: Value, pad: seq<Byte>, rest: seq<Byte>)
    requires GoodValue(v) && ValueSize(v) <= INT32_MAX && !v.Nested? && !v.NestedArray?
    requires 0 <= FixedSize(TagOf(v), Nelem(v)) <= |ValueBytes(big, v) + pad|
    ensures DecodeValue(big, TagOf(v), Nelem(v), ValueBytes(big, v) + pad, rest) == Ok(Parsed(v, rest))
  {
    match v
    case Flag =>
    case Number(k, n) => NumberValueBack(big, k, n, pad, rest);
    case Numbers(k, ns) => NumbersValueBack(big, k, ns, pad, rest);
    case Text(s) => TextValueBack(big, s, pad, rest);
    case Texts(ss) => TextsValueBack(big, ss, pad, rest);
  }

  /** A value comes back from its area and, for embedded lists, from the stream. */
  lemma {:induction false} ValueBack(big: bool, v: Value, pad: seq<Byte>, rest: seq<Byte>)
    requires GoodValue(v) && ValueSize(v) <= INT32_MAX && TailTotal(v) <= INT32_MAX && NamesFitValue(v)
    requires 0 <= FixedSize(TagOf(v), Nelem(v)) <= |ValueBytes(big, v) + pad|
    ensures DecodeValue(big, TagOf(v), Nelem(v), ValueBytes(big, v) + pad, PackedTail(big, v) + rest)
        == Ok(Parsed(v, rest))
    decreases v
  {
    var stream := PackedTail(big, v) + rest;
    match v
    case Nested(l) =>
      PairsBack(big, l.pairs, rest);
      Parts(ListBytes(big, l), pad, ListBytes(big, l) + pad);
      ListHeader(big, l, ListBytes(big, l) + pad);
      ListBack(big, l, ListBytes(big, l) + pad, stream, rest);
      NestedValueBack(big, l, ListBytes(big, l) + pad, stream, rest);
    case NestedArray(ls) =>
      ListsBack(big, ls, pad, rest);
      NestedArrayValueBack(big, ls, pad, stream, rest);
    case _ =>
      assert stream == rest;
      PlainBack(big, v, pad, rest);
  }

  lemma {:induction false} PairStep(big: bool, nvp: seq<Byte>, rest: seq<Byte>, name: seq<Byte>, tag: Tag, nelem: nat,
                                    size: nat, area: seq<Byte>, v: Parsed<Value>)
    requires |nvp| >= 24 && ReadSigned(big, nvp[4..6]) == |name| + 1 && NameOk(nvp, |name| + 1)
    requires nvp[16..16 + |name|] == name && nvp[Align8(16 + |name| + 1)..] == area
    requires ReadUnsigned(big, nvp[8..12]) == nelem && Decoded(ReadSigned(big, nvp[12..16])) == tag
    requires size == FixedSize(tag, nelem) <= |area| && Align8(size) <= |area| == Align8(ValueSize(v.item))
    requires DecodeValue(big, tag, nelem, area, rest) == Ok(v)
    ensures DecodePair(big, nvp, rest) == Ok(Parsed(Pair(name, v.item), v.rest))
  {
  }

  lemma {:induction false} PairSizeMin(p: Pair)
    ensures PairSize(p) >= 24
  {
    Align8Grows(17, 16 + |p.name| + 1);
  }

  /** What the decoder finds in the copy of a pair. */
  lemma {:induction false} PairFields(big: bool, p: Pair, nvp: seq<Byte>, area: seq<Byte>)
    requires IsText(p.name) && |p.name| <= MAX_NAME && PairSize(p) <= INT32_MAX && Nelem(p.value) <= INT32_MAX
    requires p.value.Numbers? ==> !p.value.kind.Hrtime?
    requires |area| == Align8(ValueSize(p.value)) && nvp == HeadBytes(big, p) + NameBytes(p.name) + area
    ensures |nvp| >= 24 && ReadSigned(big, nvp[4..6]) == |p.name| + 1 && NameOk(nvp, |p.name| + 1)
    ensures nvp[16..16 + |p.name|] == p.name && nvp[Align8(16 + |p.name| + 1)..] == area
    ensures ReadUnsigned(big, nvp[8..12]) == Nelem(p.value) && Decoded(ReadSigned(big, nvp[12..16])) == TagOf(p.value)
  {
    PairSizeMin(p);
    Regroup(HeadBytes(big, p), NameBytes(p.name), area);
    Parts(HeadBytes(big, p), NameBytes(p.name) + area, nvp);
    HeadBack(big, p, nvp);
    NameBack(nvp, p.name, area);
  }

  lemma {:induction false} PairBack(big: bool, p: Pair, rest: seq<Byte>)
    requires GoodPair(p) && PairTotal(p) <= INT32_MAX && NamesFitPair(p)
    ensures PairSize(p) >= 24
    ensures DecodePair(big, PairBytes(big, p), PackedTail(big, p.value) + rest) == Ok(Parsed(p, rest))
    decreases p
  {
    var v := p.value;
    var nvp, area := PairBytes(big, p), ValueBytes(big, v) + Pad(ValueSize(v));
    var size := FixedFits(v);
    PairFields(big, p, nvp, area);
    ValueBack(big, v, Pad(ValueSize(v)), rest);
    PairStep(big, nvp, PackedTail(big, v) + rest, p.name, TagOf(v), Nelem(v), size, area, Parsed(v, rest));
  }

  lemma {:induction false} PairsStep(big: bool, bs: seq<Byte>, len: nat, p: Parsed<Pair>, ps: Parsed<seq<Pair>>)
    requires 24 <= len <= |bs| && ReadSigned(big, bs[..4]) == len
    requires DecodePair(big, bs[..len], bs[len..]) == Ok(p)
    requires DecodePairs(big, p.rest) == Ok(ps)
    ensures DecodePairs(big, bs) == Ok(Parsed([p.item] + ps.item, ps.rest))
  {
  }

  lemma {:induction false} PairsBack(big: bool, ps: seq<Pair>, rest: seq<Byte>)
    requires (forall i :: 0 <= i < |ps| ==> GoodPair(ps[i])) && PairsTotal(ps) <= INT32_MAX && NamesFitPairs(ps)
    ensures DecodePairs(big, PackedPairs(big, ps) + rest) == Ok(Parsed(ps, rest))
    decreases ps
  {
    var bs := PackedPairs(big, ps) + rest;
    if ps == [] {
      EndBack(big, rest);
    } else {
      var p, more := ps[0], PackedPairs(big, ps[1..]) + rest;
      PairBack(big, p, more);
      PairsBack(big, ps[1..], rest);
      var nvp := PairBytes(big, p);
      Regroup(PackedPair(big, p), PackedPairs(big, ps[1..]), rest);
      Regroup(nvp, PackedTail(big, p.value), more);
      Parts(nvp, PackedTail(big, p.value) + more, bs);
      SizeBack(big, p, bs);
      PairsStep(big, bs, |nvp|, Parsed(p, more), Parsed(ps[1..], rest));
      HeadTail(ps);
    }
  }

  lemma {:induction false} EndBack(big: bool, rest: seq<Byte>)
    ensures DecodePairs(big, Zeros(4) + rest) == Ok(Parsed([], rest))
  {
    var bs := Zeros(4) + rest;
    Limits();
    SignedBack(big, 4, 0);
    ZeroWord(big);
    assert bs[..4] == Word(big, 4, 0);
    assert bs[4..] == rest;
  }

  lemma {:induction false} ZeroWord(big: bool)
    ensures Word(big, 4, 0) == Zeros(4)
  {
    assert Low(1, 0) == [0];
    assert Low(2, 0) == [0, 0];
    assert Low(3, 0) == [0, 0, 0];
    assert Low(4, 0) == [0, 0, 0, 0];
  }

  lemma {:induction false} SizeBack(big: bool, p: Pair, bs: seq<Byte>)
    requires PairSize(p) <= INT32_MAX && |bs| >= PairSize(p) && bs[..PairSize(p)] == PairBytes(big, p)
    ensures ReadSigned(big, bs[..4]) == PairSize(p)
  {
    Limits();
    SignedBack(big, 4, PairSize(p));
    PairSizeMin(p);
    var area := ValueBytes(big, p.value) + Pad(ValueSize(p.value));
    Regroup(HeadBytes(big, p), NameBytes(p.name), area);
    Parts(HeadBytes(big, p), NameBytes(p.name) + area, PairBytes(big, p));
    Prefix(bs, 16, PairSize(p));
    HeadFields(big, p, bs);
  }

  lemma {:induction false} Prefix(s: seq<Byte>, m: nat, n: nat)
    requires m <= n <= |s|
    ensures s[..n][..m] == s[..m]
  {
  }

  lemma {:induction false} TopBack(big: bool, flag: int, packed: seq<Byte>, buf: seq<Byte>)
    requires 0 <= flag < Limit(4)
    requires buf == Header(big) + (Word(big, 4, 0) + Word(big, 4, flag)) + packed
    ensures buf[..4] == Header(big) && ReadUnsigned(big, buf[8..12]) == flag && buf[12..] == packed
  {
    Limits();
    UnsignedBack(big, 4, flag);
    assert buf[8..12] == Word(big, 4, flag);
  }

  lemma {:induction false} UnpackStep(big: bool, buf: seq<Byte>, packed: seq<Byte>, l: NvList)
    requires |buf| >= 12 && buf[..4] == Header(big) && ReadUnsigned(big, buf[8..12]) == l.flag && buf[12..] == packed
    requires DecodePairs(big, packed) == Ok(Parsed(l.pairs, []))
    ensures Unpack(big, buf) == Ok(l)
  {
    assert buf[0] == Header(big)[0] && buf[1] == Header(big)[1];
  }

  /** Unpacking a packed list gives the list back: flags, order, names, types and values at every level. */
  lemma {:induction false} RoundTrip(big: bool, l: NvList)
    requires GoodTop(l) && ListTotal(l) <= INT32_MAX && NamesFitPairs(l.pairs)
    ensures Unpack(big, Packed(big, l)) == Ok(l)
  {
    var buf, packed := Packed(big, l), PackedPairs(big, l.pairs);
    PairsBack(big, l.pairs, []);
    assert packed + [] == packed;
    TopBack(big, l.flag, packed, buf);
    UnpackStep(big, buf, packed, l);
  }
}
