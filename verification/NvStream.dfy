/**
  * The size calculation, the encoder and the decoding loop as the program runs them: over a buffer
  * and a position in it.
  */
module NvStream {
  import opened ByteOrder
  import opened Errno
  import opened NvData
  import opened NvNative
  import opened NvRoundTrip
  import NvLayout
  import NvlistSpec

  // ---------- sizes ----------

  /** A total the size functions may return. */
  function Bounded(n: nat): Result<nat> {
    if n > INT32_MAX then Err(EINVAL) else Ok(n)
  }

  /** nvs_native_nvp_size: the pair and the lists it embeds. */
  method SizePair(p: Pair) returns (r: Result<nat>)
    ensures r == Bounded(PairTotal(p))
    decreases p
  {
    var size := PairSize(p);
    match p.value {
      case Nested(l) =>
        var n := SizePairs(l.pairs, 4);
        if n.Err? {
          return Err(EINVAL);
        }
        size := size + n.value;
      case NestedArray(ls) =>
        var n := SizeLists(ls);
        if n.Err? {
          return Err(EINVAL);
        }
        size := size + n.value;
      case _ =>
    }
    r := if size > INT32_MAX then Err(EINVAL) else Ok(size);
  }

  /** nvs_getsize_pairs: `start` counts what surrounds the pairs, with the four bytes that end them. */
  method SizePairs(ps: seq<Pair>, start: nat) returns (r: Result<nat>)
    requires 4 <= start <= 16
    ensures r == Bounded(start - 4 + PairsTotal(ps))
    decreases ps
  {
    var size := start;
    for i := 0 to |ps|
      invariant start <= size <= INT32_MAX
      invariant size - 4 + PairsTotal(ps[i..]) == start - 4 + PairsTotal(ps)
    {
      assert ps[i..][1..] == ps[i + 1..];
      PairsTotalMin(ps[i + 1..]);
      var n := SizePair(ps[i]);
      if n.Err? {
        return Err(EINVAL);
      }
      size := size + n.value;
      if size > INT32_MAX {
        return Err(EINVAL);
      }
    }
    r := Ok(size);
  }

  /** nvs_embedded_nvl_array when it calculates. */
  method SizeLists(ls: seq<NvList>) returns (r: Result<nat>)
    ensures r == Bounded(ListsTotal(ls))
    decreases ls
  {
    var size: nat := 0;
    for i := 0 to |ls|
      invariant size <= INT32_MAX
      invariant size + ListsTotal(ls[i..]) == ListsTotal(ls)
    {
      assert ls[i..][1..] == ls[i + 1..];
      assert ListsTotal(ls[i..]) == PairsTotal(ls[i].pairs) + ListsTotal(ls[i + 1..]);
      var n := SizePairs(ls[i].pairs, 4);
      if n.Err? {
        return Err(EINVAL);
      }
      size := size + n.value;
      if size > INT32_MAX {
        return Err(EINVAL);
      }
    }
    r := Ok(size);
  }

  lemma {:induction false} PairsTotalMin(ps: seq<Pair>)
    ensures PairsTotal(ps) >= 4
    decreases ps
  {
    if ps != [] {
      PairsTotalMin(ps[1..]);
    }
  }

  /** nvlist_size: exact, or EINVAL when it passes INT32_MAX. */
  method Size(l: NvList) returns (r: Result<nat>)
    ensures r == Bounded(ListTotal(l))
  {
    r := SizePairs(l.pairs, 16);
  }

  // ---------- the decoding loop ----------

  /** What a decoder returns that had already read `ps`. */
  function Before(ps: seq<Pair>, r: Result<Parsed<seq<Pair>>>): Result<Parsed<seq<Pair>>> {
    if r.Err? then r else Ok(Parsed(ps + r.value.item, r.value.rest))
  }

  lemma {:induction false} ReadFails(big: bool, rest: seq<Byte>)
    requires |rest| < 4 || (var len := ReadSigned(big, rest[..4]); len < 0 || len > |rest| || 0 < len < 24)
    ensures DecodePairs(big, rest) == Err(EFAULT)
  {
  }

  lemma {:induction false} ReadEnds(big: bool, rest: seq<Byte>)
    requires |rest| >= 4 && ReadSigned(big, rest[..4]) == 0
    ensures DecodePairs(big, rest) == Ok(Parsed([], rest[4..]))
  {
  }

  lemma {:induction false} ReadGoesOn(big: bool, rest: seq<Byte>, len: nat, p: Result<Parsed<Pair>>)
    requires 24 <= len <= |rest| && ReadSigned(big, rest[..4]) == len && p == DecodePair(big, rest[..len], rest[len..])
    ensures DecodePairs(big, rest)
      == if p.Err? then Err(p.error) else Before([p.value.item], DecodePairs(big, p.value.rest))
  {
  }

  lemma {:induction false} BeforeTwice(ps: seq<Pair>, p: Pair, r: Result<Parsed<seq<Pair>>>)
    ensures Before(ps, Before([p], r)) == Before(ps + [p], r)
  {
    if r.Ok? {
      assert ps + ([p] + r.value.item) == ps + [p] + r.value.item;
    }
  }

  lemma {:induction false} BeforeNothing(ps: seq<Pair>, r: Result<Parsed<seq<Pair>>>)
    ensures Before([], r) == r && (r.Ok? && r.value.item == [] ==> Before(ps, r) == Ok(Parsed(ps, r.value.rest)))
  {
    if r.Ok? {
      assert [] + r.value.item == r.value.item;
      assert ps + [] == ps;
    }
  }

  /** nvs_decode_pairs: the loop reads what the recursive reading says. */
  method ReadPairs(big: bool, stream: seq<Byte>) returns (r: Result<Parsed<seq<Pair>>>)
    ensures r == DecodePairs(big, stream)
  {
    var ps, rest := [], stream;
    BeforeNothing([], DecodePairs(big, rest));
    while true
      invariant Before(ps, DecodePairs(big, rest)) == DecodePairs(big, stream)
      decreases |rest|
    {
      if |rest| < 4 {
        ReadFails(big, rest);
        return Err(EFAULT);
      }
      var len := ReadSigned(big, rest[..4]);
      if len < 0 || len > |rest| {
        ReadFails(big, rest);
        return Err(EFAULT);
      }
      if len == 0 {
        ReadEnds(big, rest);
        BeforeNothing(ps, DecodePairs(big, rest));
        return Ok(Parsed(ps, rest[4..]));
      }
      if len < 24 {
        ReadFails(big, rest);
        return Err(EFAULT);
      }
      var p := DecodePair(big, rest[..len], rest[len..]);
      ReadGoesOn(big, rest, len, p);
      if p.Err? {
        return Err(p.error);
      }
      BeforeTwice(ps, p.value.item, DecodePairs(big, p.value.rest));
      ps, rest := ps + [p.value.item], p.value.rest;
    }
  }

  // ---------- the pointers in memory ----------

  /** Bytes of memory that hold pointers. */
  function Raw(pointers: nat -> Byte, at: nat, n: nat): (r: seq<Byte>)
    ensures |r| == n
  {
    seq(n, i requires 0 <= i < n => pointers(at + i))
  }

  function RawList(big: bool, pointers: nat -> Byte, at: nat, l: NvList): (r: seq<Byte>)
    ensures |r| == 24
  {
    (Word(big, 4, 0) + Word(big, 4, l.flag)) + Raw(pointers, at + 8, 8) + Zeros(8)
  }

  function RawLists(big: bool, pointers: nat -> Byte, at: nat, ls: seq<NvList>): (r: seq<Byte>)
    ensures |r| == 24 * |ls|
    decreases |ls|
  {
    if ls == [] then [] else RawList(big, pointers, at, ls[0]) + RawLists(big, pointers, at + 24, ls[1..])
  }

  /** The value of a pair as it stands in memory, when it is copied to position `at`. */
  function RawValue(big: bool, pointers: nat -> Byte, at: nat, v: Value): (r: seq<Byte>)
    ensures |r| == ValueSize(v)
  {
    match v
    case Texts(ss) => Raw(pointers, at, 8 * |ss|) + TextsBytes(ss)
    case Nested(l) => RawList(big, pointers, at, l)
    case NestedArray(ls) => Raw(pointers, at, 8 * |ls|) + RawLists(big, pointers, at + 8 * |ls|, ls)
    case _ => ValueBytes(big, v)
  }

  function RawPair(big: bool, pointers: nat -> Byte, at: nat, p: Pair): (r: seq<Byte>)
    ensures |r| == PairSize(p)
  {
    var value := at + Align8(16 + |p.name| + 1);
    Filled(big, p, RawValue(big, pointers, value, p.value))
  }

  lemma {:induction false} ListSplit(big: bool, pointers: nat -> Byte, at: nat, l: NvList)
      returns (a: seq<Byte>, b: seq<Byte>, c: seq<Byte>)
    ensures |a| == 8 && |b| == 8 && |c| == 8
    ensures RawList(big, pointers, at, l) == a + b + c && ListBytes(big, l) == a + Zeros(|b|) + c
  {
    a, b, c := Word(big, 4, 0) + Word(big, 4, l.flag), Raw(pointers, at + 8, 8), Zeros(8);
  }

  // ---------- the encoder ----------

  class Stream {
    const buf: array<Byte>
    const big: bool                 // the byte order of the host
    const pointers: nat -> Byte     // what a byte of a pointer holds that is copied to a position of the stream
    var curr: nat

    constructor (buf: array<Byte>, big: bool, pointers: nat -> Byte)
      ensures this.buf == buf && this.big == big && this.pointers == pointers && curr == 0
    {
      this.buf := buf;
      this.big := big;
      this.pointers := pointers;
      curr := 0;
    }

    ghost predicate Valid()
      reads this
    {
      curr <= buf.Length
    }

    /** What has been written. */
    ghost function Written(): (s: seq<Byte>)
      requires Valid()
      reads this, buf
      ensures |s| == curr
    {
      buf[..curr]
    }

    /** native_cp. */
    method Copy(bytes: seq<Byte>) returns (ok: bool)
      requires Valid()
      modifies this`curr, buf
      ensures Valid() && (ok <==> old(curr) + |bytes| <= buf.Length)
      ensures ok ==> Written() == old(Written()) + bytes
    {
      if curr + |bytes| > buf.Length {
        return false;
      }
      ghost var before := buf[..curr];
      for i := 0 to |bytes|
        invariant curr == old(curr) && buf[..curr] == before && buf[curr..curr + i] == bytes[..i]
      {
        buf[curr + i] := bytes[i];
      }
      curr := curr + |bytes|;
      ok := true;
    }

    /** bzero of part of what has been written. */
    method Zero(lo: nat, n: nat, ghost a: seq<Byte>, ghost b: seq<Byte>, ghost c: seq<Byte>)
      requires Valid() && |a| == lo && |b| == n && Written() == a + b + c
      modifies buf
      ensures Written() == a + Zeros(n) + c
    {
      for i := 0 to n
        invariant buf[..curr] == a + Zeros(i) + b[i..] + c
      {
        buf[lo + i] := 0;
      }
    }

    /** nvpair_native_string_array: the string pointers of the pair just copied become zero. */
    method ZeroTexts(p: Pair, ghost before: seq<Byte>)
      requires Valid() && |before| + PairSize(p) == curr && p.value.Texts?
      requires Written() == before + RawPair(big, pointers, |before|, p)
      modifies buf
      ensures Written() == before + PairBytes(big, p)
    {
      ghost var a, b, c := TextsSplit(big, pointers, before, p);
      Zero(curr - PairSize(p) + Align8(16 + |p.name| + 1), 8 * |p.value.ss|, a, b, c);
    }

    /** nvpair_native_embedded: so does nvl_priv of an embedded list. */
    method ZeroList(p: Pair, ghost before: seq<Byte>)
      requires Valid() && |before| + PairSize(p) == curr && p.value.Nested?
      requires Written() == before + RawPair(big, pointers, |before|, p)
      modifies buf
      ensures Written() == before + PairBytes(big, p)
    {
      ghost var a, b, c := NestedSplit(big, pointers, before, p);
      Zero(curr - PairSize(p) + Align8(16 + |p.name| + 1) + 8, 8, a, b, c);
    }

    /** nvpair_native_embedded_array: the pointers to the lists, then nvl_priv of each of them. */
    method ZeroLists(p: Pair, ghost before: seq<Byte>)
      requires Valid() && |before| + PairSize(p) == curr && p.value.NestedArray?
      requires Written() == before + RawPair(big, pointers, |before|, p)
      modifies buf
      ensures Written() == before + PairBytes(big, p)
    {
      hide RawPair, PairBytes, RawLists, ListsBytes, Raw, Align8;
      var ls, value := p.value.lists, curr - PairSize(p) + Align8(16 + |p.name| + 1);
      var n := 8 * |ls|;
      ghost var a, b, c, pad := ArraySplit(big, pointers, before, p, value, n);
      Zero(value, n, a, b, c + pad);
      ZeroPrivs(ls, value + n, a + Zeros(n), pad);
    }

    method ZeroPrivs(ls: seq<NvList>, first: nat, ghost start: seq<Byte>, ghost pad: seq<Byte>)
      requires Valid() && |start| == first && Written() == start + (RawLists(big, pointers, first, ls) + pad)
      modifies buf
      ensures Written() == start + (ListsBytes(big, ls) + pad)
    {
      ghost var left := start;
      var packed := first;
      for i := 0 to |ls|
        invariant |left| == packed && Written() == left + (RawLists(big, pointers, packed, ls[i..]) + pad)
        invariant left + (ListsBytes(big, ls[i..]) + pad) == start + (ListsBytes(big, ls) + pad)
      {
        ghost var raw, lists := ListsAt(big, pointers, packed, ls, i);
        left := ZeroOne(packed, ls[i], left, raw, lists, pad);
        packed := packed + 24;
      }
      assert ls[|ls|..] == [];
    }

    /** One of them: the lists before it are done, those behind it are not. */
    method ZeroOne(at: nat, l: NvList, ghost left: seq<Byte>, ghost raw: seq<Byte>, ghost lists: seq<Byte>,
                   ghost pad: seq<Byte>)
        returns (ghost left': seq<Byte>)
      requires Valid() && |left| == at && Written() == left + ((RawList(big, pointers, at, l) + raw) + pad)
      modifies buf
      ensures |left'| == at + 24 && Written() == left' + (raw + pad)
      ensures left' + (lists + pad) == left + ((ListBytes(big, l) + lists) + pad)
    {
      ghost var a, b, c := ListSplit(big, pointers, at, l);
      OneMore(left, a, b, c, raw, pad);
      Zero(at + 8, 8, left + a, b, c + (raw + pad));
      left' := left + ListBytes(big, l);
      OneMore(left, a, Zeros(8), c, raw, pad);
      OneMore(left, a, Zeros(8), c, lists, pad);
    }

    /** The checks nvs_native_nvp_op makes on a pair it has copied. */
    static method Check(big: bool, nvp: seq<Byte>) returns (ok: bool)
      requires |nvp| >= 24
      ensures ok <==> Checked(big, nvp)
    {
      var nameSize := ReadSigned(big, nvp[4..6]);
      ok := NameOk(nvp, nameSize);
      if ok {
        var size := FixedSize(Decoded(ReadSigned(big, nvp[12..16])), ReadUnsigned(big, nvp[8..12]));
        ok := size >= 0 && Align8(16 + nameSize) + Align8(size) <= |nvp|;
      }
    }

    /** nvs_native_nvp_op: copy the pair, clear the pointers in the copy, encode the embedded lists behind it. */
    method EncodePair(p: Pair) returns (ok: bool)
      requires Valid() && GoodPair(p) && PairTotal(p) <= INT32_MAX
      modifies this`curr, buf
      ensures Valid() && (ok <==> old(curr) + PairTotal(p) <= buf.Length && NamesFitPair(p))
      ensures ok ==> Written() == old(Written()) + PackedPair(big, p)
      decreases p, 1
    {
      ghost var before := Written();
      var raw := RawPair(big, pointers, curr, p);
      ok := Copy(raw);
      if ok {
        RawChecked(big, pointers, |before|, p);
        ok := Check(big, raw);
        if ok {
          ClearPointers(p, before);
          Regroup(before, PairBytes(big, p), PackedTail(big, p.value));
          ok := EncodeTail(p.value);
        }
      }
    }

    /** What the copy holds does not depend on where things were in memory. */
    method ClearPointers(p: Pair, ghost before: seq<Byte>)
      requires Valid() && |before| + PairSize(p) == curr
      requires Written() == before + RawPair(big, pointers, |before|, p)
      modifies buf
      ensures Written() == before + PairBytes(big, p)
    {
      match p.value {
        case Texts(_) => ZeroTexts(p, before);
        case Nested(_) => ZeroList(p, before);
        case NestedArray(_) => ZeroLists(p, before);
        case _ =>
      }
    }

    method EncodeTail(v: Value) returns (ok: bool)
      requires Valid() && GoodValue(v) && TailTotal(v) <= INT32_MAX
      modifies this`curr, buf
      ensures Valid() && (ok <==> old(curr) + TailTotal(v) <= buf.Length && NamesFitValue(v))
      ensures ok ==> Written() == old(Written()) + PackedTail(big, v)
      decreases v, 0
    {
      match v {
        case Nested(l) => ok := EncodePairs(l.pairs);
        case NestedArray(ls) => ok := EncodeLists(ls);
        case _ =>
          ok := true;
          assert Written() + [] == Written();
      }
    }

    /** nvs_encode_pairs, with the four zero bytes at the end. */
    method EncodePairs(ps: seq<Pair>) returns (ok: bool)
      requires Valid() && (forall i :: 0 <= i < |ps| ==> GoodPair(ps[i])) && PairsTotal(ps) <= INT32_MAX
      modifies this`curr, buf
      ensures Valid() && (ok <==> old(curr) + PairsTotal(ps) <= buf.Length && NamesFitPairs(ps))
      ensures ok ==> Written() == old(Written()) + PackedPairs(big, ps)
      decreases ps, 2
    {
      for i := 0 to |ps|
        invariant Valid() && (NamesFitPairs(ps[i..]) <==> NamesFitPairs(ps))
        invariant curr + PairsTotal(ps[i..]) == old(curr) + PairsTotal(ps)
        invariant PairsTotal(ps[i..]) <= INT32_MAX
        invariant Written() + PackedPairs(big, ps[i..]) == old(Written()) + PackedPairs(big, ps)
      {
        assert ps[i..][1..] == ps[i + 1..];
        Regroup(Written(), PackedPair(big, ps[i]), PackedPairs(big, ps[i + 1..]));
        ok := EncodePair(ps[i]);
        if !ok {
          return;
        }
      }
      assert ps[|ps|..] == [];
      ok := Copy(Zeros(4));
    }

    /** nvs_embedded_nvl_array. */
    method EncodeLists(ls: seq<NvList>) returns (ok: bool)
      requires Valid() && (forall i :: 0 <= i < |ls| ==> GoodList(ls[i])) && ListsTotal(ls) <= INT32_MAX
      modifies this`curr, buf
      ensures Valid() && (ok <==> old(curr) + ListsTotal(ls) <= buf.Length && NamesFitLists(ls))
      ensures ok ==> Written() == old(Written()) + PackedLists(big, ls)
      decreases ls, 2
    {
      for i := 0 to |ls|
        invariant Valid() && (NamesFitLists(ls[i..]) <==> NamesFitLists(ls))
        invariant curr + ListsTotal(ls[i..]) == old(curr) + ListsTotal(ls)
        invariant ListsTotal(ls[i..]) <= INT32_MAX
        invariant Written() + PackedLists(big, ls[i..]) == old(Written()) + PackedLists(big, ls)
      {
        assert ls[i..][1..] == ls[i + 1..];
        Regroup(Written(), PackedPairs(big, ls[i].pairs), PackedLists(big, ls[i + 1..]));
        ok := EncodePairs(ls[i].pairs);
        if !ok {
          return;
        }
      }
      assert ls[|ls|..] == [];
      ok := true;
    }
  }

  predicate Checked(big: bool, nvp: seq<Byte>)
    requires |nvp| >= 24
  {
    var nameSize := ReadSigned(big, nvp[4..6]);
    NameOk(nvp, nameSize) &&
    var size := FixedSize(Decoded(ReadSigned(big, nvp[12..16])), ReadUnsigned(big, nvp[8..12]));
    size >= 0 && Align8(16 + nameSize) + Align8(size) <= |nvp|
  }

  lemma {:induction false} ShortNameFits(big: bool, p: Pair, nvp: seq<Byte>, area: seq<Byte>)
    requires GoodPair(p) && |p.name| <= MAX_NAME && |area| == Align8(ValueSize(p.value)) && PairSize(p) <= INT32_MAX
    requires nvp == HeadBytes(big, p) + NameBytes(p.name) + area
    ensures |nvp| >= 24 && Checked(big, nvp)
  {
    Align8Grows(ValueSize(p.value), ValueSize(p.value));
    var size := FixedFits(p.value);
    PairFields(big, p, nvp, area);
  }

  /** The checks accept the copy of a pair if and only if its name fits: the size of a longer one is cut to 16 bits. */
  lemma {:induction false} RawChecked(big: bool, pointers: nat -> Byte, at: nat, p: Pair)
    requires GoodPair(p) && PairSize(p) <= INT32_MAX
    ensures PairSize(p) >= 24 && (Checked(big, RawPair(big, pointers, at, p)) <==> |p.name| <= MAX_NAME)
  {
    hide Align8, NameOk;
    var nvp := RawPair(big, pointers, at, p);
    var area := RawValue(big, pointers, at + Align8(16 + |p.name| + 1), p.value) + Pad(ValueSize(p.value));
    PairSizeMin(p);
    if |p.name| <= MAX_NAME {
      ShortNameFits(big, p, nvp, area);
    } else {
      LongNameFails(big, p, nvp, area);
    }
  }

  lemma {:induction false} LongNameFails(big: bool, p: Pair, nvp: seq<Byte>, area: seq<Byte>)
    requires IsText(p.name) && |p.name| > MAX_NAME && |nvp| >= 24
    requires nvp == HeadBytes(big, p) + NameBytes(p.name) + area
    ensures !NameOk(nvp, ReadSigned(big, nvp[4..6]))
  {
    hide HeadBytes, NameBytes, ReadSigned, Word, Align8, StringEnd;
    Regroup(HeadBytes(big, p), NameBytes(p.name), area);
    Parts(HeadBytes(big, p), NameBytes(p.name) + area, nvp);
    HeadFields(big, p, nvp);
    NameSizeExact(big, p.name);
    NameEnds(nvp, p.name, area);
  }

  lemma {:induction false} Shift(before: seq<Byte>, front: seq<Byte>, b: seq<Byte>, c: seq<Byte>, pad: seq<Byte>)
    ensures before + (front + ((b + c) + pad)) == (before + front) + b + (c + pad)
  {
  }

  lemma {:induction false} OneMore(left: seq<Byte>, a: seq<Byte>, b: seq<Byte>, c: seq<Byte>, raw: seq<Byte>,
                                   pad: seq<Byte>)
    ensures left + (((a + b + c) + raw) + pad) == (left + a) + b + (c + (raw + pad))
        == (left + (a + b + c)) + (raw + pad)
  {
  }

  lemma {:induction false} Nest(before: seq<Byte>, front: seq<Byte>, a: seq<Byte>, b: seq<Byte>, c: seq<Byte>,
                                pad: seq<Byte>)
    ensures before + (front + ((a + b + c) + pad)) == (before + front + a) + b + (c + pad)
  {
  }

  lemma {:induction false} TextsRaw(big: bool, pointers: nat -> Byte, before: seq<Byte>, p: Pair, at: nat, n: nat)
    requires p.value.Texts? && at == |before| + Align8(16 + |p.name| + 1) && n == 8 * |p.value.ss|
    ensures before + RawPair(big, pointers, |before|, p)
      == (before + Front(big, p)) + Raw(pointers, at, n) + (TextsBytes(p.value.ss) + Pad(ValueSize(p.value)))
  {
    hide Align8, Filled, Front, TextsBytes, TextsSize, Raw;
    FilledSplit(big, p, before, Raw(pointers, at, n), TextsBytes(p.value.ss));
  }

  lemma {:induction false} TextsPacked(big: bool, before: seq<Byte>, p: Pair, n: nat)
    requires p.value.Texts? && n == 8 * |p.value.ss|
    ensures before + PairBytes(big, p)
      == (before + Front(big, p)) + Zeros(n) + (TextsBytes(p.value.ss) + Pad(ValueSize(p.value)))
  {
    hide Align8, Filled, Front, TextsBytes, TextsSize;
    FilledSplit(big, p, before, Zeros(n), TextsBytes(p.value.ss));
  }

  lemma {:induction false} TextsSplit(big: bool, pointers: nat -> Byte, before: seq<Byte>, p: Pair)
      returns (a: seq<Byte>, b: seq<Byte>, c: seq<Byte>)
    requires p.value.Texts?
    ensures |a| == |before| + Align8(16 + |p.name| + 1) && |b| == 8 * |p.value.ss|
    ensures before + RawPair(big, pointers, |before|, p) == a + b + c
    ensures before + PairBytes(big, p) == a + Zeros(|b|) + c
  {
    hide Align8, RawPair, PairBytes, TextsBytes;
    var at, n := |before| + Align8(16 + |p.name| + 1), 8 * |p.value.ss|;
    a, b, c := before + Front(big, p), Raw(pointers, at, n), TextsBytes(p.value.ss) + Pad(ValueSize(p.value));
    TextsRaw(big, pointers, before, p, at, n);
    TextsPacked(big, before, p, n);
  }

  lemma {:induction false} FilledSplit(big: bool, p: Pair, before: seq<Byte>, b: seq<Byte>, c: seq<Byte>)
    requires |b| + |c| == ValueSize(p.value)
    ensures before + Filled(big, p, b + c) == (before + Front(big, p)) + b + (c + Pad(ValueSize(p.value)))
  {
    Shift(before, Front(big, p), b, c, Pad(ValueSize(p.value)));
  }

  lemma {:induction false} NestedSplit(big: bool, pointers: nat -> Byte, before: seq<Byte>, p: Pair)
      returns (a: seq<Byte>, b: seq<Byte>, c: seq<Byte>)
    requires p.value.Nested?
    ensures |a| == |before| + Align8(16 + |p.name| + 1) + 8 && |b| == 8
    ensures before + RawPair(big, pointers, |before|, p) == a + b + c && before + PairBytes(big, p) == a + Zeros(8) + c
  {
    var front, pad := Front(big, p), Pad(24);
    var a', b', c' := ListSplit(big, pointers, |before| + |front|, p.value.list);
    a, b, c := before + front + a', b', c' + pad;
    Nest(before, front, a', b', c', pad);
    Nest(before, front, a', Zeros(8), c', pad);
  }

  lemma {:induction false} ArrayRaw(big: bool, pointers: nat -> Byte, before: seq<Byte>, p: Pair, at: nat, n: nat)
    requires p.value.NestedArray? && at == |before| + Align8(16 + |p.name| + 1) && n == 8 * |p.value.lists|
    ensures before + RawPair(big, pointers, |before|, p)
      == (before + Front(big, p)) + Raw(pointers, at, n)
      + (RawLists(big, pointers, at + n, p.value.lists) + Pad(ValueSize(p.value)))
  {
    hide Align8, Filled, Front, RawLists, Raw;
    var b, c := Raw(pointers, at, n), RawLists(big, pointers, at + n, p.value.lists);
    assert RawPair(big, pointers, |before|, p) == Filled(big, p, b + c);
    FilledSplit(big, p, before, b, c);
  }

  lemma {:induction false} ArrayPacked(big: bool, before: seq<Byte>, p: Pair, n: nat)
    requires p.value.NestedArray? && n == 8 * |p.value.lists|
    ensures before + PairBytes(big, p)
      == (before + Front(big, p)) + Zeros(n) + (ListsBytes(big, p.value.lists) + Pad(ValueSize(p.value)))
  {
    hide Align8, Filled, Front, ListsBytes;
    FilledSplit(big, p, before, Zeros(n), ListsBytes(big, p.value.lists));
  }

  lemma {:induction false} ArraySplit(big: bool, pointers: nat -> Byte, before: seq<Byte>, p: Pair, at: nat, n: nat)
      returns (a: seq<Byte>, b: seq<Byte>, c: seq<Byte>, pad: seq<Byte>)
    requires p.value.NestedArray? && at == |before| + Align8(16 + |p.name| + 1) && n == 8 * |p.value.lists|
    ensures |a| == at && |b| == n && c == RawLists(big, pointers, at + n, p.value.lists)
    ensures before + RawPair(big, pointers, |before|, p) == a + b + (c + pad)
    ensures before + PairBytes(big, p) == a + Zeros(n) + (ListsBytes(big, p.value.lists) + pad)
  {
    hide Align8, RawPair, PairBytes, RawLists, ListsBytes;
    a, b, c := before + Front(big, p), Raw(pointers, at, n), RawLists(big, pointers, at + n, p.value.lists);
    pad := Pad(ValueSize(p.value));
    ArrayRaw(big, pointers, before, p, at, n);
    ArrayPacked(big, before, p, n);
  }

  lemma {:induction false} ListsAt(big: bool, pointers: nat -> Byte, at: nat, ls: seq<NvList>, i: nat)
      returns (raw: seq<Byte>, lists: seq<Byte>)
    requires i < |ls|
    ensures raw == RawLists(big, pointers, at + 24, ls[i + 1..]) && lists == ListsBytes(big, ls[i + 1..])
    ensures RawLists(big, pointers, at, ls[i..]) == RawList(big, pointers, at, ls[i]) + raw
    ensures ListsBytes(big, ls[i..]) == ListBytes(big, ls[i]) + lists
  {
    raw, lists := RawLists(big, pointers, at + 24, ls[i + 1..]), ListsBytes(big, ls[i + 1..]);
    assert ls[i..][1..] == ls[i + 1..];
  }

  /** nvlist_pack into a buffer of its own: exactly nvlist_size bytes, all of them written. */
  method Pack(big: bool, pointers: nat -> Byte, l: NvList) returns (r: Result<array<Byte>>)
    requires GoodTop(l)
    ensures r.Ok? <==> ListTotal(l) <= INT32_MAX && NamesFitPairs(l.pairs)
    ensures r.Err? ==> r.error == if ListTotal(l) > INT32_MAX then EINVAL else EFAULT
    ensures r.Ok? ==> fresh(r.value) && r.value[..] == Packed(big, l) && NvLayout.LaidOut(big, r.value[..], l)
  {
    hide PackedPairs, NamesFitPairs, Word, Low, Sum, NvLayout.LaidOut;
    NvLayout.PackedLayout(big, l);
    var size := Size(l);
    if size.Err? {
      return Err(size.error);
    }
    var buf := new Byte[size.value](_ => 0);
    var stream := new Stream(buf, big, pointers);
    var ok := stream.Copy(Header(big));
    ok := stream.Copy(Word(big, 4, 0));
    ok := stream.Copy(Word(big, 4, l.flag));
    assert stream.Written() == Header(big) + (Word(big, 4, 0) + Word(big, 4, l.flag));
    ok := stream.EncodePairs(l.pairs);
    r := if ok then Ok(buf) else Err(EFAULT);
  }

  /** nvp_name_sz has 16 bits: it holds the size of a name if and only if the name is no longer than this. */
  lemma {:induction false} NameSizeExact(big: bool, name: seq<Byte>)
    ensures ReadSigned(big, Word(big, 2, |name| + 1)) == |name| + 1 <==> |name| <= MAX_NAME
  {
    Limits();
    if |name| <= MAX_NAME {
      SignedBack(big, 2, |name| + 1);
    } else {
      var field := Word(big, 2, |name| + 1);
      SumBound(if big then Reverse(field) else field);
    }
  }

  /** A list with one boolean whose name is a byte too long is a good list of a moderate size, and cannot be packed. */
  lemma {:induction false} LongNameUnpackable(name: seq<Byte>)
    requires |name| == MAX_NAME + 1 && IsText(name)
    ensures var l := NvList(1, [Pair(name, Flag)]);
      NvlistSpec.BuiltList(l) && ListTotal(l) <= INT32_MAX && !NamesFitPairs(l.pairs)
  {
    var l := NvList(1, [Pair(name, Flag)]);
    assert l.pairs[1..] == [] && PairsTotal([]) == 4;
    assert PairsTotal(l.pairs) == PairTotal(l.pairs[0]) + PairsTotal(l.pairs[1..]);
  }

  /** Every list that a run of operations builds from names that fit comes back from its packed bytes: flags, order,
      names, types and values at every level. */
  lemma {:induction false} BuiltBack(big: bool, flag: int, ops: seq<NvlistSpec.Op>)
    requires 0 <= flag < 4
    requires forall i, p :: 0 <= i < |ops| && p in NvlistSpec.Given(ops[i]) ==>
      NvlistSpec.HeldPair(p) && NamesFitPair(p)
    ensures var l := NvList(flag, NvlistSpec.DoAll(flag, [], ops));
      GoodList(l) && NamesFitPairs(l.pairs) && (ListTotal(l) <= INT32_MAX ==> Unpack(big, Packed(big, l)) == Ok(l))
  {
    var l := NvList(flag, NvlistSpec.DoAll(flag, [], ops));
    NvlistSpec.RunBuilt(flag, ops);
    NvlistSpec.RunFits(flag, ops);
    NvlistSpec.BuiltGood(l);
    if ListTotal(l) <= INT32_MAX {
      RoundTrip(big, l);
    }
  }
}
