/**
  * Where the packed bytes of a list are: every field at its offset, by the bytes a program reading the
  * buffer sees, without reference to how the buffer is written.
  */
module NvLayout {
  import opened ByteOrder
  import opened NvData
  import opened NvNative

  // ---------- the element types ----------

  /** data_type_t, in the order of the enumeration, from DATA_TYPE_BOOLEAN, which is 1, on. */
  const DATA_TYPES := [
    FlagTag, NumberTag(Octet), NumberTag(Int16), NumberTag(UInt16), NumberTag(Int32), NumberTag(UInt32),
    NumberTag(Int64), NumberTag(UInt64), TextTag, NumbersTag(Octet), NumbersTag(Int16), NumbersTag(UInt16),
    NumbersTag(Int32), NumbersTag(UInt32), NumbersTag(Int64), NumbersTag(UInt64), TextsTag, NumberTag(Hrtime),
    NestedTag, NestedArrayTag, NumberTag(Truth), NumberTag(Int8), NumberTag(UInt8), NumbersTag(Truth),
    NumbersTag(Int8), NumbersTag(UInt8)]

  lemma {:induction false} TypeCodes(code: int)
    ensures |DATA_TYPES| == 26
    ensures Decoded(code) == if 1 <= code <= 26 then DATA_TYPES[code - 1] else UnknownTag
  {
  }

  /** A value has the type of its C element: the constructor, and the sizes and ranges of the integer types. */
  lemma {:induction false} Types(v: Value)
    ensures match TagOf(v)
      case FlagTag => v == Flag
      case NumberTag(k) => v.Number? && v.kind == k
      case NumbersTag(k) => v.Numbers? && v.kind == k
      case TextTag => v.Text?
      case TextsTag => v.Texts?
      case NestedTag => v.Nested?
      case NestedArrayTag => v.NestedArray?
      case UnknownTag => false
    ensures !(v.Numbers? && v.kind.Hrtime?) ==> 1 <= Code(v) <= 26 && DATA_TYPES[Code(v) - 1] == TagOf(v)
  {
  }

  lemma {:induction false} Kinds(k: Kind, n: int)
    ensures InRange(k, n) <==>
      match k
      case Truth => n == 0 || n == 1
      case Octet => 0 <= n <= 255
      case Int8 => -128 <= n <= 127
      case UInt8 => 0 <= n <= 255
      case Int16 => -0x8000 <= n <= 0x7FFF
      case UInt16 => 0 <= n <= 0xFFFF
      case Int32 => -0x8000_0000 <= n <= 0x7FFF_FFFF
      case UInt32 => 0 <= n <= 0xFFFF_FFFF
      case Int64 => -0x8000_0000_0000_0000 <= n <= 0x7FFF_FFFF_FFFF_FFFF
      case UInt64 => 0 <= n <= 0xFFFF_FFFF_FFFF_FFFF
      case Hrtime => -0x8000_0000_0000_0000 <= n <= 0x7FFF_FFFF_FFFF_FFFF
    ensures Width(k) ==
      if k in {Octet, Int8, UInt8} then 1 else if k in {Int16, UInt16} then 2
      else if k in {Truth, Int32, UInt32} then 4 else 8
  {
    assert Limit(1) == 0x100 && Limit(2) == 0x1_0000 && Limit(3) == 0x100_0000 && Limit(4) == 0x1_0000_0000;
    assert Limit(5) == 0x100_0000_0000 && Limit(6) == 0x1_0000_0000_0000 && Limit(7) == 0x100_0000_0000_0000;
    assert Limit(8) == 0x1_0000_0000_0000_0000;
  }

  // ---------- fields ----------

  /** A number of `w` bytes in two's complement, the lowest byte first unless the host is big endian. */
  predicate NumberAt(big: bool, buf: seq<Byte>, at: nat, w: nat, n: int) {
    at + w <= |buf| && forall i :: at <= i < at + w ==> buf[i] == ByteOf(n, if big then at + w - 1 - i else i - at)
  }

  predicate ZerosAt(buf: seq<Byte>, at: nat, n: nat) {
    at + n <= |buf| && forall i :: at <= i < at + n ==> buf[i] == 0
  }

  /** A C string with its terminating NUL. */
  predicate TextAt(buf: seq<Byte>, at: nat, s: seq<Byte>) {
    at + |s| < |buf| && buf[at..at + |s|] == s && buf[at + |s|] == 0
  }

  predicate TextsAt(buf: seq<Byte>, at: nat, end: nat, ss: seq<seq<Byte>>)
    decreases |ss|
  {
    if ss == [] then end == at else TextAt(buf, at, ss[0]) && TextsAt(buf, at + |ss[0]| + 1, end, ss[1..])
  }

  /** An nvlist_t: version, flags, and nothing in the other fields. */
  predicate ListAt(big: bool, buf: seq<Byte>, at: nat, l: NvList) {
    NumberAt(big, buf, at, 4, 0) && NumberAt(big, buf, at + 4, 4, l.flag) && ZerosAt(buf, at + 8, 16)
  }

  /** The value of a pair, without its padding; zeros where pointers are in memory. */
  predicate ValueAt(big: bool, buf: seq<Byte>, at: nat, end: nat, v: Value) {
    match v
    case Flag => end == at
    case Number(k, n) => end == at + Width(k) && NumberAt(big, buf, at, Width(k), n)
    case Numbers(k, ns) =>
      && end == at + |ns| * Width(k)
      && forall i :: 0 <= i < |ns| ==> NumberAt(big, buf, at + i * Width(k), Width(k), ns[i])
    case Text(s) => end == at + |s| + 1 && TextAt(buf, at, s)
    case Texts(ss) => ZerosAt(buf, at, 8 * |ss|) && TextsAt(buf, at + 8 * |ss|, end, ss)
    case Nested(l) => end == at + 24 && ListAt(big, buf, at, l)
    case NestedArray(ls) =>
      && end == at + 8 * |ls| + 24 * |ls| && ZerosAt(buf, at, 8 * |ls|)
      && forall i :: 0 <= i < |ls| ==> ListAt(big, buf, at + 8 * |ls| + 24 * i, ls[i])
  }

  function Up8(n: nat): nat {
    n + (8 - n % 8) % 8
  }

  /** The least multiple of eight that is not less. */
  lemma {:induction false} Aligned(n: nat)
    ensures Align8(n) == Up8(n) && n <= Up8(n) < n + 8 && Up8(n) % 8 == 0
  {
  }

  /** An nvpair_t: size, name size, element count and type; the name; the value, aligned to eight bytes. */
  predicate PairAt(big: bool, buf: seq<Byte>, at: nat, end: nat, p: Pair) {
    var value := at + Up8(16 + |p.name| + 1);
    && end == value + Up8(ValueSize(p.value))
    && NumberAt(big, buf, at, 4, end - at)
    && NumberAt(big, buf, at + 4, 2, |p.name| + 1) && ZerosAt(buf, at + 6, 2)
    && NumberAt(big, buf, at + 8, 4, Elements(p.value))
    && NumberAt(big, buf, at + 12, 4, Code(p.value))
    && TextAt(buf, at + 16, p.name)
    && ValueAt(big, buf, value, value + ValueSize(p.value), p.value)
  }

  function Elements(v: Value): nat {
    match v
    case Flag => 0
    case Numbers(_, ns) => |ns|
    case Texts(ss) => |ss|
    case NestedArray(ls) => |ls|
    case _ => 1
  }

  /** The pairs one behind the other, each followed by the pairs of the lists it embeds, and four zero bytes. */
  predicate PairsAt(big: bool, buf: seq<Byte>, at: nat, end: nat, ps: seq<Pair>)
    decreases ps
  {
    if ps == [] then end == at + 4 && ZerosAt(buf, at, 4)
    else
      var tail, next := at + PairSize(ps[0]), at + PairTotal(ps[0]);
      && PairAt(big, buf, at, tail, ps[0])
      && TailAt(big, buf, tail, next, ps[0].value) && PairsAt(big, buf, next, end, ps[1..])
  }

  predicate TailAt(big: bool, buf: seq<Byte>, at: nat, end: nat, v: Value)
    decreases v
  {
    match v
    case Nested(l) => PairsAt(big, buf, at, end, l.pairs)
    case NestedArray(ls) => ListsAt(big, buf, at, end, ls)
    case _ => end == at
  }

  predicate ListsAt(big: bool, buf: seq<Byte>, at: nat, end: nat, ls: seq<NvList>)
    decreases ls
  {
    if ls == [] then end == at
    else
      var next := at + PairsTotal(ls[0].pairs);
      PairsAt(big, buf, at, next, ls[0].pairs) && ListsAt(big, buf, next, end, ls[1..])
  }

  /** nvs_header_t, the version, the flags, the pairs, and nothing else. */
  predicate LaidOut(big: bool, buf: seq<Byte>, l: NvList) {
    && |buf| >= 12 && buf[0] == 0 && buf[1] == (if big then 0 else 1) && ZerosAt(buf, 2, 2)
    && NumberAt(big, buf, 4, 4, 0) && NumberAt(big, buf, 8, 4, l.flag)
    && PairsAt(big, buf, 12, |buf|, l.pairs)
  }

  // ---------- the packed bytes are laid out so ----------

  /** `bs` stands in `buf` at `at`. */
  predicate Stands(buf: seq<Byte>, at: nat, bs: seq<Byte>) {
    at + |bs| <= |buf| && buf[at..at + |bs|] == bs
  }

  lemma {:induction false} StandsBoth(buf: seq<Byte>, at: nat, a: seq<Byte>, b: seq<Byte>)
    requires Stands(buf, at, a + b)
    ensures Stands(buf, at, a) && Stands(buf, at + |a|, b)
  {
    var s := buf[at..at + |a + b|];
    assert s[..|a|] == a && s[|a|..] == b;
    assert buf[at..at + |a|] == s[..|a|] && buf[at + |a|..at + |a| + |b|] == s[|a|..];
  }

  lemma {:induction false} WordAt(big: bool, w: nat, n: int, i: nat)
    requires i < w
    ensures Word(big, w, n)[i] == ByteOf(n, if big then w - 1 - i else i)
  {
    hide ByteOf, Low;
    LowAt(w, n, if big then w - 1 - i else i);
  }

  lemma {:induction false} NumberStands(big: bool, buf: seq<Byte>, at: nat, w: nat, n: int)
    requires Stands(buf, at, Word(big, w, n))
    ensures NumberAt(big, buf, at, w, n)
  {
    hide ByteOf, Word;
    forall i | at <= i < at + w
      ensures buf[i] == ByteOf(n, if big then at + w - 1 - i else i - at)
    {
      assert buf[i] == buf[at..at + w][i - at];
      WordAt(big, w, n, i - at);
    }
  }

  lemma {:induction false} ZerosStand(buf: seq<Byte>, at: nat, n: nat)
    requires Stands(buf, at, Zeros(n))
    ensures ZerosAt(buf, at, n)
  {
    forall i | at <= i < at + n
      ensures buf[i] == 0
    {
      assert buf[i] == buf[at..at + n][i - at];
    }
  }

  lemma {:induction false} TextStands(buf: seq<Byte>, at: nat, s: seq<Byte>)
    requires Stands(buf, at, s + [0])
    ensures TextAt(buf, at, s)
  {
    StandsBoth(buf, at, s, [0]);
    assert buf[at + |s|] == buf[at + |s|..at + |s| + 1][0];
  }

  lemma {:induction false} TextsStand(buf: seq<Byte>, at: nat, ss: seq<seq<Byte>>)
    requires Stands(buf, at, TextsBytes(ss))
    ensures TextsAt(buf, at, at + TextsSize(ss), ss)
    decreases |ss|
  {
    hide Stands, TextAt;
    if ss != [] {
      StandsBoth(buf, at, ss[0] + [0], TextsBytes(ss[1..]));
      TextStands(buf, at, ss[0]);
      TextsStand(buf, at + |ss[0]| + 1, ss[1..]);
    }
  }

  lemma {:induction false} NumbersStand(big: bool, buf: seq<Byte>, at: nat, k: Kind, ns: seq<int>)
    requires Stands(buf, at, NumbersBytes(big, k, ns))
    ensures forall i :: 0 <= i < |ns| ==> NumberAt(big, buf, at + i * Width(k), Width(k), ns[i])
    decreases |ns|
  {
    hide Stands, NumberAt, Word;
    if ns != [] {
      StandsBoth(buf, at, Word(big, Width(k), ns[0]), NumbersBytes(big, k, ns[1..]));
      NumberStands(big, buf, at, Width(k), ns[0]);
      NumbersStand(big, buf, at + Width(k), k, ns[1..]);
      forall i | 0 <= i < |ns|
        ensures NumberAt(big, buf, at + i * Width(k), Width(k), ns[i])
      {
        if i > 0 {
          assert at + Width(k) + (i - 1) * Width(k) == at + i * Width(k) && ns[1..][i - 1] == ns[i];
        }
      }
    }
  }

  lemma {:induction false} ListStands(big: bool, buf: seq<Byte>, at: nat, l: NvList)
    requires Stands(buf, at, ListBytes(big, l))
    ensures ListAt(big, buf, at, l)
  {
    hide Stands, NumberAt, ZerosAt, Word, Zeros;
    StandsBoth(buf, at, Word(big, 4, 0) + Word(big, 4, l.flag), Zeros(16));
    StandsBoth(buf, at, Word(big, 4, 0), Word(big, 4, l.flag));
    NumberStands(big, buf, at, 4, 0);
    NumberStands(big, buf, at + 4, 4, l.flag);
    ZerosStand(buf, at + 8, 16);
  }

  lemma {:induction false} ListsStand(big: bool, buf: seq<Byte>, at: nat, ls: seq<NvList>)
    requires Stands(buf, at, ListsBytes(big, ls))
    ensures forall i :: 0 <= i < |ls| ==> ListAt(big, buf, at + 24 * i, ls[i])
    decreases |ls|
  {
    hide Stands, ListAt, ListBytes;
    if ls != [] {
      StandsBoth(buf, at, ListBytes(big, ls[0]), ListsBytes(big, ls[1..]));
      ListStands(big, buf, at, ls[0]);
      ListsStand(big, buf, at + 24, ls[1..]);
      forall i | 0 <= i < |ls|
        ensures ListAt(big, buf, at + 24 * i, ls[i])
      {
        if i > 0 {
          assert at + 24 + 24 * (i - 1) == at + 24 * i && ls[1..][i - 1] == ls[i];
        }
      }
    }
  }

  lemma {:induction false} ValueStands(big: bool, buf: seq<Byte>, at: nat, v: Value)
    requires Stands(buf, at, ValueBytes(big, v))
    ensures ValueAt(big, buf, at, at + ValueSize(v), v)
  {
    hide Stands, NumberAt, TextAt, TextsAt, ListAt, ZerosAt, Word, Zeros, NumbersBytes, TextsBytes, ListsBytes;
    match v
    case Flag =>
    case Number(k, n) => NumberStands(big, buf, at, Width(k), n);
    case Numbers(k, ns) => NumbersStand(big, buf, at, k, ns);
    case Text(s) => TextStands(buf, at, s);
    case Texts(ss) =>
      StandsBoth(buf, at, Zeros(8 * |ss|), TextsBytes(ss));
      ZerosStand(buf, at, 8 * |ss|);
      TextsStand(buf, at + 8 * |ss|, ss);
    case Nested(l) => ListStands(big, buf, at, l);
    case NestedArray(ls) =>
      StandsBoth(buf, at, Zeros(8 * |ls|), ListsBytes(big, ls));
      ZerosStand(buf, at, 8 * |ls|);
      ListsStand(big, buf, at + 8 * |ls|, ls);
  }

  lemma {:induction false} ZeroBytes(big: bool, buf: seq<Byte>, at: nat)
    requires NumberAt(big, buf, at, 2, 0)
    ensures ZerosAt(buf, at, 2)
  {
    assert ByteOf(0, 0) == 0 && ByteOf(0, 1) == 0;
  }

  lemma {:induction false} HeadStands(big: bool, buf: seq<Byte>, at: nat, p: Pair)
    requires Stands(buf, at, HeadBytes(big, p))
    ensures NumberAt(big, buf, at, 4, PairSize(p))
    ensures NumberAt(big, buf, at + 4, 2, |p.name| + 1) && ZerosAt(buf, at + 6, 2)
    ensures NumberAt(big, buf, at + 8, 4, Nelem(p.value))
    ensures NumberAt(big, buf, at + 12, 4, Code(p.value))
  {
    hide Stands, NumberAt, ZerosAt, Word;
    var a, b, c := Word(big, 4, PairSize(p)), Word(big, 2, |p.name| + 1), Word(big, 2, 0);
    var d, e := Word(big, 4, Nelem(p.value)), Word(big, 4, Code(p.value));
    StandsBoth(buf, at, a + b + c + d, e);
    StandsBoth(buf, at, a + b + c, d);
    StandsBoth(buf, at, a + b, c);
    StandsBoth(buf, at, a, b);
    NumberStands(big, buf, at, 4, PairSize(p));
    NumberStands(big, buf, at + 4, 2, |p.name| + 1);
    NumberStands(big, buf, at + 6, 2, 0);
    NumberStands(big, buf, at + 8, 4, Nelem(p.value));
    NumberStands(big, buf, at + 12, 4, Code(p.value));
    ZeroBytes(big, buf, at + 6);
  }

  lemma {:induction false} PairStands(big: bool, buf: seq<Byte>, at: nat, p: Pair)
    requires Stands(buf, at, PairBytes(big, p))
    ensures PairAt(big, buf, at, at + PairSize(p), p)
  {
    hide NumberAt, ZerosAt, TextAt, ValueAt, HeadBytes, ValueBytes, Word, Code, Stands, Zeros, Align8, Up8;
    var value := ValueBytes(big, p.value);
    Aligned(16 + |p.name| + 1);
    Aligned(ValueSize(p.value));
    StandsBoth(buf, at, Front(big, p), value + Pad(|value|));
    StandsBoth(buf, at + |Front(big, p)|, value, Pad(|value|));
    ValueStands(big, buf, at + |Front(big, p)|, p.value);
    StandsBoth(buf, at, HeadBytes(big, p), NameBytes(p.name));
    HeadStands(big, buf, at, p);
    StandsBoth(buf, at + 16, p.name + [0], Pad(16 + |p.name| + 1));
    TextStands(buf, at + 16, p.name);
  }

  lemma {:induction false} PairsStand(big: bool, buf: seq<Byte>, at: nat, ps: seq<Pair>)
    requires Stands(buf, at, PackedPairs(big, ps))
    ensures PairsAt(big, buf, at, at + PairsTotal(ps), ps)
    decreases ps
  {
    hide PairBytes, PairAt, Stands, ZerosAt, PackedTail, TailAt;
    if ps == [] {
      ZerosStand(buf, at, 4);
    } else {
      var p := ps[0];
      StandsBoth(buf, at, PackedPair(big, p), PackedPairs(big, ps[1..]));
      StandsBoth(buf, at, PairBytes(big, p), PackedTail(big, p.value));
      PairStands(big, buf, at, p);
      TailStands(big, buf, at + PairSize(p), p.value);
      PairsStand(big, buf, at + PairTotal(p), ps[1..]);
    }
  }

  lemma {:induction false} TailStands(big: bool, buf: seq<Byte>, at: nat, v: Value)
    requires Stands(buf, at, PackedTail(big, v))
    ensures TailAt(big, buf, at, at + TailTotal(v), v)
    decreases v
  {
    hide Stands, PackedPairs, PackedLists, PairsAt, ListsAt;
    match v
    case Nested(l) => PairsStand(big, buf, at, l.pairs);
    case NestedArray(ls) => TailsStand(big, buf, at, ls);
    case _ =>
  }

  lemma {:induction false} TailsStand(big: bool, buf: seq<Byte>, at: nat, ls: seq<NvList>)
    requires Stands(buf, at, PackedLists(big, ls))
    ensures ListsAt(big, buf, at, at + ListsTotal(ls), ls)
    decreases ls
  {
    hide Stands, PackedPairs, PairsAt;
    if ls != [] {
      StandsBoth(buf, at, PackedPairs(big, ls[0].pairs), PackedLists(big, ls[1..]));
      PairsStand(big, buf, at, ls[0].pairs);
      TailsStand(big, buf, at + PairsTotal(ls[0].pairs), ls[1..]);
    }
  }

  /** The bytes nvlist_pack returns: every field of every pair at every level is where the format has it. */
  lemma {:induction false} PackedLayout(big: bool, l: NvList)
    ensures LaidOut(big, Packed(big, l), l)
  {
    hide PairsAt, NumberAt, PackedPairs, Word;
    var buf, top := Packed(big, l), Word(big, 4, 0) + Word(big, 4, l.flag);
    assert buf[0..|buf|] == buf;
    StandsBoth(buf, 0, Header(big) + top, PackedPairs(big, l.pairs));
    StandsBoth(buf, 0, Header(big), top);
    StandsBoth(buf, 4, Word(big, 4, 0), Word(big, 4, l.flag));
    NumberStands(big, buf, 4, 4, 0);
    NumberStands(big, buf, 8, 4, l.flag);
    assert forall i :: 0 <= i < 4 ==> buf[i] == buf[0..4][i];
    PairsStand(big, buf, 12, l.pairs);
  }
}
