/**
  * The native encoding: how large a packed list is, what its bytes are, and how they are read back.
  */
module NvNative {
  import opened ByteOrder
  import opened Errno
  import opened NvData

  // ---------- data_type_t ----------

  datatype Tag = FlagTag | NumberTag(kind: Kind) | NumbersTag(kind: Kind) | TextTag | TextsTag | NestedTag
    | NestedArrayTag | UnknownTag

  function TagOf(v: Value): Tag {
    match v
    case Flag => FlagTag
    case Number(k, _) => NumberTag(k)
    case Numbers(k, _) => NumbersTag(k)
    case Text(_) => TextTag
    case Texts(_) => TextsTag
    case Nested(_) => NestedTag
    case NestedArray(_) => NestedArrayTag
  }

  function Code(v: Value): int {
    match v
    case Flag => 1
    case Number(k, _) => NumberCode(k)
    case Numbers(k, _) => ArrayCode(k)
    case Text(_) => 9
    case Texts(_) => 17
    case Nested(_) => 19
    case NestedArray(_) => 20
  }

  function Decoded(code: int): Tag {
    if code == 1 then FlagTag
    else if code == 2 then NumberTag(Octet)
    else if code == 3 then NumberTag(Int16)
    else if code == 4 then NumberTag(UInt16)
    else if code == 5 then NumberTag(Int32)
    else if code == 6 then NumberTag(UInt32)
    else if code == 7 then NumberTag(Int64)
    else if code == 8 then NumberTag(UInt64)
    else if code == 9 then TextTag
    else if code == 10 then NumbersTag(Octet)
    else if code == 11 then NumbersTag(Int16)
    else if code == 12 then NumbersTag(UInt16)
    else if code == 13 then NumbersTag(Int32)
    else if code == 14 then NumbersTag(UInt32)
    else if code == 15 then NumbersTag(Int64)
    else if code == 16 then NumbersTag(UInt64)
    else if code == 17 then TextsTag
    else if code == 18 then NumberTag(Hrtime)
    else if code == 19 then NestedTag
    else if code == 20 then NestedArrayTag
    else if code == 21 then NumberTag(Truth)
    else if code == 22 then NumberTag(Int8)
    else if code == 23 then NumberTag(UInt8)
    else if code == 24 then NumbersTag(Truth)
    else if code == 25 then NumbersTag(Int8)
    else if code == 26 then NumbersTag(UInt8)
    else UnknownTag
  }

  lemma {:induction false} CodeBack(v: Value)
    requires v.Numbers? ==> !v.kind.Hrtime?
    ensures Decoded(Code(v)) == TagOf(v) && 1 <= Code(v) <= 26
  {
  }

  function Nelem(v: Value): nat {
    match v
    case Flag => 0
    case Numbers(_, ns) => |ns|
    case Texts(ss) => |ss|
    case NestedArray(ls) => |ls|
    case _ => 1
  }

  // ---------- sizes ----------

  function TextsSize(ss: seq<seq<Byte>>): nat {
    if ss == [] then 0 else |ss[0]| + 1 + TextsSize(ss[1..])
  }

  /** i_get_value_size with the data at hand, without its limit. */
  function ValueSize(v: Value): nat {
    match v
    case Flag => 0
    case Number(k, _) => Width(k)
    case Numbers(k, ns) => |ns| * Width(k)
    case Text(s) => |s| + 1
    case Texts(ss) => 8 * |ss| + TextsSize(ss)
    case Nested(_) => 24
    case NestedArray(ls) => 8 * |ls| + 24 * |ls|
  }

  /** nvp_size. */
  function PairSize(p: Pair): nat {
    Align8(16 + |p.name| + 1) + Align8(ValueSize(p.value))
  }

  /** What a pair takes in the stream: itself, then the pairs of the lists it embeds. */
  function PairTotal(p: Pair): nat
    decreases p
  {
    PairSize(p) + TailTotal(p.value)
  }

  function TailTotal(v: Value): nat
    decreases v
  {
    match v
    case Nested(l) => PairsTotal(l.pairs)
    case NestedArray(ls) => ListsTotal(ls)
    case _ => 0
  }

  /** The pairs and the four bytes that end them. */
  function PairsTotal(ps: seq<Pair>): nat
    decreases ps
  {
    if ps == [] then 4 else PairTotal(ps[0]) + PairsTotal(ps[1..])
  }

  function ListsTotal(ls: seq<NvList>): nat
    decreases ls
  {
    if ls == [] then 0 else PairsTotal(ls[0].pairs) + ListsTotal(ls[1..])
  }

  /** The header, version and flag, the pairs. */
  function ListTotal(l: NvList): nat {
    4 + 8 + PairsTotal(l.pairs)
  }

  // ---------- names ----------

  /** The longest name whose size fits the 16 bits of nvp_name_sz. */
  const MAX_NAME := 32766

  /** Every name, at every level, fits. */
  predicate NamesFitPairs(ps: seq<Pair>)
    decreases ps
  {
    ps != [] ==> NamesFitPair(ps[0]) && NamesFitPairs(ps[1..])
  }

  predicate NamesFitPair(p: Pair)
    decreases p
  {
    |p.name| <= MAX_NAME && NamesFitValue(p.value)
  }

  predicate NamesFitValue(v: Value)
    decreases v
  {
    match v
    case Nested(l) => NamesFitPairs(l.pairs)
    case NestedArray(ls) => NamesFitLists(ls)
    case _ => true
  }

  predicate NamesFitLists(ls: seq<NvList>)
    decreases ls
  {
    ls != [] ==> NamesFitPairs(ls[0].pairs) && NamesFitLists(ls[1..])
  }

  /** nvp_name_sz: the size of the name with its NUL, cut to a signed number of 16 bits. */
  function StoredSize(name: seq<Byte>): int {
    var n := (|name| + 1) % 0x1_0000;
    if n < 0x8000 then n else n - 0x1_0000
  }

  /** NVP_VALOFF: where nvlist_add_common puts the value, by the size it has stored. */
  function ValueOffset(name: seq<Byte>): int {
    (16 + StoredSize(name) + 7) / 8 * 8
  }

  /** The value is put behind the name, where there is room for it, if and only if the size of the name was not cut. */
  lemma {:induction false} ValueOffsetExact(name: seq<Byte>)
    ensures ValueOffset(name) == Align8(16 + |name| + 1) <==> |name| <= MAX_NAME
  {
    var k := (|name| + 1 - StoredSize(name)) / 0x1_0000;
    assert |name| + 1 == StoredSize(name) + 0x1_0000 * k;
    assert Align8(16 + |name| + 1) == ValueOffset(name) + 0x1_0000 * k;
  }

  /** A byte more, and the value goes in front of the pair; 65540 bytes, and it goes over the name. */
  lemma {:induction false} ValueMisplaced(name: seq<Byte>)
    ensures |name| == MAX_NAME + 1 ==> ValueOffset(name) < 0
    ensures |name| == 65540 ==> ValueOffset(name) == 24 < 16 + |name|
  {
  }

  /** The names nvlist_add_common can store: one that fits, or any if there is no value to put behind it, as with
      DATA_TYPE_BOOLEAN and an array without elements. */
  predicate Storable(name: seq<Byte>, v: Value) {
    |name| <= MAX_NAME || (ValueSize(v) == 0 && Align8(16 + |name| + 1) <= INT32_MAX)
  }

  // ---------- the packed bytes ----------

  function NumbersBytes(big: bool, k: Kind, ns: seq<int>): (r: seq<Byte>)
    ensures |r| == |ns| * Width(k)
  {
    if ns == [] then [] else
      var rest := NumbersBytes(big, k, ns[1..]);
      assert |ns| * Width(k) == Width(k) + |ns[1..]| * Width(k);
      Word(big, Width(k), ns[0]) + rest
  }

  function TextsBytes(ss: seq<seq<Byte>>): (r: seq<Byte>)
    ensures |r| == TextsSize(ss)
  {
    if ss == [] then [] else ss[0] + [0] + TextsBytes(ss[1..])
  }

  /** An nvlist_t without its pointer: version, nvflag, nvl_priv, nvl_flag, nvl_pad. */
  function ListBytes(big: bool, l: NvList): (r: seq<Byte>)
    ensures |r| == 24
  {
    Word(big, 4, 0) + Word(big, 4, l.flag) + Zeros(16)
  }

  function ListsBytes(big: bool, ls: seq<NvList>): (r: seq<Byte>)
    ensures |r| == 24 * |ls|
  {
    if ls == [] then [] else ListBytes(big, ls[0]) + ListsBytes(big, ls[1..])
  }

  function ValueBytes(big: bool, v: Value): (r: seq<Byte>)
    ensures |r| == ValueSize(v)
  {
    match v
    case Flag => []
    case Number(k, n) => Word(big, Width(k), n)
    case Numbers(k, ns) => NumbersBytes(big, k, ns)
    case Text(s) => s + [0]
    case Texts(ss) => Zeros(8 * |ss|) + TextsBytes(ss)
    case Nested(l) => ListBytes(big, l)
    case NestedArray(ls) => Zeros(8 * |ls|) + ListsBytes(big, ls)
  }

  function Pad(n: nat): (r: seq<Byte>)
    ensures |r| == Align8(n) - n && |r| < 8
  {
    Zeros(Align8(n) - n)
  }

  /** The nvpair_t: nvp_size, nvp_name_sz (16 bits), nvp_reserve, nvp_value_elem, nvp_type. */
  function HeadBytes(big: bool, p: Pair): (r: seq<Byte>)
    ensures |r| == 16
  {
    Word(big, 4, PairSize(p)) + Word(big, 2, |p.name| + 1) + Word(big, 2, 0)
    + Word(big, 4, Nelem(p.value)) + Word(big, 4, Code(p.value))
  }

  function NameBytes(name: seq<Byte>): (r: seq<Byte>)
    ensures |r| == Align8(16 + |name| + 1) - 16
  {
    name + [0] + Pad(16 + |name| + 1)
  }

  /** What precedes the value of a pair, and the pair with the value `value`. */
  function Front(big: bool, p: Pair): (r: seq<Byte>)
    ensures |r| == Align8(16 + |p.name| + 1)
  {
    HeadBytes(big, p) + NameBytes(p.name)
  }

  function Filled(big: bool, p: Pair, value: seq<Byte>): (r: seq<Byte>)
    requires |value| == ValueSize(p.value)
    ensures |r| == PairSize(p)
  {
    Front(big, p) + (value + Pad(|value|))
  }

  function PairBytes(big: bool, p: Pair): (r: seq<Byte>)
    ensures |r| == PairSize(p)
  {
    Filled(big, p, ValueBytes(big, p.value))
  }

  function PackedPair(big: bool, p: Pair): (r: seq<Byte>)
    ensures |r| == PairTotal(p)
    decreases p
  {
    PairBytes(big, p) + PackedTail(big, p.value)
  }

  function PackedTail(big: bool, v: Value): (r: seq<Byte>)
    ensures |r| == TailTotal(v)
    decreases v
  {
    match v
    case Nested(l) => PackedPairs(big, l.pairs)
    case NestedArray(ls) => PackedLists(big, ls)
    case _ => []
  }

  function PackedPairs(big: bool, ps: seq<Pair>): (r: seq<Byte>)
    ensures |r| == PairsTotal(ps)
    decreases ps
  {
    if ps == [] then Zeros(4) else PackedPair(big, ps[0]) + PackedPairs(big, ps[1..])
  }

  function PackedLists(big: bool, ls: seq<NvList>): (r: seq<Byte>)
    ensures |r| == ListsTotal(ls)
    decreases ls
  {
    if ls == [] then [] else PackedPairs(big, ls[0].pairs) + PackedLists(big, ls[1..])
  }

  /** nvs_header_t: NV_ENCODE_NATIVE, the host's byte order, two reserved bytes. */
  function Header(big: bool): (r: seq<Byte>)
    ensures |r| == 4
  {
    [0, if big then 0 else 1, 0, 0]
  }

  function Packed(big: bool, l: NvList): (r: seq<Byte>)
    ensures |r| == ListTotal(l)
  {
    Header(big) + (Word(big, 4, 0) + Word(big, 4, l.flag)) + PackedPairs(big, l.pairs)
  }

  // ---------- reading ----------

  /** What was read and what of the stream is left. */
  datatype Parsed<+T> = Parsed(item: T, rest: seq<Byte>)

  /** Where the terminating NUL is, if there is one. */
  function StringEnd(bs: seq<Byte>): (r: nat)
    ensures r <= |bs| && IsText(bs[..r]) && (r < |bs| ==> bs[r] == 0)
  {
    if bs == [] || bs[0] == 0 then 0 else
      var r := 1 + StringEnd(bs[1..]);
      assert forall i :: 1 <= i < r ==> bs[i] == bs[1..][i - 1];
      r
  }

  /** i_get_value_size without data: -1 for a bad type, a bad number of elements or too large a value. */
  function FixedSize(tag: Tag, nelem: nat): int {
    var n := match tag
      case FlagTag => if nelem == 0 then 0 else -1
      case NumberTag(k) => if nelem == 1 then Width(k) else -1
      case NumbersTag(k) => nelem * Width(k)
      case TextTag => if nelem == 1 then 0 else -1
      case TextsTag => 8 * nelem
      case NestedTag => if nelem == 1 then 24 else -1
      case NestedArrayTag => 8 * nelem + 24 * nelem
      case UnknownTag => -1;
    if n > INT32_MAX then -1 else n
  }

  /** i_validate_nvpair_name. */
  predicate NameOk(nvp: seq<Byte>, nameSize: int) {
    && nameSize > 0
    && Align8(16 + nameSize) <= |nvp|
    && nvp[16 + nameSize - 1] == 0
    && StringEnd(nvp[16..]) == nameSize - 1
  }

  function ReadNumbers(big: bool, k: Kind, n: nat, bs: seq<Byte>): Result<seq<int>>
    requires n * Width(k) <= |bs|
  {
    if n == 0 then Ok([]) else
      assert n * Width(k) == Width(k) + (n - 1) * Width(k);
      assert (n - 1) * Width(k) >= 0;
      var x := ReadNumber(big, k, bs[..Width(k)]);
      if k.Truth? && x != 0 && x != 1 then Err(EFAULT) else
      match ReadNumbers(big, k, n - 1, bs[Width(k)..])
      case Err(e) => Err(e)
      case Ok(xs) => Ok([x] + xs)
  }

  function ReadTexts(n: nat, bs: seq<Byte>): Result<seq<seq<Byte>>> {
    if n == 0 then Ok([]) else
      var e := StringEnd(bs);
      if e == |bs| then Err(EFAULT) else
      match ReadTexts(n - 1, bs[e + 1..])
      case Err(e) => Err(e)
      case Ok(ss) => Ok([bs[..e]] + ss)
  }

  /** One pair: `nvp` is its copy, `rest` the stream behind it. */
  function DecodePair(big: bool, nvp: seq<Byte>, rest: seq<Byte>): (r: Result<Parsed<Pair>>)
    requires |nvp| >= 24
    ensures r.Ok? ==> |r.value.rest| <= |rest|
    decreases |rest|, 4
  {
    var nameSize := ReadSigned(big, nvp[4..6]);
    if !NameOk(nvp, nameSize) then Err(EFAULT) else
      var nelem := ReadUnsigned(big, nvp[8..12]);
      var tag := Decoded(ReadSigned(big, nvp[12..16]));
      var size := FixedSize(tag, nelem);
      if size < 0 || Align8(16 + nameSize) + Align8(size) > |nvp| then Err(EFAULT) else
      var area := nvp[Align8(16 + nameSize)..];
      match DecodeValue(big, tag, nelem, area, rest)
      case Err(e) => Err(e)
      case Ok(v) =>
        if |area| != Align8(ValueSize(v.item)) then Err(EFAULT)
        else Ok(Parsed(Pair(nvp[16..16 + nameSize - 1], v.item), v.rest))
  }

  function DecodeValue(big: bool, tag: Tag, nelem: nat, area: seq<Byte>, rest: seq<Byte>): (r: Result<Parsed<Value>>)
    requires 0 <= FixedSize(tag, nelem) <= |area|
    ensures r.Ok? ==> |r.value.rest| <= |rest|
    decreases |rest|, 3
  {
    match tag
    case FlagTag => Ok(Parsed(Flag, rest))
    case NumberTag(k) =>
      var x := ReadNumber(big, k, area[..Width(k)]);
      if k.Truth? && x != 0 && x != 1 then Err(EFAULT) else Ok(Parsed(Number(k, x), rest))
    case NumbersTag(k) =>
      (match ReadNumbers(big, k, nelem, area)
       case Err(e) => Err(e)
       case Ok(xs) => Ok(Parsed(Numbers(k, xs), rest)))
    case TextTag =>
      var e := StringEnd(area);
      if e == |area| then Err(EFAULT) else Ok(Parsed(Text(area[..e]), rest))
    case TextsTag =>
      (match ReadTexts(nelem, area[8 * nelem..])
       case Err(e) => Err(e)
       case Ok(ss) => Ok(Parsed(Texts(ss), rest)))
    case NestedTag =>
      (match DecodeList(big, area, rest)
       case Err(e) => Err(e)
       case Ok(l) => Ok(Parsed(Nested(l.item), l.rest)))
    case NestedArrayTag =>
      (match DecodeLists(big, nelem, area[8 * nelem..], rest)
       case Err(e) => Err(EFAULT)
       case Ok(ls) => Ok(Parsed(NestedArray(ls.item), ls.rest)))
    case UnknownTag => Err(EFAULT)
  }

  /** nvs_embedded: the copied nvlist_t must have the right version, and its flags are masked. */
  function DecodeList(big: bool, area: seq<Byte>, rest: seq<Byte>): (r: Result<Parsed<NvList>>)
    requires |area| >= 24
    ensures r.Ok? ==> |r.value.rest| <= |rest|
    decreases |rest|, 1
  {
    if ReadSigned(big, area[..4]) != 0 then Err(ENOTSUP) else
      match DecodePairs(big, rest)
      case Err(e) => Err(e)
      case Ok(ps) => Ok(Parsed(NvList(ReadUnsigned(big, area[4..8]) % 4, ps.item), ps.rest))
  }

  function DecodeLists(big: bool, n: nat, area: seq<Byte>, rest: seq<Byte>): (r: Result<Parsed<seq<NvList>>>)
    requires 24 * n <= |area|
    ensures r.Ok? ==> |r.value.rest| <= |rest|
    decreases |rest|, 2, n
  {
    if n == 0 then Ok(Parsed([], rest)) else
      match DecodeList(big, area[..24], rest)
      case Err(e) => Err(e)
      case Ok(l) =>
        match DecodeLists(big, n - 1, area[24..], l.rest)
        case Err(e) => Err(e)
        case Ok(ls) => Ok(Parsed([l.item] + ls.item, ls.rest))
  }

  /** nvs_decode_pairs: pairs until a size of zero. */
  function DecodePairs(big: bool, rest: seq<Byte>): (r: Result<Parsed<seq<Pair>>>)
    ensures r.Ok? ==> |r.value.rest| < |rest|
    decreases |rest|, 0
  {
    if |rest| < 4 then Err(EFAULT) else
      var len := ReadSigned(big, rest[..4]);
      if len < 0 || len > |rest| then Err(EFAULT)
      else if len == 0 then Ok(Parsed([], rest[4..]))
      else if len < 24 then Err(EFAULT)
      else
        match DecodePair(big, rest[..len], rest[len..])
        case Err(e) => Err(e)
        case Ok(p) =>
          match DecodePairs(big, p.rest)
          case Err(e) => Err(e)
          case Ok(ps) => Ok(Parsed([p.item] + ps.item, ps.rest))
  }

  /** nvlist_unpack of a buffer that says it is natively encoded. */
  function Unpack(big: bool, buf: seq<Byte>): Result<NvList> {
    if |buf| < 4 then Err(EINVAL)
    else if buf[0] != 0 || buf[1] != (if big then 0 else 1) then Err(ENOTSUP)
    else if |buf| < 12 then Err(EFAULT)
    else
      match DecodePairs(big, buf[12..])
      case Err(e) => Err(e)
      case Ok(ps) => Ok(NvList(ReadUnsigned(big, buf[8..12]), ps.item))
  }
}
