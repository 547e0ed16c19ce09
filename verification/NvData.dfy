/**
  * Name-value lists as values, and the byte strings their fields are stored in.
  */
module NvData {
  import opened ByteOrder
  import opened Errno

  const INT32_MAX := 0x7FFF_FFFF

  /** The numeric element types. */
  datatype Kind = Truth | Octet | Int8 | UInt8 | Int16 | UInt16 | Int32 | UInt32 | Int64 | UInt64 | Hrtime

  /** What a pair holds: DATA_TYPE_BOOLEAN, a number or an array of them, a string or an array of them, a list or an
      array of them. */
  datatype Value =
    | Flag
    | Number(kind: Kind, n: int)
    | Numbers(kind: Kind, ns: seq<int>)
    | Text(s: seq<Byte>)
    | Texts(ss: seq<seq<Byte>>)
    | Nested(list: NvList)
    | NestedArray(lists: seq<NvList>)

  datatype Pair = Pair(name: seq<Byte>, value: Value)

  /** nvl_nvflag and the pairs in link order. */
  datatype NvList = NvList(flag: int, pairs: seq<Pair>)

  // ---------- types ----------

  function Width(k: Kind): (w: nat)
    ensures w == 1 || w == 2 || w == 4 || w == 8
  {
    match k
    case Octet => 1
    case Int8 => 1
    case UInt8 => 1
    case Int16 => 2
    case UInt16 => 2
    case Truth => 4
    case Int32 => 4
    case UInt32 => 4
    case Int64 => 8
    case UInt64 => 8
    case Hrtime => 8
  }

  predicate IsSigned(k: Kind) {
    k.Int8? || k.Int16? || k.Int32? || k.Int64? || k.Hrtime?
  }

  function NumberCode(k: Kind): int {
    match k
    case Octet => 2
    case Int16 => 3
    case UInt16 => 4
    case Int32 => 5
    case UInt32 => 6
    case Int64 => 7
    case UInt64 => 8
    case Hrtime => 18
    case Truth => 21
    case Int8 => 22
    case UInt8 => 23
  }

  /** There are no arrays of hrtime_t: DATA_TYPE_UNKNOWN. */
  function ArrayCode(k: Kind): int {
    match k
    case Octet => 10
    case Int16 => 11
    case UInt16 => 12
    case Int32 => 13
    case UInt32 => 14
    case Int64 => 15
    case UInt64 => 16
    case Hrtime => 0
    case Truth => 24
    case Int8 => 25
    case UInt8 => 26
  }

  predicate InRange(k: Kind, n: int) {
    if k.Truth? then n == 0 || n == 1
    else if IsSigned(k) then -Limit(Width(k)) <= 2 * n < Limit(Width(k))
    else 0 <= n < Limit(Width(k))
  }

  /** A C string holds no NUL. */
  predicate IsText(s: seq<Byte>) {
    forall i :: 0 <= i < |s| ==> s[i] != 0
  }

  /** The values the add functions accept; nvlist_alloc keeps the two uniqueness flags only. */
  predicate GoodValue(v: Value)
    decreases v
  {
    match v
    case Flag => true
    case Number(k, n) => InRange(k, n)
    case Numbers(k, ns) => !k.Hrtime? && forall i :: 0 <= i < |ns| ==> InRange(k, ns[i])
    case Text(s) => IsText(s)
    case Texts(ss) => forall i :: 0 <= i < |ss| ==> IsText(ss[i])
    case Nested(l) => GoodList(l)
    case NestedArray(ls) => forall i :: 0 <= i < |ls| ==> GoodList(ls[i])
  }

  predicate GoodPair(p: Pair)
    decreases p
  {
    IsText(p.name) && GoodValue(p.value)
  }

  predicate GoodList(l: NvList)
    decreases l
  {
    0 <= l.flag < 4 && forall i :: 0 <= i < |l.pairs| ==> GoodPair(l.pairs[i])
  }

  /** The flags of a list from nvlist_unpack are any 32 bits. */
  predicate GoodTop(l: NvList) {
    0 <= l.flag < Limit(4) && forall i :: 0 <= i < |l.pairs| ==> GoodPair(l.pairs[i])
  }

  // ---------- numbers as bytes ----------

  function Align8(n: nat): nat { (n + 7) / 8 * 8 }

  lemma {:induction false} Align8Grows(m: nat, n: nat)
    requires m <= n
    ensures Align8(m) <= Align8(n) && n <= Align8(n)
  {
  }

  function Zeros(n: nat): (r: seq<Byte>)
    ensures |r| == n && forall i :: 0 <= i < n ==> r[i] == 0
  {
    seq(n, _ => 0)
  }

  /** A number of `w` bytes in the byte order of the host. */
  function Word(big: bool, w: nat, n: int): (r: seq<Byte>)
    ensures |r| == w
  {
    if big then Reverse(Low(w, n)) else Low(w, n)
  }

  function ReadUnsigned(big: bool, bs: seq<Byte>): nat {
    Sum(if big then Reverse(bs) else bs)
  }

  function ReadSigned(big: bool, bs: seq<Byte>): int {
    var n := ReadUnsigned(big, bs);
    if 2 * n < Limit(|bs|) then n else n - Limit(|bs|)
  }

  function ReadNumber(big: bool, k: Kind, bs: seq<Byte>): int {
    if IsSigned(k) then ReadSigned(big, bs) else ReadUnsigned(big, bs)
  }

  lemma {:induction false} UnsignedBack(big: bool, w: nat, n: int)
    requires 0 <= n < Limit(w)
    ensures ReadUnsigned(big, Word(big, w, n)) == n
  {
    SumLow(w, n);
    ReverseTwice(Low(w, n));
  }

  lemma {:induction false} SignedBack(big: bool, w: nat, n: int)
    requires -Limit(w) <= 2 * n < Limit(w)
    ensures ReadSigned(big, Word(big, w, n)) == n
  {
    if n >= 0 {
      UnsignedBack(big, w, n);
    } else {
      LowWraps(w, n);
      UnsignedBack(big, w, n + Limit(w));
    }
  }

  /** A number of any type comes back from its bytes, in either byte order. */
  lemma {:induction false} NumberBack(big: bool, k: Kind, n: int)
    requires InRange(k, n)
    ensures ReadNumber(big, k, Word(big, Width(k), n)) == n
  {
    if IsSigned(k) {
      SignedBack(big, Width(k), n);
    } else {
      assert Limit(4) == 0x1_0000_0000;
      UnsignedBack(big, Width(k), n);
    }
  }
}
