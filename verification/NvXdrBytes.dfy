/**
  * The bytes of the XDR encoding, RFC 4506: big endian words of four bytes.  Their number is what
  * NvXdr says is written, and what they hold can be read back from them.
  */
module NvXdrBytes {
  import opened ByteOrder
  import opened NvData
  import opened NvLayout
  import opened NvNative
  import opened NvXdr

  // ---------- what is written ----------

  /** xdr_char takes a byte for a signed char. */
  function AsChar(k: Kind, n: int): int {
    if Width(k) == 1 && n >= 128 then n - 256 else n
  }

  /** A number in one word, or in two if it has 64 bits. */
  function XdrNumber(k: Kind, n: int): (r: seq<Byte>)
    ensures |r| == if Width(k) == 8 then 8 else 4
  {
    Word(true, if Width(k) == 8 then 8 else 4, AsChar(k, n))
  }

  function XdrItems(k: Kind, ns: seq<int>): (r: seq<Byte>)
    ensures |r| == |ns| * if Width(k) == 8 then 8 else 4
  {
    if ns == [] then [] else
      var rest := XdrItems(k, ns[1..]);
      assert |ns| == 1 + |ns[1..]|;
      XdrNumber(k, ns[0]) + rest
  }

  function Pad4(n: nat): (r: seq<Byte>)
    ensures n + |r| == Align4(n)
  {
    Zeros(Align4(n) - n)
  }

  /** xdr_opaque, and xdr_string with its length in front. */
  function XdrOpaque(bs: seq<Byte>): (r: seq<Byte>)
    ensures |r| == Align4(|bs|)
  {
    bs + Pad4(|bs|)
  }

  function XdrText(s: seq<Byte>): (r: seq<Byte>)
    ensures |r| == 4 + Align4(|s|)
  {
    Word(true, 4, |s|) + XdrOpaque(s)
  }

  function XdrStrings(ss: seq<seq<Byte>>): (r: seq<Byte>)
    ensures |r| == XdrTexts(ss)
  {
    if ss == [] then [] else XdrText(ss[0]) + XdrStrings(ss[1..])
  }

  function Octets(ns: seq<int>): (r: seq<Byte>)
    ensures |r| == |ns|
  {
    seq(|ns|, i requires 0 <= i < |ns| => ns[i] % 256)
  }

  /** nvs_xdr_nvp_op from the value on: an array has its count in front, but not an array of bytes or strings. */
  function XdrValue(v: Value): (r: seq<Byte>)
    ensures |r| == WrittenValue(v)
    decreases v
  {
    match v
    case Flag => []
    case Number(k, n) => XdrNumber(k, n)
    case Numbers(k, ns) =>
      if ns == [] then [] else if k.Octet? then XdrOpaque(Octets(ns)) else Word(true, 4, |ns|) + XdrItems(k, ns)
    case Text(s) => XdrText(s)
    case Texts(ss) => XdrStrings(ss)
    case Nested(l) => XdrList(l)
    case NestedArray(ls) => XdrLists(ls)
  }

  /** The calculated size, the decoded size, the name, the type, the number of elements, the value. */
  function XdrPair(p: Pair): (r: seq<Byte>)
    ensures |r| == WrittenPair(p)
    decreases p
  {
    (Word(true, 4, SizePair(p)) + Word(true, 4, PairSize(p))) + XdrText(p.name)
    + (Word(true, 4, Code(p.value)) + Word(true, 4, Nelem(p.value))) + XdrValue(p.value)
  }

  function XdrPairs(ps: seq<Pair>): (r: seq<Byte>)
    ensures |r| == WrittenPairs(ps)
    decreases ps
  {
    if ps == [] then Zeros(8) else XdrPair(ps[0]) + XdrPairs(ps[1..])
  }

  /** The version, the flags, the pairs. */
  function XdrList(l: NvList): (r: seq<Byte>)
    ensures |r| == 8 + WrittenPairs(l.pairs)
    decreases l
  {
    Word(true, 4, 0) + Word(true, 4, l.flag) + XdrPairs(l.pairs)
  }

  function XdrLists(ls: seq<NvList>): (r: seq<Byte>)
    ensures |r| == WrittenLists(ls)
    decreases ls
  {
    if ls == [] then [] else XdrList(ls[0]) + XdrLists(ls[1..])
  }

  // ---------- numbers are read back ----------

  lemma {:induction false} LowPrefix(w: nat, more: nat, n: int)
    ensures Low(w + more, n)[..w] == Low(w, n)
    decreases w
  {
    if w > 0 {
      LowPrefix(w - 1, more, n / 256);
      assert Low(w + more, n)[..w] == [n % 256] + Low(w - 1 + more, n / 256)[..w - 1];
    }
  }

  lemma {:induction false} LowAsChar(k: Kind, n: int)
    ensures Low(Width(k), AsChar(k, n)) == Low(Width(k), n)
  {
    if Width(k) == 1 {
      assert (n - 256) % 256 == n % 256;
      assert Low(0, (n - 256) / 256) == [] && Low(0, n / 256) == [];
    }
  }

  /** Cast to its type, the word or the two words of a number are the number. */
  lemma {:induction false} XdrNumberBack(k: Kind, n: int)
    requires InRange(k, n)
    ensures var bs := XdrNumber(k, n); ReadNumber(true, k, bs[|bs| - Width(k)..]) == n
  {
    var unit, c, w := if Width(k) == 8 then 8 else 4, AsChar(k, n), Width(k);
    var low := Low(unit, c);
    LowPrefix(w, unit - w, c);
    LowAsChar(k, n);
    assert XdrNumber(k, n)[unit - w..] == Reverse(low[..w]) == Word(true, w, n);
    NumberBack(true, k, n);
  }

  // ---------- where everything is ----------

  function Unit(k: Kind): nat { if k in {Int64, UInt64, Hrtime} then 8 else 4 }

  predicate NumbersAt(buf: seq<Byte>, at: nat, k: Kind, ns: seq<int>) {
    forall i :: 0 <= i < |ns| ==> NumberAt(true, buf, at + i * Unit(k), Unit(k), AsChar(k, ns[i]))
  }

  predicate OpaqueAt(buf: seq<Byte>, at: nat, end: nat, bs: seq<Byte>) {
    && at + |bs| <= |buf| && buf[at..at + |bs|] == bs
    && at + |bs| <= end < at + |bs| + 4 && (end - at) % 4 == 0 && ZerosAt(buf, at + |bs|, end - at - |bs|)
  }

  predicate StringAt(buf: seq<Byte>, at: nat, end: nat, s: seq<Byte>) {
    NumberAt(true, buf, at, 4, |s|) && OpaqueAt(buf, at + 4, end, s)
  }

  predicate StringsAt(buf: seq<Byte>, at: nat, end: nat, ss: seq<seq<Byte>>)
    decreases |ss|
  {
    if ss == [] then end == at
    else
      var next := at + |XdrText(ss[0])|;
      StringAt(buf, at, next, ss[0]) && StringsAt(buf, next, end, ss[1..])
  }

  predicate XdrValueAt(buf: seq<Byte>, at: nat, end: nat, v: Value)
    decreases v
  {
    match v
    case Flag => end == at
    case Number(k, n) => end == at + Unit(k) && NumbersAt(buf, at, k, [n])
    case Numbers(k, ns) =>
      if ns == [] then end == at
      else if k == Octet then OpaqueAt(buf, at, end, Octets(ns))
      else end == at + 4 + |ns| * Unit(k) && NumberAt(true, buf, at, 4, |ns|) && NumbersAt(buf, at + 4, k, ns)
    case Text(s) => StringAt(buf, at, end, s)
    case Texts(ss) => StringsAt(buf, at, end, ss)
    case Nested(l) => XdrListAt(buf, at, end, l)
    case NestedArray(ls) => XdrListsAt(buf, at, end, ls)
  }

  /** The calculated size, the decoded size, the name, the type, the number of elements, the value. */
  predicate XdrPairAt(buf: seq<Byte>, at: nat, end: nat, p: Pair)
    decreases p
  {
    var next := at + 8 + |XdrText(p.name)|;
    && NumberAt(true, buf, at, 4, SizePair(p)) && NumberAt(true, buf, at + 4, 4, PairSize(p))
    && StringAt(buf, at + 8, next, p.name)
    && NumberAt(true, buf, next, 4, Code(p.value)) && NumberAt(true, buf, next + 4, 4, Elements(p.value))
    && XdrValueAt(buf, next + 8, end, p.value)
  }

  predicate XdrPairsAt(buf: seq<Byte>, at: nat, end: nat, ps: seq<Pair>)
    decreases ps
  {
    if ps == [] then end == at + 8 && ZerosAt(buf, at, 8)
    else
      var next := at + |XdrPair(ps[0])|;
      XdrPairAt(buf, at, next, ps[0]) && XdrPairsAt(buf, next, end, ps[1..])
  }

  predicate XdrListAt(buf: seq<Byte>, at: nat, end: nat, l: NvList)
    decreases l
  {
    && NumberAt(true, buf, at, 4, 0) && NumberAt(true, buf, at + 4, 4, l.flag)
    && XdrPairsAt(buf, at + 8, end, l.pairs)
  }

  predicate XdrListsAt(buf: seq<Byte>, at: nat, end: nat, ls: seq<NvList>)
    decreases ls
  {
    if ls == [] then end == at
    else
      var next := at + |XdrList(ls[0])|;
      XdrListAt(buf, at, next, ls[0]) && XdrListsAt(buf, next, end, ls[1..])
  }

  // ---------- the bytes are there ----------

  lemma {:induction false} ItemsStand(buf: seq<Byte>, at: nat, k: Kind, ns: seq<int>)
    requires Stands(buf, at, XdrItems(k, ns))
    ensures NumbersAt(buf, at, k, ns) && |XdrItems(k, ns)| == |ns| * Unit(k)
    decreases |ns|
  {
    hide Stands, NumberAt, Word;
    Units(k);
    if ns != [] {
      StandsBoth(buf, at, XdrNumber(k, ns[0]), XdrItems(k, ns[1..]));
      NumberStands(true, buf, at, Unit(k), AsChar(k, ns[0]));
      ItemsStand(buf, at + Unit(k), k, ns[1..]);
      forall i | 0 <= i < |ns|
        ensures NumberAt(true, buf, at + i * Unit(k), Unit(k), AsChar(k, ns[i]))
      {
        if i > 0 {
          assert at + Unit(k) + (i - 1) * Unit(k) == at + i * Unit(k) && ns[1..][i - 1] == ns[i];
        }
      }
    }
  }

  lemma {:induction false} Units(k: Kind)
    ensures Unit(k) == if Width(k) == 8 then 8 else 4
  {
  }

  lemma {:induction false} Padded(n: nat)
    ensures n <= Align4(n) < n + 4 && Align4(n) % 4 == 0
  {
  }

  lemma {:induction false} OpaqueStands(buf: seq<Byte>, at: nat, bs: seq<Byte>)
    requires Stands(buf, at, XdrOpaque(bs))
    ensures OpaqueAt(buf, at, at + |XdrOpaque(bs)|, bs)
  {
    hide Align4, ZerosAt, Zeros;
    Padded(|bs|);
    StandsBoth(buf, at, bs, Pad4(|bs|));
    ZerosStand(buf, at + |bs|, |Pad4(|bs|)|);
  }

  lemma {:induction false} StringStands(buf: seq<Byte>, at: nat, s: seq<Byte>)
    requires Stands(buf, at, XdrText(s))
    ensures StringAt(buf, at, at + |XdrText(s)|, s)
  {
    hide Stands, NumberAt, OpaqueAt, XdrOpaque, Word;
    StandsBoth(buf, at, Word(true, 4, |s|), XdrOpaque(s));
    NumberStands(true, buf, at, 4, |s|);
    OpaqueStands(buf, at + 4, s);
  }

  lemma {:induction false} StringsStand(buf: seq<Byte>, at: nat, ss: seq<seq<Byte>>)
    requires Stands(buf, at, XdrStrings(ss))
    ensures StringsAt(buf, at, at + |XdrStrings(ss)|, ss)
    decreases |ss|
  {
    hide Stands, StringAt, XdrText;
    if ss != [] {
      StandsBoth(buf, at, XdrText(ss[0]), XdrStrings(ss[1..]));
      StringStands(buf, at, ss[0]);
      StringsStand(buf, at + |XdrText(ss[0])|, ss[1..]);
    }
  }

  lemma {:induction false} XdrNumbersStand(buf: seq<Byte>, at: nat, k: Kind, ns: seq<int>)
    requires ns != [] && Stands(buf, at, XdrValue(Numbers(k, ns)))
    ensures XdrValueAt(buf, at, at + |XdrValue(Numbers(k, ns))|, Numbers(k, ns))
  {
    hide Stands, NumberAt, NumbersAt, OpaqueAt, XdrOpaque, XdrItems, Word, Unit;
    if k == Octet {
      OpaqueStands(buf, at, Octets(ns));
    } else {
      StandsBoth(buf, at, Word(true, 4, |ns|), XdrItems(k, ns));
      NumberStands(true, buf, at, 4, |ns|);
      ItemsStand(buf, at + 4, k, ns);
    }
  }

  lemma {:induction false} XdrValueStands(buf: seq<Byte>, at: nat, v: Value)
    requires Stands(buf, at, XdrValue(v))
    ensures XdrValueAt(buf, at, at + |XdrValue(v)|, v)
    decreases v, 0
  {
    hide Stands, NumberAt, StringAt, StringsAt, XdrListAt, XdrListsAt, XdrText, XdrStrings, XdrList, XdrLists;
    match v
    case Flag =>
    case Number(k, n) => ItemsStand1(buf, at, k, n);
    case Numbers(k, ns) =>
      if ns != [] {
        XdrNumbersStand(buf, at, k, ns);
      }
    case Text(s) => StringStands(buf, at, s);
    case Texts(ss) => StringsStand(buf, at, ss);
    case Nested(l) => XdrListStands(buf, at, l);
    case NestedArray(ls) => XdrListsStand(buf, at, ls);
  }

  lemma {:induction false} ItemsStand1(buf: seq<Byte>, at: nat, k: Kind, n: int)
    requires Stands(buf, at, XdrNumber(k, n))
    ensures NumbersAt(buf, at, k, [n]) && |XdrNumber(k, n)| == Unit(k)
  {
    Units(k);
    NumberStands(true, buf, at, Unit(k), AsChar(k, n));
  }

  lemma {:induction false} XdrPairStands(buf: seq<Byte>, at: nat, p: Pair)
    requires Stands(buf, at, XdrPair(p))
    ensures XdrPairAt(buf, at, at + |XdrPair(p)|, p)
    decreases p
  {
    hide Stands, NumberAt, StringAt, XdrText, XdrValue, XdrValueAt, Word, SizePair, PairSize, Code;
    var a, b := Word(true, 4, SizePair(p)), Word(true, 4, PairSize(p));
    var c, d := Word(true, 4, Code(p.value)), Word(true, 4, Nelem(p.value));
    StandsBoth(buf, at, (a + b) + XdrText(p.name) + (c + d), XdrValue(p.value));
    StandsBoth(buf, at, (a + b) + XdrText(p.name), c + d);
    StandsBoth(buf, at, a + b, XdrText(p.name));
    StandsBoth(buf, at, a, b);
    var next := at + 8 + |XdrText(p.name)|;
    StandsBoth(buf, next, c, d);
    NumberStands(true, buf, at, 4, SizePair(p));
    NumberStands(true, buf, at + 4, 4, PairSize(p));
    StringStands(buf, at + 8, p.name);
    NumberStands(true, buf, next, 4, Code(p.value));
    NumberStands(true, buf, next + 4, 4, Nelem(p.value));
    XdrValueStands(buf, next + 8, p.value);
  }

  lemma {:induction false} XdrPairsStand(buf: seq<Byte>, at: nat, ps: seq<Pair>)
    requires Stands(buf, at, XdrPairs(ps))
    ensures XdrPairsAt(buf, at, at + |XdrPairs(ps)|, ps)
    decreases ps
  {
    hide Stands, ZerosAt, XdrPair, XdrPairAt;
    if ps == [] {
      ZerosStand(buf, at, 8);
    } else {
      StandsBoth(buf, at, XdrPair(ps[0]), XdrPairs(ps[1..]));
      XdrPairStands(buf, at, ps[0]);
      XdrPairsStand(buf, at + |XdrPair(ps[0])|, ps[1..]);
    }
  }

  /** The version, the flags and the pairs of a list, every field at its offset, at every level. */
  lemma {:induction false} XdrListStands(buf: seq<Byte>, at: nat, l: NvList)
    requires Stands(buf, at, XdrList(l))
    ensures XdrListAt(buf, at, at + |XdrList(l)|, l)
    decreases l
  {
    hide Stands, NumberAt, XdrPairs, XdrPairsAt, Word;
    StandsBoth(buf, at, Word(true, 4, 0) + Word(true, 4, l.flag), XdrPairs(l.pairs));
    StandsBoth(buf, at, Word(true, 4, 0), Word(true, 4, l.flag));
    NumberStands(true, buf, at, 4, 0);
    NumberStands(true, buf, at + 4, 4, l.flag);
    XdrPairsStand(buf, at + 8, l.pairs);
  }

  lemma {:induction false} XdrListsStand(buf: seq<Byte>, at: nat, ls: seq<NvList>)
    requires Stands(buf, at, XdrLists(ls))
    ensures XdrListsAt(buf, at, at + |XdrLists(ls)|, ls)
    decreases ls
  {
    hide Stands, XdrList, XdrListAt;
    if ls != [] {
      StandsBoth(buf, at, XdrList(ls[0]), XdrLists(ls[1..]));
      XdrListStands(buf, at, ls[0]);
      XdrListsStand(buf, at + |XdrList(ls[0])|, ls[1..]);
    }
  }

  /** The bytes written for a list: as many as is said, and everything in them where the format has it. */
  lemma {:induction false} XdrLayout(l: NvList)
    ensures |XdrList(l)| == 8 + WrittenPairs(l.pairs) && XdrListAt(XdrList(l), 0, |XdrList(l)|, l)
  {
    hide XdrList, XdrListAt, WrittenPairs;
    assert XdrList(l)[0..|XdrList(l)|] == XdrList(l);
    XdrListStands(XdrList(l), 0, l);
  }
}
