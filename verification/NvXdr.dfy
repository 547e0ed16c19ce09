/**
  * The sizes of the XDR encoding: the calculated size of a pair, the bytes written for it, and the
  * decoder's test whether the decoded size that a pair carries is plausible.
  */
module NvXdr {
  import opened ByteOrder
  import opened NvData
  import opened NvNative

  function Align4(n: nat): nat { (n + 3) / 4 * 4 }

  // ---------- what is written, and what is calculated ----------

  function XdrTexts(ss: seq<seq<Byte>>): nat {
    if ss == [] then 0 else 4 + Align4(|ss[0]|) + XdrTexts(ss[1..])
  }

  /** The bytes nvs_xdr_nvp_op writes for a value; nothing when there are no elements. */
  function WrittenValue(v: Value): nat
    decreases v
  {
    match v
    case Flag => 0
    case Number(k, _) => if Width(k) == 8 then 8 else 4
    case Numbers(k, ns) => if ns == [] then 0 else SizeNumbers(k, |ns|)
    case Text(s) => 4 + Align4(|s|)
    case Texts(ss) => XdrTexts(ss)
    case Nested(l) => 8 + WrittenPairs(l.pairs)
    case NestedArray(ls) => WrittenLists(ls)
  }

  /** encode_size, decode_size, name, type and number of elements come before the value. */
  function WrittenPair(p: Pair): nat
    decreases p
  {
    20 + Align4(|p.name|) + WrittenValue(p.value)
  }

  /** The pairs and the two zeros that end them. */
  function WrittenPairs(ps: seq<Pair>): (n: nat)
    ensures n >= 8
    decreases ps
  {
    if ps == [] then 8 else WrittenPair(ps[0]) + WrittenPairs(ps[1..])
  }

  function WrittenLists(ls: seq<NvList>): nat
    decreases ls
  {
    if ls == [] then 0 else 8 + WrittenPairs(ls[0].pairs) + WrittenLists(ls[1..])
  }

  function SizeNumbers(k: Kind, n: nat): nat {
    if k.Octet? then Align4(n) else if Width(k) == 8 then 4 + 8 * n else 4 + 4 * n
  }

  /** nvs_xdr_nvp_size. */
  function SizeValue(v: Value): nat
    decreases v
  {
    match v
    case Flag => 0
    case Number(k, _) => if Width(k) == 8 then 8 else 4
    case Numbers(k, ns) => SizeNumbers(k, |ns|)
    case Text(s) => 4 + Align4(|s|)
    case Texts(ss) => XdrTexts(ss)
    case Nested(l) => 8 + SizePairs(l.pairs)
    case NestedArray(ls) => SizeLists(ls)
  }

  function SizePair(p: Pair): nat
    decreases p
  {
    20 + Align4(|p.name|) + SizeValue(p.value)
  }

  function SizePairs(ps: seq<Pair>): nat
    decreases ps
  {
    if ps == [] then 8 else SizePair(ps[0]) + SizePairs(ps[1..])
  }

  function SizeLists(ls: seq<NvList>): nat
    decreases ls
  {
    if ls == [] then 0 else 8 + SizePairs(ls[0].pairs) + SizeLists(ls[1..])
  }

  /** The arrays without elements whose count is calculated but not written, at every level. */
  function UncountedValue(v: Value): nat
    decreases v
  {
    match v
    case Numbers(k, ns) => if ns == [] && !k.Octet? then 1 else 0
    case Nested(l) => UncountedPairs(l.pairs)
    case NestedArray(ls) => UncountedLists(ls)
    case _ => 0
  }

  function UncountedPairs(ps: seq<Pair>): nat
    decreases ps
  {
    if ps == [] then 0 else UncountedValue(ps[0].value) + UncountedPairs(ps[1..])
  }

  function UncountedLists(ls: seq<NvList>): nat
    decreases ls
  {
    if ls == [] then 0 else UncountedPairs(ls[0].pairs) + UncountedLists(ls[1..])
  }

  /** The calculated size exceeds what is written by one word for each of those arrays, and by nothing else. */
  lemma {:induction false} SizeExact(ps: seq<Pair>)
    ensures SizePairs(ps) == WrittenPairs(ps) + 4 * UncountedPairs(ps)
    decreases ps
  {
    if ps != [] {
      SizeExactValue(ps[0].value);
      SizeExact(ps[1..]);
    }
  }

  lemma {:induction false} SizeExactValue(v: Value)
    ensures SizeValue(v) == WrittenValue(v) + 4 * UncountedValue(v)
    decreases v
  {
    match v
    case Nested(l) => SizeExact(l.pairs);
    case NestedArray(ls) => SizeExactLists(ls);
    case _ =>
  }

  lemma {:induction false} SizeExactLists(ls: seq<NvList>)
    ensures SizeLists(ls) == WrittenLists(ls) + 4 * UncountedLists(ls)
    decreases ls
  {
    if ls != [] {
      SizeExact(ls[0].pairs);
      SizeExactLists(ls[1..]);
    }
  }

  // ---------- the plausibility test ----------

  /** NVS_XDR_MAX_LEN. */
  function MaxLen(available: nat): nat {
    var data := if available <= 20 then 0 else available - 20;
    24 + data * 2 + Align4(data / 4)
  }

  /** The test nvs_xdr_nvpair makes after the first two words of a pair, when `after` bytes follow the pair. */
  predicate Plausible(p: Pair, after: nat) {
    PairSize(p) <= MaxLen(WrittenPair(p) - 8 + after)
  }

  /** The pairs the test refuses: no name, an array of empty strings, and little more than the end of the list behind
      it. */
  predicate Refused(p: Pair, after: nat) {
    && p.name == []
    && p.value.Texts? && 1 <= |p.value.ss| % 8 <= 4
    && (forall i :: 0 <= i < |p.value.ss| ==> p.value.ss[i] == [])
    && after <= 9
  }

  // ---------- bounds on values ----------

  lemma {:induction false} TextsBound(ss: seq<seq<Byte>>)
    ensures XdrTexts(ss) % 4 == 0 && XdrTexts(ss) >= 4 * |ss|
    ensures TextsSize(ss) <= |ss| + (XdrTexts(ss) - 4 * |ss|)
    ensures XdrTexts(ss) == 4 * |ss| <==> forall i :: 0 <= i < |ss| ==> ss[i] == []
    ensures XdrTexts(ss) == 4 * |ss| ==> TextsSize(ss) == |ss|
  {
    if ss != [] {
      TextsBound(ss[1..]);
      assert forall i :: 1 <= i < |ss| ==> ss[i] == ss[1..][i - 1];
    }
  }

  lemma {:induction false} ListsBound(ls: seq<NvList>)
    ensures WrittenLists(ls) >= 16 * |ls|
  {
    if ls != [] {
      ListsBound(ls[1..]);
    }
  }

  /** The value of any type but an array of strings fits, with its padding, into twice what is written for it. */
  lemma {:induction false} ValueBound(v: Value)
    requires !v.Texts?
    ensures Align8(ValueSize(v)) <= 2 * WrittenValue(v)
  {
    match v
    case NestedArray(ls) => ListsBound(ls);
    case _ =>
  }

  /** A pair with a name of `m` bytes and a value of `value` bytes is no larger than the estimate for `data` bytes. */
  predicate Fits(m: nat, value: nat, data: nat) {
    Align8(16 + m + 1) + Align8(value) <= 24 + 2 * data + Align4(data / 4)
  }

  /** The test, in terms of the part of the buffer it takes for data. */
  lemma {:induction false} PlausibleMeans(p: Pair, after: nat, data: nat)
    requires after >= 8 && data == Align4(|p.name|) + WrittenValue(p.value) + (after - 8)
    ensures Plausible(p, after) <==> Fits(|p.name|, ValueSize(p.value), data)
  {
  }

  /** What a name takes in a pair beyond the smallest pair is less than what is written for it. */
  lemma {:induction false} NameBound(n: nat)
    ensures n > 0 ==> Align8(16 + n + 1) + 7 <= 24 + 2 * Align4(n)
    ensures Align8(16 + n + 1) <= 24 + 2 * Align4(n)
  {
  }

  lemma {:induction false} AlignBounds(n: nat)
    ensures n <= Align4(n) <= n + 3 && n <= Align8(n) <= n + 7
  {
  }

  /** Alignment from a bound on both sides. */
  lemma {:induction false} Align8Is(n: nat, k: nat)
    requires 8 * k - 8 < n <= 8 * k
    ensures Align8(n) == 8 * k
  {
    assert 8 * k <= n + 7 < 8 * (k + 1);
    assert (n + 7) / 8 == k;
  }

  lemma {:induction false} Align4Is(n: nat, k: nat)
    requires 4 * k - 4 < n <= 4 * k
    ensures Align4(n) == 4 * k
  {
    assert 4 * k <= n + 3 < 4 * (k + 1);
    assert (n + 3) / 4 == k;
  }

  lemma {:induction false} AlignParts(q: nat, r: nat)
    requires r < 8
    ensures Align8(8 * q + r) == 8 * q + if r == 0 then 0 else 8
    ensures Align4(8 * q + r) == 8 * q + if r == 0 then 0 else if r <= 4 then 4 else 8
  {
    Align8Is(8 * q + r, if r == 0 then q else q + 1);
    Align4Is(8 * q + r, 2 * q + if r == 0 then 0 else if r <= 4 then 1 else 2);
  }

  /** `n` empty strings without a name. */
  lemma {:induction false} EmptyTextsFit(n: nat, more: nat)
    ensures Fits(0, 9 * n, 4 * n + more) <==> !(1 <= n % 8 <= 4 && more <= 1)
  {
    hide Align8, Align4;
    AlignParts(2, 1);
    Align8Shift(n, n);
    AlignParts(n / 8, n % 8);
    if more <= 3 {
      assert (4 * n + more) / 4 == n;
    } else {
      AlignBounds((4 * n + more) / 4);
    }
  }

  lemma {:induction false} Align8Shift(n: nat, k: nat)
    ensures Align8(8 * k + n) == 8 * k + Align8(n)
  {
  }

  /** `n` strings whose `y` bytes are written as four bytes each and `t` more, with a name or with some text. */
  lemma {:induction false} SomeTextsFit(m: nat, n: nat, t: nat, y: nat, more: nat)
    requires t % 4 == 0 && y <= n + t && (m > 0 || t > 0)
    ensures Fits(m, 8 * n + y, Align4(m) + (4 * n + t) + more)
  {
    hide Align8, Align4;
    var d := (Align4(m) + (4 * n + t) + more) / 4;
    AlignBounds(m);
    assert d >= n + t / 4;
    NameBound(m);
    AlignBounds(d);
    Align8Shift(y, n);
    AlignBounds(y);
    if m == 0 && t == 4 {
      SmallTexts(n, y, d);
    }
  }

  lemma {:induction false} SmallTexts(n: nat, y: nat, d: nat)
    requires y <= n + 4 && d >= n + 1
    ensures Align8(y) <= 8 + Align4(d)
  {
    hide Align8, Align4;
    var q, r := n / 8, n % 8;
    Align8Grows(y, n + 4);
    Align4Grows(n + 1, d);
    if r < 4 {
      AlignParts(q, r + 4);
      AlignParts(q, r + 1);
    } else if r < 7 {
      AlignParts(q + 1, r - 4);
      AlignParts(q, r + 1);
    } else {
      AlignParts(q + 1, 3);
      AlignParts(q + 1, 0);
    }
  }

  lemma {:induction false} Align4Grows(m: nat, n: nat)
    requires m <= n
    ensures Align4(m) <= Align4(n)
  {
  }

  lemma {:induction false} TextsPlausible(p: Pair, after: nat)
    requires p.value.Texts? && after >= 8
    ensures Plausible(p, after) <==> !Refused(p, after)
  {
    hide Plausible, Fits, XdrTexts, TextsSize;
    var ss := p.value.ss;
    var t := XdrTexts(ss) - 4 * |ss|;
    TextsBound(ss);
    PlausibleMeans(p, after, Align4(|p.name|) + (4 * |ss| + t) + (after - 8));
    if p.name == [] && t == 0 {
      EmptyTextsFit(|ss|, after - 8);
    } else {
      SomeTextsFit(|p.name|, |ss|, t, TextsSize(ss), after - 8);
    }
  }

  /** The test accepts a pair if and only if it is not one of those. */
  lemma {:induction false} PlausibleExactly(p: Pair, after: nat)
    requires after >= 8
    ensures Plausible(p, after) <==> !Refused(p, after)
  {
    if p.value.Texts? {
      TextsPlausible(p, after);
    } else {
      PlausibleMeans(p, after, Align4(|p.name|) + WrittenValue(p.value) + (after - 8));
      ValueBound(p.value);
      NameBound(|p.name|);
    }
  }

  // ---------- whole lists ----------

  /** The test on every pair, at every level, of pairs that are followed by `after` bytes behind their end. */
  predicate PlausiblePairs(ps: seq<Pair>, after: nat)
    decreases ps
  {
    ps != [] ==>
      var rest := WrittenPairs(ps[1..]) + after;
      Plausible(ps[0], rest) && PlausibleValue(ps[0].value, rest) && PlausiblePairs(ps[1..], after)
  }

  predicate PlausibleValue(v: Value, after: nat)
    decreases v
  {
    match v
    case Nested(l) => PlausiblePairs(l.pairs, after)
    case NestedArray(ls) => PlausibleLists(ls, after)
    case _ => true
  }

  predicate PlausibleLists(ls: seq<NvList>, after: nat)
    decreases ls
  {
    ls != [] ==> PlausiblePairs(ls[0].pairs, WrittenLists(ls[1..]) + after) && PlausibleLists(ls[1..], after)
  }

  /** Inside a list the end of the outer one follows, so nothing is refused. */
  lemma {:induction false} InnerPlausible(ps: seq<Pair>, after: nat)
    requires after >= 8
    ensures PlausiblePairs(ps, after)
    decreases ps
  {
    if ps != [] {
      var rest := WrittenPairs(ps[1..]) + after;
      PlausibleExactly(ps[0], rest);
      InnerPlausibleValue(ps[0].value, rest);
      InnerPlausible(ps[1..], after);
    }
  }

  lemma {:induction false} InnerPlausibleValue(v: Value, after: nat)
    requires after >= 8
    ensures PlausibleValue(v, after)
    decreases v
  {
    match v
    case Nested(l) => InnerPlausible(l.pairs, after);
    case NestedArray(ls) => InnerPlausibleLists(ls, after);
    case _ =>
  }

  lemma {:induction false} InnerPlausibleLists(ls: seq<NvList>, after: nat)
    requires after >= 8
    ensures PlausibleLists(ls, after)
    decreases ls
  {
    if ls != [] {
      InnerPlausible(ls[0].pairs, WrittenLists(ls[1..]) + after);
      InnerPlausibleLists(ls[1..], after);
    }
  }

  /** With `slack` bytes behind the end of the outermost list, the decoder accepts the sizes in the encoder's output
      if and only if it does not refuse the last pair of that list. */
  lemma {:induction false} ListPlausible(ps: seq<Pair>, slack: nat)
    ensures PlausiblePairs(ps, slack) <==> ps == [] || !Refused(ps[|ps| - 1], 8 + slack)
    decreases ps
  {
    if ps != [] {
      var rest := WrittenPairs(ps[1..]) + slack;
      PlausibleExactly(ps[0], rest);
      InnerPlausibleValue(ps[0].value, rest);
      ListPlausible(ps[1..], slack);
    }
  }

  /** In the buffer nvlist_pack returns, which has the calculated size, one uncounted array anywhere is slack enough. */
  lemma {:induction false} PackedPlausible(ps: seq<Pair>)
    ensures SizePairs(ps) == WrittenPairs(ps) + 4 * UncountedPairs(ps)
    ensures PlausiblePairs(ps, 4 * UncountedPairs(ps))
      <==> ps == [] || UncountedPairs(ps) > 0 || !Refused(ps[|ps| - 1], 8)
  {
    SizeExact(ps);
    ListPlausible(ps, 4 * UncountedPairs(ps));
  }

  /** With names that are not empty it always does. */
  lemma {:induction false} NamedPlausible(ps: seq<Pair>, slack: nat)
    requires forall i :: 0 <= i < |ps| ==> ps[i].name != []
    ensures PlausiblePairs(ps, slack)
  {
    ListPlausible(ps, slack);
  }

  /** Without a name it does not: one empty string, in the buffer of the program itself. */
  lemma {:induction false} UnnamedRefused()
    ensures var ps := [Pair([], Texts([[]]))]; UncountedPairs(ps) == 0 && !PlausiblePairs(ps, 0)
  {
    var ps := [Pair([], Texts([[]]))];
    assert ps[1..] == [];
    ListPlausible(ps, 0);
  }
}
