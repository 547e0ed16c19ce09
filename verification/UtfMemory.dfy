/**
  * The encoding forms by the bytes in memory, and conversions from bytes to bytes, on either kind of host.
  */
module UtfMemory {
  import opened ByteOrder
  import opened Errno
  import opened Utf
  import opened UtfConvert

  // ---------- UTF-16 ----------

  /** Section 2.1 of RFC 2781: the high ten bits of what is above U+FFFF, then the low ten bits. */
  lemma {:induction false} Surrogates(c: int)
    requires 0 <= c <= 0x10FFFF
    ensures c < 0x1_0000 ==> Halves(c) == [c]
    ensures 0x1_0000 <= c ==>
      && |Halves(c)| == 2 && 0xD800 <= Halves(c)[0] <= 0xDBFF && 0xDC00 <= Halves(c)[1] <= 0xDFFF
      && (Halves(c)[0] - 0xD800) * 0x400 + (Halves(c)[1] - 0xDC00) == c - 0x1_0000
  {
  }

  lemma {:induction false} Surrogate(hi: int, lo: int)
    requires 0xD800 <= hi <= 0xDBFF && 0xDC00 <= lo <= 0xDFFF
    ensures Joined(hi, lo) == 0x1_0000 + (hi - 0xD800) * 0x400 + (lo - 0xDC00)
  {
  }

  // ---------- bytes ----------

  /** A unit by its bytes, the highest first or the lowest first. */
  function UnitBytes(big: bool, form: Form, u: int): (r: seq<Byte>)
    ensures |r| == UnitSize(form)
  {
    if big then Reverse(Low(UnitSize(form), u)) else Low(UnitSize(form), u)
  }

  /** Units one after the other: in memory, if the order is that of the host. */
  function Serialised(big: bool, form: Form, s: seq<int>): seq<Byte> {
    if s == [] then [] else UnitBytes(big, form, s[0]) + Serialised(big, form, s[1..])
  }

  /** The byte orders the flags ask for. */
  predicate BigIn(host: bool, f: Flags) { f.inBig || (!f.inLittle && host) }

  predicate BigOut(host: bool, f: Flags) { f.outBig || (!f.outLittle && host) }

  lemma {:induction false} SwappedBytes(host: bool, form: Form, u: int)
    requires IsUnit(form, u)
    ensures UnitBytes(host, form, Swapped(form, u)) == UnitBytes(!host, form, u)
  {
    var bs := Low(UnitSize(form), u);
    if form.Utf8? {
      assert Reverse(bs) == bs;
    } else {
      LowSum(Reverse(bs));
      ReverseTwice(bs);
    }
  }

  lemma {:induction false} OrderedBytes(host: bool, native: bool, form: Form, s: seq<int>)
    requires AreUnits(form, s)
    ensures Serialised(host, form, Ordered(form, native, s)) == Serialised(host == native, form, s)
    decreases |s|
  {
    if s != [] {
      var r := Ordered(form, native, s);
      assert r[1..] == Ordered(form, native, s[1..]);
      assert IsUnit(form, s[0]);
      SwappedBytes(host, form, s[0]);
      OrderedBytes(host, native, form, s[1..]);
    }
  }

  /** What is saved is, in memory, in the order the output flags ask for; what is read, in that of the input flags. */
  lemma {:induction false} Orders(host: bool, f: Flags, form: Form, s: seq<int>)
    requires AreUnits(form, s) && !BadOrder(f)
    ensures Serialised(host, form, Ordered(form, NativeOut(host, f), s)) == Serialised(BigOut(host, f), form, s)
    ensures Serialised(host, form, Ordered(form, NativeIn(host, f), s)) == Serialised(BigIn(host, f), form, s)
  {
    OrderedBytes(host, NativeOut(host, f), form, s);
    OrderedBytes(host, NativeIn(host, f), form, s);
  }

  lemma {:induction false} UnitOnce(big: bool, form: Form, u: int, v: int)
    requires IsUnit(form, u) && IsUnit(form, v) && UnitBytes(big, form, u) == UnitBytes(big, form, v)
    ensures u == v
  {
    var a, b := Low(UnitSize(form), u), Low(UnitSize(form), v);
    ReverseTwice(a);
    ReverseTwice(b);
    UnitLimit(form, u);
    UnitLimit(form, v);
    SumLow(UnitSize(form), u);
    SumLow(UnitSize(form), v);
  }

  lemma {:induction false} SerialisedOnce(big: bool, form: Form, s: seq<int>, t: seq<int>)
    requires AreUnits(form, s) && AreUnits(form, t) && Serialised(big, form, s) == Serialised(big, form, t)
    ensures s == t
    decreases |s|
  {
    hide UnitBytes;
    if s != [] && t != [] {
      var a, b := Serialised(big, form, s), Serialised(big, form, t);
      var n := UnitSize(form);
      assert a[..n] == UnitBytes(big, form, s[0]) && b[..n] == UnitBytes(big, form, t[0]);
      assert a[n..] == Serialised(big, form, s[1..]) && b[n..] == Serialised(big, form, t[1..]);
      assert IsUnit(form, s[0]) && IsUnit(form, t[0]);
      UnitOnce(big, form, s[0], t[0]);
      SerialisedOnce(big, form, s[1..], t[1..]);
    }
  }

  /** The mark is U+FEFF in the byte order of what follows. */
  lemma {:induction false} MarkBytes(host: bool, native: bool, form: Form, s: seq<int>)
    requires !form.Utf8?
    ensures Serialised(host, form, Mark(form, native) + s)
      == UnitBytes(host == native, form, 0xFEFF) + Serialised(host, form, s)
  {
    hide Swapped, UnitBytes;
    assert (Mark(form, native) + s)[1..] == s;
    SwappedBytes(host, form, BOM);
  }

  /** The bytes asked for: the text in the byte order of the output flags, behind a mark in that order if there is
      one. */
  function Expected(to: Form, host: bool, f: Flags, emits: bool, cs: seq<int>): seq<Byte>
    requires Scalars(cs)
  {
    (if emits then UnitBytes(BigOut(host, f), to, 0xFEFF) else []) + Serialised(BigOut(host, f), to, WrittenAll(to, cs))
  }

  lemma {:induction false} OutputBytes(to: Form, host: bool, f: Flags, emits: bool, cs: seq<int>)
    requires !BadOrder(f) && Scalars(cs) && (emits ==> !to.Utf8?)
    ensures Serialised(host, to, Text(to, NativeOut(host, f), emits, cs)) == Expected(to, host, f, emits, cs)
  {
    hide Swapped, Serialised, UnitBytes, WrittenAll, Ordered;
    var native := NativeOut(host, f);
    Orders(host, f, to, WrittenAll(to, cs));
    var saved := Ordered(to, native, WrittenAll(to, cs));
    if emits {
      MarkBytes(host, native, to, saved);
    } else {
      assert [] + saved == saved;
      assert [] + Serialised(host, to, saved) == Serialised(host, to, saved);
    }
  }

  /** From bytes to bytes, whatever the byte order of the host: text in the byte order of the input flags. */
  lemma {:induction false} BytesToBytes(from: Form, to: Form, host: bool, f: Flags, cs: seq<int>, limit: nat,
                                        s: seq<int>, emits: bool) returns (out: seq<int>)
    requires !BadOrder(f) && Scalars(cs) && (!f.ignoreNull ==> 0 !in cs) && limit > |WrittenAll(to, cs)|
    requires AreUnits(from, s) && Serialised(host, from, s) == Serialised(BigIn(host, f), from, WrittenAll(from, cs))
    requires !LooksMarked(from, f, cs) && emits == (!to.Utf8? && f.emitBom && s != [])
    ensures Convert(from, to, host, f, s, limit) == Ok(Out(out, |s|))
    ensures Serialised(host, to, out) == Expected(to, host, f, emits, cs)
  {
    hide Convert, Serialised, WrittenAll, LooksMarked, Ordered, Expected;
    var native, units := NativeIn(host, f), WrittenAll(from, cs);
    Orders(host, f, from, units);
    OrderedTwice(from, native, units);
    SerialisedOnce(host, from, s, Ordered(from, native, units));
    assert s == Text(from, native, false, cs);
    TextExactly(from, to, host, f, cs, limit, s, emits);
    out := Text(to, NativeOut(host, f), emits, cs);
    OutputBytes(to, host, f, emits, cs);
  }

  /** The same for text behind a mark that is accepted: the mark decides the byte order, and the flags do not. */
  lemma {:induction false} MarkedToBytes(from: Form, to: Form, host: bool, big: bool, f: Flags, cs: seq<int>,
                                         limit: nat,
                                         s: seq<int>, emits: bool) returns (out: seq<int>)
    requires !BadOrder(f) && Scalars(cs) && (!f.ignoreNull ==> 0 !in cs) && limit > |WrittenAll(to, cs)|
    requires !from.Utf8? && f.acceptBom && AreUnits(from, s) && emits == (!to.Utf8? && f.emitBom)
    requires Serialised(host, from, s)
      == UnitBytes(big, from, 0xFEFF) + Serialised(big, from, WrittenAll(from, cs))
    ensures Convert(from, to, host, f, s, limit) == Ok(Out(out, |s|))
    ensures Serialised(host, to, out) == Expected(to, host, f, emits, cs)
  {
    hide Convert, Serialised, UnitBytes, WrittenAll, Ordered, Expected;
    var native, units := host == big, WrittenAll(from, cs);
    OrderedBytes(host, native, from, units);
    MarkBytes(host, native, from, Ordered(from, native, units));
    TextUnits(from, native, true, cs);
    SerialisedOnce(host, from, s, Text(from, native, true, cs));
    ConvertsMarked(from, to, host, f, native, true, cs, limit, s, emits);
    out := Text(to, NativeOut(host, f), emits, cs);
    OutputBytes(to, host, f, emits, cs);
  }
}
