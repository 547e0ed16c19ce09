/**
  * What a conversion between two encoding forms computes, with its flags, byte orders and byte
  * order marks; conversions undo each other, and a conversion in two steps is one conversion.
  */
module UtfConvert {
  import opened ByteOrder
  import opened Errno
  import opened Utf

  /** What is saved in the output buffer, and how much of the input is consumed. */
  datatype Out = Out(units: seq<int>, used: nat)

  function After(units: seq<int>, used: nat, r: Result<Out>): Result<Out> {
    match r
    case Err(e) => Err(e)
    case Ok(o) => Ok(Out(units + o.units, used + o.used))
  }

  /** The units for a code, if it is in the coding space; only UTF-32 input can hold one that is not. */
  function Write(form: Form, c: int): Result<seq<int>> {
    if 0 <= c <= 0x10FFFF then Ok(Written(form, c)) else Err(EILSEQ)
  }

  /** Convert units that are in the byte order of the host, into at most `room` units. */
  function Converted(from: Form, to: Form, stop: bool, s: seq<int>, room: nat): Result<Out>
    decreases |s|
  {
    if s == [] || (stop && s[0] == 0) then Ok(Out([], 0)) else
      match ReadOne(from, stop, s)
      case Stop(e) => Err(e)
      case Char(c, n) =>
        match Write(to, c)
        case Err(e) => Err(e)
        case Ok(us) =>
          if |us| > room then Err(E2BIG)
          else After(us, n, Converted(from, to, stop, s[n..], room - |us|))
  }

  // ---------- flags, byte orders and byte order marks ----------

  datatype Flags = Flags(
    inBig: bool, inLittle: bool, outBig: bool, outLittle: bool,
    ignoreNull: bool, acceptBom: bool, emitBom: bool)

  function UnitSize(form: Form): nat {
    match form
    case Utf8 => 1
    case Utf16 => 2
    case Utf32 => 4
  }

  /** BSWAP_16 and BSWAP_32. */
  function Swapped(form: Form, u: int): int {
    if form.Utf8? then u else Sum(Reverse(Low(UnitSize(form), u)))
  }

  lemma {:induction false} UnitLimit(form: Form, u: int)
    ensures IsUnit(form, u) <==> 0 <= u < Limit(UnitSize(form))
  {
    assert Limit(1) == 0x100 && Limit(2) == 0x1_0000 && Limit(3) == 0x100_0000 && Limit(4) == 0x1_0000_0000;
  }

  lemma {:induction false} SwappedTwice(form: Form, u: int)
    requires IsUnit(form, u)
    ensures IsUnit(form, Swapped(form, u)) && Swapped(form, Swapped(form, u)) == u
  {
    var bs := Low(UnitSize(form), u);
    UnitLimit(form, u);
    UnitLimit(form, Swapped(form, u));
    SumBound(Reverse(bs));
    LowSum(Reverse(bs));
    ReverseTwice(bs);
    SumLow(UnitSize(form), u);
  }

  lemma {:induction false} SwappedZero(form: Form, u: int)
    requires IsUnit(form, u)
    ensures Swapped(form, u) == 0 <==> u == 0
  {
    SwappedTwice(form, u);
    assert Low(1, 0) == [0] && Low(2, 0) == [0, 0] && Low(3, 0) == [0, 0, 0] && Low(4, 0) == [0, 0, 0, 0];
    assert Sum([0]) == 0 && Sum([0, 0]) == 0 && Sum([0, 0, 0]) == 0 && Sum([0, 0, 0, 0]) == 0;
    assert Reverse([0]) == [0] && Reverse([0, 0]) == [0, 0] && Reverse([0, 0, 0, 0]) == [0, 0, 0, 0];
  }

  /** Units as the host sees them, or as it writes them. */
  function Ordered(form: Form, native: bool, s: seq<int>): (r: seq<int>)
    ensures |r| == |s| && (native ==> r == s)
  {
    if native then s else seq(|s|, i requires 0 <= i < |s| => Swapped(form, s[i]))
  }

  /** check_endian: both is an error, neither means the byte order of the host. */
  predicate BadOrder(f: Flags) { (f.inBig && f.inLittle) || (f.outBig && f.outLittle) }

  predicate NativeIn(host: bool, f: Flags) { if f.inBig then host else f.inLittle ==> !host }

  predicate NativeOut(host: bool, f: Flags) { if f.outBig then host else f.outLittle ==> !host }

  const BOM := 0xFEFF

  /** check_bom16 and check_bom32; there is none in UTF-8. */
  predicate HasBom(from: Form, f: Flags, s: seq<int>) {
    !from.Utf8? && f.acceptBom && s != [] && (s[0] == BOM || s[0] == Swapped(from, BOM))
  }

  function Mark(to: Form, native: bool): seq<int> {
    if native then [BOM] else [Swapped(to, BOM)]
  }

  /** The mark in front of the output, its units in their byte order; the input's mark counts as consumed. */
  function Finished(mark: seq<int>, to: Form, native: bool, skip: nat, r: Result<Out>): Result<Out> {
    match r
    case Err(e) => Err(e)
    case Ok(o) => Ok(Out(mark + Ordered(to, native, o.units), skip + o.used))
  }

  function InputMark(from: Form, f: Flags, s: seq<int>): (skip: nat)
    ensures skip <= |s|
  {
    if HasBom(from, f, s) then 1 else 0
  }

  predicate InputNative(from: Form, host: bool, f: Flags, s: seq<int>) {
    if HasBom(from, f, s) then s[0] == BOM else NativeIn(host, f)
  }

  function OutputMark(to: Form, host: bool, f: Flags, s: seq<int>, limit: nat): (mark: seq<int>)
    ensures |mark| <= limit
  {
    if !to.Utf8? && f.emitBom && s != [] && limit > 0 then Mark(to, NativeOut(host, f)) else []
  }

  /** A whole conversion; `host` says whether the host is big endian. */
  function Convert(from: Form, to: Form, host: bool, f: Flags, s: seq<int>, limit: nat): Result<Out> {
    if BadOrder(f) then Err(EBADF) else
      var skip, mark := InputMark(from, f, s), OutputMark(to, host, f, s, limit);
      var units := Ordered(from, InputNative(from, host, f, s), s[skip..]);
      Finished(mark, to, NativeOut(host, f), skip, Converted(from, to, !f.ignoreNull, units, limit - |mark|))
  }

  lemma {:induction false} ConvertedUnits(from: Form, to: Form, stop: bool, s: seq<int>, room: nat)
    ensures var r := Converted(from, to, stop, s, room);
      r.Ok? ==> AreUnits(to, r.value.units) && |r.value.units| <= room && r.value.used <= |s|
    decreases |s|
  {
    hide Written, ReadOne, Swapped;
    if s != [] && !(stop && s[0] == 0) {
      var r := ReadOne(from, stop, s);
      if r.Char? && 0 <= r.code <= 0x10FFFF && |Written(to, r.code)| <= room {
        ConvertedUnits(from, to, stop, s[r.size..], room - |Written(to, r.code)|);
      }
    }
  }

  // ---------- conversion of well-formed text ----------

  predicate Scalars(cs: seq<int>) {
    forall i :: 0 <= i < |cs| ==> IsScalar(cs[i])
  }

  lemma {:induction false} ConvertedStep(from: Form, to: Form, stop: bool, s: seq<int>, room: nat, c: int, n: nat)
    requires s != [] && !(stop && s[0] == 0) && ReadOne(from, stop, s) == Char(c, n)
    requires 0 <= c <= 0x10FFFF && |Written(to, c)| <= room
    ensures Converted(from, to, stop, s, room)
      == After(Written(to, c), n, Converted(from, to, stop, s[n..], room - |Written(to, c)|))
  {
  }

  /** One character in front of text that is converted. */
  lemma {:induction false} TextStep(from: Form, to: Form, stop: bool, c: int, first: seq<int>, rest: seq<int>,
                                    us: seq<int>, out: seq<int>, room: nat)
    requires IsScalar(c) && first == Written(from, c) && us == Written(to, c) && |us| <= room && (stop ==> c != 0)
    requires Converted(from, to, stop, rest, room - |us|) == Ok(Out(out, |rest|))
    ensures Converted(from, to, stop, first + rest, room) == Ok(Out(us + out, |first + rest|))
  {
    var s := first + rest;
    ReadBack(from, stop, c, rest);
    FirstUnit(from, c);
    assert s[0] == first[0] && s[|first|..] == rest;
    ConvertedStep(from, to, stop, s, room, c, |first|);
  }

  /** Text in one form becomes the same text in the other, and all of it is consumed. */
  lemma {:induction false} ConvertsText(from: Form, to: Form, stop: bool, cs: seq<int>, room: nat)
    requires Scalars(cs) && (stop ==> 0 !in cs) && room >= |WrittenAll(to, cs)|
    ensures Converted(from, to, stop, WrittenAll(from, cs), room) == Ok(Out(WrittenAll(to, cs), |WrittenAll(from, cs)|))
    decreases |cs|
  {
    hide Written, ReadOne, Swapped;
    if cs != [] {
      var c, us := cs[0], Written(to, cs[0]);
      assert c in cs;
      ConvertsText(from, to, stop, cs[1..], room - |us|);
      TextStep(from, to, stop, c, Written(from, c), WrittenAll(from, cs[1..]), us, WrittenAll(to, cs[1..]), room);
    }
  }

  /** The characters `cs` stand at the beginning of `s`, and `o` is what they are converted to. */
  ghost predicate IsText(from: Form, to: Form, stop: bool, s: seq<int>, o: Out, cs: seq<int>) {
    && Scalars(cs) && (stop ==> 0 !in cs)
    && o.units == WrittenAll(to, cs)
    && o.used <= |s| && s[..o.used] == WrittenAll(from, cs)
  }

  lemma {:induction false} TextGrows(from: Form, to: Form, stop: bool, s: seq<int>, o: Out, cs: seq<int>, c: int,
                                     n: nat)
    requires IsScalar(c) && n <= |s| && s[..n] == Written(from, c) && (stop ==> c != 0)
    requires IsText(from, to, stop, s[n..], o, cs)
    ensures IsText(from, to, stop, s, Out(Written(to, c) + o.units, n + o.used), [c] + cs)
  {
    assert ([c] + cs)[1..] == cs;
    assert s[..n + o.used] == s[..n] + s[n..][..o.used];
  }

  /** Whatever is accepted from UTF-8 or UTF-16 is text, and its conversion is what comes out. */
  lemma {:induction false} ReadsText(from: Form, to: Form, stop: bool, s: seq<int>, room: nat) returns (cs: seq<int>)
    requires !from.Utf32? && AreUnits(from, s) && Converted(from, to, stop, s, room).Ok?
    ensures IsText(from, to, stop, s, Converted(from, to, stop, s, room).value, cs)
    decreases |s|
  {
    hide Written, ReadOne, WrittenAll;
    if s == [] || (stop && s[0] == 0) {
      cs := [];
    } else {
      var c, n := FirstRead(from, to, stop, s, room);
      var rest := ReadsText(from, to, stop, s[n..], room - |Written(to, c)|);
      cs := [c] + rest;
      TextGrows(from, to, stop, s, Converted(from, to, stop, s[n..], room - |Written(to, c)|).value, rest, c, n);
    }
  }

  /** The first character of a string. */
  lemma {:induction false} FirstChar(from: Form, stop: bool, s: seq<int>) returns (c: int, n: nat)
    requires !from.Utf32? && AreUnits(from, s) && s != [] && !(stop && s[0] == 0) && ReadOne(from, stop, s).Char?
    ensures ReadOne(from, stop, s) == Char(c, n) && 1 <= n <= |s|
    ensures IsScalar(c) && s[..n] == Written(from, c) && (stop ==> c != 0)
  {
    var r := ReadOne(from, stop, s);
    ReadOnly(from, stop, s);
    c, n := r.code, r.size;
    FirstUnit(from, c);
    assert s[..n][0] == s[0];
  }

  lemma {:induction false} FirstRead(from: Form, to: Form, stop: bool, s: seq<int>, room: nat) returns (c: int, n: nat)
    requires !from.Utf32? && AreUnits(from, s) && s != [] && !(stop && s[0] == 0)
    requires Converted(from, to, stop, s, room).Ok?
    ensures IsScalar(c) && 1 <= n <= |s| && s[..n] == Written(from, c) && (stop ==> c != 0) && |Written(to, c)| <= room
    ensures Converted(from, to, stop, s, room)
      == After(Written(to, c), n, Converted(from, to, stop, s[n..], room - |Written(to, c)|))
  {
    c, n := FirstChar(from, stop, s);
    ConvertedStep(from, to, stop, s, room, c, n);
  }

  // ---------- through UTF-32 ----------

  /** The second step, from what the first one gave; what counts as consumed is what the first one consumed. */
  function Onward(first: Result<Out>, to: Form, stop: bool, room: nat): Result<Out> {
    match first
    case Err(e) => Err(e)
    case Ok(o) =>
      match Converted(Utf32, to, stop, o.units, room)
      case Err(e) => Err(e)
      case Ok(p) => Ok(Out(p.units, o.used))
  }

  function TwoSteps(from: Form, to: Form, stop: bool, s: seq<int>, room32: nat, room: nat): Result<Out> {
    Onward(Converted(from, Utf32, stop, s, room32), to, stop, room)
  }

  lemma {:induction false} OnwardStep(first: Result<Out>, to: Form, stop: bool, room: nat, c: int, n: nat, us: seq<int>)
    requires IsScalar(c) && (stop ==> c != 0) && us == Written(to, c) && |us| <= room
    ensures Onward(After([c], n, first), to, stop, room) == After(us, n, Onward(first, to, stop, room - |us|))
  {
    if first.Ok? {
      var units := first.value.units;
      assert ([c] + units)[1..] == units;
      ReadOneIs(Utf32, stop, [c] + units);
      ConvertedStep(Utf32, to, stop, [c] + units, room, c, 1);
    }
  }

  lemma {:induction false} TwoStepsStep(from: Form, to: Form, stop: bool, s: seq<int>, room32: nat, room: nat, c: int,
                                        n: nat)
    requires s != [] && !(stop && s[0] == 0) && ReadOne(from, stop, s) == Char(c, n)
    requires IsScalar(c) && (stop ==> c != 0) && 1 <= room32 && |Written(to, c)| <= room
    ensures TwoSteps(from, to, stop, s, room32, room)
      == After(Written(to, c), n, TwoSteps(from, to, stop, s[n..], room32 - 1, room - |Written(to, c)|))
  {
    hide ReadOne;
    assert Written(Utf32, c) == [c];
    ConvertedStep(from, Utf32, stop, s, room32, c, n);
    OnwardStep(Converted(from, Utf32, stop, s[n..], room32 - 1), to, stop, room, c, n, Written(to, c));
  }

  lemma {:induction false} TwoStepsEnd(from: Form, to: Form, stop: bool, s: seq<int>, room32: nat, room: nat)
    requires s == [] || (stop && s[0] == 0) || ReadOne(from, stop, s).Stop?
    ensures Converted(from, to, stop, s, room) == TwoSteps(from, to, stop, s, room32, room)
  {
  }

  /** With room enough the direct conversion does what the two steps do: the same error, or the same output and
      consumption. */
  lemma {:induction false} DirectIsTwoSteps(from: Form, to: Form, stop: bool, s: seq<int>, room32: nat, room: nat)
    requires !from.Utf32? && AreUnits(from, s) && room32 >= |s| && room >= 4 * |s|
    ensures Converted(from, to, stop, s, room) == TwoSteps(from, to, stop, s, room32, room)
    decreases |s|
  {
    hide Written, ReadOne, Converted, TwoSteps;
    if s == [] || (stop && s[0] == 0) || ReadOne(from, stop, s).Stop? {
      TwoStepsEnd(from, to, stop, s, room32, room);
    } else {
      var c, n := FirstChar(from, stop, s);
      ConvertedStep(from, to, stop, s, room, c, n);
      TwoStepsStep(from, to, stop, s, room32, room, c, n);
      DirectIsTwoSteps(from, to, stop, s[n..], room32 - 1, room - |Written(to, c)|);
    }
  }

  // ---------- byte orders and byte order marks ----------

  lemma {:induction false} OrderedTwice(form: Form, native: bool, s: seq<int>)
    requires AreUnits(form, s)
    ensures AreUnits(form, Ordered(form, native, s)) && Ordered(form, native, Ordered(form, native, s)) == s
  {
    forall i | 0 <= i < |s|
      ensures IsUnit(form, Swapped(form, s[i])) && Swapped(form, Swapped(form, s[i])) == s[i]
    {
      SwappedTwice(form, s[i]);
    }
  }

  /** Text in a byte order, with a byte order mark or without. */
  function Text(form: Form, native: bool, marked: bool, cs: seq<int>): (r: seq<int>)
    requires Scalars(cs) && (marked ==> !form.Utf8?)
  {
    (if marked then Mark(form, native) else []) + Ordered(form, native, WrittenAll(form, cs))
  }

  lemma {:induction false} SwappedBom(form: Form)
    requires !form.Utf8?
    ensures Swapped(form, BOM) == if form.Utf16? then 0xFFFE else 0xFFFE_0000
  {
    assert Low(1, 0) == [0] && Low(2, 0) == [0, 0] && Low(1, 0xFE) == [0xFE] && Low(2, 0xFE) == [0xFE, 0]
      && Low(3, 0xFE) == [0xFE, 0, 0];
    assert Low(2, BOM) == [0xFF, 0xFE] && Low(4, BOM) == [0xFF, 0xFE, 0, 0];
    assert Reverse([0xFF, 0xFE]) == [0xFE, 0xFF] && Reverse([0xFF, 0xFE, 0, 0]) == [0, 0, 0xFE, 0xFF];
    assert Sum([0xFF]) == 0xFF && Sum([0xFE, 0xFF]) == 0xFFFE && Sum([0, 0xFE, 0xFF]) == 0xFF_FE00;
    assert Sum([0, 0, 0xFE, 0xFF]) == 0xFFFE_0000;
  }

  lemma {:induction false} MarkUnits(form: Form, native: bool)
    requires !form.Utf8?
    ensures AreUnits(form, Mark(form, native)) && |Mark(form, native)| == 1
    ensures Mark(form, native)[0] == BOM <==> native
  {
    SwappedBom(form);
  }

  lemma {:induction false} TextUnits(form: Form, native: bool, marked: bool, cs: seq<int>)
    requires Scalars(cs) && (marked ==> !form.Utf8?)
    ensures AreUnits(form, Text(form, native, marked, cs))
    ensures |Text(form, native, marked, cs)| == (if marked then 1 else 0) + |WrittenAll(form, cs)|
  {
    OrderedTwice(form, native, WrittenAll(form, cs));
    if marked {
      MarkUnits(form, native);
    }
  }

  /** How a conversion finds the byte order of its input: a mark decides if it is accepted, otherwise the flags. */
  predicate Announced(form: Form, host: bool, f: Flags, native: bool, marked: bool, s: seq<int>) {
    if marked then f.acceptBom else !HasBom(form, f, s) && native == NativeIn(host, f)
  }

  /** A conversion of text gives the text in the byte order and with the mark that the flags ask for. */
  lemma {:induction false} ConvertsMarked(from: Form, to: Form, host: bool, f: Flags, native: bool, marked: bool,
                                          cs: seq<int>, limit: nat, s: seq<int>, emits: bool)
    requires !BadOrder(f) && Scalars(cs) && (!f.ignoreNull ==> 0 !in cs) && limit > |WrittenAll(to, cs)|
    requires (marked ==> !from.Utf8?) && s == Text(from, native, marked, cs)
    requires Announced(from, host, f, native, marked, s)
    requires emits == (!to.Utf8? && f.emitBom && s != [])
    ensures Convert(from, to, host, f, s, limit) == Ok(Out(Text(to, NativeOut(host, f), emits, cs), |s|))
  {
    hide Written, ReadOne, Swapped;
    var units := InputSeen(from, host, f, native, marked, cs, s);
    ConvertsSeen(from, to, host, f, cs, limit, s, units, WrittenAll(to, cs));
    OutputText(to, host, f, s, limit, emits, cs);
  }

  lemma {:induction false} ConvertsSeen(from: Form, to: Form, host: bool, f: Flags, cs: seq<int>, limit: nat,
                                        s: seq<int>, units: seq<int>, out: seq<int>)
    requires !BadOrder(f) && Scalars(cs) && (!f.ignoreNull ==> 0 !in cs) && limit > |out|
    requires units == WrittenAll(from, cs) && out == WrittenAll(to, cs)
    requires units == Ordered(from, InputNative(from, host, f, s), s[InputMark(from, f, s)..])
    ensures Convert(from, to, host, f, s, limit)
      == Finished(OutputMark(to, host, f, s, limit), to, NativeOut(host, f), InputMark(from, f, s),
                  Ok(Out(out, |units|)))
  {
    hide Written, ReadOne, Swapped;
    var mark := OutputMark(to, host, f, s, limit);
    ConvertsUnits(from, to, !f.ignoreNull, cs, limit - |mark|, units, out);
    ConvertIs(from, to, host, f, s, limit, units, mark, Ok(Out(out, |units|)));
  }

  lemma {:induction false} ConvertsUnits(from: Form, to: Form, stop: bool, cs: seq<int>, room: nat, units: seq<int>,
                                         out: seq<int>)
    requires Scalars(cs) && (stop ==> 0 !in cs) && room >= |out|
    requires units == WrittenAll(from, cs) && out == WrittenAll(to, cs)
    ensures Converted(from, to, stop, units, room) == Ok(Out(out, |units|))
  {
    ConvertsText(from, to, stop, cs, room);
  }

  lemma {:induction false} OutputText(to: Form, host: bool, f: Flags, s: seq<int>, limit: nat, emits: bool,
                                      cs: seq<int>)
    requires Scalars(cs) && limit > 0 && emits == (!to.Utf8? && f.emitBom && s != [])
    ensures Text(to, NativeOut(host, f), emits, cs)
      == OutputMark(to, host, f, s, limit) + Ordered(to, NativeOut(host, f), WrittenAll(to, cs))
  {
  }

  lemma {:induction false} ConvertIs(from: Form, to: Form, host: bool, f: Flags, s: seq<int>, limit: nat,
                                     units: seq<int>, mark: seq<int>, r: Result<Out>)
    requires !BadOrder(f) && mark == OutputMark(to, host, f, s, limit)
    requires units == Ordered(from, InputNative(from, host, f, s), s[InputMark(from, f, s)..])
    requires Converted(from, to, !f.ignoreNull, units, limit - |mark|) == r
    ensures Convert(from, to, host, f, s, limit) == Finished(mark, to, NativeOut(host, f), InputMark(from, f, s), r)
  {
    hide Converted, Ordered, OutputMark, InputMark, InputNative, Finished;
  }

  lemma {:induction false} InputSeen(form: Form, host: bool, f: Flags, native: bool, marked: bool, cs: seq<int>,
                                     s: seq<int>)
      returns (units: seq<int>)
    requires Scalars(cs) && (marked ==> !form.Utf8?) && s == Text(form, native, marked, cs)
    requires Announced(form, host, f, native, marked, s)
    ensures AreUnits(form, s) && |s| == InputMark(form, f, s) + |units|
    ensures units == WrittenAll(form, cs) == Ordered(form, InputNative(form, host, f, s), s[InputMark(form, f, s)..])
  {
    units := WrittenAll(form, cs);
    TextUnits(form, native, marked, cs);
    OrderedTwice(form, native, units);
    if marked {
      MarkUnits(form, native);
    }
    assert s[if marked then 1 else 0..] == Ordered(form, native, units);
  }

  /** Text without a mark whose first character is taken for one. */
  predicate LooksMarked(form: Form, f: Flags, cs: seq<int>) {
    !form.Utf8? && f.acceptBom && cs != [] && (cs[0] == 0xFEFF || (form.Utf16? && cs[0] == 0xFFFE))
  }

  lemma {:induction false} FirstWritten(form: Form, cs: seq<int>) returns (u: int)
    requires Scalars(cs) && cs != [] && !form.Utf8?
    ensures WrittenAll(form, cs) != [] && u == WrittenAll(form, cs)[0] && IsUnit(form, u)
    ensures u == BOM <==> cs[0] == 0xFEFF
    ensures u == (if form.Utf16? then 0xFFFE else 0xFFFE_0000) <==> form.Utf16? && cs[0] == 0xFFFE
  {
    assert cs[0] in cs;
    u := Written(form, cs[0])[0];
    assert WrittenAll(form, cs)[0] == u;
  }

  lemma {:induction false} TakenAsMark(form: Form, native: bool, f: Flags, cs: seq<int>)
    requires Scalars(cs)
    ensures HasBom(form, f, Text(form, native, false, cs)) <==> LooksMarked(form, f, cs)
  {
    var s := Text(form, native, false, cs);
    assert s == Ordered(form, native, WrittenAll(form, cs));
    if !form.Utf8? && cs != [] {
      hide Written, Swapped;
      var u := FirstWritten(form, cs);
      SwappedBom(form);
      SwappedTwice(form, u);
      SwappedTwice(form, BOM);
      assert s[0] == if native then u else Swapped(form, u);
    }
  }

  /** U+FEFF in front of text is the mark in front of text: where a mark is accepted it is dropped, whatever the byte
      order. */
  lemma {:induction false} LeadingMarkDropped(from: Form, to: Form, host: bool, f: Flags, native: bool, cs: seq<int>,
                                              limit: nat, s: seq<int>, emits: bool)
    requires !BadOrder(f) && f.acceptBom && !from.Utf8? && Scalars([BOM] + cs) && Scalars(cs)
    requires (!f.ignoreNull ==> 0 !in cs) && limit > |WrittenAll(to, cs)|
    requires s == Text(from, native, false, [BOM] + cs) && emits == (!to.Utf8? && f.emitBom)
    ensures Convert(from, to, host, f, s, limit) == Ok(Out(Text(to, NativeOut(host, f), emits, cs), |s|))
  {
    MarkedTwoWays(from, native, BOM, cs, s);
    ConvertsMarked(from, to, host, f, native, true, cs, limit, s, emits);
  }

  /** U+FFFE in front of UTF-16 text is a mark too, of the other byte order: what follows is read with its bytes
      swapped. */
  lemma {:induction false} MarkedTwoWays(form: Form, native: bool, c: int, cs: seq<int>, s: seq<int>)
    requires !form.Utf8? && Scalars([c] + cs) && Scalars(cs) && s == Text(form, native, false, [c] + cs)
    ensures c == BOM ==> s == Text(form, native, true, cs)
    ensures c == 0xFFFE && form.Utf16? ==> s == Mark(form, !native) + Ordered(form, native, WrittenAll(form, cs))
  {
    hide Swapped, Ordered, Mark;
    SwappedBom(form);
    SwappedTwice(form, BOM);
    if c == BOM || (c == 0xFFFE && form.Utf16?) {
      assert Written(form, c) == [c] && ([c] + cs)[1..] == cs;
      hide Written;
      OrderedFirst(form, native, c, WrittenAll(form, cs));
      assert s == Ordered(form, native, [c] + WrittenAll(form, cs));
    }
  }

  lemma {:induction false} OrderedFirst(form: Form, native: bool, u: int, s: seq<int>)
    ensures Ordered(form, native, [u] + s) == [if native then u else Swapped(form, u)] + Ordered(form, native, s)
    ensures Mark(form, native) == [if native then BOM else Swapped(form, BOM)]
    ensures Mark(form, !native) == [if native then Swapped(form, BOM) else BOM]
  {
    hide Swapped;
  }

  lemma {:induction false} Written32(cs: seq<int>)
    requires Scalars(cs)
    ensures WrittenAll(Utf32, cs) == cs
  {
    if cs != [] {
      assert cs[0] in cs && Written(Utf32, cs[0]) == [cs[0]];
      Written32(cs[1..]);
    }
  }

  /** Different texts are written differently. */
  lemma {:induction false} WrittenOnce(form: Form, cs: seq<int>, ds: seq<int>)
    requires Scalars(cs) && Scalars(ds) && WrittenAll(form, cs) == WrittenAll(form, ds)
    ensures cs == ds
  {
    hide Converted, Written;
    Written32(cs);
    Written32(ds);
    ConvertsText(form, Utf32, false, cs, |cs| + |ds|);
    ConvertsText(form, Utf32, false, ds, |cs| + |ds|);
  }

  /** Fewer units are not converted to the same text. */
  lemma {:induction false} MarkedFails(from: Form, to: Form, stop: bool, units: seq<int>, room: nat, cs: seq<int>)
    requires !from.Utf32? && Scalars(cs) && AreUnits(from, units) && |units| < |WrittenAll(from, cs)|
    ensures Converted(from, to, stop, units, room) != Ok(Out(WrittenAll(to, cs), |units|))
  {
    hide Written, ReadOne;
    if Converted(from, to, stop, units, room) == Ok(Out(WrittenAll(to, cs), |units|)) {
      var ds := ReadsText(from, to, stop, units, room);
      assert units[..|units|] == units;
      WrittenOnce(to, cs, ds);
      assert false;
    }
  }

  lemma {:induction false} MarkLost32(to: Form, host: bool, f: Flags, cs: seq<int>, limit: nat, s: seq<int>,
                                      emits: bool)
    requires !BadOrder(f) && Scalars(cs) && (!f.ignoreNull ==> 0 !in cs) && limit > |WrittenAll(to, cs)|
    requires s == Text(Utf32, NativeIn(host, f), false, cs) && emits == (!to.Utf8? && f.emitBom)
    requires LooksMarked(Utf32, f, cs)
    ensures Convert(Utf32, to, host, f, s, limit) != Ok(Out(Text(to, NativeOut(host, f), emits, cs), |s|))
  {
    hide Convert, Text;
    assert WrittenAll(to, cs) == Written(to, cs[0]) + WrittenAll(to, cs[1..]);
    assert cs == [BOM] + cs[1..];
    LeadingMarkDropped(Utf32, to, host, f, NativeIn(host, f), cs[1..], limit, s, emits);
    TextUnits(to, NativeOut(host, f), emits, cs);
    TextUnits(to, NativeOut(host, f), emits, cs[1..]);
  }

  lemma {:induction false} OneLess(host: bool, f: Flags, cs: seq<int>, s: seq<int>) returns (units: seq<int>)
    requires Scalars(cs) && s == Text(Utf16, NativeIn(host, f), false, cs) && LooksMarked(Utf16, f, cs)
    ensures InputMark(Utf16, f, s) == 1 && |units| == |s| - 1 < |WrittenAll(Utf16, cs)| && AreUnits(Utf16, units)
    ensures units == Ordered(Utf16, InputNative(Utf16, host, f, s), s[1..])
  {
    hide Written, Swapped, LooksMarked, InputNative;
    TakenAsMark(Utf16, NativeIn(host, f), f, cs);
    TextUnits(Utf16, NativeIn(host, f), false, cs);
    units := Ordered(Utf16, InputNative(Utf16, host, f, s), s[1..]);
    OrderedTwice(Utf16, InputNative(Utf16, host, f, s), s[1..]);
  }

  lemma {:induction false} MarkLost16(to: Form, host: bool, f: Flags, cs: seq<int>, limit: nat, s: seq<int>,
                                      emits: bool)
    requires !BadOrder(f) && Scalars(cs) && (!f.ignoreNull ==> 0 !in cs) && limit > |WrittenAll(to, cs)|
    requires s == Text(Utf16, NativeIn(host, f), false, cs) && emits == (!to.Utf8? && f.emitBom && s != [])
    requires LooksMarked(Utf16, f, cs)
    ensures Convert(Utf16, to, host, f, s, limit) != Ok(Out(Text(to, NativeOut(host, f), emits, cs), |s|))
  {
    hide Written, ReadOne, Swapped, Converted, LooksMarked, Convert, Text, InputNative, InputMark, OutputMark, Ordered;
    var units := OneLess(host, f, cs, s);
    var mark := OutputMark(to, host, f, s, limit);
    var r := Converted(Utf16, to, !f.ignoreNull, units, limit - |mark|);
    ConvertIs(Utf16, to, host, f, s, limit, units, mark, r);
    MarkedFails(Utf16, to, !f.ignoreNull, units, limit - |mark|, cs);
    ConvertedUnits(Utf16, to, !f.ignoreNull, units, limit - |mark|);
    OutputText(to, host, f, s, limit, emits, cs);
    if r.Ok? {
      FinishedOnce(mark, to, NativeOut(host, f), r.value, WrittenAll(to, cs));
    }
  }

  lemma {:induction false} FinishedOnce(mark: seq<int>, to: Form, native: bool, o: Out, out: seq<int>)
    requires AreUnits(to, o.units) && AreUnits(to, out)
    ensures mark + Ordered(to, native, o.units) == mark + Ordered(to, native, out) ==> o.units == out
  {
    var a, b := Ordered(to, native, o.units), Ordered(to, native, out);
    OrderedTwice(to, native, o.units);
    OrderedTwice(to, native, out);
    if mark + a == mark + b {
      assert (mark + a)[|mark|..] == a && (mark + b)[|mark|..] == b;
    }
  }

  /** Text without a mark is converted to the text, exactly unless its first character is taken for a mark. */
  lemma {:induction false} TextExactly(from: Form, to: Form, host: bool, f: Flags, cs: seq<int>, limit: nat,
                                       s: seq<int>,
                                       emits: bool)
    requires !BadOrder(f) && Scalars(cs) && (!f.ignoreNull ==> 0 !in cs) && limit > |WrittenAll(to, cs)|
    requires s == Text(from, NativeIn(host, f), false, cs) && emits == (!to.Utf8? && f.emitBom && s != [])
    ensures Convert(from, to, host, f, s, limit) == Ok(Out(Text(to, NativeOut(host, f), emits, cs), |s|))
      <==> !LooksMarked(from, f, cs)
  {
    hide Convert;
    if LooksMarked(from, f, cs) {
      if from.Utf16? {
        MarkLost16(to, host, f, cs, limit, s, emits);
      } else {
        MarkLost32(to, host, f, cs, limit, s, emits);
      }
    } else {
      TakenAsMark(from, NativeIn(host, f), f, cs);
      ConvertsMarked(from, to, host, f, NativeIn(host, f), false, cs, limit, s, emits);
    }
  }

  /** There and back again: any two forms, any byte orders, with nulls if they are ignored both ways.  A mark that is
      emitted on the way and accepted on the way back overrides the input byte order given for the way back. */
  lemma {:induction false} RoundTrip(from: Form, to: Form, host: bool, there: Flags, back: Flags, cs: seq<int>,
                                     s: seq<int>, t: seq<int>, limit: nat)
    requires !BadOrder(there) && !BadOrder(back) && Scalars(cs)
    requires !there.ignoreNull || !back.ignoreNull ==> 0 !in cs
    requires s == Text(from, NativeIn(host, there), false, cs) && !LooksMarked(from, there, cs)
    requires t == Text(to, NativeOut(host, there), there.emitBom && !to.Utf8? && s != [], cs)
    requires there.emitBom && !to.Utf8? && s != [] ==> back.acceptBom
    requires !(there.emitBom && !to.Utf8? && s != []) ==>
      !LooksMarked(to, back, cs) && NativeOut(host, there) == NativeIn(host, back)
    requires !back.emitBom && limit > 4 * |cs|
    ensures Convert(from, to, host, there, s, limit) == Ok(Out(t, |s|))
    ensures Convert(to, from, host, back, t, limit) == Ok(Out(Text(from, NativeOut(host, back), false, cs), |t|))
  {
    hide HasBom;
    var emits := there.emitBom && !to.Utf8? && s != [];
    TakenAsMark(from, NativeIn(host, there), there, cs);
    TakenAsMark(to, NativeOut(host, there), back, cs);
    ConvertsMarked(from, to, host, there, NativeIn(host, there), false, cs, limit, s, emits);
    ConvertsMarked(to, from, host, back, NativeOut(host, there), emits, cs, limit, t, false);
  }

  // ---------- whole conversions through UTF-32 ----------

  /** To UTF-32 in the byte order of the host, without a mark; and on from there. */
  function InFlags(f: Flags): Flags {
    f.(outBig := false, outLittle := false, emitBom := false)
  }

  function OutFlags(f: Flags): Flags {
    f.(inBig := false, inLittle := false, acceptBom := false)
  }

  function ConvertOnward(first: Result<Out>, to: Form, host: bool, f: Flags, limit: nat): Result<Out> {
    match first
    case Err(e) => Err(e)
    case Ok(o) =>
      match Convert(Utf32, to, host, OutFlags(f), o.units, limit)
      case Err(e) => Err(e)
      case Ok(p) => Ok(Out(p.units, o.used))
  }

  lemma {:induction false} OnwardFinished(first: Result<Out>, to: Form, host: bool, f: Flags, limit: nat, skip: nat,
                                          mark: seq<int>)
    requires !BadOrder(f) && (first.Ok? ==> mark == OutputMark(to, host, f, first.value.units, limit))
    requires |mark| <= limit
    ensures ConvertOnward(Finished([], Utf32, true, skip, first), to, host, f, limit)
      == Finished(mark, to, NativeOut(host, f), skip, Onward(first, to, !f.ignoreNull, limit - |mark|))
  {
    hide Written, ReadOne, Swapped, Converted;
    if first.Ok? {
      var middle := first.value.units;
      assert middle[0..] == middle && [] + middle == middle;
      ConvertIs(Utf32, to, host, OutFlags(f), middle, limit, middle, mark,
                Converted(Utf32, to, !f.ignoreNull, middle, limit - |mark|));
    }
  }

  /** A conversion that comes to an end saves nothing only if there was nothing, or a NUL that ends the string. */
  lemma {:induction false} NothingSaved(from: Form, to: Form, stop: bool, s: seq<int>, room: nat)
    requires !from.Utf32? && AreUnits(from, s) && Converted(from, to, stop, s, room).Ok?
    ensures Converted(from, to, stop, s, room).value.units == [] <==> s == [] || (stop && s[0] == 0)
  {
    if s != [] && !(stop && s[0] == 0) {
      var c, n := FirstRead(from, to, stop, s, room);
    }
  }

  /** There is text behind the mark of the input. */
  predicate HasText(from: Form, f: Flags, s: seq<int>) {
    InputMark(from, f, s) < |s| && (f.ignoreNull || s[InputMark(from, f, s)] != 0)
  }

  /** What the units behind the mark say about it. */
  lemma {:induction false} HasTextUnits(from: Form, host: bool, f: Flags, s: seq<int>, units: seq<int>)
    requires AreUnits(from, s) && units == Ordered(from, InputNative(from, host, f, s), s[InputMark(from, f, s)..])
    ensures AreUnits(from, units)
    ensures HasText(from, f, s) <==> !(units == [] || (!f.ignoreNull && units[0] == 0))
  {
    var skip := InputMark(from, f, s);
    OrderedTwice(from, InputNative(from, host, f, s), s[skip..]);
    if skip < |s| {
      assert s[skip..][0] == s[skip] && IsUnit(from, s[skip]);
      SwappedZero(from, s[skip]);
    }
  }

  lemma {:induction false} NoText(from: Form, to: Form, stop: bool, units: seq<int>, room: nat)
    requires units == [] || (stop && units[0] == 0)
    ensures Converted(from, Utf32, stop, units, room) == Ok(Out([], 0))
    ensures forall n: nat :: Onward(Ok(Out([], 0)), to, stop, n) == Ok(Out([], 0))
  {
  }

  /** The first step, `first`, and the direct conversion in terms of it. */
  lemma {:induction false} DirectParts(from: Form, to: Form, host: bool, f: Flags, s: seq<int>, limit: nat,
                                       mark: seq<int>) returns (skip: nat, first: Result<Out>)
    requires !from.Utf32? && AreUnits(from, s) && limit > 4 * |s| && !BadOrder(f)
    requires mark == OutputMark(to, host, f, s, limit)
    ensures Convert(from, Utf32, host, InFlags(f), s, limit) == Finished([], Utf32, true, skip, first)
    ensures Convert(from, to, host, f, s, limit)
      == Finished(mark, to, NativeOut(host, f), skip, Onward(first, to, !f.ignoreNull, limit - |mark|))
    ensures HasText(from, f, s) ==> s != [] && (first.Ok? ==> first.value.units != [])
    ensures !HasText(from, f, s) ==> first == Ok(Out([], 0))
  {
    hide Converted, Onward, Swapped, Written, ReadOne, Ordered, Finished;
    var stop := !f.ignoreNull;
    skip := InputMark(from, f, s);
    var units := Ordered(from, InputNative(from, host, f, s), s[skip..]);
    HasTextUnits(from, host, f, s, units);
    DirectIsTwoSteps(from, to, stop, units, limit, limit - |mark|);
    first := Converted(from, Utf32, stop, units, limit);
    ConvertIs(from, Utf32, host, InFlags(f), s, limit, units, [], first);
    ConvertIs(from, to, host, f, s, limit, units, mark, Onward(first, to, stop, limit - |mark|));
    if !HasText(from, f, s) {
      NoText(from, to, stop, units, limit);
    } else if first.Ok? {
      NothingSaved(from, Utf32, stop, units, limit);
    }
  }

  /** A direct conversion from UTF-16 or UTF-8 gives what the two steps give, return code, output and consumed length,
      unless it emits a mark for an input without text: the second step has no input then, and emits none. */
  lemma {:induction false} DirectConvert(from: Form, to: Form, host: bool, f: Flags, s: seq<int>, limit: nat)
    requires !from.Utf32? && AreUnits(from, s) && limit > 4 * |s| && !BadOrder(f)
    ensures Convert(from, to, host, f, s, limit)
      == ConvertOnward(Convert(from, Utf32, host, InFlags(f), s, limit), to, host, f, limit)
      <==> to.Utf8? || !f.emitBom || s == [] || HasText(from, f, s)
  {
    hide Convert, ConvertOnward, Swapped, HasText, Converted;
    var mark := OutputMark(to, host, f, s, limit);
    var skip, first := DirectParts(from, to, host, f, s, limit, mark);
    var mark2 := if first.Ok? then OutputMark(to, host, f, first.value.units, limit) else mark;
    OnwardFinished(first, to, host, f, limit, skip, mark2);
    if !HasText(from, f, s) {
      NoText(from, to, !f.ignoreNull, [], limit);
      assert Onward(first, to, !f.ignoreNull, limit) == Onward(first, to, !f.ignoreNull, limit - |mark|)
        == Ok(Out([], 0));
      assert Ordered(to, NativeOut(host, f), []) == [] && mark + [] == mark && mark2 == [];
    } else {
      assert mark == mark2;
    }
  }

  /** A string that a NUL ends at once: uconv_u8tou16 emits a mark, and the two steps emit none. */
  lemma {:induction false} MarkWithoutText(host: bool, limit: nat)
    requires limit > 4
    ensures var f := Flags(false, false, false, false, false, false, true);
      && Convert(Utf8, Utf16, host, f, [0], limit) == Ok(Out([BOM], 0))
      && ConvertOnward(Convert(Utf8, Utf32, host, InFlags(f), [0], limit), Utf16, host, f, limit) == Ok(Out([], 0))
  {
    var f := Flags(false, false, false, false, false, false, true);
    assert [0][0..] == [0] && [BOM] + [] == [BOM];
    NoText(Utf8, Utf16, true, [0], limit);
  }
}
