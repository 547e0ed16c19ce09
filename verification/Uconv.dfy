/**
  * The six converters as the program runs them: loops over an input and an output position.
  */
module Uconv {
  import opened Errno
  import opened Utf
  import opened UtfConvert

  /** What a conversion reports: the units consumed and the units saved. */
  datatype Lens = Lens(used: nat, saved: nat)

  /** A run agrees with the conversion: the same error, or the same units in the buffer and the same lengths. */
  ghost predicate Agrees(c: Result<Out>, r: Result<Lens>, buf: seq<int>) {
    match r
    case Err(e) => c == Err(e)
    case Ok(l) => l.saved <= |buf| && c == Ok(Out(buf[..l.saved], l.used))
  }

  // ---------- how far a loop has come ----------

  /** The first `i` units have become `w`, and the rest is still to be converted. */
  ghost predicate Progress(from: Form, to: Form, stop: bool, s: seq<int>, room: nat, i: nat, w: seq<int>) {
    && i <= |s| && |w| <= room
    && Converted(from, to, stop, s, room) == After(w, i, Converted(from, to, stop, s[i..], room - |w|))
  }

  lemma {:induction false} Begins(from: Form, to: Form, stop: bool, s: seq<int>, room: nat)
    ensures Progress(from, to, stop, s, room, 0, [])
  {
    assert s[0..] == s;
    var r := Converted(from, to, stop, s, room);
    if r.Ok? {
      assert [] + r.value.units == r.value.units;
    }
  }

  lemma {:induction false} GoesOn(from: Form, to: Form, stop: bool, s: seq<int>, room: nat, i: nat, w: seq<int>,
                                  c: int, n: nat, us: seq<int>)
    requires Progress(from, to, stop, s, room, i, w) && i < |s| && !(stop && s[i] == 0)
    requires ReadOne(from, stop, s[i..]) == Char(c, n) && 0 <= c <= 0x10FFFF && us == Written(to, c)
    requires |w| + |us| <= room
    ensures Progress(from, to, stop, s, room, i + n, w + us)
  {
    ConvertedStep(from, to, stop, s[i..], room - |w|, c, n);
    assert s[i..][n..] == s[i + n..];
    AfterTwice(w, i, us, n, Converted(from, to, stop, s[i + n..], room - |w| - |us|));
  }

  lemma {:induction false} AfterTwice(w: seq<int>, i: nat, us: seq<int>, n: nat, r: Result<Out>)
    ensures After(w, i, After(us, n, r)) == After(w + us, i + n, r)
  {
    if r.Ok? {
      assert w + (us + r.value.units) == w + us + r.value.units;
    }
  }

  lemma {:induction false} Fails(from: Form, to: Form, stop: bool, s: seq<int>, room: nat, i: nat, w: seq<int>,
                                 e: Error)
    requires Progress(from, to, stop, s, room, i, w) && i < |s| && !(stop && s[i] == 0)
    requires var r := ReadOne(from, stop, s[i..]);
      if r.Stop? then e == r.error
      else if !(0 <= r.code <= 0x10FFFF) then e == EILSEQ
      else e == E2BIG && |w| + |Written(to, r.code)| > room
    ensures Converted(from, to, stop, s, room) == Err(e)
  {
  }

  lemma {:induction false} Ends(from: Form, to: Form, stop: bool, s: seq<int>, room: nat, i: nat, w: seq<int>)
    requires Progress(from, to, stop, s, room, i, w) && (i == |s| || (stop && s[i] == 0))
    ensures Converted(from, to, stop, s, room) == Ok(Out(w, i))
  {
    assert w + [] == w;
  }

  lemma {:induction false} OrderedMore(form: Form, native: bool, a: seq<int>, b: seq<int>)
    ensures Ordered(form, native, a + b) == Ordered(form, native, a) + Ordered(form, native, b)
  {
    if !native {
      var r := Ordered(form, native, a) + Ordered(form, native, b);
      assert forall i :: 0 <= i < |a + b| ==> r[i] == Swapped(form, (a + b)[i]);
    }
  }

  // ---------- before the loop ----------

  /** What a conversion has to do: units in the byte order of the host, behind a mark of the output. */
  datatype Job = Job(from: Form, to: Form, stop: bool, native: bool, units: seq<int>, mark: seq<int>, room: nat)

  /** The job of a call. */
  ghost function JobOf(from: Form, to: Form, host: bool, f: Flags, s: seq<int>, limit: nat): Job {
    var mark := OutputMark(to, host, f, s, limit);
    var units := Ordered(from, InputNative(from, host, f, s), s[InputMark(from, f, s)..]);
    Job(from, to, !f.ignoreNull, NativeOut(host, f), units, mark, limit - |mark|)
  }

  ghost function Outcome(j: Job): Result<Out> {
    Converted(j.from, j.to, j.stop, j.units, j.room)
  }

  /** A loop agrees with its job. */
  ghost predicate Fulfils(j: Job, skip: nat, r: Result<Lens>, buf: seq<int>) {
    match r
    case Err(e) => Outcome(j) == Err(e)
    case Ok(l) =>
      l.saved <= |buf| && Finished(j.mark, j.to, j.native, skip, Outcome(j)) == Ok(Out(buf[..l.saved], l.used))
  }

  lemma {:induction false} JobDone(j: Job, from: Form, to: Form, host: bool, f: Flags, s: seq<int>, r: Result<Lens>,
                                   buf: seq<int>)
    requires !BadOrder(f) && j == JobOf(from, to, host, f, s, |buf|) && Fulfils(j, InputMark(from, f, s), r, buf)
    ensures Agrees(Convert(from, to, host, f, s, |buf|), r, buf)
  {
    ConvertIs(from, to, host, f, s, |buf|, j.units, j.mark, Outcome(j));
  }

  /** check_endian, the byte order mark of the input, the byte order mark of the output. */
  method Begin(from: Form, to: Form, host: bool, f: Flags, s: seq<int>, out: array<int>)
      returns (r: Result<Lens>, native: bool, ghost j: Job)
    modifies out
    ensures r.Err? <==> BadOrder(f)
    ensures r.Err? ==> r.error == EBADF
    ensures r.Ok? ==>
      && native == InputNative(from, host, f, s) && j == JobOf(from, to, host, f, s, out.Length)
      && r.value == Lens(InputMark(from, f, s), |j.mark|) && out[..r.value.saved] == j.mark
  {
    j := JobOf(from, to, host, f, s, out.Length);
    native := NativeIn(host, f);
    if (f.inBig && f.inLittle) || (f.outBig && f.outLittle) {
      return Err(EBADF), native, j;
    }
    var skip, saved := 0, 0;
    if !from.Utf8? && f.acceptBom && |s| > 0 {
      if s[0] == BOM {
        native, skip := true, 1;
      } else if s[0] == Swapped(from, BOM) {
        native, skip := false, 1;
      }
    }
    if !to.Utf8? && f.emitBom && |s| > 0 && out.Length > 0 {
      out[0] := if NativeOut(host, f) then BOM else Swapped(to, BOM);
      saved := 1;
    }
    r := Ok(Lens(skip, saved));
  }

  // ---------- one character out ----------

  /** What saving a character does to the part of the buffer in use. */
  ghost predicate Saved(form: Form, native: bool, before: seq<int>, after: seq<int>, saved: nat, c: int,
                        r: Result<nat>) {
    if !(0 <= c <= 0x10FFFF) then r == Err(EILSEQ)
    else if saved + |Written(form, c)| > |before| then r == Err(E2BIG)
    else
      && r == Ok(saved + |Written(form, c)|) && saved + |Written(form, c)| <= |after|
      && saved <= |before| && after[..r.value] == before[..saved] + Ordered(form, native, Written(form, c))
  }

  method Save32(out: array<int>, saved: nat, c: int, native: bool) returns (r: Result<nat>)
    requires saved <= out.Length && 0 <= c <= 0x10FFFF
    modifies out
    ensures Saved(Utf32, native, old(out[..]), out[..], saved, c, r)
  {
    if saved >= out.Length {
      return Err(E2BIG);
    }
    out[saved] := if native then c else Swapped(Utf32, c);
    r := Ok(saved + 1);
  }

  method Save16(out: array<int>, saved: nat, c: int, native: bool) returns (r: Result<nat>)
    requires saved <= out.Length && 0 <= c
    modifies out
    ensures Saved(Utf16, native, old(out[..]), out[..], saved, c, r)
  {
    if c > 0x10FFFF {
      return Err(EILSEQ);
    }
    if c >= 0x1_0000 {
      var lo, hi := (c - 0x1_0000) % 0x400 + 0xDC00, (c - 0x1_0000) / 0x400 + 0xD800;
      if saved + 1 >= out.Length {
        return Err(E2BIG);
      }
      out[saved] := if native then hi else Swapped(Utf16, hi);
      out[saved + 1] := if native then lo else Swapped(Utf16, lo);
      r := Ok(saved + 2);
    } else {
      if saved >= out.Length {
        return Err(E2BIG);
      }
      out[saved] := if native then c else Swapped(Utf16, c);
      r := Ok(saved + 1);
    }
  }

  method Save8(out: array<int>, saved: nat, c: int, ghost native: bool) returns (r: Result<nat>)
    requires saved <= out.Length && 0 <= c
    modifies out
    ensures Saved(Utf8, native, old(out[..]), out[..], saved, c, r)
  {
    if c > 0x10FFFF {
      return Err(EILSEQ);
    }
    var bytes := Masked8(c);
    if saved + (|bytes| - 1) >= out.Length {
      return Err(E2BIG);
    }
    Store(out, saved, bytes);
    NoOrder(native, bytes);
    r := Ok(saved + |bytes|);
  }

  /** The masks and shifts. */
  method Masked8(c: int) returns (bytes: seq<int>)
    requires 0 <= c <= 0x10FFFF
    ensures bytes == Written(Utf8, c)
  {
    if c > 0x7F {
      BytesShown(c);
    }
    if c <= 0x7F {
      bytes := [c];
    } else if c <= 0x7FF {
      bytes := [0xC0 + c / 64 % 32, 0x80 + c % 64];
    } else if c <= 0xFFFF {
      bytes := [0xE0 + c / 4096 % 16, 0x80 + c / 64 % 64, 0x80 + c % 64];
    } else {
      bytes := [0xF0 + c / 262144 % 8, 0x80 + c / 4096 % 64, 0x80 + c / 64 % 64, 0x80 + c % 64];
    }
  }

  method Store(out: array<int>, saved: nat, bytes: seq<int>)
    requires saved + |bytes| <= out.Length
    modifies out
    ensures out[..saved + |bytes|] == old(out[..saved]) + bytes
  {
    for k := 0 to |bytes|
      invariant out[..saved] == old(out[..saved]) && out[saved..saved + k] == bytes[..k]
    {
      out[saved + k] := bytes[k];
    }
  }

  lemma {:induction false} NoOrder(native: bool, bytes: seq<int>)
    ensures Ordered(Utf8, native, bytes) == bytes
  {
  }

  // ---------- one character in ----------

  /** A character of UTF-8, byte by byte; the code is put together as its bytes pass the tables. */
  method Collect(s: seq<int>, at: nat) returns (r: Read)
    requires at < |s|
    ensures r == ReadBytes(s[at..])
  {
    var rest := s[at..];
    var hi, i := rest[0], 1;
    if hi > 0x7F {
      var remaining: nat := Remaining(hi);
      if remaining == 0 {
        return Stop(EILSEQ);
      }
      var first := hi;
      hi := Masked(hi);
      while remaining > 0
        invariant 1 <= i <= |rest|
        invariant ReadBytes(rest) == ReadTails(rest, remaining, first, hi, i)
      {
        if i >= |rest| {
          return Stop(EINVAL);
        }
        var c := rest[i];
        if first != 0 {
          if c < MinSecond(first) || c > MaxSecond(first) {
            return Stop(EILSEQ);
          }
        } else if c < 0x80 || c > 0xBF {
          return Stop(EILSEQ);
        }
        first := 0;
        hi, i, remaining := hi * 64 + c % 64, i + 1, remaining - 1;
      }
    }
    r := Char(hi, i);
  }

  // ---------- the state of a conversion ----------

  /** The first `i` units are converted to `w`, and the buffer holds the mark and `w` in its first `saved` units. */
  ghost predicate Running(j: Job, buf: seq<int>, saved: nat, i: nat, w: seq<int>) {
    && Progress(j.from, j.to, j.stop, j.units, j.room, i, w)
    && |buf| == |j.mark| + j.room && saved == |j.mark| + |w| <= |buf| && i <= |j.units|
    && buf[..saved] == j.mark + Ordered(j.to, j.native, w)
  }

  lemma {:induction false} RunBegins(j: Job, buf: seq<int>, saved: nat)
    requires |buf| == |j.mark| + j.room && saved == |j.mark| && buf[..saved] == j.mark
    ensures Running(j, buf, saved, 0, [])
  {
    Begins(j.from, j.to, j.stop, j.units, j.room);
    assert j.mark + [] == j.mark;
  }

  /** The next character is read from the units at `i`. */
  ghost predicate Reading(j: Job, i: nat, r: Read) {
    i < |j.units| && !(j.stop && j.units[i] == 0) && ReadOne(j.from, j.stop, j.units[i..]) == r
  }

  /** In UTF-32 every unit is a character; in UTF-8 the units are bytes. */
  lemma {:induction false} Reads32(j: Job, i: nat, c: int)
    requires j.from.Utf32? && i < |j.units| && c == j.units[i] && !(j.stop && c == 0)
    ensures Reading(j, i, Char(c, 1))
  {
  }

  lemma {:induction false} Reads8(j: Job, i: nat, r: Read)
    requires j.from.Utf8? && i < |j.units| && !(j.stop && j.units[i] == 0) && AreUnits(Utf8, j.units)
    requires r == ReadBytes(j.units[i..])
    ensures Reading(j, i, r) && (r.Char? ==> 0 <= r.code <= 0x10FFFF && i + r.size <= |j.units|)
  {
    if r.Char? {
      BytesOnly(j.units[i..]);
    }
  }

  /** It is saved, or it cannot be. */
  lemma {:induction false} RunGoesOn(j: Job, buf: seq<int>, buf': seq<int>, saved: nat, i: nat, w: seq<int>,
                                     c: int, n: nat, r: Result<nat>)
      returns (w': seq<int>)
    requires Running(j, buf, saved, i, w) && Reading(j, i, Char(c, n)) && |buf'| == |buf|
    requires Saved(j.to, j.native, buf, buf', saved, c, r)
    ensures r.Ok? ==> Running(j, buf', r.value, i + n, w')
    ensures r.Err? ==> Outcome(j) == Err(r.error)
  {
    hide Progress, ReadOne, Written, Ordered, Converted;
    w' := w;
    if r.Ok? {
      var us := Written(j.to, c);
      w' := w + us;
      OrderedMore(j.to, j.native, w, us);
      GoesOn(j.from, j.to, j.stop, j.units, j.room, i, w, c, n, us);
      assert j.mark + Ordered(j.to, j.native, w) + Ordered(j.to, j.native, us) == j.mark + Ordered(j.to, j.native, w');
    } else {
      Fails(j.from, j.to, j.stop, j.units, j.room, i, w, r.error);
    }
  }

  lemma {:induction false} RunFails(j: Job, buf: seq<int>, saved: nat, i: nat, w: seq<int>, e: Error)
    requires Running(j, buf, saved, i, w) && Reading(j, i, Stop(e))
    ensures Outcome(j) == Err(e)
  {
    Fails(j.from, j.to, j.stop, j.units, j.room, i, w, e);
  }

  lemma {:induction false} RunEnds(j: Job, buf: seq<int>, saved: nat, i: nat, w: seq<int>, skip: nat)
    requires Running(j, buf, saved, i, w) && (i == |j.units| || (j.stop && j.units[i] == 0))
    ensures Outcome(j) == Ok(Out(w, i))
    ensures Finished(j.mark, j.to, j.native, skip, Outcome(j)) == Ok(Out(buf[..saved], skip + i))
  {
    Ends(j.from, j.to, j.stop, j.units, j.room, i, w);
  }

  /** The units of a job are those of the input behind its mark, as the host sees them. */
  ghost predicate Feeds(j: Job, s: seq<int>, skip: nat, native: bool) {
    skip <= |s| && AreUnits(j.from, s) && j.units == Ordered(j.from, native, s[skip..])
  }

  method UnitSeen(s: seq<int>, skip: nat, native: bool, i: nat, from: Form, ghost j: Job) returns (u: int)
    requires Feeds(j, s, skip, native) && skip <= i < |s| && j.from == from
    ensures i - skip < |j.units| && u == j.units[i - skip] && IsUnit(from, u) && (u == 0 <==> s[i] == 0)
  {
    assert s[skip..][i - skip] == s[i] && IsUnit(from, s[i]);
    SwappedTwice(from, s[i]);
    SwappedZero(from, s[i]);
    u := if native then s[i] else Swapped(from, s[i]);
  }

  /** What a loop may rely on when it starts. */
  ghost predicate Starts(j: Job, from: Form, to: Form, s: seq<int>, begin: Lens, native: bool, stop: bool,
                         buf: seq<int>, nativeOut: bool) {
    && j.from == from && j.to == to && j.stop == stop && j.native == nativeOut
    && Feeds(j, s, begin.used, native) && (from.Utf8? ==> begin.used == 0)
    && |buf| == |j.mark| + j.room && begin.saved == |j.mark| && buf[..begin.saved] == j.mark
  }

  // ---------- from UTF-8 ----------

  /** The loop over UTF-8. */
  method Loop8To32(s: seq<int>, begin: Lens, native: bool, stop: bool, out: array<int>, nativeOut: bool, ghost j: Job)
      returns (r: Result<Lens>)
    requires Starts(j, Utf8, Utf32, s, begin, native, stop, out[..], nativeOut)
    modifies out
    ensures Fulfils(j, begin.used, r, out[..])
  {
    hide Progress, Reading, Saved, Swapped;
    var i, saved := begin.used, begin.saved;
    ghost var w: seq<int> := [];
    RunBegins(j, out[..], saved);
    Bytewise(j, s, begin.used, native);
    while i < |s|
      invariant Running(j, out[..], saved, i, w)
    {
      if s[i] == 0 && stop {
        break;
      }
      var one := Collect(s, i);
      Reads8(j, i, one);
      if one.Stop? {
        RunFails(j, out[..], saved, i, w, one.error);
        return Err(one.error);
      }
      ghost var before := out[..];
      var c := one.code;
      var put := Save32(out, saved, c, nativeOut);
      w := RunGoesOn(j, before, out[..], saved, i, w, c, one.size, put);
      if put.Err? {
        return Err(put.error);
      }
      i, saved := i + one.size, put.value;
    }
    RunEnds(j, out[..], saved, i, w, 0);
    r := Ok(Lens(i, saved));
  }

  /** uconv_u8tou32. */
  method U8ToU32(host: bool, f: Flags, s: seq<int>, out: array<int>) returns (r: Result<Lens>)
    requires AreUnits(Utf8, s)
    modifies out
    ensures Agrees(Convert(Utf8, Utf32, host, f, s, out.Length), r, out[..])
  {
    var begin, native, j := Begin(Utf8, Utf32, host, f, s, out);
    if begin.Err? {
      return Err(begin.error);
    }
    r := Loop8To32(s, begin.value, native, !f.ignoreNull, out, NativeOut(host, f), j);
    JobDone(j, Utf8, Utf32, host, f, s, r, out[..]);
  }

  /** The loop over UTF-8. */
  method Loop8To16(s: seq<int>, begin: Lens, native: bool, stop: bool, out: array<int>, nativeOut: bool, ghost j: Job)
      returns (r: Result<Lens>)
    requires Starts(j, Utf8, Utf16, s, begin, native, stop, out[..], nativeOut)
    modifies out
    ensures Fulfils(j, begin.used, r, out[..])
  {
    hide Progress, Reading, Saved, Swapped;
    var i, saved := begin.used, begin.saved;
    ghost var w: seq<int> := [];
    RunBegins(j, out[..], saved);
    Bytewise(j, s, begin.used, native);
    while i < |s|
      invariant Running(j, out[..], saved, i, w)
    {
      if s[i] == 0 && stop {
        break;
      }
      var one := Collect(s, i);
      Reads8(j, i, one);
      if one.Stop? {
        RunFails(j, out[..], saved, i, w, one.error);
        return Err(one.error);
      }
      ghost var before := out[..];
      var c := one.code;
      var put := Save16(out, saved, c, nativeOut);
      w := RunGoesOn(j, before, out[..], saved, i, w, c, one.size, put);
      if put.Err? {
        return Err(put.error);
      }
      i, saved := i + one.size, put.value;
    }
    RunEnds(j, out[..], saved, i, w, 0);
    r := Ok(Lens(i, saved));
  }

  /** uconv_u8tou16. */
  method U8ToU16(host: bool, f: Flags, s: seq<int>, out: array<int>) returns (r: Result<Lens>)
    requires AreUnits(Utf8, s)
    modifies out
    ensures Agrees(Convert(Utf8, Utf16, host, f, s, out.Length), r, out[..])
  {
    var begin, native, j := Begin(Utf8, Utf16, host, f, s, out);
    if begin.Err? {
      return Err(begin.error);
    }
    r := Loop8To16(s, begin.value, native, !f.ignoreNull, out, NativeOut(host, f), j);
    JobDone(j, Utf8, Utf16, host, f, s, r, out[..]);
  }

  /** There is no byte order in UTF-8. */
  lemma {:induction false} Bytewise(j: Job, s: seq<int>, skip: nat, native: bool)
    requires j.from.Utf8? && Feeds(j, s, skip, native) && skip == 0
    ensures j.units == s
  {
  }

  // ---------- from UTF-32 ----------

  /** The loop over UTF-32. */
  method Loop32To16(s: seq<int>, begin: Lens, native: bool, stop: bool, out: array<int>, nativeOut: bool, ghost j: Job)
      returns (r: Result<Lens>)
    requires Starts(j, Utf32, Utf16, s, begin, native, stop, out[..], nativeOut)
    modifies out
    ensures Fulfils(j, begin.used, r, out[..])
  {
    hide Progress, Reading, Saved, Swapped;
    var i, saved := begin.used, begin.saved;
    ghost var w: seq<int>, k: nat := [], 0;
    RunBegins(j, out[..], saved);
    while i < |s|
      invariant begin.used <= i <= |s| && k == i - begin.used && Running(j, out[..], saved, k, w)
    {
      var c := UnitSeen(s, begin.used, native, i, Utf32, j);
      if s[i] == 0 && stop {
        break;
      }
      Reads32(j, k, c);
      ghost var before := out[..];
      var put := Save16(out, saved, c, nativeOut);
      w := RunGoesOn(j, before, out[..], saved, k, w, c, 1, put);
      if put.Err? {
        return Err(put.error);
      }
      i, saved, k := i + 1, put.value, k + 1;
    }
    RunEnds(j, out[..], saved, k, w, begin.used);
    r := Ok(Lens(i, saved));
  }

  /** uconv_u32tou16. */
  method U32ToU16(host: bool, f: Flags, s: seq<int>, out: array<int>) returns (r: Result<Lens>)
    requires AreUnits(Utf32, s)
    modifies out
    ensures Agrees(Convert(Utf32, Utf16, host, f, s, out.Length), r, out[..])
  {
    var begin, native, j := Begin(Utf32, Utf16, host, f, s, out);
    if begin.Err? {
      return Err(begin.error);
    }
    r := Loop32To16(s, begin.value, native, !f.ignoreNull, out, NativeOut(host, f), j);
    JobDone(j, Utf32, Utf16, host, f, s, r, out[..]);
  }

  /** The loop over UTF-32. */
  method Loop32To8(s: seq<int>, begin: Lens, native: bool, stop: bool, out: array<int>, nativeOut: bool, ghost j: Job)
      returns (r: Result<Lens>)
    requires Starts(j, Utf32, Utf8, s, begin, native, stop, out[..], nativeOut)
    modifies out
    ensures Fulfils(j, begin.used, r, out[..])
  {
    hide Progress, Reading, Saved, Swapped;
    var i, saved := begin.used, begin.saved;
    ghost var w: seq<int>, k: nat := [], 0;
    RunBegins(j, out[..], saved);
    while i < |s|
      invariant begin.used <= i <= |s| && k == i - begin.used && Running(j, out[..], saved, k, w)
    {
      var c := UnitSeen(s, begin.used, native, i, Utf32, j);
      if s[i] == 0 && stop {
        break;
      }
      Reads32(j, k, c);
      ghost var before := out[..];
      var put := Save8(out, saved, c, nativeOut);
      w := RunGoesOn(j, before, out[..], saved, k, w, c, 1, put);
      if put.Err? {
        return Err(put.error);
      }
      i, saved, k := i + 1, put.value, k + 1;
    }
    RunEnds(j, out[..], saved, k, w, begin.used);
    r := Ok(Lens(i, saved));
  }

  /** uconv_u32tou8. */
  method U32ToU8(host: bool, f: Flags, s: seq<int>, out: array<int>) returns (r: Result<Lens>)
    requires AreUnits(Utf32, s)
    modifies out
    ensures Agrees(Convert(Utf32, Utf8, host, f, s, out.Length), r, out[..])
  {
    var begin, native, j := Begin(Utf32, Utf8, host, f, s, out);
    if begin.Err? {
      return Err(begin.error);
    }
    r := Loop32To8(s, begin.value, native, !f.ignoreNull, out, NativeOut(host, f), j);
    JobDone(j, Utf32, Utf8, host, f, s, r, out[..]);
  }

  // ---------- from UTF-16 ----------

  /** What the loops over UTF-16 do with the next unit, when `hi` is a high surrogate that waits, or 0. */
  datatype Half = Wait(hi: int) | Got(code: int) | Bad

  function Step16(hi: int, lo: int): Half {
    if IsHigh(lo) then (if hi != 0 then Bad else Wait(lo))
    else if IsLow(lo) then (if hi == 0 then Bad else Got(Joined(hi, lo)))
    else if hi != 0 then Bad
    else Got(lo)
  }

  /** Where the reading is: a waiting surrogate has not been consumed yet. */
  ghost predicate Waiting(j: Job, here: nat, hi: int, k: nat) {
    here <= |j.units| && if hi == 0 then k == here else here >= 1 && k == here - 1 && j.units[k] == hi && IsHigh(hi)
  }

  lemma {:induction false} Step16Reads(j: Job, here: nat, hi: int, k: nat, lo: int)
    requires j.from.Utf16? && Waiting(j, here, hi, k) && here < |j.units| && lo == j.units[here] && !(j.stop && lo == 0)
    requires IsUnit(Utf16, lo)
    ensures var step := Step16(hi, lo);
      && (step.Wait? ==> hi == 0 && Waiting(j, here + 1, lo, k))
      && (step.Got? ==> 0 <= step.code <= 0x10FFFF && Reading(j, k, Char(step.code, if hi == 0 then 1 else 2)))
      && (step.Bad? ==> Reading(j, k, Stop(EILSEQ)))
  {
    var rest := j.units[k..];
    assert hi == 0 ==> rest[0] == lo;
    assert hi != 0 ==> rest[0] == hi && rest[1] == lo;
  }

  /** The input ends, or a NUL ends it, while a surrogate waits. */
  lemma {:induction false} CutShort(j: Job, here: nat, hi: int, k: nat)
    requires j.from.Utf16? && Waiting(j, here, hi, k) && hi != 0
    requires here == |j.units| || (j.stop && j.units[here] == 0)
    ensures Reading(j, k, Stop(EINVAL))
  {
    var rest := j.units[k..];
    assert rest[0] == hi;
    assert here < |j.units| ==> rest[1] == j.units[here];
  }

  /** The loop over UTF-16. */
  method Loop16To32(s: seq<int>, begin: Lens, native: bool, stop: bool, out: array<int>, nativeOut: bool, ghost j: Job)
      returns (r: Result<Lens>)
    requires Starts(j, Utf16, Utf32, s, begin, native, stop, out[..], nativeOut)
    modifies out
    ensures Fulfils(j, begin.used, r, out[..])
  {
    hide Progress, Reading, Saved, Swapped;
    var i, saved, hi := begin.used, begin.saved, 0;
    ghost var w: seq<int>, k: nat := [], 0;
    RunBegins(j, out[..], saved);
    while i < |s|
      invariant begin.used <= i <= |s| && Waiting(j, i - begin.used, hi, k) && Running(j, out[..], saved, k, w)
    {
      var lo := UnitSeen(s, begin.used, native, i, Utf16, j);
      if s[i] == 0 && stop {
        break;
      }
      Step16Reads(j, i - begin.used, hi, k, lo);
      match Step16(hi, lo) {
        case Bad =>
          RunFails(j, out[..], saved, k, w, EILSEQ);
          return Err(EILSEQ);
        case Wait(_) =>
          hi, i := lo, i + 1;
        case Got(c) =>
          ghost var before := out[..];
          var put := Save32(out, saved, c, nativeOut);
          w := RunGoesOn(j, before, out[..], saved, k, w, c, if hi == 0 then 1 else 2, put);
          if put.Err? {
            return Err(put.error);
          }
          hi, i, saved, k := 0, i + 1, put.value, i + 1 - begin.used;
      }
    }
    if hi != 0 {
      CutShort(j, i - begin.used, hi, k);
      RunFails(j, out[..], saved, k, w, EINVAL);
      return Err(EINVAL);
    }
    RunEnds(j, out[..], saved, k, w, begin.used);
    r := Ok(Lens(i, saved));
  }

  /** uconv_u16tou32. */
  method U16ToU32(host: bool, f: Flags, s: seq<int>, out: array<int>) returns (r: Result<Lens>)
    requires AreUnits(Utf16, s)
    modifies out
    ensures Agrees(Convert(Utf16, Utf32, host, f, s, out.Length), r, out[..])
  {
    var begin, native, j := Begin(Utf16, Utf32, host, f, s, out);
    if begin.Err? {
      return Err(begin.error);
    }
    r := Loop16To32(s, begin.value, native, !f.ignoreNull, out, NativeOut(host, f), j);
    JobDone(j, Utf16, Utf32, host, f, s, r, out[..]);
  }

  /** The loop over UTF-16. */
  method Loop16To8(s: seq<int>, begin: Lens, native: bool, stop: bool, out: array<int>, nativeOut: bool, ghost j: Job)
      returns (r: Result<Lens>)
    requires Starts(j, Utf16, Utf8, s, begin, native, stop, out[..], nativeOut)
    modifies out
    ensures Fulfils(j, begin.used, r, out[..])
  {
    hide Progress, Reading, Saved, Swapped;
    var i, saved, hi := begin.used, begin.saved, 0;
    ghost var w: seq<int>, k: nat := [], 0;
    RunBegins(j, out[..], saved);
    while i < |s|
      invariant begin.used <= i <= |s| && Waiting(j, i - begin.used, hi, k) && Running(j, out[..], saved, k, w)
    {
      var lo := UnitSeen(s, begin.used, native, i, Utf16, j);
      if s[i] == 0 && stop {
        break;
      }
      Step16Reads(j, i - begin.used, hi, k, lo);
      match Step16(hi, lo) {
        case Bad =>
          RunFails(j, out[..], saved, k, w, EILSEQ);
          return Err(EILSEQ);
        case Wait(_) =>
          hi, i := lo, i + 1;
        case Got(c) =>
          ghost var before := out[..];
          var put := Save8(out, saved, c, nativeOut);
          w := RunGoesOn(j, before, out[..], saved, k, w, c, if hi == 0 then 1 else 2, put);
          if put.Err? {
            return Err(put.error);
          }
          hi, i, saved, k := 0, i + 1, put.value, i + 1 - begin.used;
      }
    }
    if hi != 0 {
      CutShort(j, i - begin.used, hi, k);
      RunFails(j, out[..], saved, k, w, EINVAL);
      return Err(EINVAL);
    }
    RunEnds(j, out[..], saved, k, w, begin.used);
    r := Ok(Lens(i, saved));
  }

  /** uconv_u16tou8. */
  method U16ToU8(host: bool, f: Flags, s: seq<int>, out: array<int>) returns (r: Result<Lens>)
    requires AreUnits(Utf16, s)
    modifies out
    ensures Agrees(Convert(Utf16, Utf8, host, f, s, out.Length), r, out[..])
  {
    var begin, native, j := Begin(Utf16, Utf8, host, f, s, out);
    if begin.Err? {
      return Err(begin.error);
    }
    r := Loop16To8(s, begin.value, native, !f.ignoreNull, out, NativeOut(host, f), j);
    JobDone(j, Utf16, Utf8, host, f, s, r, out[..]);
  }
}
