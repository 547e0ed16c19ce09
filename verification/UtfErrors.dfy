/**
  * Which error a conversion ends with: what the input is like, in terms of text and the written forms of
  * characters, and not of how it is read.
  */
module UtfErrors {
  import opened Errno
  import opened Utf
  import opened UtfConvert

  /** The beginning of a character, and not all of it. */
  ghost predicate CutChar(form: Form, s: seq<int>) {
    exists c :: IsScalar(c) && s != [] && |s| < |Written(form, c)| && s == Written(form, c)[..|s|]
  }

  ghost predicate IsAllText(form: Form, s: seq<int>) {
    exists cs :: Scalars(cs) && s == WrittenAll(form, cs)
  }

  /** Text, and the beginning of one more character. */
  ghost predicate IsCutOff(form: Form, s: seq<int>) {
    exists cs, rest :: Scalars(cs) && CutChar(form, rest) && s == WrittenAll(form, cs) + rest
  }

  // ---------- one character ----------

  lemma {:induction false} PrefixTails(t: seq<int>, s: seq<int>, n: nat, first: int, code: int, at: nat)
    requires at <= |s| < at + n <= |t| && s == t[..|s|] && ReadTails(t, n, first, code, at).Char?
    ensures ReadTails(s, n, first, code, at) == Stop(EINVAL)
    decreases n
  {
    if at < |s| {
      assert s[at] == t[at];
      PrefixTails(t, s, n - 1, 0, code * 64 + s[at] % 64, at + 1);
    }
  }

  lemma {:induction false} CompleteTails(s: seq<int>, n: nat, first: int, code: int, at: nat) returns (t: seq<int>)
    requires at <= |s| && (first == 0 || Remaining(first) > 0) && AreUnits(Utf8, s)
    requires ReadTails(s, n, first, code, at) == Stop(EINVAL)
    ensures |s| < |t| == at + n && s == t[..|s|] && AreUnits(Utf8, t) && ReadTails(t, n, first, code, at).Char?
    decreases n
  {
    if at < |s| {
      t := CompleteTails(s, n - 1, 0, code * 64 + s[at] % 64, at + 1);
      assert t[at] == t[..|s|][at] == s[at];
    } else {
      var x := if first == 0 then 0x80 else MinSecond(first);
      var r := s + [x];
      if n == 1 {
        t := r;
      } else {
        t := CompleteTails(r, n - 1, 0, code * 64 + x % 64, at + 1);
        assert t[at] == t[..|r|][at] == x && t[..|s|] == t[..|r|][..|s|];
      }
    }
  }

  lemma {:induction false} Cut8(s: seq<int>)
    requires s != [] && AreUnits(Utf8, s)
    ensures ReadBytes(s) == Stop(EINVAL) <==> CutChar(Utf8, s)
  {
    hide Bytes;
    assert IsUnit(Utf8, s[0]);
    if ReadBytes(s) == Stop(EINVAL) {
      var t := CompleteTails(s, Remaining(s[0]), s[0], Masked(s[0]), 1);
      assert t[0] == t[..|s|][0] == s[0];
      BytesOnly(t);
      var c := ReadBytes(t).code;
      assert t == t[..|t|] == Bytes(c) == Written(Utf8, c);
    }
    if CutChar(Utf8, s) {
      var c :| IsScalar(c) && |s| < |Written(Utf8, c)| && s == Written(Utf8, c)[..|s|];
      var t := Bytes(c);
      BytesBack(c, []);
      assert t + [] == t && t[0] == s[0];
      PrefixTails(t, s, Remaining(s[0]), s[0], Masked(s[0]), 1);
    }
  }

  lemma {:induction false} Cut16(s: seq<int>)
    requires s != [] && AreUnits(Utf16, s)
    ensures ReadHalves(false, s) == Stop(EINVAL) <==> CutChar(Utf16, s)
  {
    if ReadHalves(false, s) == Stop(EINVAL) {
      var c := Joined(s[0], 0xDC00);
      assert IsScalar(c) && Written(Utf16, c)[0] == s[0];
      assert s == Written(Utf16, c)[..|s|];
    }
    if CutChar(Utf16, s) {
      var c :| IsScalar(c) && |s| < |Written(Utf16, c)| && s == Written(Utf16, c)[..|s|];
      assert s == [Written(Utf16, c)[0]];
    }
  }

  lemma {:induction false} Cut(form: Form, s: seq<int>)
    requires s != [] && AreUnits(form, s) && !form.Utf32?
    ensures ReadOne(form, false, s) == Stop(EINVAL) <==> CutChar(form, s)
    ensures var r := ReadOne(form, false, s); r.Char? || r == Stop(EINVAL) || r == Stop(EILSEQ)
  {
    if form.Utf8? {
      Cut8(s);
      StopTails(s);
    } else {
      Cut16(s);
    }
  }

  lemma {:induction false} StopTails(s: seq<int>)
    requires s != []
    ensures var r := ReadBytes(s); r.Char? || r == Stop(EINVAL) || r == Stop(EILSEQ)
  {
    var n := Remaining(s[0]);
    if s[0] > 0x7F && n > 0 {
      StopTail(s, n, s[0], Masked(s[0]), 1);
    }
  }

  lemma {:induction false} StopTail(s: seq<int>, n: nat, first: int, code: int, at: nat)
    requires at <= |s|
    ensures var r := ReadTails(s, n, first, code, at); r.Char? || r == Stop(EINVAL) || r == Stop(EILSEQ)
    decreases n
  {
    if n > 0 && at < |s| {
      StopTail(s, n - 1, 0, code * 64 + s[at] % 64, at + 1);
    }
  }

  // ---------- whole inputs ----------

  /** Where a conversion ends, well or not. */
  lemma {:induction false} ConvertedEnds(from: Form, to: Form, stop: bool, s: seq<int>, room: nat)
    ensures s == [] || (stop && s[0] == 0) ==> Converted(from, to, stop, s, room) == Ok(Out([], 0))
    ensures s != [] && !(stop && s[0] == 0) ==>
      match ReadOne(from, stop, s)
      case Stop(e) => Converted(from, to, stop, s, room) == Err(e)
      case Char(c, _) =>
        && (!(0 <= c <= 0x10FFFF) ==> Converted(from, to, stop, s, room) == Err(EILSEQ))
        && (0 <= c <= 0x10FFFF && |Written(to, c)| > room ==> Converted(from, to, stop, s, room) == Err(E2BIG))
  {
    hide Written, ReadOne, After;
  }

  lemma {:induction false} CutOffFails(from: Form, to: Form, cs: seq<int>, rest: seq<int>, room: nat)
    requires !from.Utf32? && Scalars(cs) && CutChar(from, rest) && room >= 4 * |cs|
    ensures Converted(from, to, false, WrittenAll(from, cs) + rest, room) == Err(EINVAL)
    decreases |cs|
  {
    hide ReadOne, Written, CutChar, Converted;
    var s := WrittenAll(from, cs) + rest;
    if cs == [] {
      assert s == rest;
      CutUnits(from, rest);
      Cut(from, rest);
      ConvertedEnds(from, to, false, rest, room);
    } else {
      var c, more := cs[0], WrittenAll(from, cs[1..]) + rest;
      assert c in cs;
      assert s == Written(from, c) + more && s[|Written(from, c)|..] == more;
      ReadBack(from, false, c, more);
      ConvertedStep(from, to, false, s, room, c, |Written(from, c)|);
      CutOffFails(from, to, cs[1..], rest, room - |Written(to, c)|);
    }
  }

  lemma {:induction false} CutUnits(form: Form, s: seq<int>)
    requires CutChar(form, s)
    ensures s != [] && AreUnits(form, s)
  {
  }

  /** What is not text, nor cut off, is an illegal sequence. */
  lemma {:induction false} Fails(from: Form, to: Form, s: seq<int>, room: nat)
    requires !from.Utf32? && AreUnits(from, s) && room >= 4 * |s| && Converted(from, to, false, s, room).Err?
    ensures var r := Converted(from, to, false, s, room);
      r == Err(EILSEQ) || (r == Err(EINVAL) && IsCutOff(from, s))
    decreases |s|
  {
    hide ReadOne, Written, CutChar;
    Cut(from, s);
    if ReadOne(from, false, s).Stop? {
      if ReadOne(from, false, s) == Stop(EINVAL) {
        assert WrittenAll(from, []) + s == s && Scalars([]);
      }
    } else {
      var c, n := FirstChar(from, false, s);
      ConvertedStep(from, to, false, s, room, c, n);
      Fails(from, to, s[n..], room - |Written(to, c)|);
      if IsCutOff(from, s[n..]) {
        var cs, rest :| Scalars(cs) && CutChar(from, rest) && s[n..] == WrittenAll(from, cs) + rest;
        OneMoreText(from, c, cs, s, n, rest);
      }
    }
  }

  lemma {:induction false} OneMoreText(form: Form, c: int, cs: seq<int>, s: seq<int>, n: nat, rest: seq<int>)
    requires IsScalar(c) && Scalars(cs) && n <= |s| && s[..n] == Written(form, c)
    requires s[n..] == WrittenAll(form, cs) + rest
    ensures Scalars([c] + cs) && s == WrittenAll(form, [c] + cs) + rest
  {
    hide Written;
    assert ([c] + cs)[1..] == cs;
    var a, b := Written(form, c), WrittenAll(form, cs);
    assert WrittenAll(form, [c] + cs) == a + b && s == a + (b + rest) == (a + b) + rest;
  }

  /** With room enough and nulls ignored: UTF-8 or UTF-16 input is converted exactly if it is text; the error is EINVAL
      exactly if it is text that is cut off within a character, and EILSEQ otherwise. */
  lemma {:induction false} Outcomes(from: Form, to: Form, s: seq<int>, room: nat)
    requires !from.Utf32? && AreUnits(from, s) && room >= 4 * |s|
    ensures var r := Converted(from, to, false, s, room);
      && (r.Ok? <==> IsAllText(from, s)) && (r == Err(EINVAL) <==> IsCutOff(from, s))
      && (r.Err? ==> r == Err(EINVAL) || r == Err(EILSEQ))
  {
    hide Converted, CutChar, Written;
    var r := Converted(from, to, false, s, room);
    if r.Ok? {
      var cs := ReadsText(from, to, false, s, room);
      AllRead(from, to, s, room);
      assert s[..|s|] == s;
    } else {
      Fails(from, to, s, room);
    }
    if IsAllText(from, s) {
      var cs :| Scalars(cs) && s == WrittenAll(from, cs);
      ConvertsText(from, to, false, cs, room);
    }
    if IsCutOff(from, s) {
      var cs, rest :| Scalars(cs) && CutChar(from, rest) && s == WrittenAll(from, cs) + rest;
      CutOffFails(from, to, cs, rest, room);
    }
  }

  lemma {:induction false} AllRead(from: Form, to: Form, s: seq<int>, room: nat)
    requires Converted(from, to, false, s, room).Ok?
    ensures Converted(from, to, false, s, room).value.used == |s|
    decreases |s|
  {
    hide Written;
    if s != [] {
      var one := ReadOne(from, false, s);
      AllRead(from, to, s[one.size..], room - |Written(to, one.code)|);
    }
  }

  /** UTF-32 input is converted exactly if no unit is above U+10FFFF; the error is EILSEQ. */
  lemma {:induction false} Outcomes32(to: Form, s: seq<int>, room: nat)
    requires AreUnits(Utf32, s) && room >= 4 * |s|
    ensures var r := Converted(Utf32, to, false, s, room);
      (r.Ok? <==> forall i :: 0 <= i < |s| ==> s[i] <= 0x10FFFF) && (r.Err? ==> r == Err(EILSEQ))
    decreases |s|
  {
    hide Written;
    if s != [] {
      assert IsUnit(Utf32, s[0]);
      Outcomes32(to, s[1..], room - if s[0] <= 0x10FFFF then |Written(to, s[0])| else 0);
      assert forall i :: 0 <= i < |s| ==> s[i] == if i == 0 then s[0] else s[1..][i - 1];
    }
  }

  // ---------- nulls and room ----------

  function Nul(s: seq<int>): (r: nat)
    ensures r <= |s| && (r < |s| ==> s[r] == 0) && forall i :: 0 <= i < r ==> s[i] != 0
  {
    if s == [] || s[0] == 0 then 0 else
      assert forall i :: 1 <= i < |s| ==> s[i] == s[1..][i - 1];
      1 + Nul(s[1..])
  }

  lemma {:induction false} NulIs(s: seq<int>, k: nat)
    requires k <= |s| && (k < |s| ==> s[k] == 0) && forall i :: 0 <= i < k ==> s[i] != 0
    ensures Nul(s) == k
  {
  }

  lemma {:induction false} NulLater(s: seq<int>, n: nat)
    requires n <= Nul(s)
    ensures Nul(s[n..]) == Nul(s) - n && s[n..][..Nul(s) - n] == s[..Nul(s)][n..]
  {
    NulIs(s[n..], Nul(s) - n);
  }

  lemma {:induction false} Tails8Cut(s: seq<int>, z: nat, n: nat, first: int, code: int, at: nat)
    requires at <= z <= |s| && (z < |s| ==> s[z] == 0) && (first == 0 || Remaining(first) > 0)
    ensures var r := ReadTails(s[..z], n, first, code, at);
      ReadTails(s, n, first, code, at) == if r == Stop(EINVAL) && z < |s| then Stop(EILSEQ) else r
    decreases n
  {
    if n > 0 && at < z {
      assert s[..z][at] == s[at];
      Tails8Cut(s, z, n - 1, 0, code * 64 + s[at] % 64, at + 1);
    } else if n > 0 && z == |s| {
      assert s[..z] == s;
    }
  }

  /** One character, read up to a NUL behind it or to its own end. */
  lemma {:induction false} OneUpToNul(from: Form, s: seq<int>, z: nat)
    requires z == Nul(s) && z > 0
    ensures var r := ReadOne(from, false, s[..z]);
      ReadOne(from, true, s) == if from.Utf8? && r == Stop(EINVAL) && z < |s| then Stop(EILSEQ) else r
  {
    assert s[..z][0] == s[0];
    if from.Utf8? {
      if s[0] > 0x7F && Remaining(s[0]) > 0 {
        Tails8Cut(s, z, Remaining(s[0]), s[0], Masked(s[0]), 1);
      }
    } else if from.Utf16? {
      if z > 1 {
        assert s[..z][1] == s[1];
      }
    }
  }

  /** A NUL that is not ignored ends the input: the rest counts for nothing, except that a NUL within a character of
      UTF-8 makes the sequence illegal where the end of the input would leave it incomplete. */
  lemma {:induction false} UpToNul(from: Form, to: Form, s: seq<int>, room: nat)
    ensures var r := Converted(from, to, false, s[..Nul(s)], room);
      Converted(from, to, true, s, room) == if from.Utf8? && r == Err(EINVAL) && Nul(s) < |s| then Err(EILSEQ) else r
    decreases |s|
  {
    hide Written, ReadOne, Converted;
    var z := Nul(s);
    ConvertedEnds(from, to, true, s, room);
    ConvertedEnds(from, to, false, s[..z], room);
    if z > 0 {
      OneUpToNul(from, s, z);
      var one := ReadOne(from, false, s[..z]);
      if one.Char? && 0 <= one.code <= 0x10FFFF && |Written(to, one.code)| <= room {
        var c, n := one.code, one.size;
        ConvertedStep(from, to, true, s, room, c, n);
        ConvertedStep(from, to, false, s[..z], room, c, n);
        NulLater(s, n);
        UpToNul(from, to, s[n..], room - |Written(to, c)|);
      }
    }
  }

  lemma {:induction false} AfterFits(us: seq<int>, n: nat, big: Result<Out>, r: Result<Out>, room: nat)
    requires |us| <= room
    requires match big
      case Ok(o) => r == if |o.units| <= room - |us| then big else Err(E2BIG)
      case Err(_) => r == big || r == Err(E2BIG)
    ensures match After(us, n, big)
      case Ok(o) => After(us, n, r) == if |o.units| <= room then After(us, n, big) else Err(E2BIG)
      case Err(_) => After(us, n, r) == After(us, n, big) || After(us, n, r) == Err(E2BIG)
  {
  }

  /** The room decides nothing but whether the output fits. */
  lemma {:induction false} RoomDecides(from: Form, to: Form, stop: bool, s: seq<int>, room: nat, more: nat)
    requires room <= more
    ensures var big, r := Converted(from, to, stop, s, more), Converted(from, to, stop, s, room);
      match big
      case Ok(o) => r == if |o.units| <= room then big else Err(E2BIG)
      case Err(_) => r == big || r == Err(E2BIG)
    decreases |s|
  {
    hide Written, ReadOne, After, Converted;
    ConvertedEnds(from, to, stop, s, more);
    ConvertedEnds(from, to, stop, s, room);
    if s != [] && !(stop && s[0] == 0) {
      var one := ReadOne(from, stop, s);
      if one.Char? && 0 <= one.code <= 0x10FFFF && |Written(to, one.code)| <= more {
        var us, rest := Written(to, one.code), s[one.size..];
        ConvertedStep(from, to, stop, s, more, one.code, one.size);
        if |us| <= room {
          ConvertedStep(from, to, stop, s, room, one.code, one.size);
          RoomDecides(from, to, stop, rest, room - |us|, more - |us|);
          AfterFits(us, one.size, Converted(from, to, stop, rest, more - |us|),
                    Converted(from, to, stop, rest, room - |us|), room);
        } else {
          AfterLonger(us, one.size, Converted(from, to, stop, rest, more - |us|));
        }
      }
    }
  }

  lemma {:induction false} AfterLonger(us: seq<int>, n: nat, r: Result<Out>)
    ensures After(us, n, r).Ok? ==> |After(us, n, r).value.units| >= |us|
  {
  }

  // ---------- conflicting byte orders ----------

  lemma {:induction false} OneErrors(from: Form, stop: bool, s: seq<int>)
    requires s != []
    ensures var r := ReadOne(from, stop, s); r.Char? || r == Stop(EINVAL) || r == Stop(EILSEQ)
  {
    StopTails(s);
  }

  lemma {:induction false} OtherErrors(from: Form, to: Form, stop: bool, s: seq<int>, room: nat)
    ensures var r := Converted(from, to, stop, s, room);
      r.Err? ==> r == Err(EILSEQ) || r == Err(EINVAL) || r == Err(E2BIG)
    decreases |s|
  {
    hide Written, ReadOne, Converted;
    ConvertedEnds(from, to, stop, s, room);
    if s != [] && !(stop && s[0] == 0) {
      OneErrors(from, stop, s);
      var one := ReadOne(from, stop, s);
      if one.Char? && 0 <= one.code <= 0x10FFFF && |Written(to, one.code)| <= room {
        ConvertedStep(from, to, stop, s, room, one.code, one.size);
        OtherErrors(from, to, stop, s[one.size..], room - |Written(to, one.code)|);
      }
    }
  }

  /** A conversion returns EBADF exactly when both byte orders are asked for, of the input or of the output. */
  lemma {:induction false} BothOrders(from: Form, to: Form, host: bool, f: Flags, s: seq<int>, limit: nat)
    ensures Convert(from, to, host, f, s, limit) == Err(EBADF)
      <==> (f.inBig && f.inLittle) || (f.outBig && f.outLittle)
  {
    hide Converted, Swapped, Ordered;
    var mark := OutputMark(to, host, f, s, limit);
    OtherErrors(from, to, !f.ignoreNull, Ordered(from, InputNative(from, host, f, s), s[InputMark(from, f, s)..]),
                limit - |mark|);
  }
}
