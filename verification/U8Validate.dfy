/**
  * The UTF-8 validator, the syntax of UTF-8 of section 4 of RFC 3629, and the converter from UTF-8
  * accept the same byte strings.
  */
module U8Validate {
  import opened Errno
  import opened Utf
  import opened UtfConvert

  // ---------- the syntax ----------

  /** UTF8-char: UTF8-1, UTF8-2, UTF8-3 or UTF8-4. */
  predicate IsChar(s: seq<int>) {
    || (|s| == 1 && 0x00 <= s[0] <= 0x7F)
    || (|s| == 2 && 0xC2 <= s[0] <= 0xDF && IsTail(s[1]))
    || (|s| == 3 && s[0] == 0xE0 && 0xA0 <= s[1] <= 0xBF && IsTail(s[2]))
    || (|s| == 3 && 0xE1 <= s[0] <= 0xEC && IsTail(s[1]) && IsTail(s[2]))
    || (|s| == 3 && s[0] == 0xED && 0x80 <= s[1] <= 0x9F && IsTail(s[2]))
    || (|s| == 3 && 0xEE <= s[0] <= 0xEF && IsTail(s[1]) && IsTail(s[2]))
    || (|s| == 4 && s[0] == 0xF0 && 0x90 <= s[1] <= 0xBF && IsTail(s[2]) && IsTail(s[3]))
    || (|s| == 4 && 0xF1 <= s[0] <= 0xF3 && IsTail(s[1]) && IsTail(s[2]) && IsTail(s[3]))
    || (|s| == 4 && s[0] == 0xF4 && 0x80 <= s[1] <= 0x8F && IsTail(s[2]) && IsTail(s[3]))
  }

  /** UTF8-octets: any number of characters. */
  predicate IsOctets(s: seq<int>)
    decreases |s|
  {
    s == [] || exists n :: 1 <= n <= |s| && IsChar(s[..n]) && IsOctets(s[n..])
  }

  // ---------- the converter ----------

  /** The converter reads a character exactly where the syntax has one. */
  lemma {:induction false} ReadsChar(s: seq<int>)
    requires s != [] && AreUnits(Utf8, s) && ReadBytes(s).Char?
    ensures IsChar(s[..ReadBytes(s).size])
  {
    assert IsUnit(Utf8, s[0]);
    var b := s[0];
    if b > 0x7F {
      var n := Remaining(b);
      var x := ReadFirst(s);
      var y := TailsStep(s, n, b, x, 1);
      if n >= 2 {
        var z := TailsStep(s, n - 1, 0, x * 64 + y, 2);
        if n == 3 {
          var w := TailsStep(s, 1, 0, (x * 64 + y) * 64 + z, 3);
        }
      }
    }
  }

  lemma {:induction false} CharRead(s: seq<int>, n: nat)
    requires 1 <= n <= |s| && IsChar(s[..n])
    ensures ReadBytes(s).Char? && ReadBytes(s).size == n
  {
    var p := s[..n];
    assert s[0] == p[0];
    if n >= 2 {
      assert s[1] == p[1];
      var c := Masked(s[0]) * 64 + s[1] % 64;
      if n >= 3 {
        assert s[2] == p[2];
        var d := c * 64 + s[2] % 64;
        if n == 4 {
          assert s[3] == p[3];
          assert ReadTails(s, 1, 0, d, 3) == Char(d * 64 + s[3] % 64, 4);
        } else {
          assert ReadTails(s, 0, 0, d, 3) == Char(d, 3);
        }
        assert ReadTails(s, n - 2, 0, c, 2) == ReadTails(s, n - 3, 0, d, 3);
      }
    }
  }

  lemma {:induction false} OctetsStep(s: seq<int>)
    requires s != [] && AreUnits(Utf8, s)
    ensures var r := ReadBytes(s); IsOctets(s) <==> r.Char? && IsOctets(s[r.size..])
  {
    var r := ReadBytes(s);
    if r.Char? {
      ReadsChar(s);
    }
    forall n | 1 <= n <= |s| && IsChar(s[..n])
      ensures r.Char? && n == r.size
    {
      CharRead(s, n);
    }
  }

  /** uconv_u8tou32 with room enough, nulls ignored, succeeds on the strings of the syntax and on no others. */
  lemma {:induction false} ConvertsExactly(s: seq<int>, room: nat)
    requires AreUnits(Utf8, s) && room >= |s|
    ensures var r := Converted(Utf8, Utf32, false, s, room);
      (r.Ok? <==> IsOctets(s)) && (r.Ok? ==> r.value.used == |s|)
    decreases |s|
  {
    if s != [] {
      OctetsStep(s);
      var r := ReadBytes(s);
      if r.Char? {
        BytesOnly(s);
        ConvertsExactly(s[r.size..], room - 1);
        ConvertedStep(Utf8, Utf32, false, s, room, r.code, r.size);
      }
    }
  }

  // ---------- the validator ----------

  /** What u8_validate is asked to do: the whole string or one character, no more than three bytes a character, and
      which characters to refuse. */
  datatype Wish = Wish(entire: bool, ucs2: bool, refused: seq<seq<int>>)

  /** u8_number_of_bytes: 0 for an illegal first byte, 5 for one that is out of range. */
  function NumberOfBytes(b: int): nat {
    if b < 0x80 then 1 else if b < 0xC2 then 0 else if b < 0xE0 then 2 else if b < 0xF0 then 3 else if b < 0xF5 then 4
    else 5
  }

  /** The bytes after the first one, when there are enough. */
  predicate TailsOk(s: seq<int>, size: nat)
    requires size <= |s|
  {
    forall i :: 1 <= i < size ==> if i == 1 then MinSecond(s[0]) <= s[i] <= MaxSecond(s[0]) else IsTail(s[i])
  }

  /** One character: its size, or what is wrong with it. */
  function OneVerdict(s: seq<int>, w: Wish): (r: Result<nat>)
    requires s != []
    ensures r.Ok? ==> 1 <= r.value <= |s|
  {
    var size := NumberOfBytes(s[0]);
    if size == 0 then Err(EILSEQ)
    else if size == 5 || (w.ucs2 && size > 3) then Err(ERANGE)
    else if |s| < size then Err(EINVAL)
    else if !TailsOk(s, size) then Err(EILSEQ)
    else if s[..size] in w.refused then Err(EBADF)
    else Ok(size)
  }

  function Plus(n: nat, r: Result<nat>): Result<nat> {
    if r.Err? then r else Ok(n + r.value)
  }

  /** What u8_validate returns. */
  function Verdict(s: seq<int>, w: Wish): (r: Result<nat>)
    decreases |s|
  {
    if s == [] then Ok(0) else
      var one := OneVerdict(s, w);
      if one.Err? || !w.entire then one else Plus(one.value, Verdict(s[one.value..], w))
  }

  /** The bytes of one character after the first one. */
  method CheckTails(s: seq<int>, at: nat, size: nat) returns (ok: bool)
    requires at + size <= |s| && size >= 2
    ensures ok <==> TailsOk(s[at..], size)
  {
    var rest := s[at..];
    var f, second := rest[0], true;
    var i := 1;
    while i < size
      invariant 1 <= i <= size && (second <==> i == 1) && TailsOk(rest, i)
    {
      if second {
        if rest[i] < MinSecond(f) || rest[i] > MaxSecond(f) {
          return false;
        }
        second := false;
      } else if !IsTail(rest[i]) {
        return false;
      }
      i := i + 1;
    }
    ok := true;
  }

  method ValidateOne(s: seq<int>, at: nat, w: Wish) returns (r: Result<nat>)
    requires at < |s|
    ensures r == OneVerdict(s[at..], w)
  {
    var size := NumberOfBytes(s[at]);
    if size == 0 {
      return Err(EILSEQ);
    }
    if size == 5 || (w.ucs2 && size > 3) {
      return Err(ERANGE);
    }
    if |s| - at < size {
      return Err(EINVAL);
    }
    if size > 1 {
      var ok := CheckTails(s, at, size);
      if !ok {
        return Err(EILSEQ);
      }
    }
    assert s[at..][..size] == s[at..at + size];
    if s[at..at + size] in w.refused {
      return Err(EBADF);
    }
    r := Ok(size);
  }

  lemma {:induction false} VerdictStep(s: seq<int>, at: nat, w: Wish, one: Result<nat>)
    requires at < |s| && one == OneVerdict(s[at..], w)
    ensures Plus(at, Verdict(s[at..], w)) ==
      if one.Err? then one else if !w.entire then Ok(at + one.value)
      else Plus(at + one.value, Verdict(s[at + one.value..], w))
  {
    if one.Ok? {
      assert s[at..][one.value..] == s[at + one.value..];
    }
  }

  /** u8_validate. */
  method Validate(s: seq<int>, w: Wish) returns (r: Result<nat>)
    ensures r == Verdict(s, w)
  {
    var at := 0;
    assert s[0..] == s;
    while at < |s|
      invariant 0 <= at <= |s| && (at > 0 ==> w.entire)
      invariant Verdict(s, w) == Plus(at, Verdict(s[at..], w))
    {
      var one := ValidateOne(s, at, w);
      VerdictStep(s, at, w, one);
      if one.Err? {
        return one;
      }
      at := at + one.value;
      if !w.entire {
        return Ok(at);
      }
    }
    r := Ok(at);
  }

  lemma {:induction false} VerdictChar(s: seq<int>)
    requires s != [] && AreUnits(Utf8, s)
    ensures var size := NumberOfBytes(s[0]);
      ReadBytes(s).Char? <==> 1 <= size <= 4 && size <= |s| && TailsOk(s, size)
    ensures ReadBytes(s).Char? ==> ReadBytes(s).size == NumberOfBytes(s[0])
  {
    assert IsUnit(Utf8, s[0]);
    var size := NumberOfBytes(s[0]);
    if ReadBytes(s).Char? {
      ReadsChar(s);
    }
    if 1 <= size <= 4 && size <= |s| && TailsOk(s, size) {
      assert IsChar(s[..size]);
      CharRead(s, size);
    }
  }

  /** u8_validate of the entire input returns its length exactly when the converter accepts it, exactly when it is
      UTF-8. */
  lemma {:induction false} ValidExactly(s: seq<int>, room: nat)
    requires AreUnits(Utf8, s) && room >= |s|
    ensures Verdict(s, Wish(true, false, [])) == Ok(|s|) <==> IsOctets(s)
    ensures Verdict(s, Wish(true, false, [])).Ok? ==> Verdict(s, Wish(true, false, [])) == Ok(|s|)
    ensures IsOctets(s) <==> Converted(Utf8, Utf32, false, s, room).Ok?
    decreases |s|
  {
    ConvertsExactly(s, room);
    if s != [] {
      VerdictChar(s);
      OctetsStep(s);
      var size := NumberOfBytes(s[0]);
      if ReadBytes(s).Char? {
        ValidExactly(s[size..], room);
      }
    }
  }

  // ---------- other wishes, and errors ----------

  /** A character of the syntax that the wish lets pass. */
  predicate Allowed(c: seq<int>, w: Wish) {
    IsChar(c) && (w.ucs2 ==> |c| <= 3) && c !in w.refused
  }

  predicate AllAllowed(s: seq<int>, w: Wish)
    decreases |s|
  {
    s == [] || exists n :: 1 <= n <= |s| && Allowed(s[..n], w) && AllAllowed(s[n..], w)
  }

  /** The first character would pass, but is one to refuse. */
  predicate BeginsRefused(s: seq<int>, w: Wish) {
    exists n :: 1 <= n <= |s| && IsChar(s[..n]) && (w.ucs2 ==> n <= 3) && s[..n] in w.refused
  }

  /** How many bytes the first byte of a character announces. */
  function Announced(b: int): nat {
    if b <= 0xDF then 2 else if b <= 0xEF then 3 else 4
  }

  lemma {:induction false} CharSize(s: seq<int>, n: nat)
    requires 1 <= n <= |s| && IsChar(s[..n])
    ensures n == NumberOfBytes(s[0]) && TailsOk(s, n)
  {
    var p := s[..n];
    assert forall i :: 0 <= i < n ==> p[i] == s[i];
  }

  /** The verdict on one character, by the syntax and the ranges of its first byte. */
  lemma {:induction false} OneExactly(s: seq<int>, w: Wish)
    requires s != [] && AreUnits(Utf8, s)
    ensures var r, b := OneVerdict(s, w), s[0];
      && (forall n :: 1 <= n <= |s| ==> (r == Ok(n) <==> Allowed(s[..n], w)))
      && (r == Err(ERANGE) <==> b >= 0xF5 || (w.ucs2 && b >= 0xF0))
      && (r == Err(EINVAL) <==> 0xC2 <= b < (if w.ucs2 then 0xF0 else 0xF5) && |s| < Announced(b))
      && (r == Err(EBADF) <==> BeginsRefused(s, w))
      && (r.Ok? || r == Err(ERANGE) || r == Err(EINVAL) || r == Err(EBADF) || r == Err(EILSEQ))
  {
    assert IsUnit(Utf8, s[0]);
    var size := NumberOfBytes(s[0]);
    forall n | 1 <= n <= |s| && IsChar(s[..n])
      ensures n == size && TailsOk(s, n)
    {
      CharSize(s, n);
    }
    if 1 <= size <= 4 && size <= |s| && TailsOk(s, size) {
      assert IsChar(s[..size]);
    }
  }

  lemma {:induction false} AllowedStep(s: seq<int>, w: Wish)
    requires s != [] && AreUnits(Utf8, s)
    ensures var r := OneVerdict(s, w); AllAllowed(s, w) <==> r.Ok? && AllAllowed(s[r.value..], w)
  {
    OneExactly(s, w);
    var r := OneVerdict(s, w);
    if r.Ok? {
      assert Allowed(s[..r.value], w);
    }
  }

  /** u8_validate, whatever it is asked to do: of the entire input it returns the length exactly when every character is
      allowed, and otherwise the error of the first that is not; of one character, its size or its error. */
  lemma {:induction false} VerdictExactly(s: seq<int>, w: Wish) returns (at: nat)
    requires AreUnits(Utf8, s)
    ensures at <= |s| && (w.entire ==> AllAllowed(s[..at], w)) && (!w.entire ==> at == 0)
    ensures w.entire ==> (Verdict(s, w) == Ok(|s|) <==> AllAllowed(s, w))
    ensures w.entire && Verdict(s, w).Ok? ==> Verdict(s, w) == Ok(|s|)
    ensures Verdict(s, w).Err? ==> at < |s| && Verdict(s, w) == OneVerdict(s[at..], w)
    ensures !w.entire && s != [] ==> Verdict(s, w) == OneVerdict(s, w)
    decreases |s|
  {
    hide Allowed, OneVerdict;
    at := 0;
    assert s[0..] == s && s[..0] == [] && AllAllowed([], w);
    if s != [] && w.entire {
      hide AllAllowed;
      AllowedStep(s, w);
      var one := OneVerdict(s, w);
      if one.Ok? {
        OneExactly(s, w);
        var k := VerdictExactly(s[one.value..], w);
        at := one.value + k;
        AllowedMore(s, one.value, k, w);
      }
    }
  }

  lemma {:induction false} AllowedMore(s: seq<int>, n: nat, k: nat, w: Wish)
    requires 1 <= n && n + k <= |s| && Allowed(s[..n], w) && AllAllowed(s[n..][..k], w)
    ensures AllAllowed(s[..n + k], w) && s[n..][k..] == s[n + k..]
  {
    var t := s[..n + k];
    assert t[n..] == s[n..][..k] && t[..n] == s[..n];
  }
}
