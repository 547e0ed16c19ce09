/**
  * The three Unicode encoding forms: writing one character, reading one character.  Units are
  * numbers in the byte order of the host.
  */
module Utf {
  import opened Errno

  datatype Form = Utf8 | Utf16 | Utf32

  /** A Unicode scalar value: anything up to U+10FFFF but the surrogates. */
  predicate IsScalar(c: int) {
    0 <= c <= 0x10FFFF && !(0xD800 <= c <= 0xDFFF)
  }

  predicate IsUnit(form: Form, u: int) {
    0 <= u && match form
              case Utf8 => u < 0x100
              case Utf16 => u < 0x1_0000
              case Utf32 => u < 0x1_0000_0000
  }

  predicate AreUnits(form: Form, s: seq<int>) {
    forall i :: 0 <= i < |s| ==> IsUnit(form, s[i])
  }

  // ---------- writing ----------

  /** The last `k` groups of six bits, each in a byte of its own. */
  function Tails(c: int, k: nat): (r: seq<int>)
    requires 0 <= c
    ensures |r| == k && AreUnits(Utf8, r)
    decreases k
  {
    if k == 0 then [] else Tails(c / 64, k - 1) + [0x80 + c % 64]
  }

  /** What is left of a number without them. */
  function Top(c: int, k: nat): (r: int)
    requires 0 <= c
    ensures 0 <= r <= c
    decreases k
  {
    if k == 0 then c else Top(c / 64, k - 1)
  }

  function Bytes(c: int): (r: seq<int>)
    requires 0 <= c <= 0x10FFFF
    ensures 1 <= |r| <= 4 && AreUnits(Utf8, r)
  {
    if c <= 0x7F then [c]
    else if c <= 0x7FF then [0xC0 + Top(c, 1) % 32] + Tails(c, 1)
    else if c <= 0xFFFF then [0xE0 + Top(c, 2) % 16] + Tails(c, 2)
    else [0xF0 + Top(c, 3) % 8] + Tails(c, 3)
  }

  function Halves(c: int): (r: seq<int>)
    requires 0 <= c <= 0x10FFFF
    ensures 1 <= |r| <= 2 && AreUnits(Utf16, r)
  {
    if c >= 0x1_0000 then [(c - 0x1_0000) / 0x400 + 0xD800, (c - 0x1_0000) % 0x400 + 0xDC00] else [c]
  }

  function Written(form: Form, c: int): (r: seq<int>)
    requires 0 <= c <= 0x10FFFF
    ensures 1 <= |r| <= 4 && AreUnits(form, r)
  {
    match form
    case Utf8 => Bytes(c)
    case Utf16 => Halves(c)
    case Utf32 => [c]
  }

  function WrittenAll(form: Form, cs: seq<int>): (r: seq<int>)
    requires forall i :: 0 <= i < |cs| ==> 0 <= cs[i] <= 0x10FFFF
    ensures |cs| <= |r| <= 4 * |cs| && AreUnits(form, r)
  {
    if cs == [] then [] else Written(form, cs[0]) + WrittenAll(form, cs[1..])
  }

  // ---------- reading ----------

  /** A character and the units it takes, or an error. */
  datatype Read = Char(code: int, size: nat) | Stop(error: Error)

  function Remaining(b: int): nat {
    if 0xC2 <= b <= 0xDF then 1 else if 0xE0 <= b <= 0xEF then 2 else if 0xF0 <= b <= 0xF4 then 3 else 0
  }

  function MinSecond(b: int): int {
    if b == 0xE0 then 0xA0 else if b == 0xF0 then 0x90 else if 0xC2 <= b <= 0xF4 then 0x80 else 0
  }

  function MaxSecond(b: int): int {
    if b == 0xED then 0x9F else if b == 0xF4 then 0x8F else if 0xC2 <= b <= 0xF4 then 0xBF else 0
  }

  function Masked(b: int): int {
    if Remaining(b) == 1 then b % 32 else if Remaining(b) == 2 then b % 16 else b % 8
  }

  predicate IsTail(b: int) { 0x80 <= b <= 0xBF }

  /** `n` more bytes from position `at`; `first` is the first byte of the character as long as its second is to come. */
  function ReadTails(s: seq<int>, n: nat, first: int, code: int, at: nat): (r: Read)
    requires at <= |s|
    ensures r.Char? ==> at + n == r.size <= |s|
    decreases n
  {
    if n == 0 then Char(code, at)
    else if at == |s| then Stop(EINVAL)
    else if (if first != 0 then s[at] < MinSecond(first) || s[at] > MaxSecond(first) else !IsTail(s[at]))
      then Stop(EILSEQ)
    else ReadTails(s, n - 1, 0, code * 64 + s[at] % 64, at + 1)
  }

  function ReadBytes(s: seq<int>): (r: Read)
    requires s != []
    ensures r.Char? ==> 1 <= r.size <= |s|
  {
    if s[0] <= 0x7F then Char(s[0], 1)
    else if Remaining(s[0]) == 0 then Stop(EILSEQ)
    else ReadTails(s, Remaining(s[0]), s[0], Masked(s[0]), 1)
  }

  predicate IsHigh(u: int) { 0xD800 <= u <= 0xDBFF }

  predicate IsLow(u: int) { 0xDC00 <= u <= 0xDFFF }

  function Joined(hi: int, lo: int): int {
    ((hi - 0xD800) * 0x400 + lo - 0xDC00) % 0x10_0000 + 0x1_0000
  }

  /** A NUL that ends the string also ends a pair that has only begun. */
  function ReadHalves(stop: bool, s: seq<int>): (r: Read)
    requires s != []
    ensures r.Char? ==> 1 <= r.size <= |s|
  {
    if IsHigh(s[0]) then
      if |s| == 1 || (stop && s[1] == 0) then Stop(EINVAL)
      else if IsLow(s[1]) then Char(Joined(s[0], s[1]), 2)
      else Stop(EILSEQ)
    else if IsLow(s[0]) then Stop(EILSEQ)
    else Char(s[0], 1)
  }

  function ReadOne(form: Form, stop: bool, s: seq<int>): (r: Read)
    requires s != []
    ensures r.Char? ==> 1 <= r.size <= |s|
  {
    match form
    case Utf8 => ReadBytes(s)
    case Utf16 => ReadHalves(stop, s)
    case Utf32 => Char(s[0], 1)
  }

  /** The three forms of reading. */
  lemma {:induction false} ReadOneIs(form: Form, stop: bool, s: seq<int>)
    requires s != []
    ensures form.Utf8? ==> ReadOne(form, stop, s) == ReadBytes(s)
    ensures form.Utf32? ==> ReadOne(form, stop, s) == Char(s[0], 1)
  {
  }

  // ---------- one character ----------

  /** The digits of a number to the base 64. */
  lemma {:induction false} Digits(c: int, x: int, y: int, z: int, w: int)
    requires 0 <= x && 0 <= y < 64 && 0 <= z < 64 && 0 <= w < 64 && c == ((x * 64 + y) * 64 + z) * 64 + w
    ensures c % 64 == w && c / 64 == (x * 64 + y) * 64 + z && c / 64 % 64 == z
    ensures c / 4096 == x * 64 + y && c / 4096 % 64 == y && c / 262144 == x
  {
    assert c / 64 == (x * 64 + y) * 64 + z;
    assert c / 4096 == c / 64 / 64 == x * 64 + y;
    assert c / 262144 == c / 4096 / 64 == x;
  }

  lemma {:induction false} Split(c: int) returns (x: int, y: int, z: int, w: int)
    requires 0 <= c
    ensures 0 <= x && 0 <= y < 64 && 0 <= z < 64 && 0 <= w < 64 && c == ((x * 64 + y) * 64 + z) * 64 + w
  {
    x, y, z, w := c / 64 / 64 / 64, c / 64 / 64 % 64, c / 64 % 64, c % 64;
  }

  /** The bytes of a character, digit by digit. */
  lemma {:induction false} BytesAre(c: int, x: int, y: int, z: int, w: int)
    requires 0 <= x && 0 <= y < 64 && 0 <= z < 64 && 0 <= w < 64 && c == ((x * 64 + y) * 64 + z) * 64 + w
    requires 0x7F < c <= 0x10FFFF
    ensures c <= 0x7FF ==> x == y == 0 && z < 32 && Bytes(c) == [0xC0 + z, 0x80 + w]
    ensures 0x7FF < c <= 0xFFFF ==> x == 0 && y < 16 && Bytes(c) == [0xE0 + y, 0x80 + z, 0x80 + w]
    ensures 0xFFFF < c ==> x <= 4 && Bytes(c) == [0xF0 + x, 0x80 + y, 0x80 + z, 0x80 + w]
  {
    Digits(c, x, y, z, w);
    var d, e := c / 64, c / 4096;
    assert d / 64 == e && e / 64 == x;
    assert Tails(c, 1) == [0x80 + w] && Top(c, 1) == d;
    assert Tails(d, 1) == [0x80 + z] && Tails(c, 2) == Tails(d, 1) + [0x80 + w] && Top(c, 2) == Top(d, 1) == e;
    assert Tails(e, 1) == [0x80 + y] && Tails(d, 2) == Tails(e, 1) + [0x80 + z] && Top(d, 2) == Top(e, 1) == x;
    assert Tails(c, 3) == Tails(d, 2) + [0x80 + w] && Top(c, 3) == Top(d, 2);
  }

  /** The bytes as they are masked and shifted out of the code. */
  lemma {:induction false} BytesShown(c: int)
    requires 0x7F < c <= 0x10FFFF
    ensures c <= 0x7FF ==> Bytes(c) == [0xC0 + c / 64 % 32, 0x80 + c % 64]
    ensures 0x7FF < c <= 0xFFFF ==> Bytes(c) == [0xE0 + c / 4096 % 16, 0x80 + c / 64 % 64, 0x80 + c % 64]
    ensures 0xFFFF < c ==> Bytes(c) == [0xF0 + c / 262144 % 8, 0x80 + c / 4096 % 64, 0x80 + c / 64 % 64, 0x80 + c % 64]
  {
    hide Bytes, Tails, Top;
    var x, y, z, w := Split(c);
    Digits(c, x, y, z, w);
    BytesAre(c, x, y, z, w);
  }

  lemma {:induction false} ReadTwo(s: seq<int>, z: int, w: int)
    requires |s| >= 2 && 2 <= z < 32 && 0 <= w < 64 && s[0] == 0xC0 + z && s[1] == 0x80 + w
    ensures ReadBytes(s) == Char(z * 64 + w, 2)
  {
    assert ReadTails(s, 0, 0, z * 64 + w, 2) == Char(z * 64 + w, 2);
  }

  lemma {:induction false} ReadThree(s: seq<int>, y: int, z: int, w: int)
    requires |s| >= 3 && 0 <= y < 16 && 0 <= z < 64 && 0 <= w < 64 && s[0] == 0xE0 + y && s[1] == 0x80 + z
    requires s[2] == 0x80 + w
    requires (y == 0 ==> z >= 32) && (y == 13 ==> z < 32)
    ensures ReadBytes(s) == Char((y * 64 + z) * 64 + w, 3)
  {
    var d, c := y * 64 + z, (y * 64 + z) * 64 + w;
    assert ReadTails(s, 0, 0, c, 3) == Char(c, 3);
    assert ReadTails(s, 1, 0, d, 2) == Char(c, 3);
  }

  lemma {:induction false} ReadFour(s: seq<int>, x: int, y: int, z: int, w: int)
    requires |s| >= 4 && 0 <= x <= 4 && 0 <= y < 64 && 0 <= z < 64 && 0 <= w < 64
    requires s[0] == 0xF0 + x && s[1] == 0x80 + y && s[2] == 0x80 + z && s[3] == 0x80 + w
    requires (x == 0 ==> y >= 16) && (x == 4 ==> y < 16)
    ensures ReadBytes(s) == Char(((x * 64 + y) * 64 + z) * 64 + w, 4)
  {
    var e, d, c := x * 64 + y, (x * 64 + y) * 64 + z, ((x * 64 + y) * 64 + z) * 64 + w;
    assert ReadTails(s, 0, 0, c, 4) == Char(c, 4);
    assert ReadTails(s, 1, 0, d, 3) == Char(c, 4);
    assert ReadTails(s, 2, 0, e, 2) == Char(c, 4);
  }

  lemma {:induction false} BytesBack(c: int, rest: seq<int>)
    requires IsScalar(c)
    ensures ReadBytes(Bytes(c) + rest) == Char(c, |Bytes(c)|)
  {
    var s := Bytes(c) + rest;
    if c > 0x7F {
      var x, y, z, w := Split(c);
      BytesAre(c, x, y, z, w);
      if c <= 0x7FF {
        ReadTwo(s, z, w);
      } else if c <= 0xFFFF {
        ReadThree(s, y, z, w);
      } else {
        ReadFour(s, x, y, z, w);
      }
    }
  }

  lemma {:induction false} HalvesBack(stop: bool, c: int, rest: seq<int>)
    requires IsScalar(c)
    ensures ReadHalves(stop, Halves(c) + rest) == Char(c, |Halves(c)|)
  {
  }

  /** What is written for a scalar value is read back, whatever follows. */
  lemma {:induction false} ReadBack(form: Form, stop: bool, c: int, rest: seq<int>)
    requires IsScalar(c)
    ensures ReadOne(form, stop, Written(form, c) + rest) == Char(c, |Written(form, c)|)
  {
    match form
    case Utf8 => BytesBack(c, rest);
    case Utf16 => HalvesBack(stop, c, rest);
    case Utf32 =>
  }

  lemma {:induction false} TailsStep(s: seq<int>, n: nat, first: int, code: int, at: nat) returns (digit: int)
    requires n > 0 && at <= |s| && (first == 0 || Remaining(first) > 0) && ReadTails(s, n, first, code, at).Char?
    ensures at < |s| && s[at] == 0x80 + digit && 0 <= digit < 64
    ensures first != 0 ==> MinSecond(first) <= s[at] <= MaxSecond(first)
    ensures ReadTails(s, n, first, code, at)
      == if n == 1 then Char(code * 64 + digit, at + 1) else ReadTails(s, n - 1, 0, code * 64 + digit, at + 1)
  {
    digit := s[at] % 64;
  }

  lemma {:induction false} ReadFirst(s: seq<int>) returns (digit: int)
    requires s != [] && Remaining(s[0]) > 0
    ensures digit == s[0] - (if Remaining(s[0]) == 1 then 0xC0 else if Remaining(s[0]) == 2 then 0xE0 else 0xF0)
    ensures ReadBytes(s) == ReadTails(s, Remaining(s[0]), s[0], digit, 1)
  {
    digit := Masked(s[0]);
  }

  lemma {:induction false} Only1(s: seq<int>) returns (c: int)
    requires |s| >= 1 && Remaining(s[0]) == 1 && ReadBytes(s).Char?
    ensures ReadBytes(s) == Char(c, 2) && IsScalar(c) && |s| >= 2 && [s[0], s[1]] == Bytes(c)
  {
    hide Bytes, ReadBytes, ReadTails;
    var x := ReadFirst(s);
    var y := TailsStep(s, 1, s[0], x, 1);
    c := x * 64 + y;
    BytesAre(c, 0, 0, x, y);
  }

  lemma {:induction false} Only2(s: seq<int>) returns (c: int)
    requires |s| >= 1 && Remaining(s[0]) == 2 && ReadBytes(s).Char?
    ensures ReadBytes(s) == Char(c, 3) && IsScalar(c) && |s| >= 3 && [s[0], s[1], s[2]] == Bytes(c)
  {
    hide Bytes, ReadBytes, ReadTails;
    var x := ReadFirst(s);
    var y := TailsStep(s, 2, s[0], x, 1);
    var z := TailsStep(s, 1, 0, x * 64 + y, 2);
    c := (x * 64 + y) * 64 + z;
    BytesAre(c, 0, x, y, z);
  }

  lemma {:induction false} Only3(s: seq<int>) returns (c: int)
    requires |s| >= 1 && Remaining(s[0]) == 3 && ReadBytes(s).Char?
    ensures ReadBytes(s) == Char(c, 4) && IsScalar(c) && |s| >= 4 && [s[0], s[1], s[2], s[3]] == Bytes(c)
  {
    hide Bytes, ReadBytes, ReadTails;
    var x := ReadFirst(s);
    var y := TailsStep(s, 3, s[0], x, 1);
    var z := TailsStep(s, 2, 0, x * 64 + y, 2);
    var w := TailsStep(s, 1, 0, (x * 64 + y) * 64 + z, 3);
    c := ((x * 64 + y) * 64 + z) * 64 + w;
    assert 16 <= x * 64 + y < 272;
    assert 0xFFFF < c <= 0x10FFFF;
    BytesAre(c, x, y, z, w);
  }

  /** Only what is written for a scalar value is read from UTF-8: no overlong form, no surrogate, nothing too large. */
  lemma {:induction false} BytesOnly(s: seq<int>)
    requires s != [] && AreUnits(Utf8, s) && ReadBytes(s).Char?
    ensures var r := ReadBytes(s); IsScalar(r.code) && s[..r.size] == Bytes(r.code)
  {
    assert IsUnit(Utf8, s[0]);
    if s[0] > 0x7F {
      if Remaining(s[0]) == 1 {
        var c := Only1(s);
      } else if Remaining(s[0]) == 2 {
        var c := Only2(s);
      } else {
        var c := Only3(s);
      }
    }
  }

  lemma {:induction false} HalvesOnly(stop: bool, s: seq<int>)
    requires s != [] && AreUnits(Utf16, s) && ReadHalves(stop, s).Char?
    ensures var r := ReadHalves(stop, s); IsScalar(r.code) && s[..r.size] == Halves(r.code)
  {
  }

  /** The same for UTF-8 and UTF-16. */
  lemma {:induction false} ReadOnly(form: Form, stop: bool, s: seq<int>)
    requires !form.Utf32? && s != [] && AreUnits(form, s) && ReadOne(form, stop, s).Char?
    ensures var r := ReadOne(form, stop, s); IsScalar(r.code) && s[..r.size] == Written(form, r.code)
  {
    if form.Utf8? {
      BytesOnly(s);
    } else {
      HalvesOnly(stop, s);
    }
  }

  lemma {:induction false} FirstUnit(form: Form, c: int)
    requires 0 <= c <= 0x10FFFF
    ensures Written(form, c)[0] == 0 <==> c == 0
  {
  }
}
