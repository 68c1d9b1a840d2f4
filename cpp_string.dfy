/**
 * Models of the C++ standard-library operations the parser relies on:
 * `std::string::find`, `std::string::substr`, `std::stoi` in base 16 and
 * `std::stof`. A character of a Dafny string stands for one byte of the
 * C++ `std::string`.
 */
module CppString {

  datatype Option<+T> = None | Some(value: T)

  /** `s.find(c, from)` with the result stored in an `int`: the first index at
      or after `from` that holds `c`, or -1 (what `npos` becomes in an `int`). */
  function FindChar(s: seq<char>, c: char, from: nat): (r: int)
    ensures r == -1 || (from <= r < |s| && s[r] == c)
    decreases |s| - from
  {
    if from >= |s| then -1
    else if s[from] == c then from
    else FindChar(s, c, from + 1)
  }

  /** `find` stops at the first occurrence: no index between `from` and the
      result holds `c`, and none at all when the result is -1. */
  lemma {:induction false} FindCharFirst(s: seq<char>, c: char, from: nat, j: nat)
    requires from <= j < |s|
    requires FindChar(s, c, from) == -1 || j < FindChar(s, c, from)
    ensures s[j] != c
    decreases |s| - from
  {
    if j > from && s[from] != c {
      FindCharFirst(s, c, from + 1, j);
    }
  }

  /** `find` returns the first index at or after `from` that holds `c`. */
  lemma {:induction false} FindCharAt(s: seq<char>, c: char, from: nat, e: nat)
    requires from <= e < |s| && s[e] == c
    requires forall j :: from <= j < e ==> s[j] != c
    ensures FindChar(s, c, from) == e
    decreases e - from
  {
    if from < e {
      FindCharAt(s, c, from + 1, e);
    }
  }

  /** `find` gives -1 when no index at or after `from` holds `c`. */
  lemma {:induction false} FindCharNone(s: seq<char>, c: char, from: nat)
    requires from <= |s|
    requires forall j :: from <= j < |s| ==> s[j] != c
    ensures FindChar(s, c, from) == -1
    decreases |s| - from
  {
    if from < |s| {
      FindCharNone(s, c, from + 1);
    }
  }

  /** `s.substr(pos, count)` where `count` was computed in an `int`: the
      characters from `pos` on, `count` of them or as many as remain. A
      negative count converts to a huge `size_t`, so the substring runs to
      the end. */
  function Substr(s: seq<char>, pos: nat, count: int): (r: seq<char>)
    requires pos <= |s|
    ensures |r| == if 0 <= count <= |s| - pos then count else |s| - pos
    decreases |s| - pos
  {
    if count == 0 || pos == |s| then [] else [s[pos]] + Substr(s, pos + 1, count - 1)
  }

  /** `substr` as a slice */
  lemma {:induction false} SubstrSlice(s: seq<char>, pos: nat, count: int)
    requires pos <= |s|
    ensures Substr(s, pos, count) == if 0 <= count <= |s| - pos then s[pos..pos + count] else s[pos..]
    decreases |s| - pos
  {
    if count != 0 && pos != |s| {
      SubstrSlice(s, pos + 1, count - 1);
    }
  }

  /** `s.find(w) != npos` */
  predicate Contains(s: seq<char>, w: seq<char>) {
    exists i :: 0 <= i <= |s| - |w| && OccursAt(s, w, i)
  }

  predicate OccursAt(s: seq<char>, w: seq<char>, i: int) {
    0 <= i <= |s| - |w| && s[i..i + |w|] == w
  }

  /** `isspace` in the C locale */
  predicate IsSpace(c: char) {
    c == ' ' || 9 <= c as int <= 13
  }

  predicate IsDigit(c: char) {
    '0' <= c <= '9'
  }

  predicate AllDigits(s: seq<char>) {
    forall j :: 0 <= j < |s| ==> IsDigit(s[j])
  }

  /** The value of a decimal digit (0 for any other character) */
  function DigitValue(c: char): (v: nat)
    ensures v < 10
  {
    if IsDigit(c) then c as int - '0' as int else 0
  }

  /** The number a run of decimal digits denotes */
  function DigitsValue(d: seq<char>): nat {
    if d == [] then 0 else 10 * DigitsValue(d[..|d| - 1]) + DigitValue(d[|d| - 1])
  }

  /** The value of the digits after a decimal point */
  function FractionValue(d: seq<char>): (v: real)
    ensures 0.0 <= v < 1.0
  {
    if d == [] then 0.0 else (DigitValue(d[0]) as real + FractionValue(d[1..])) / 10.0
  }

  /** The value of `whole.frac` */
  function Decimal(whole: seq<char>, frac: seq<char>): real {
    DigitsValue(whole) as real + FractionValue(frac)
  }

  /** The index of the first character at or after `k` that is not white space */
  function SpaceEnd(s: seq<char>, k: nat): (r: nat)
    requires k <= |s|
    ensures k <= r <= |s|
    decreases |s| - k
  {
    if k < |s| && IsSpace(s[k]) then SpaceEnd(s, k + 1) else k
  }

  /** The index of the first character at or after `k` that is not a digit */
  function DigitEnd(s: seq<char>, k: nat): (r: nat)
    requires k <= |s|
    ensures k <= r <= |s|
    decreases |s| - k
  {
    if k < |s| && IsDigit(s[k]) then DigitEnd(s, k + 1) else k
  }

  /** The number the digits `s[a..b]` denote */
  function WholeValue(s: seq<char>, a: nat, b: nat): nat
    requires a <= b <= |s|
    decreases b - a
  {
    if a == b then 0 else 10 * WholeValue(s, a, b - 1) + DigitValue(s[b - 1])
  }

  /** The value of the digits `s[a..b]` read after a decimal point */
  function FractionAt(s: seq<char>, a: nat, b: nat): real
    requires a <= b <= |s|
    decreases b - a
  {
    if a == b then 0.0 else (DigitValue(s[a]) as real + FractionAt(s, a + 1, b)) / 10.0
  }

  /** `std::stof`: leading white space, an optional sign, digits with an
      optional fraction, and at least one digit; the longest such prefix is
      converted and the rest ignored. `None` is the `std::invalid_argument`
      that `stof` throws when nothing can be converted. */
  function ParseFloat(s: seq<char>): Option<real> {
    var k := SpaceEnd(s, 0);
    var negative := k < |s| && s[k] == '-';
    var signed := negative || (k < |s| && s[k] == '+');
    match Unsigned(s, if signed then k + 1 else k)
    case Some(m) => Some(if negative then -m else m)
    case None => None
  }

  /** Digits with an optional fraction from index `k` of `s`, without sign */
  function Unsigned(s: seq<char>, k: nat): Option<real>
    requires k <= |s|
  {
    var n := DigitEnd(s, k);
    var m := if n < |s| && s[n] == '.' then DigitEnd(s, n + 1) else n;
    if n == k && m <= n + 1 then None
    else Some(WholeValue(s, k, n) as real + (if m > n then FractionAt(s, n + 1, m) else 0.0))
  }

  predicate IsHexDigit(c: char) {
    IsDigit(c) || 'a' <= c <= 'f' || 'A' <= c <= 'F'
  }

  function HexValue(c: char): (v: nat)
    requires IsHexDigit(c)
    ensures v < 16
  {
    if IsDigit(c) then c as int - '0' as int
    else if 'a' <= c <= 'f' then c as int - 'a' as int + 10
    else c as int - 'A' as int + 10
  }

  /** `std::stoi(t, 0, 16)` on a two-character string: white space or a sign
      may precede the digits, and conversion stops at the first character that
      is not a hexadecimal digit. `None` is the `std::invalid_argument` thrown
      when no digit can be read. */
  function StoiHex(t: seq<char>): (r: Option<int>)
    requires |t| == 2
    ensures r.Some? ==> -15 <= r.value <= 255
  {
    if IsHexDigit(t[0]) && IsHexDigit(t[1]) then Some(16 * HexValue(t[0]) + HexValue(t[1]))
    else if IsHexDigit(t[0]) then Some(HexValue(t[0]))
    else if (IsSpace(t[0]) || t[0] == '+') && IsHexDigit(t[1]) then Some(HexValue(t[1]))
    else if t[0] == '-' && IsHexDigit(t[1]) then Some(-(HexValue(t[1]) as int))
    else None
  }

  function HexChar(v: nat): (c: char)
    requires v < 16
    ensures IsHexDigit(c) && HexValue(c) == v
  {
    if v < 10 then ('0' as int + v) as char else ('A' as int + v - 10) as char
  }

  /** The two upper-case hexadecimal digits an NMEA sentence ends with */
  function HexPair(v: nat): (t: seq<char>)
    requires v < 256
  {
    [HexChar(v / 16), HexChar(v % 16)]
  }

  /** Reading back the two digits of a checksum gives the checksum. */
  lemma StoiHexRoundTrip(v: nat)
    requires v < 256
    ensures StoiHex(HexPair(v)) == Some(v)
  {
  }

  /** The scanner's digit values agree with the values of the digit strings. */
  lemma {:induction false} WholeValueIs(s: seq<char>, a: nat, b: nat)
    requires a <= b <= |s|
    ensures WholeValue(s, a, b) == DigitsValue(s[a..b])
    decreases b - a
  {
    if a < b {
      WholeValueIs(s, a, b - 1);
      assert s[a..b][..b - a - 1] == s[a..b - 1];
    }
  }

  lemma {:induction false} FractionAtIs(s: seq<char>, a: nat, b: nat)
    requires a <= b <= |s|
    ensures FractionAt(s, a, b) == FractionValue(s[a..b])
    decreases b - a
  {
    if a < b {
      FractionAtIs(s, a + 1, b);
      assert s[a..b][1..] == s[a + 1..b];
    }
  }

  /** The digit scan stops at the first character that is not a digit. */
  lemma {:induction false} DigitEndAt(s: seq<char>, k: nat, e: nat)
    requires k <= e <= |s|
    requires forall j :: k <= j < e ==> IsDigit(s[j])
    requires e == |s| || !IsDigit(s[e])
    ensures DigitEnd(s, k) == e
    decreases e - k
  {
    if k < e {
      DigitEndAt(s, k + 1, e);
    }
  }

  /** `stof` of a digit string followed by a character that cannot continue a
      number is the value of the digits. An exponent ('e' or 'E') or a
      hexadecimal prefix ('x' or 'X') would continue it, so they are not
      allowed to follow. */
  lemma ParseDigits(d: seq<char>, rest: seq<char>)
    requires |d| > 0 && AllDigits(d)
    requires rest == [] || (!IsDigit(rest[0]) && rest[0] !in ".eExX")
    ensures ParseFloat(d + rest) == Some(DigitsValue(d) as real)
  {
    var s := d + rest;
    assert SpaceEnd(s, 0) == 0;
    DigitEndAt(s, 0, |d|);
    WholeValueIs(s, 0, |d|);
    assert s[0..|d|] == d;
  }

  /** `stof` of `whole.fraction` (both digit strings) followed by a character
      that cannot continue a number, which excludes an exponent. */
  lemma ParseDecimal(whole: seq<char>, frac: seq<char>, rest: seq<char>)
    requires |whole| > 0 && AllDigits(whole) && AllDigits(frac)
    requires rest == [] || (!IsDigit(rest[0]) && rest[0] !in "eE")
    ensures ParseFloat(whole + ['.'] + frac + rest) == Some(Decimal(whole, frac))
  {
    var s := whole + ['.'] + frac + rest;
    var n := |whole|;
    var m := n + 1 + |frac|;
    assert SpaceEnd(s, 0) == 0;
    DigitEndAt(s, 0, n);
    DigitEndAt(s, n + 1, m);
    WholeValueIs(s, 0, n);
    FractionAtIs(s, n + 1, m);
    assert s[0..n] == whole;
    assert s[n + 1..m] == frac;
  }
}
