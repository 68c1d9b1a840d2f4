/**
 * The NMEA 0183 sentence checksum: the XOR of the bytes between the leading
 * '$' and the '*', written after the '*' as two hexadecimal digits. The
 * parser skips every '$', not only the leading one, and stops at the first
 * '*'. Its accumulator is a C++ `int` into which each (signed) `char` is
 * XOR-ed, so bytes of 128 and above are sign-extended.
 */
module Checksum {

  /** The byte a character of the C++ string holds */
  function Byte(c: char): bv8 {
    ((c as int) % 256) as bv8
  }

  /** The characters in front of the first '*' */
  function BeforeStar(s: seq<char>): (r: seq<char>)
    ensures r <= s && '*' !in r
    ensures |r| < |s| ==> s[|r|] == '*'
  {
    if s == [] || s[0] == '*' then [] else [s[0]] + BeforeStar(s[1..])
  }

  /** `s` without its '$' characters */
  function Strip(s: seq<char>): (r: seq<char>)
    ensures '$' !in r && |r| <= |s|
  {
    if s == [] then []
    else Strip(s[..|s| - 1]) + (if s[|s| - 1] == '$' then [] else [s[|s| - 1]])
  }

  /** XOR of the bytes of `s` */
  function Xor(s: seq<char>): bv8 {
    if s == [] then 0 else Xor(s[..|s| - 1]) ^ Byte(s[|s| - 1])
  }

  /** The characters the checksum covers */
  function Payload(s: seq<char>): seq<char> {
    Strip(BeforeStar(s))
  }

  /** The checksum byte of a sentence */
  function ChecksumOf(s: seq<char>): bv8 {
    Xor(Payload(s))
  }

  /** A signed `char` holding `b`, converted to a 32-bit two's-complement `int` */
  function Widen(b: bv8): bv32 {
    if b < 128 then b as bv32 else b as bv32 | 0xFFFF_FF00
  }

  /** The `int` a 32-bit two's-complement pattern denotes */
  function SignedInt(w: bv32): int {
    if w < 0x8000_0000 then w as int else w as int - 0x1_0000_0000
  }

  /** The value of a signed `char` holding `b` */
  function SignedChar(b: bv8): (v: int)
    ensures -128 <= v < 128
    ensures v == b as int || v == b as int - 256
    ensures 0 <= v <==> b < 128
  {
    if b < 128 then b as int else b as int - 256
  }

  /** The low byte of a 32-bit pattern */
  function LowByte(w: bv32): bv8 {
    (w & 0xFF) as bv8
  }

  /** A sign-extended byte XOR-ed with a sign-extended character is again a
      sign-extended byte, and its low byte is the XOR of the two bytes. */
  lemma ExtendedXor(acc: bv32, c: bv8)
    requires acc == Widen(LowByte(acc))
    ensures acc ^ Widen(c) == Widen(LowByte(acc ^ Widen(c)))
    ensures LowByte(acc ^ Widen(c)) == LowByte(acc) ^ c
  {
  }

  /** So the `int` accumulator, which starts as a sign-extended byte, always
      holds the sign extension of the XOR of the bytes seen so far. */
  lemma WidenXor(acc: bv32, x: bv8, c: bv8)
    requires acc == Widen(x)
    ensures acc ^ Widen(c) == Widen(x ^ c)
  {
    assert LowByte(acc) == x;
    ExtendedXor(acc, c);
  }

  /** The accumulator's `int` value is the signed character's value. */
  lemma WidenValue(b: bv8)
    ensures SignedInt(Widen(b)) == SignedChar(b)
  {
  }

  /** Only the zero byte widens to zero. */
  lemma WidenZero(b: bv8)
    ensures Widen(b) == 0 <==> b == 0
  {
  }

  lemma {:induction false} XorConcat(a: seq<char>, b: seq<char>)
    ensures Xor(a + b) == Xor(a) ^ Xor(b)
    decreases |b|
  {
    if b == [] {
      assert a + b == a;
    } else {
      var b' := b[..|b| - 1];
      assert (a + b)[..|a + b| - 1] == a + b';
      XorConcat(a, b');
    }
  }

  lemma {:induction false} StripConcat(a: seq<char>, b: seq<char>)
    ensures Strip(a + b) == Strip(a) + Strip(b)
    decreases |b|
  {
    if b == [] {
      assert a + b == a;
    } else {
      var b' := b[..|b| - 1];
      assert (a + b)[..|a + b| - 1] == a + b';
      StripConcat(a, b');
    }
  }

  lemma {:induction false} BeforeStarConcat(a: seq<char>, b: seq<char>)
    requires '*' !in a
    ensures BeforeStar(a + b) == a + BeforeStar(b)
  {
    if a != [] {
      assert (a + b)[0] == a[0] && (a + b)[1..] == a[1..] + b;
      BeforeStarConcat(a[1..], b);
      calc {
        BeforeStar(a + b);
        [a[0]] + BeforeStar(a[1..] + b);
        [a[0]] + (a[1..] + BeforeStar(b));
        ([a[0]] + a[1..]) + BeforeStar(b);
        { assert [a[0]] + a[1..] == a; }
        a + BeforeStar(b);
      }
    } else {
      assert a + b == b;
    }
  }

  /** Nothing at or after the first '*', the two checksum digits included,
      affects the checksum. */
  lemma ChecksumStopsAtStar(p: seq<char>, tail: seq<char>)
    requires '*' !in p
    ensures ChecksumOf(p + ['*'] + tail) == Xor(Strip(p))
  {
    var rest := ['*'] + tail;
    assert p + ['*'] + tail == p + rest;
    BeforeStarConcat(p, rest);
    assert BeforeStar(rest) == [];
    assert p + [] == p;
  }

  /** Changing one payload character to one holding a different byte always
      changes the checksum. */
  lemma ChecksumDetectsChange(a: seq<char>, c: char, d: char, b: seq<char>)
    requires '*' !in a
    requires c != '$' && c != '*' && d != '$' && d != '*'
    requires Byte(c) != Byte(d)
    ensures ChecksumOf(a + [c] + b) != ChecksumOf(a + [d] + b)
  {
    ChecksumSplit(a, c, b);
    ChecksumSplit(a, d, b);
  }

  lemma ChecksumSplit(a: seq<char>, c: char, b: seq<char>)
    requires '*' !in a && c != '$' && c != '*'
    ensures ChecksumOf(a + [c] + b) == Xor(Strip(a)) ^ Byte(c) ^ ChecksumOf(b)
  {
    assert '*' !in a + [c];
    BeforeStarConcat(a + [c], b);
    StripConcat(a + [c], BeforeStar(b));
    StripConcat(a, [c]);
    assert Strip([c]) == [c] by {
      assert [c][..0] == [];
    }
    XorConcat(Strip(a) + [c], Payload(b));
    XorConcat(Strip(a), [c]);
    assert Xor([c]) == Byte(c) by {
      assert [c][..0] == [];
    }
  }

  /** Every character below 128 (ASCII) leaves the checksum below 128, so it
      fits a signed `char` without changing sign. */
  lemma {:induction false} AsciiXor(s: seq<char>)
    requires forall j :: 0 <= j < |s| ==> s[j] as int < 128
    ensures Xor(s) < 128
    decreases |s|
  {
    if s != [] {
      AsciiXor(s[..|s| - 1]);
      var x, y := Xor(s[..|s| - 1]), Byte(s[|s| - 1]);
      assert y < 128;
      assert x ^ y < 128 by {
        BelowHalf(x, y);
      }
    }
  }

  lemma BelowHalf(x: bv8, y: bv8)
    requires x < 128 && y < 128
    ensures x ^ y < 128
  {
  }

  lemma {:induction false} StripAscii(s: seq<char>)
    requires forall j :: 0 <= j < |s| ==> s[j] as int < 128
    ensures forall j :: 0 <= j < |Strip(s)| ==> Strip(s)[j] as int < 128
    decreases |s|
  {
    if s != [] {
      StripAscii(s[..|s| - 1]);
    }
  }
}
