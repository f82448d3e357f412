/** Valid UTF-8 is what the code points of Unicode encode to. */
module Utf8 {
  import opened Wire
  import opened Messages

  /** A Unicode scalar value. */
  type CodePoint = c: int | 0 <= c <= 0x10FFFF && !(0xD800 <= c <= 0xDFFF)

  /** One code point in groups of six bits (section 3 of RFC 3629). */
  function EncodePoint(c: CodePoint): (s: bytes)
    ensures s != []
  {
    if c < 0x80 then [c]
    else if c < 0x800 then [0xC0 + c / 64, 0x80 + c % 64]
    else if c < 0x10000 then [0xE0 + c / 64 / 64, 0x80 + c / 64 % 64, 0x80 + c % 64]
    else [0xF0 + c / 64 / 64 / 64, 0x80 + c / 64 / 64 % 64, 0x80 + c / 64 % 64, 0x80 + c % 64]
  }

  function EncodePoints(cs: seq<CodePoint>): bytes {
    if cs == [] then [] else EncodePoint(cs[0]) + EncodePoints(cs[1..])
  }

  /** The front of the input is a character exactly as far as a code point encodes to it. */
  lemma PointIsChar(c: CodePoint, t: bytes)
    ensures Utf8Char(EncodePoint(c) + t) == |EncodePoint(c)|
  {
  }

  /** The number in the groups of one character. */
  function PointOf(s: bytes): int
    requires 1 <= |s| <= 4
  {
    var b: seq<int> := s;
    if |b| == 1 then b[0]
    else if |b| == 2 then 64 * (b[0] - 0xC0) + (b[1] - 0x80)
    else if |b| == 3 then 64 * (64 * (b[0] - 0xE0) + (b[1] - 0x80)) + (b[2] - 0x80)
    else 64 * (64 * (64 * (b[0] - 0xF0) + (b[1] - 0x80)) + (b[2] - 0x80)) + (b[3] - 0x80)
  }

  lemma Group(high: int, low: int)
    requires 0 <= low < 64
    ensures (64 * high + low) / 64 == high && (64 * high + low) % 64 == low
  {
  }

  lemma TwoBytes(a: int, b: int)
    requires 2 <= a < 32 && 0 <= b < 64
    ensures EncodePoint(64 * a + b) == [0xC0 + a, 0x80 + b]
  {
    Group(a, b);
  }

  lemma ThreeBytes(a: int, b: int, c: int)
    requires 0 <= a < 16 && 0 <= b < 64 && 0 <= c < 64
    requires 0x800 <= 64 * (64 * a + b) + c && !(0xD800 <= 64 * (64 * a + b) + c <= 0xDFFF)
    ensures EncodePoint(64 * (64 * a + b) + c) == [0xE0 + a, 0x80 + b, 0x80 + c]
  {
    Group(a, b);
    Group(64 * a + b, c);
  }

  lemma FourBytes(a: int, b: int, c: int, d: int)
    requires 0 <= a < 5 && 0 <= b < 64 && 0 <= c < 64 && 0 <= d < 64
    requires 0x10000 <= 64 * (64 * (64 * a + b) + c) + d <= 0x10FFFF
    ensures EncodePoint(64 * (64 * (64 * a + b) + c) + d) == [0xF0 + a, 0x80 + b, 0x80 + c, 0x80 + d]
  {
    Group(a, b);
    Group(64 * a + b, c);
    Group(64 * (64 * a + b) + c, d);
  }

  /** The character at the front is a code point's. */
  lemma CharIsPoint(s: bytes) returns (c: CodePoint)
    requires s != [] && Utf8Char(s) > 0
    ensures EncodePoint(c) == s[..Utf8Char(s)]
  {
    var n, b: seq<int> := Utf8Char(s), s;
    if n == 1 {
      c := b[0];
      assert EncodePoint(c) == [s[0]] == s[..1];
    } else {
      hide EncodePoint;
      var y := b[1] - 0x80;
      if n == 2 {
        TwoBytes(b[0] - 0xC0, y);
        c := 64 * (b[0] - 0xC0) + y;
        assert s[..2] == [s[0], s[1]];
      } else if n == 3 {
        var x, z := b[0] - 0xE0, b[2] - 0x80;
        ThreeBytes(x, y, z);
        c := 64 * (64 * x + y) + z;
        assert s[..3] == [s[0], s[1], s[2]];
      } else {
        var x, z, w := b[0] - 0xF0, b[2] - 0x80, b[3] - 0x80;
        FourBytes(x, y, z, w);
        c := 64 * (64 * (64 * x + y) + z) + w;
        assert s[..4] == [s[0], s[1], s[2], s[3]];
      }
    }
  }

  lemma {:induction false} PointsAreValid(cs: seq<CodePoint>)
    ensures ValidUtf8(EncodePoints(cs))
  {
    hide Utf8Char, EncodePoint;
    if cs != [] {
      var e, t := EncodePoint(cs[0]), EncodePoints(cs[1..]);
      PointIsChar(cs[0], t);
      PointsAreValid(cs[1..]);
      assert (e + t)[|e|..] == t;
    }
  }

  lemma {:induction false} ValidIsPoints(s: bytes) returns (cs: seq<CodePoint>)
    requires ValidUtf8(s)
    ensures s == EncodePoints(cs)
    decreases |s|
  {
    hide Utf8Char, EncodePoint;
    cs := [];
    if s != [] {
      var n := Utf8Char(s);
      var c := CharIsPoint(s);
      var rest := ValidIsPoints(s[n..]);
      cs := [c] + rest;
      assert s == s[..n] + s[n..];
    }
  }

  /** A byte string is valid exactly if it is the encoding of some code points. */
  lemma ValidUtf8Iff(s: bytes)
    ensures ValidUtf8(s) <==> exists cs: seq<CodePoint> :: s == EncodePoints(cs)
  {
    if ValidUtf8(s) {
      var cs := ValidIsPoints(s);
    }
    if cs: seq<CodePoint> :| s == EncodePoints(cs) {
      PointsAreValid(cs);
    }
  }

  /** No code points but those encode to it. */
  lemma {:induction false} PointsUnique(cs: seq<CodePoint>, ds: seq<CodePoint>)
    requires EncodePoints(cs) == EncodePoints(ds)
    ensures cs == ds
  {
    hide Utf8Char, EncodePoint;
    if cs != [] && ds != [] {
      var e, f := EncodePoint(cs[0]), EncodePoint(ds[0]);
      var s, t := EncodePoints(cs[1..]), EncodePoints(ds[1..]);
      PointIsChar(cs[0], s);
      PointIsChar(ds[0], t);
      assert e == (e + s)[..|e|] && f == (f + t)[..|f|];
      assert s == (e + s)[|e|..] && t == (f + t)[|f|..];
      PointBack(cs[0]);
      PointBack(ds[0]);
      PointsUnique(cs[1..], ds[1..]);
    }
  }

  lemma PointBack(c: CodePoint)
    ensures |EncodePoint(c)| <= 4 && PointOf(EncodePoint(c)) == c
  {
  }
}
