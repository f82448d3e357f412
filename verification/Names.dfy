/** Names the code generator builds, and why no two of them meet. */
module Names {
  import opened Strings

  /** A `std::string` holds bytes. */
  type ByteString = s: string | forall i | 0 <= i < |s| :: s[i] as int < 256

  // ------------------------------------------------------------- identifiers

  /** `isalnum` in the C locale. */
  predicate IsAlnum(c: char) {
    '0' <= c <= '9' || 'A' <= c <= 'Z' || 'a' <= c <= 'z'
  }

  const DIGITS := "0123456789"
  const UPPER := "ABCDEFGHIJKLMNOPQRSTUVWXYZ"
  const LOWER := "abcdefghijklmnopqrstuvwxyz"

  /** The letters and digits of ASCII, and no others. */
  lemma AlnumIs(c: char)
    ensures IsAlnum(c) <==> c in DIGITS || c in UPPER || c in LOWER
  {
    hide DIGITS, UPPER, LOWER;
    DigitIs(c);
    UpperIs(c);
    LowerIs(c);
  }

  lemma DigitIs(c: char)
    ensures '0' <= c <= '9' <==> c in DIGITS
  {
    assert '0' <= c <= '9' ==> DIGITS[c as int - 48] == c;
  }

  lemma UpperIs(c: char)
    ensures 'A' <= c <= 'Z' <==> c in UPPER
  {
    assert 'A' <= c <= 'Z' ==> UPPER[c as int - 65] == c;
  }

  lemma LowerIs(c: char)
    ensures 'a' <= c <= 'z' <==> c in LOWER
  {
    assert 'a' <= c <= 'z' ==> LOWER[c as int - 97] == c;
  }

  function Hex(n: nat): char
    requires n < 16
  {
    "0123456789abcdef"[n]
  }

  function HexValue(c: char): nat {
    if '0' <= c <= '9' then c as int - '0' as int
    else if 'a' <= c <= 'f' then c as int - 'a' as int + 10
    else 0
  }

  lemma HexBack(n: nat)
    requires n < 16
    ensures HexValue(Hex(n)) == n && IsAlnum(Hex(n))
  {
    assert n == 0 || n == 1 || n == 2 || n == 3 || n == 4 || n == 5 || n == 6 || n == 7
           || n == 8 || n == 9 || n == 10 || n == 11 || n == 12 || n == 13 || n == 14 || n == 15;
  }

  function Escaped(c: char): string
    requires c as int < 256
  {
    if IsAlnum(c) then [c] else ['_', Hex(c as int / 16), Hex(c as int % 16)]
  }

  function Identifier(filename: ByteString): string {
    if filename == [] then [] else Escaped(filename[0]) + Identifier(filename[1..])
  }

  method FilenameIdentifier(filename: ByteString) returns (result: string)
    ensures result == Identifier(filename)
  {
    hide Identifier;
    result := [];
    NothingLeft(filename);
    for i := 0 to |filename|
      invariant result + Identifier(filename[i..]) == Identifier(filename)
    {
      OneMore(filename, i, result);
      var c := filename[i];
      if IsAlnum(c) {
        result := result + [c];
      } else {
        result := result + ['_'];
        result := result + [Hex(c as int / 16)];
        result := result + [Hex(c as int % 16)];
      }
    }
  }

  lemma NothingLeft(filename: ByteString)
    ensures filename[0..] == filename && Identifier(filename[|filename|..]) == []
  {
  }

  lemma OneMore(filename: ByteString, i: nat, done: string)
    requires i < |filename|
    ensures done + Identifier(filename[i..]) == done + Escaped(filename[i]) + Identifier(filename[i + 1..])
    ensures !IsAlnum(filename[i]) ==>
              done + Escaped(filename[i])
              == done + ['_'] + [Hex(filename[i] as int / 16)] + [Hex(filename[i] as int % 16)]
  {
    assert filename[i..][1..] == filename[i + 1..];
  }

  /** Takes the escapes back. */
  function Unescaped(s: string): string {
    if s == [] then []
    else if s[0] == '_' && |s| >= 3 then
      [(16 * HexValue(s[1]) + HexValue(s[2])) as char] + Unescaped(s[3..])
    else [s[0]] + Unescaped(s[1..])
  }

  lemma EscapeBack(c: char, s: string)
    requires c as int < 256
    ensures Unescaped(Escaped(c) + s) == [c] + Unescaped(s)
  {
    var e := Escaped(c);
    if IsAlnum(c) {
      assert (e + s)[1..] == s;
    } else {
      HexBack(c as int / 16);
      HexBack(c as int % 16);
      assert (e + s)[3..] == s;
    }
  }

  lemma {:induction false} IdentifierBack(filename: ByteString)
    ensures Unescaped(Identifier(filename)) == filename
    ensures forall c | c in Identifier(filename) :: IsAlnum(c) || c == '_'
  {
    if filename != [] {
      IdentifierBack(filename[1..]);
      EscapeBack(filename[0], Identifier(filename[1..]));
      if !IsAlnum(filename[0]) {
        HexBack(filename[0] as int / 16);
        HexBack(filename[0] as int % 16);
      }
    }
  }

  function IncludeGuard(filename: ByteString): string {
    "GRPC_CB_" + Identifier(filename) + "__INCLUDED"
  }

  function AssignDescriptorsName(filename: ByteString): string {
    "AssignDesc_" + Identifier(filename)
  }

  /** Files with different names get different guards and different descriptor functions. */
  lemma GuardsDiffer(f: ByteString, g: ByteString)
    ensures IncludeGuard(f) == IncludeGuard(g) <==> f == g
    ensures AssignDescriptorsName(f) == AssignDescriptorsName(g) <==> f == g
  {
    IdentifierBack(f);
    IdentifierBack(g);
    Middle("GRPC_CB_", Identifier(f), Identifier(g), "__INCLUDED");
    Middle("AssignDesc_", Identifier(f), Identifier(g), "");
  }

  lemma Middle(a: string, b: string, b': string, c: string)
    ensures a + b + c == a + b' + c <==> b == b'
    ensures a + b == a + b' <==> b == b'
  {
    if a + b + c == a + b' + c {
      assert b == (a + b + c)[|a|..|a + b + c| - |c|];
      assert b' == (a + b' + c)[|a|..|a + b' + c| - |c|];
    }
    if a + b == a + b' {
      assert b == (a + b)[|a|..] && b' == (a + b')[|a|..];
    }
  }
}
