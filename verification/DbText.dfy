/** White space and numbers in the db file, stated without the functions that strip and read them. */
module DbText {
  import opened Decimals
  import opened DbGrammar

  // ------------------------------------------------------------- white space

  /** Blank, tab, newline, vertical tab, form feed, carriage return. */
  const SPACES := [' ', '\t', '\n', '\U{000B}', '\U{000C}', '\r']

  lemma SpaceIs(c: char)
    ensures IsSpace(c) <==> c in SPACES
  {
  }

  /** `s` is `t` with any of these characters put in, anywhere. */
  predicate Spaced(t: string, s: string) {
    if s == [] then t == []
    else (s[0] in SPACES && Spaced(t, s[1..])) || (t != [] && s[0] == t[0] && Spaced(t[1..], s[1..]))
  }

  lemma {:induction false} SpacedStrips(t: string, s: string)
    requires Spaced(t, s)
    ensures Strip(t) == Strip(s)
    decreases |s|
  {
    hide IsSpace, SPACES;
    if s != [] {
      SpaceIs(s[0]);
      if s[0] in SPACES && Spaced(t, s[1..]) {
        SpacedStrips(t, s[1..]);
      } else {
        SpacedStrips(t[1..], s[1..]);
      }
    }
  }

  lemma {:induction false} StripSpaced(s: string)
    ensures Spaced(Strip(s), s) && forall c | c in Strip(s) :: c !in SPACES
  {
    hide IsSpace, SPACES;
    if s != [] {
      SpaceIs(s[0]);
      StripSpaced(s[1..]);
      assert s[0] !in SPACES ==> Strip(s)[1..] == Strip(s[1..]);
    }
  }

  lemma {:induction false} StripSolid(s: string)
    requires forall c | c in s :: !IsSpace(c)
    ensures Strip(s) == s
  {
    if s != [] {
      assert s[0] in s && forall c | c in s[1..] :: c in s;
      StripSolid(s[1..]);
    }
  }

  /** Stripping takes out white space, all of it, and nothing else. */
  lemma StripIs(s: string, t: string)
    ensures Strip(s) == t <==> Spaced(t, s) && forall c | c in t :: c !in SPACES
  {
    hide Strip, Spaced, IsSpace, SPACES;
    StripSpaced(s);
    if Spaced(t, s) && forall c | c in t :: c !in SPACES {
      forall c | c in t
        ensures !IsSpace(c)
      {
        SpaceIs(c);
      }
      SpacedStrips(t, s);
      StripSolid(t);
    }
  }

  // ----------------------------------------------------------------- numbers

  const DIGITS := "0123456789"

  lemma DigitIs(c: char)
    ensures IsDigit(c) <==> c in DIGITS
    ensures IsDigit(c) ==> DIGITS[DigitValue(c)] == c
  {
    assert IsDigit(c) ==> c == DIGITS[c as int - '0' as int];
  }

  /** A sign or none, digits, and what does not go on with a digit. */
  predicate Numeral(sign: string, digits: string, t: string) {
    && sign in ["", "+", "-"]
    && digits != [] && (forall c | c in digits :: c in DIGITS)
    && (t == [] || t[0] !in DIGITS)
  }

  lemma {:induction false} DigitsEnd(digits: string, t: string)
    requires (forall c | c in digits :: IsDigit(c)) && (t == [] || !IsDigit(t[0]))
    ensures Digits(digits + t) == |digits|
  {
    if digits == [] {
      assert digits + t == t;
    } else {
      assert digits[0] in digits && forall c | c in digits[1..] :: c in digits;
      assert (digits + t)[1..] == digits[1..] + t;
      DigitsEnd(digits[1..], t);
    }
  }

  lemma {:induction false} DigitsStop(s: string)
    ensures Digits(s) < |s| ==> !IsDigit(s[Digits(s)])
  {
    if s != [] && IsDigit(s[0]) {
      DigitsStop(s[1..]);
    }
  }

  lemma AllDigit(digits: string)
    ensures (forall c | c in digits :: c in DIGITS) <==> forall c | c in digits :: IsDigit(c)
  {
    hide IsDigit, DIGITS;
    forall c | c in digits
      ensures c in DIGITS <==> IsDigit(c)
    {
      DigitIs(c);
    }
  }

  lemma SignCut(sign: string, digits: string, t: string)
    requires Numeral(sign, digits, t)
    ensures var s := sign + digits + t;
            SignLength(s) == |sign| && s[|sign|..] == digits + t && (s[0] == '-' <==> sign == "-")
  {
    hide IsDigit, DIGITS;
    assert digits[0] in digits;
    DigitIs(digits[0]);
    SignIsNoDigit();
    assert sign + digits + t == sign + (digits + t);
  }

  /** What follows the digits does not matter; the range is that of 64 bits. */
  lemma StolIs(sign: string, digits: string, t: string)
    requires Numeral(sign, digits, t)
    ensures forall c | c in digits :: IsDigit(c)
    ensures var d: int := DigitsValue(digits);
            var n := if sign == "-" then -d else d;
            Stol(sign + digits + t)
            == if -0x8000_0000_0000_0000 <= n <= 0x7FFF_FFFF_FFFF_FFFF then Long(n) else Error(OutOfRange)
  {
    hide IsDigit, DIGITS, DigitsValue, Digits, SignLength;
    AllDigit(digits);
    if t != [] {
      DigitIs(t[0]);
    }
    DigitsEnd(digits, t);
    SignCut(sign, digits, t);
    assert (digits + t)[..|digits|] == digits;
  }

  lemma SignIsNoDigit()
    ensures !IsDigit('+') && !IsDigit('-')
  {
  }

  predicate CutAs(s: string, sign: string, digits: string, t: string) {
    Numeral(sign, digits, t) && s == sign + digits + t
  }

  /** Text that begins with a number. */
  ghost predicate Begins(s: string) {
    exists sign, digits, t :: CutAs(s, sign, digits, t)
  }

  lemma BeginsAs(s: string, sign: string, digits: string, t: string)
    requires CutAs(s, sign, digits, t)
    ensures Begins(s)
  {
  }

  lemma BeginsWith(s: string)
    requires Digits(s[SignLength(s)..]) > 0
    ensures Begins(s)
  {
    hide Begins, IsDigit, DIGITS, Digits, SignLength;
    var sign, u := s[..SignLength(s)], s[SignLength(s)..];
    var digits, t := u[..Digits(u)], u[Digits(u)..];
    SignIs(s);
    DigitsFirst(u);
    assert u == digits + t && sign + (digits + t) == sign + digits + t;
    assert s == sign + u;
    BeginsAs(s, sign, digits, t);
  }

  /** Text that does not begin with a number is an invalid argument, and no other is. */
  lemma StolRefuses(s: string)
    ensures Stol(s) == Error(InvalidArgument) <==> !Begins(s)
  {
    hide Begins, CutAs, Numeral, IsDigit, DIGITS, DigitsValue, Digits;
    if Stol(s) != Error(InvalidArgument) {
      BeginsWith(s);
    }
    if Begins(s) {
      BeginsValid(s);
    }
  }

  lemma BeginsValid(s: string)
    requires Begins(s)
    ensures Stol(s) != Error(InvalidArgument)
  {
    hide Stol, Numeral, IsDigit, DIGITS, DigitsValue;
    var sign, digits, t :| CutAs(s, sign, digits, t);
    StolIs(sign, digits, t);
  }

  lemma SignIs(s: string)
    ensures s[..SignLength(s)] in ["", "+", "-"]
  {
    assert SignLength(s) == 1 ==> s[..1] == [s[0]];
  }

  lemma DigitsFirst(u: string)
    ensures forall c | c in u[..Digits(u)] :: c in DIGITS
    ensures Digits(u) < |u| ==> u[Digits(u)] !in DIGITS
  {
    hide IsDigit, DIGITS, Digits;
    DigitsAreDigits(u);
    AllDigit(u[..Digits(u)]);
    DigitsStop(u);
    if Digits(u) < |u| {
      DigitIs(u[Digits(u)]);
    }
  }

  /** Zeros in front do not count. */
  lemma {:induction false} LeadingZero(digits: string)
    requires forall c | c in digits :: IsDigit(c)
    ensures DigitsValue(['0'] + digits) == DigitsValue(digits)
  {
    if digits == [] {
      assert DigitsValue([]) == 0;
    } else {
      var s := ['0'] + digits;
      assert s[..|s| - 1] == ['0'] + digits[..|digits| - 1];
      assert s[|s| - 1] == digits[|digits| - 1];
      LeadingZero(digits[..|digits| - 1]);
    }
  }
}
