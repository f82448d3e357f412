/** Decimal numerals. */
module Decimals {
  predicate IsDigit(c: char) {
    '0' <= c <= '9'
  }

  function DigitValue(c: char): nat
    requires IsDigit(c)
  {
    c as int - '0' as int
  }

  function DigitsValue(s: string): nat
    requires forall c | c in s :: IsDigit(c)
  {
    if s == [] then 0
    else
      assert s[|s| - 1] in s;
      10 * DigitsValue(s[..|s| - 1]) + DigitValue(s[|s| - 1])
  }

  function DecimalDigit(d: nat): char
    requires d < 10
  {
    (d + '0' as int) as char
  }

  function DecimalNat(n: nat): (s: string)
    ensures s != []
  {
    if n < 10 then [DecimalDigit(n)] else DecimalNat(n / 10) + [DecimalDigit(n % 10)]
  }

  lemma {:induction false} DecimalNatValue(n: nat)
    ensures (forall c | c in DecimalNat(n) :: IsDigit(c)) && DigitsValue(DecimalNat(n)) == n
    ensures DecimalNat(n)[0] == '0' ==> n == 0 && DecimalNat(n) == "0"
  {
    if n >= 10 {
      DecimalNatValue(n / 10);
      var s := DecimalNat(n);
      assert s[..|s| - 1] == DecimalNat(n / 10);
    } else {
      assert DigitsValue([]) == 0;
      var s := DecimalNat(n);
      assert s[..|s| - 1] == [];
    }
  }
}
