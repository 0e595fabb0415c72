/** Decimal numerals. */
module Decimals {

  predicate IsDigit(c: char) {
    '0' <= c <= '9'
  }

  predicate AllDigits(s: string) {
    s == "" || (IsDigit(s[0]) && AllDigits(s[1..]))
  }

  function Decimal(n: nat): (s: string)
    ensures s != "" && IsDigit(s[0])
  {
    if n < 10 then [DigitOf(n)] else Decimal(n / 10) + [DigitOf(n % 10)]
  }

  function DigitOf(v: nat): (c: char)
    requires v < 10
    ensures IsDigit(c) && c as int - '0' as int == v
  {
    ('0' as int + v) as char
  }

  lemma {:induction false} DecimalDigits(n: nat)
    ensures AllDigits(Decimal(n)) && (n > 0 ==> Decimal(n)[0] != '0')
  {
    if n >= 10 {
      DecimalDigits(n / 10);
      DigitsAppend(Decimal(n / 10), DigitOf(n % 10));
    }
  }

  lemma {:induction false} DigitsAppend(s: string, c: char)
    requires AllDigits(s) && IsDigit(c)
    ensures AllDigits(s + [c])
  {
    if s != "" {
      DigitsAppend(s[1..], c);
      assert (s + [c])[1..] == s[1..] + [c];
    }
  }

  /** The number that some more digits stand for after those worth acc. */
  function Numeral(s: string, acc: nat): nat
    requires AllDigits(s)
  {
    if s == "" then acc else Numeral(s[1..], 10 * acc + (s[0] as int - '0' as int))
  }

  lemma {:induction false} NumeralAppend(s: string, c: char, acc: nat)
    requires AllDigits(s) && IsDigit(c)
    ensures AllDigits(s + [c]) && Numeral(s + [c], acc) == 10 * Numeral(s, acc) + (c as int - '0' as int)
  {
    if s != "" {
      NumeralAppend(s[1..], c, 10 * acc + (s[0] as int - '0' as int));
      assert (s + [c])[1..] == s[1..] + [c];
    } else {
      assert "" + [c] == [c] && [c][1..] == "";
    }
  }

  lemma {:induction false} NumeralOfDecimal(n: nat)
    ensures AllDigits(Decimal(n)) && Numeral(Decimal(n), 0) == n
  {
    hide DigitOf;
    if n >= 10 {
      NumeralOfDecimal(n / 10);
      NumeralAppend(Decimal(n / 10), DigitOf(n % 10), 0);
    } else {
      NumeralAppend("", DigitOf(n), 0);
    }
  }
}
