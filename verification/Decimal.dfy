/** strconv.Itoa: integers in base ten. */
module Decimals {
  predicate IsDigit(c: char) {
    '0' <= c <= '9'
  }

  function Digits(n: nat): (s: string)
    ensures s != "" && forall i :: 0 <= i < |s| ==> IsDigit(s[i])
  {
    if n < 10 then [('0' as int + n) as char] else Digits(n / 10) + [('0' as int + n % 10) as char]
  }

  function Decimal(n: int): (s: string)
    ensures s != "" && forall i :: 0 <= i < |s| ==> s[i] == '-' || IsDigit(s[i])
    ensures s[0] == '-' <==> n < 0
  {
    if n < 0 then "-" + Digits(-n)
    else
      var digits := Digits(n);
      assert IsDigit(digits[0]);
      digits
  }

  lemma {:induction false} DigitsInjective(m: nat, n: nat)
    requires Digits(m) == Digits(n)
    ensures m == n
    decreases m
  {
    var a, b := Digits(m), Digits(n);
    if m < 10 && n < 10 {
      assert a[0] == b[0];
    } else if m >= 10 && n >= 10 {
      assert a[..|a| - 1] == Digits(m / 10) && b[..|b| - 1] == Digits(n / 10);
      assert a[|a| - 1] == b[|b| - 1];
      DigitsInjective(m / 10, n / 10);
    }
  }

  lemma DecimalInjective(m: int, n: int)
    requires Decimal(m) == Decimal(n)
    ensures m == n
  {
    assert Decimal(m)[0] == Decimal(n)[0];
    if m < 0 && n < 0 {
      assert Decimal(m)[1..] == Digits(-m) && Decimal(n)[1..] == Digits(-n);
      DigitsInjective(-m, -n);
    } else if m >= 0 && n >= 0 {
      DigitsInjective(m, n);
    }
  }

  // ---- What the digits say ---------------------------------------------------------------

  /** The number a string of digits stands for. */
  function Value(s: string): int
    requires forall i :: 0 <= i < |s| ==> IsDigit(s[i])
  {
    if s == "" then 0 else 10 * Value(s[..|s| - 1]) + (s[|s| - 1] as int - '0' as int)
  }

  /** Digits are read back as the number, and none is in front without need. */
  lemma {:induction false} DigitsSay(n: nat)
    ensures Value(Digits(n)) == n && (n >= 10 ==> Digits(n)[0] != '0')
    decreases n
  {
    if n >= 10 {
      DigitsSay(n / 10);
      var s := Digits(n);
      assert s[..|s| - 1] == Digits(n / 10) && s[0] == Digits(n / 10)[0];
      if n < 100 { assert Digits(n / 10)[0] == ('0' as int + n / 10) as char; }
    } else {
      assert Digits(n)[..0] == "";
    }
  }

  lemma DecimalSays(n: int)
    ensures n >= 0 ==> Decimal(n) == Digits(n) && Value(Decimal(n)) == n
    ensures n < 0 ==> Decimal(n)[0] == '-' && Decimal(n)[1..] == Digits(-n) && Value(Decimal(n)[1..]) == -n
  {
    DigitsSay(if n < 0 then -n else n);
  }
}
