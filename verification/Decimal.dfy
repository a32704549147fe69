/** Decimal numerals: printing, zero padding and Rust's unsigned `parse`. */
module Decimal {
  import opened Wrappers
  import opened Division

  predicate IsDigit(c: char) {
    '0' <= c <= '9'
  }

  function DigitValue(c: char): nat
    requires IsDigit(c)
  {
    c as int - '0' as int
  }

  function DigitChar(d: nat): (c: char)
    requires d < 10
    ensures IsDigit(c) && DigitValue(c) == d
  {
    (d + '0' as int) as char
  }

  predicate AllDigits(s: string) {
    forall i :: 0 <= i < |s| ==> IsDigit(s[i])
  }

  /** The number a digit string denotes. */
  function Value(s: string): nat
    requires AllDigits(s)
  {
    if s == [] then 0 else 10 * Value(s[..|s| - 1]) + DigitValue(s[|s| - 1])
  }

  /** The numeral printed for `n`. */
  function Numeral(n: nat): (s: string)
    ensures s != [] && AllDigits(s)
  {
    if n < 10 then [DigitChar(n)] else Numeral(n / 10) + [DigitChar(n % 10)]
  }

  /** `str::parse` into an unsigned type with values below `bound`: an optional
      `+`, then at least one digit, nothing else, no overflow. */
  function ParseUnsigned(s: string, bound: nat): (r: Option<nat>)
    ensures r.Some? ==> r.value < bound
  {
    var digits := if s != [] && s[0] == '+' then s[1..] else s;
    if digits == [] || !AllDigits(digits) then None
    else if Value(digits) >= bound then None
    else Some(Value(digits))
  }

  /** Digits, with or without a plus sign before them, are read unless the number
      is too large; nothing else is. */
  lemma ParseDigits(digits: string, bound: nat)
    requires digits != [] && AllDigits(digits)
    ensures ParseUnsigned(digits, bound) == if Value(digits) < bound then Some(Value(digits)) else None
    ensures ParseUnsigned(['+'] + digits, bound) == ParseUnsigned(digits, bound)
  {
    assert (['+'] + digits)[1..] == digits;
    assert IsDigit(digits[0]);
  }

  lemma ParseNothingElse(s: string, bound: nat)
    requires s == "" || s == "+" || (exists i :: 0 <= i < |s| && !IsDigit(s[i]) && (i > 0 || s[0] != '+'))
    ensures ParseUnsigned(s, bound) == None
  {
    if |s| > 1 {
      var i :| 0 <= i < |s| && !IsDigit(s[i]) && (i > 0 || s[0] != '+');
      assert i > 0 ==> s[1..][i - 1] == s[i];
    }
  }

  lemma {:induction false} NumeralValue(n: nat)
    ensures Value(Numeral(n)) == n
  {
    if n >= 10 {
      NumeralValue(n / 10);
      assert Numeral(n)[..|Numeral(n)| - 1] == Numeral(n / 10);
    } else {
      assert Numeral(n)[..0] == [];
      assert Value(Numeral(n)[..0]) == 0;
    }
  }

  /** Printing then parsing gives the number back, if the type can hold it. */
  lemma ParseNumeral(n: nat, bound: nat)
    ensures ParseUnsigned(Numeral(n), bound) == if n < bound then Some(n) else None
  {
    NumeralValue(n);
    assert Numeral(n)[0] != '+';
  }

  lemma NumeralInjective(n: nat, m: nat)
    requires Numeral(n) == Numeral(m)
    ensures n == m
  {
    NumeralValue(n);
    NumeralValue(m);
  }

  // ---------------------------------------------------------------------
  // Fixed width.

  function Pow10(w: nat): (p: nat)
    ensures p > 0
  {
    if w == 0 then 1 else 10 * Pow10(w - 1)
  }

  /** `{:0width$}`. */
  function ZeroPadded(n: nat, width: nat): string {
    var s := Numeral(n);
    if |s| >= width then s else seq(width - |s|, _ => '0') + s
  }

  /** The last `width` decimal digits of `n`. */
  function LastDigits(n: nat, width: nat): (s: string)
    ensures |s| == width && AllDigits(s)
  {
    if width == 0 then [] else LastDigits(n / 10, width - 1) + [DigitChar(n % 10)]
  }

  lemma {:induction false} LastDigitsOfZero(width: nat)
    ensures LastDigits(0, width) == seq(width, _ => '0')
  {
    if width > 0 {
      LastDigitsOfZero(width - 1);
    }
  }

  /** A number that fits is padded to exactly its last `width` digits. */
  lemma {:induction false} ZeroPaddedIsLastDigits(n: nat, width: nat)
    requires n < Pow10(width) && width > 0
    ensures ZeroPadded(n, width) == LastDigits(n, width)
  {
    if n < 10 {
      LastDigitsOfZero(width - 1);
    } else {
      ZeroPaddedIsLastDigits(n / 10, width - 1);
      var s := Numeral(n / 10);
      assert Numeral(n) == s + [DigitChar(n % 10)];
      assert |s| <= width - 1 by {
        assert |ZeroPadded(n / 10, width - 1)| == width - 1;
      }
    }
  }

  lemma {:induction false} LastDigitsValue(n: nat, width: nat)
    ensures Value(LastDigits(n, width)) == n % Pow10(width)
  {
    if width > 0 {
      LastDigitsValue(n / 10, width - 1);
      assert LastDigits(n, width)[..width - 1] == LastDigits(n / 10, width - 1);
      ModStep(n, Pow10(width - 1));
    }
  }

  lemma ModStep(n: nat, p: nat)
    requires p > 0
    ensures n % (10 * p) == 10 * (n / 10 % p) + n % 10
  {
    var q, r := n / 10 / p, n / 10 % p;
    assert n / 10 == q * p + r;
    assert n == (10 * p) * q + (10 * r + n % 10);
    DivModUnique(n, 10 * p, q, 10 * r + n % 10);
  }

  /** Fewer digits of the same number are a suffix of more. */
  lemma {:induction false} LastDigitsSuffix(n: nat, short: nat, long: nat)
    requires short <= long
    ensures LastDigits(n, long)[long - short..] == LastDigits(n, short)
  {
    if short > 0 {
      LastDigitsSuffix(n / 10, short - 1, long - 1);
    }
  }

  lemma {:induction false} LastDigitsOfMod(n: nat, width: nat)
    ensures LastDigits(n % Pow10(width), width) == LastDigits(n, width)
  {
    if width > 0 {
      var rest := n / 10 % Pow10(width - 1);
      ModStep(n, Pow10(width - 1));
      LastDigitsOfMod(n / 10, width - 1);
      var m := n % Pow10(width);
      assert m == 10 * rest + n % 10;
      assert m / 10 == rest && m % 10 == n % 10;
    }
  }
}
