/**
 * The parts of JavaScript's number library that the timestamp converters use,
 * over exact reals: `Math.floor`, the `%` operator, `Number.prototype.toString`
 * on integral values, and `parseFloat` on unsigned decimal literals.
 */
module JsNumber {
  import opened Wrappers
  import opened JsString

  /** True of the reals that are whole numbers. */
  predicate IsInteger(x: real) {
    x.Floor as real == x
  }

  /** `Math.floor`: the greatest integer not above `x`. */
  function Floor(x: real): (r: int)
    ensures r as real <= x < r as real + 1.0
  {
    x.Floor
  }

  /** Rounding toward zero, which is the quotient JavaScript's `%` uses. */
  function Trunc(x: real): (r: int)
    ensures 0.0 <= x ==> r as real <= x < r as real + 1.0
    ensures x < 0.0 ==> r as real - 1.0 < x <= r as real
  {
    if 0.0 <= x then Floor(x) else -Floor(-x)
  }

  /**
   * The `%` operator on numbers: `x` less a whole multiple of `m`, with the
   * sign of the dividend (never the sign of the divisor, as Python's is).
   */
  function Remainder(x: real, m: real): (r: real)
    requires 0.0 < m
    ensures IsInteger((x - r) / m)
    ensures 0.0 <= x ==> 0.0 <= r < m
    ensures x < 0.0 ==> -m < r <= 0.0
  {
    var q := Trunc(x / m) as real;
    QuotientBounds(x, m, q);
    x - m * q
  }

  /** The bounds of a truncated quotient, multiplied back out by the divisor. */
  lemma QuotientBounds(x: real, m: real, q: real)
    requires 0.0 < m && q == Trunc(x / m) as real
    ensures IsInteger((x - (x - m * q)) / m)
    ensures 0.0 <= x ==> m * q <= x < m * q + m
    ensures x < 0.0 ==> m * q - m < x <= m * q
  {
    assert (x - (x - m * q)) / m == q;
    if 0.0 <= x {
      assert 0.0 <= x / m;
      ScaleBounds(x, m, q);
    } else {
      assert x / m < 0.0;
      ScaleBounds(x, m, q - 1.0);
    }
  }

  /** `q <= x / m < q + 1` multiplied through by a positive `m`. */
  lemma ScaleBounds(x: real, m: real, q: real)
    requires 0.0 < m
    ensures q <= x / m ==> m * q <= x
    ensures x / m < q + 1.0 ==> x < m * q + m
    ensures q < x / m ==> m * q < x
    ensures x / m <= q + 1.0 ==> x <= m * q + m
  {
    var y := x / m;
    assert m * y == x;
    var d := y - q;
    assert m * d == m * y - m * q;
    var e := q + 1.0 - y;
    assert m * e == m * q + m - m * y;
    if 0.0 <= d {
      assert m * d >= 0.0;
    }
    if 0.0 < d {
      assert m * d > 0.0;
    }
    if 0.0 <= e {
      assert m * e >= 0.0;
    }
    if 0.0 < e {
      assert m * e > 0.0;
    }
  }

  predicate IsDigit(c: char) {
    '0' <= c <= '9'
  }

  predicate AllDigits(s: string) {
    forall i :: 0 <= i < |s| ==> IsDigit(s[i])
  }

  function DigitChar(d: nat): (c: char)
    requires d < 10
    ensures IsDigit(c)
  {
    ('0' as int + d) as char
  }

  function DigitValue(c: char): (d: nat)
    requires IsDigit(c)
    ensures d < 10 && DigitChar(d) == c
  {
    c as int - '0' as int
  }

  function Pow10(k: nat): (p: nat)
    ensures 1 <= p
  {
    if k == 0 then 1 else 10 * Pow10(k - 1)
  }

  /**
   * `Number.prototype.toString` on a non-negative integer: its decimal digits,
   * most significant first, without leading zeros.
   */
  function NatToString(n: nat): (r: string)
    ensures 1 <= |r|
    ensures r[0] == '0' <==> n == 0
  {
    if n < 10 then [DigitChar(n)] else NatToString(n / 10) + [DigitChar(n % 10)]
  }

  /** The string of a natural number is made of decimal digits only. */
  lemma {:induction false} NatToStringDigits(n: nat)
    ensures AllDigits(NatToString(n))
  {
    if n >= 10 {
      NatToStringDigits(n / 10);
    }
  }

  /** `Number.prototype.toString` on any integer: a minus sign before the digits of a negative one. */
  function IntToString(i: int): (r: string)
    ensures 1 <= |r|
  {
    if i < 0 then "-" + NatToString(-i) else NatToString(i)
  }

  /** After the minus sign of a negative integer, if any, the digits read back as its absolute value. */
  lemma IntToStringReadsBack(i: int)
    ensures var r := IntToString(i);
      var digits := if i < 0 then r[1..] else r;
      AllDigits(digits) && ParseNat(digits) == (if i < 0 then -i else i)
  {
    var n := if i < 0 then -i else i;
    ParseNatToString(n);
    if i < 0 {
      assert IntToString(i)[1..] == NatToString(n);
    }
  }

  /** Only the string of a non-negative integer is all digits; a negative one starts with the minus sign. */
  lemma IntToStringSign(i: int)
    ensures 0 <= i <==> AllDigits(IntToString(i))
    ensures i < 0 <==> IntToString(i)[0] == '-'
  {
    var r := IntToString(i);
    NatToStringDigits(if i < 0 then -i else i);
    if i < 0 {
      assert !IsDigit(r[0]);
    } else {
      assert IsDigit(r[0]);
    }
  }

  /** The value of a string of decimal digits, most significant first; empty is zero. */
  function ParseNat(s: string): (n: nat)
    requires AllDigits(s)
    ensures n < Pow10(|s|)
  {
    if s == [] then 0 else 10 * ParseNat(s[..|s| - 1]) + DigitValue(s[|s| - 1])
  }

  /** Reading back what `NatToString` writes gives the number written. */
  lemma {:induction false} ParseNatToString(n: nat)
    ensures AllDigits(NatToString(n)) && ParseNat(NatToString(n)) == n
  {
    var r := NatToString(n);
    NatToStringDigits(n);
    if n >= 10 {
      ParseNatToString(n / 10);
      assert r[..|r| - 1] == NatToString(n / 10);
    }
  }

  /** `NatToString` is the canonical spelling: every digit string without a leading zero is the one of its value. */
  lemma {:induction false} NatToStringOfParse(s: string)
    requires AllDigits(s) && 1 <= |s| && (s[0] == '0' ==> |s| == 1)
    ensures NatToString(ParseNat(s)) == s
  {
    if |s| > 1 {
      var init := s[..|s| - 1];
      NatToStringOfParse(init);
      assert ParseNat(init) != 0;
      assert s == init + [s[|s| - 1]];
    }
  }

  /** `NatToString(n)` has more than `k` digits exactly when `n` is at least ten to the `k`. */
  lemma {:induction false} NatToStringLength(n: nat, k: nat)
    requires 1 <= k
    ensures |NatToString(n)| > k <==> n >= Pow10(k)
  {
    assert Pow10(k) == 10 * Pow10(k - 1);
    if n >= 10 && k > 1 {
      NatToStringLength(n / 10, k - 1);
      assert n / 10 >= Pow10(k - 1) <==> n >= 10 * Pow10(k - 1);
    }
  }

  /** Leading zeros do not change the value of a digit string. */
  lemma {:induction false} ParseNatLeadingZeros(zeros: string, s: string)
    requires forall i :: 0 <= i < |zeros| ==> zeros[i] == '0'
    requires AllDigits(s)
    ensures AllDigits(zeros + s)
    ensures ParseNat(zeros + s) == ParseNat(s)
  {
    if s == [] {
      assert zeros + s == zeros;
      AllZerosParse(zeros);
    } else {
      var t := zeros + s;
      assert t[..|t| - 1] == zeros + s[..|s| - 1];
      ParseNatLeadingZeros(zeros, s[..|s| - 1]);
    }
  }

  lemma {:induction false} AllZerosParse(zeros: string)
    requires forall i :: 0 <= i < |zeros| ==> zeros[i] == '0'
    ensures AllDigits(zeros) && ParseNat(zeros) == 0
  {
    if zeros != [] {
      AllZerosParse(zeros[..|zeros| - 1]);
    }
  }

  /**
   * `parseFloat` on the strings the model reads: digits, optionally followed by
   * `.` and more digits, with at least one digit in all. Any other string is
   * outside the model and gives `None`.
   */
  function ParseDecimal(s: string): (r: Option<real>)
    ensures r.Some? ==> 0.0 <= r.value
  {
    var i := Find(s, '.');
    var whole := s[..i];
    var frac := if i < |s| then s[i + 1..] else "";
    if AllDigits(whole) && AllDigits(frac) && (whole != [] || frac != []) then
      Some(ParseNat(whole) as real + Fraction(frac))
    else
      None
  }

  /**
   * The value of the digits after a decimal point, `0.d1d2...dk`, summed
   * from the last digit inward so that every step divides by ten.
   */
  function Fraction(frac: string): (r: real)
    requires AllDigits(frac)
    ensures 0.0 <= r < 1.0
  {
    if frac == [] then 0.0 else (DigitValue(frac[0]) as real + Fraction(frac[1..])) / 10.0
  }

  /** `x` with its decimal point moved `k` places to the right: `x` times ten to the `k`. */
  function Shift(x: real, k: nat): (r: real)
    ensures 0.0 <= x ==> x <= r
    decreases k
  {
    if k == 0 then x else Shift(10.0 * x, k - 1)
  }

  /** Moving the point distributes over a sum. */
  lemma {:induction false} ShiftAdd(a: real, b: real, k: nat)
    ensures Shift(a + b, k) == Shift(a, k) + Shift(b, k)
    decreases k
  {
    if k > 0 {
      assert 10.0 * (a + b) == 10.0 * a + 10.0 * b;
      ShiftAdd(10.0 * a, 10.0 * b, k - 1);
    }
  }

  /** Moving the point of a whole number `k` places multiplies it by ten to the `k`. */
  lemma {:induction false} ShiftWhole(d: int, k: nat)
    ensures Shift(d as real, k) == (d * Pow10(k)) as real
    decreases k
  {
    if k > 0 {
      assert 10.0 * (d as real) == (10 * d) as real;
      ShiftWhole(10 * d, k - 1);
      ConsStep(d, Pow10(k - 1), 0, 0);
    }
  }

  /** `Shift` is multiplication by ten to the `k`. */
  lemma {:induction false} ShiftIsProduct(x: real, k: nat)
    ensures Shift(x, k) == x * (Pow10(k) as real)
    decreases k
  {
    if k > 0 {
      ShiftIsProduct(10.0 * x, k - 1);
      TenTimes(x, Pow10(k - 1) as real);
    }
  }

  lemma TenTimes(x: real, p: real)
    ensures (10.0 * x) * p == x * (10.0 * p)
  {
  }

  /**
   * The value of the digits after the point: moving the point of `0.d1...dk`
   * `k` places to the right gives the integer `d1...dk`. With
   * `ShiftIsProduct`, `0.d1...dk` is `d1...dk` divided by ten to the `k`.
   */
  lemma {:induction false} FractionValue(frac: string)
    requires AllDigits(frac)
    ensures Shift(Fraction(frac), |frac|) == ParseNat(frac) as real
  {
    if frac != [] {
      var c, tail := frac[0], frac[1..];
      var d, k := DigitValue(c), |tail|;
      assert frac == [c] + tail;
      FractionValue(tail);
      ParseNatCons(c, tail);
      assert 10.0 * Fraction(frac) == d as real + Fraction(tail);
      ShiftAdd(d as real, Fraction(tail), k);
      ShiftWhole(d, k);
    }
  }

  /** Reading from the left: a digit in front of `t` adds its value times ten to the length of `t`. */
  lemma {:induction false} ParseNatCons(c: char, t: string)
    requires IsDigit(c) && AllDigits(t)
    ensures AllDigits([c] + t)
    ensures ParseNat([c] + t) == DigitValue(c) * Pow10(|t|) + ParseNat(t)
  {
    var s := [c] + t;
    if t != [] {
      var init, last := t[..|t| - 1], DigitValue(t[|t| - 1]);
      assert s[..|s| - 1] == [c] + init;
      assert s[|s| - 1] == t[|t| - 1];
      ParseNatCons(c, init);
      var a := ParseNat(init);
      assert ParseNat(s) == 10 * ParseNat([c] + init) + last;
      assert ParseNat(t) == 10 * a + last;
      ConsStep(DigitValue(c), Pow10(|init|), a, last);
    }
  }

  /** The arithmetic of one step of `ParseNatCons`. */
  lemma ConsStep(d: int, p: int, a: int, l: int)
    ensures 10 * (d * p + a) + l == d * (10 * p) + (10 * a + l)
  {
  }

  /** A fraction never reaches the next whole number: `parseFloat` of `w.f` lies in `[w, w + 1)`. */
  lemma DecimalBounds(whole: string, frac: string)
    requires AllDigits(whole) && AllDigits(frac) && (whole != [] || frac != [])
    ensures ParseDecimal(whole + "." + frac) == Some(ParseNat(whole) as real + Fraction(frac))
    ensures Floor(ParseDecimal(whole + "." + frac).value) == ParseNat(whole)
  {
    DotSplits(whole, frac);
    ParseDecimalAtDot(whole + "." + frac, whole, frac);
    FloorIs(ParseNat(whole) as real + Fraction(frac), ParseNat(whole));
  }

  /** `parseFloat` of `w.f` is the given value `v`, when `v` is `w` plus the fraction. */
  lemma DecimalReads(whole: string, frac: string, v: real)
    requires AllDigits(whole) && AllDigits(frac) && (whole != [] || frac != [])
    requires v == ParseNat(whole) as real + Fraction(frac)
    ensures ParseDecimal(whole + "." + frac) == Some(v)
  {
    DotSplits(whole, frac);
    ParseDecimalAtDot(whole + "." + frac, whole, frac);
  }

  lemma DotSplits(whole: string, frac: string)
    requires AllDigits(whole)
    ensures var s := whole + "." + frac;
      Find(s, '.') == |whole| < |s| && s[..|whole|] == whole && s[|whole| + 1..] == frac
  {
    var s := whole + "." + frac;
    assert s == whole + ("." + frac);
    assert '.' !in whole;
    FindAfter(whole, "." + frac, '.');
  }

  lemma ParseDecimalAtDot(s: string, whole: string, frac: string)
    requires AllDigits(whole) && AllDigits(frac) && (whole != [] || frac != [])
    requires Find(s, '.') == |whole| < |s| && s[..|whole|] == whole && s[|whole| + 1..] == frac
    ensures ParseDecimal(s) == Some(ParseNat(whole) as real + Fraction(frac))
  {
    assert ParseDecimal(s).Some? && ParseDecimal(s).value == ParseNat(whole) as real + Fraction(frac);
  }

  /** `Math.floor` has one answer: the integer `k` with `k <= x < k + 1`. */
  lemma FloorIs(x: real, k: int)
    requires k as real <= x < k as real + 1.0
    ensures Floor(x) == k
  {
  }

  /** A trailing zero after the decimal point does not change the value read. */
  lemma {:induction false} FractionTrailingZero(frac: string)
    requires AllDigits(frac)
    ensures AllDigits(frac + "0") && Fraction(frac + "0") == Fraction(frac)
  {
    if frac != [] {
      assert (frac + "0")[1..] == frac[1..] + "0";
      FractionTrailingZero(frac[1..]);
    }
  }

  /** `parseFloat` of a digit string is its value as a whole number. */
  lemma ParseDecimalOfDigits(s: string)
    requires AllDigits(s) && s != []
    ensures ParseDecimal(s) == Some(ParseNat(s) as real)
  {
    FindFirst(s, '.');
    assert '.' !in s;
    assert s[..|s|] == s;
  }
}
