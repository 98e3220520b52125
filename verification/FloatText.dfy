/** What the floating-point conversions are meant to print, stated over exact
    rationals: x = num / den, rounded half up, in fixed or scientific style. */
module FloatText {
  import opened Decimal

  // ---------------------------------------------------------------- magnitude

  /** How many places a proper fraction must be shifted left to reach one. */
  function ShiftToOne(num: nat, den: nat): (k: nat)
    requires 0 < num < den
    ensures k > 0
    decreases den - num
  {
    if 10 * num >= den then 1 else 1 + ShiftToOne(10 * num, den)
  }

  /** The number of digits before the point; a fraction has none. */
  function IntegerDigits(num: nat, den: nat): nat
    requires den > 0
  {
    if num < den then 0 else |Numeral(Quotient(num, den))|
  }

  /** The decimal exponent of x > 0. */
  function Exponent(num: nat, den: nat): int
    requires 0 < num && 0 < den
  {
    if num < den then 0 - ShiftToOne(num, den) else IntegerDigits(num, den) - 1
  }

  /** den * 10^k <= num < den * 10^(k+1), with negative k moved to the other side. */
  ghost predicate HasExponent(num: nat, den: nat, k: int)
  {
    if k >= 0 then den * Pow10(k) <= num < den * Pow10(k + 1)
    else den <= num * Pow10(-k) < 10 * den
  }

  /** Exponent is the floor of the decimal logarithm. */
  lemma ExponentIsLogarithm(num: nat, den: nat)
    requires 0 < num && 0 < den
    ensures HasExponent(num, den, Exponent(num, den))
  {
    if num < den {
      ShiftToOneMeaning(num, den);
    } else {
      LogarithmOfInteger(num, den, Quotient(num, den));
    }
  }

  lemma LogarithmOfInteger(num: nat, den: nat, i: nat)
    requires i > 0 && i * den <= num < i * den + den
    ensures den * Pow10(|Numeral(i)| - 1) <= num < den * Pow10(|Numeral(i)|)
  {
    var k := |Numeral(i)|;
    NumeralLength(i);
    MulMonotone(den, Pow10(k - 1), i);
    MulMonotone(den, i + 1, Pow10(k));
  }

  lemma MulMonotone(c: nat, a: nat, b: nat)
    requires a <= b
    ensures c * a <= c * b
  {
  }

  lemma {:induction false} ShiftToOneMeaning(num: nat, den: nat)
    requires 0 < num < den
    ensures den <= num * Pow10(ShiftToOne(num, den)) < 10 * den
    decreases den - num
  {
    if 10 * num >= den {
      assert Pow10(1) == 10;
    } else {
      ShiftToOneMeaning(10 * num, den);
      var p := Pow10(ShiftToOne(10 * num, den));
      TimesTen(num, p);
      assert 10 * num * p == 10 * (num * p);
    }
  }

  // ---------------------------------------------------------------- rounding

  /** x * 10^k rounded half up to an integer. */
  function RoundScaled(num: nat, den: nat, k: int): nat
    requires den > 0
  {
    if k >= 0 then HalfUp(num * Pow10(k), den)
    else ScaledPositive(den, -k); HalfUp(num, den * Pow10(-k))
  }

  lemma ScaledPositive(den: nat, k: nat)
    requires den > 0
    ensures den * Pow10(k) > 0
  {
  }

  /** q is x * 10^k rounded half up. */
  ghost predicate RoundsScaledTo(num: nat, den: nat, k: int, q: nat)
  {
    if k >= 0 then RoundsTo(num * Pow10(k), den, q)
    else RoundsTo(num, den * Pow10(-k), q)
  }

  lemma RoundScaledMeaning(num: nat, den: nat, k: int)
    requires den > 0
    ensures RoundsScaledTo(num, den, k, RoundScaled(num, den, k))
  {
    if k >= 0 {
      HalfUpMeaning(num * Pow10(k), den);
    } else {
      ScaledPositive(den, -k);
      HalfUpMeaning(num, den * Pow10(-k));
    }
  }

  /** A significand of prec + 1 digits and its exponent. */
  datatype Scientific = Scientific(m: nat, e: int)

  /** Rounding all nines up yields one digit too many: restart at a power of ten. */
  function Normalize(m: nat, e: int, prec: nat): Scientific
  {
    if m == Pow10(prec + 1) then Scientific(Pow10(prec), e + 1) else Scientific(m, e)
  }

  function ToScientific(num: nat, den: nat, prec: nat): Scientific
    requires den > 0
  {
    if num == 0 then Scientific(0, 0)
    else
      var e := Exponent(num, den);
      Normalize(RoundScaled(num, den, prec - e), e, prec)
  }

  /** The significand has exactly prec + 1 digits, and m * 10^(e - prec) is x
      rounded half up to that many significant digits. */
  lemma ScientificMeaning(num: nat, den: nat, prec: nat)
    requires 0 < num && 0 < den
    ensures var s := ToScientific(num, den, prec);
            var e := Exponent(num, den);
            && Pow10(prec) <= s.m < Pow10(prec + 1)
            && (s.e == e || (s.e == e + 1 && s.m == Pow10(prec)))
            && RoundsScaledTo(num, den, prec - e, if s.e == e then s.m else 10 * s.m)
  {
    var e := Exponent(num, den);
    RoundScaledMeaning(num, den, prec - e);
    SignificandRange(num, den, prec);
  }

  lemma SignificandRange(num: nat, den: nat, prec: nat)
    requires 0 < num && 0 < den
    ensures Pow10(prec) <= RoundScaled(num, den, prec - Exponent(num, den)) <= Pow10(prec + 1)
  {
    var e := Exponent(num, den);
    ExponentIsLogarithm(num, den);
    if e < 0 {
      FractionSignificand(num, den, -e, prec);
    } else if e <= prec {
      ExactSignificand(num, den, e, prec);
    } else {
      IntegerSignificand(num, den, e, prec);
    }
  }

  lemma ExactSignificand(num: nat, den: nat, e: nat, prec: nat)
    requires den > 0 && den * Pow10(e) <= num < den * Pow10(e + 1) && e <= prec
    ensures Pow10(prec) <= RoundScaled(num, den, prec - e) <= Pow10(prec + 1)
  {
    var k := prec - e;
    Pow10Add(e, k);
    Pow10Add(e + 1, k);
    ScaleBounds(den, Pow10(e), num, Pow10(e + 1), Pow10(k));
    HalfUpBetween(num * Pow10(k), den, Pow10(prec), Pow10(prec + 1));
  }

  lemma IntegerSignificand(num: nat, den: nat, e: nat, prec: nat)
    requires den > 0 && den * Pow10(e) <= num < den * Pow10(e + 1) && e > prec
    ensures Pow10(prec) <= RoundScaled(num, den, prec - e) <= Pow10(prec + 1)
  {
    var k := e - prec;
    Pow10Add(prec, k);
    Pow10Add(prec + 1, k);
    ScaledPositive(den, k);
    Rearrange(den, Pow10(prec), Pow10(k));
    Rearrange(den, Pow10(prec + 1), Pow10(k));
    HalfUpBetween(num, den * Pow10(k), Pow10(prec), Pow10(prec + 1));
  }

  lemma FractionSignificand(num: nat, den: nat, shift: nat, prec: nat)
    requires den > 0 && den <= num * Pow10(shift) < 10 * den && shift > 0
    ensures Pow10(prec) <= RoundScaled(num, den, prec + shift) <= Pow10(prec + 1)
  {
    var n, p := num * Pow10(shift), Pow10(prec);
    Pow10Add(shift, prec);
    Associate(num, Pow10(shift), p);
    ScaleBounds(den, 1, n, 10, p);
    HalfUpBetween(n * p, den, p, 10 * p);
  }

  lemma Associate(a: nat, b: nat, c: nat)
    ensures a * (b * c) == a * b * c
  {
  }

  lemma Rearrange(d: nat, a: nat, b: nat)
    ensures a * (d * b) == d * (a * b)
  {
  }

  lemma ScaleBounds(d: nat, lo: nat, n: nat, hi: nat, p: nat)
    requires d * lo <= n < d * hi && p > 0
    ensures (lo * p) * d <= n * p < (hi * p) * d
  {
    Rearrange(p, lo, d);
    assert p * (d * lo) <= p * n;
    assert p * n < p * (d * hi) by {
      AtLeastOne(d * hi - n, p);
    }
    assert (lo * p) * d == p * (d * lo) && (hi * p) * d == p * (d * hi) by {
      Associate(lo, p, d);
      Associate(hi, p, d);
      Rearrange(p, lo, d);
      Rearrange(p, hi, d);
    }
  }

  lemma HalfUpBetween(n: nat, d: nat, lo: nat, hi: nat)
    requires d > 0 && lo * d <= n < hi * d
    ensures lo <= HalfUp(n, d) <= hi
  {
    var q := HalfUp(n, d);
    HalfUpMeaning(n, d);
    assert (2 * q - 1) * d == 2 * (q * d) - d && (2 * q + 1) * d == 2 * (q * d) + d;
    assert (lo - q) * d == lo * d - q * d && (q - hi) * d == q * d - hi * d;
    if q < lo {
      AtLeastOne(lo - q, d);
    } else if q > hi {
      AtLeastOne(q - hi, d);
    }
  }

  // ---------------------------------------------------------------- text

  function Magnitude(e: int): nat { if e < 0 then -e else e }

  /** The exponent part: the letter, a sign, and at least two digits. */
  function ExponentText(e: int, letter: char): string
  {
    [letter, if e < 0 then '-' else '+']
    + (if Magnitude(e) < 10 then "0" else "") + Numeral(Magnitude(e))
  }

  lemma ExponentTextMeaning(e: int, letter: char)
    ensures var s := ExponentText(e, letter);
            && |s| >= 4 && s[0] == letter && (s[1] == '-' <==> e < 0)
            && AllDigits(s[2..]) && Value(s[2..]) == Magnitude(e)
    ensures Magnitude(e) < 10000 ==> |ExponentText(e, letter)| <= 6
  {
    var n := Magnitude(e);
    var s := ExponentText(e, letter);
    NumeralRoundTrip(n, 10, false);
    if n < 10 {
      assert s[2..] == "0" + Numeral(n) == Repeat('0', 1) + Numeral(n);
      LeadingZeros(1, Numeral(n), 10);
    } else {
      assert s[2..] == Numeral(n);
      assert |Numeral(n)| == |Numeral(n / 10)| + 1;
    }
    if n < 10000 {
      assert Pow10(4) == 10000;
      NumeralLengthBound(n, 4);
    }
  }

  /** Fixed-point text with trailing fraction zeros dropped. */
  function ShortText(q: nat, f: nat): string
  {
    if f > 0 && q % 10 == 0 then ShortText(q / 10, f - 1) else FixedText(q, f, false)
  }

  /** Dropping zeros leaves the value alone, and leaves neither a trailing
      fraction zero nor a bare point. */
  lemma {:induction false} ShortTextMeaning(q: nat, f: nat) returns (q': nat, f': nat)
    ensures f' <= f && ShortText(q, f) == FixedText(q', f', false)
    ensures q == q' * Pow10(f - f')
    ensures f' > 0 ==> q' % 10 != 0
  {
    if f > 0 && q % 10 == 0 {
      q', f' := ShortTextMeaning(q / 10, f - 1);
      TimesTen(q', Pow10(f - 1 - f'));
    } else {
      q', f' := q, f;
    }
  }

  /** Zeros that would be dropped anyway make no difference. */
  lemma {:induction false} ShortTextZeros(q: nat, f: nat, n: nat)
    ensures ShortText(q * Pow10(n), f + n) == ShortText(q, f)
  {
    if n > 0 {
      ShortTextZeros(q, f, n - 1);
      TimesTen(q, Pow10(n - 1));
    }
  }

  /** `%e`: a significand with prec fraction digits, then the exponent. */
  function SciText(num: nat, den: nat, prec: nat, alt: bool, letter: char): string
    requires den > 0
  {
    var s := ToScientific(num, den, prec);
    FixedText(s.m, prec, alt) + ExponentText(s.e, letter)
  }

  /** `%g` switches to scientific style on the unrounded value. */
  predicate UsesExponent(num: nat, den: nat, precision: nat)
    requires den > 0
  {
    IntegerDigits(num, den) > precision || (0 < num < den && num * 10000 < den)
  }

  /** Fraction digits `%g` keeps in fixed style. */
  function GeneralFraction(num: nat, den: nat, precision: nat): int
    requires den > 0
  {
    if num == 0 then precision else precision - 1 - Exponent(num, den)
  }

  lemma GeneralFractionNat(num: nat, den: nat, precision: nat)
    requires den > 0 && precision > 0 && !UsesExponent(num, den, precision)
    ensures 0 <= GeneralFraction(num, den, precision) <= precision + 3
  {
    if 0 < num < den {
      ShiftAtMostFour(num, den);
    }
  }

  lemma ShiftAtMostFour(num: nat, den: nat)
    requires 0 < num < den && num * 10000 >= den
    ensures ShiftToOne(num, den) <= 4
  {
    if 10 * num < den && 100 * num < den {
      assert ShiftToOne(100 * num, den) <= 2;
      assert ShiftToOne(10 * num, den) == 1 + ShiftToOne(100 * num, den);
    }
  }

  function GeneralText(num: nat, den: nat, prec: nat, alt: bool, letter: char): string
    requires den > 0
  {
    var precision := if prec == 0 then 1 else prec;
    if UsesExponent(num, den, precision) then
      var s := ToScientific(num, den, precision - 1);
      (if alt then FixedText(s.m, precision - 1, true) else ShortText(s.m, precision - 1))
      + ExponentText(s.e, letter)
    else
      GeneralFractionNat(num, den, precision);
      var f := GeneralFraction(num, den, precision);
      var q := RoundScaled(num, den, f);
      if alt then FixedText(q, f, true) else ShortText(q, f)
  }

  /** A finite value in the range of a double: at most 309 integer digits, and
      not so small that more than 324 places are needed to reach one. */
  ghost predicate InDoubleRange(num: nat, den: nat)
  {
    && den > 0 && IntegerDigits(num, den) <= 309
    && (0 < num < den ==> ShiftToOne(num, den) <= 324)
  }

  /** Exponents of doubles fit the four-digit scratch buffer. */
  lemma ExponentFits(num: nat, den: nat, prec: nat)
    requires InDoubleRange(num, den)
    ensures Magnitude(ToScientific(num, den, prec).e) < 10000
  {
  }

  /** The digits of a finite value under conversion `ch`. */
  function CvtText(num: nat, den: nat, prec: nat, alt: bool, ch: char): string
    requires den > 0
  {
    if ch == 'f' then FixedText(RoundScaled(num, den, prec), prec, alt)
    else if ch == 'e' || ch == 'E' then SciText(num, den, prec, alt, ch)
    else GeneralText(num, den, prec, alt, if ch == 'g' then 'e' else 'E')
  }

  /** A negative value keeps its sign unless fixed style rounds it to zero. */
  predicate CvtSign(neg: bool, num: nat, den: nat, prec: nat, ch: char)
    requires den > 0
  {
    neg && num > 0 && (ch == 'f' ==> RoundScaled(num, den, prec) > 0)
  }
}
