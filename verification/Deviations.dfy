/** Where the conversions leave C11 section 7.21.6.1, each with the exact condition
    and an input: precisions above 39, the digits of `%#g`, the sign of zero, and
    letters that the standard knows and the code does not. */
module Deviations {
  import opened Decimal
  import opened FloatText
  import opened IntegerConversion
  import opened FormatSpec
  import opened FormatTheorems
  import opened FloatValues
  import opened FloatReading

  // ---------------------------------------------------------------- precision above 39

  /** `%f` above 39 prints x rounded to 39 fraction digits, continued by zeros. That
      is x rounded to all the digits asked for exactly if those digits end in as many
      zeros themselves. */
  lemma FixedAboveLimit(s: Spec, neg: bool, num: nat, den: nat)
    requires s.prec > MAXFRACT && InDoubleRange(num, den)
    ensures var f, k := FloatField(s, 'f', Finite(neg, num, den)), s.prec - MAXFRACT;
            var q := RoundScaled(num, den, MAXFRACT) * Pow10(k);
            && Denotes(f.body + Repeat('0', f.extra), q, s.prec)
            && (RoundsTo(num * Pow10(s.prec), den, q) <==> RoundScaled(num, den, s.prec) % Pow10(k) == 0)
  {
    hide FixedText, Pow10, IntegerDigits, ShiftToOne, RoundsTo, HalfUp, Denotes, CvtSign, Value;
    var k, q := s.prec - MAXFRACT, RoundScaled(num, den, MAXFRACT);
    FixedTextZeros(q, MAXFRACT, k, s.alt);
    FixedTextDenotes(q * Pow10(k), s.prec, s.alt);
    RoundedTwice(num, den, MAXFRACT, k);
    RoundScaledMeaning(num, den, s.prec);
    if RoundsTo(num * Pow10(s.prec), den, q * Pow10(k)) {
      HalfUpUnique(num * Pow10(s.prec), den, q * Pow10(k));
    }
  }

  /** The 40th fraction digit of 10^-40 is lost. */
  lemma FixedLosesDigit()
    ensures RoundScaled(1, Pow10(40), 40) % Pow10(1) != 0
  {
    assert Pow10(1) == 10 && Pow10(0) == 1;
    hide Pow10;
    HalfUpByRemainder(1 * Pow10(40), Pow10(40), 1, 0);
  }

  /** `%.40e` of 10: a zero behind the exponent makes it ten times what it should be. */
  lemma ScientificAboveLimitFails(s: Spec)
    requires s.prec == 40
    ensures InDoubleRange(10, 1) && !ZerosHarmless(s, 'e', Finite(false, 10, 1))
  {
    hide Pow10;
    QuotientOf(10, 1, 10, 0);
    assert IntegerDigits(10, 1) == 2;
    TenMore(MAXFRACT);
    AtLeastOne(Pow10(MAXFRACT), 1);
  }

  /** `%.45g` of 2^-60, which has 42 digits, stops after 39 of them. */
  lemma GeneralLosesDigits(s: Spec)
    requires s.prec == 45
    ensures InDoubleRange(1, 0x1000_0000_0000_0000)
    ensures !DigitsSuffice(s, 'g', Finite(false, 1, 0x1000_0000_0000_0000))
  {
    assert Pow10(6) == 1000000;
    hide Pow10, HalfUp, ShiftToOne;
    var den := 0x1000_0000_0000_0000;
    LargestPowers();
    ShiftToOneMeaning(1, den);
    var k := ShiftToOne(1, den);
    if k < 19 { Pow10Monotone(k, 18); }
    if k > 19 { Pow10Monotone(20, k); }
    HalfUpByRemainder(1 * Pow10(63), den, 867361737988403547205962240695953369140625000, 0);
  }

  /** `%.45e` of 1 + 2^-50 stops after 39 fraction digits. */
  lemma ScientificLosesDigits(s: Spec)
    requires s.prec == 45
    ensures InDoubleRange(0x4_0000_0000_0001, 0x4_0000_0000_0000)
    ensures !DigitsSuffice(s, 'e', Finite(false, 0x4_0000_0000_0001, 0x4_0000_0000_0000))
  {
    assert Pow10(6) == 1000000;
    hide Pow10, HalfUp;
    var num, den := 0x4_0000_0000_0001, 0x4_0000_0000_0000;
    LargestPowers();
    QuotientOf(num, den, 1, 1);
    assert |Numeral(1)| == 1;
    HalfUpByRemainder(num * Pow10(45), den, 1000000000000000888178419700125232338905334472, 738871813865472);
  }

  lemma LargestPowers()
    ensures Pow10(18) == 1000000000000000000 && Pow10(20) == 100000000000000000000
    ensures Pow10(45) == 1000000000000000000000000000000000000000000000
    ensures Pow10(63) == 1000000000000000000000000000000000000000000000000000000000000000
  {
    assert Pow10(3) == 1000 && Pow10(4) == 10000 && Pow10(6) == 1000000;
    hide Pow10;
    LargePowers();
    Pow10Add(14, 4);
    Pow10Add(14, 6);
    Pow10Add(42, 3);
    Pow10Add(45, 18);
  }

  /** `%.45f` of infinity. */
  lemma WordAboveLimitFails(s: Spec)
    requires s.prec == 45
    ensures var d: Double := Infinite(false);
            var f := FloatField(s, 'f', d);
            f.body + Repeat('0', f.extra) == "inf000000" && !ZerosHarmless(s, 'f', d)
  {
    assert Repeat('0', 6) == "000000";
  }

  /** `%#.40g` of 10^-5. */
  lemma GeneralAboveLimitFails(s: Spec)
    requires s.prec == 40 && s.alt
    ensures InDoubleRange(1, 100000) && !ZerosHarmless(s, 'g', Finite(false, 1, 100000))
  {
    assert ShiftToOne(1000, 100000) == 2;
    assert ShiftToOne(100, 100000) == 3;
    assert ShiftToOne(10, 100000) == 4;
  }

  // ---------------------------------------------------------------- the digits of `%#g`

  function StripZeros(s: string): string
  {
    if s != "" && s[0] == '0' then StripZeros(s[1..]) else s
  }

  /** The digits from the first that is not zero on; all of them if there is none. */
  function SignificantDigits(s: string): nat
  {
    var d := DropPoint(s);
    if StripZeros(d) == "" then |d| else |StripZeros(d)|
  }

  lemma {:induction false} StripMore(k: nat, s: string)
    ensures StripZeros(Repeat('0', k) + s) == StripZeros(s)
  {
    if k == 0 {
      assert Repeat('0', 0) + s == s;
    } else {
      assert (Repeat('0', k) + s)[1..] == Repeat('0', k - 1) + s;
      StripMore(k - 1, s);
    }
  }

  /** The digits of fixed-point text are its number's, behind zeros. */
  lemma {:induction false} DigitsOf(q: nat, f: nat, dot: bool) returns (k: nat)
    ensures DropPoint(FixedText(q, f, dot)) == Repeat('0', k) + Numeral(q)
    ensures q == 0 ==> k == f
  {
    hide Numeral;
    if f == 0 {
      NumeralIsDecimalText(q);
      DropPointOfDigits(Numeral(q));
      if dot { DropPointSnoc(Numeral(q), '.'); }
      assert Numeral(q) + "" == Numeral(q) && Repeat('0', 0) + Numeral(q) == Numeral(q);
      k := 0;
    } else {
      var n := DigitsOf(q / 10, f - 1, true);
      DropPointSnoc(FixedText(q / 10, f - 1, true), DigitChar(q % 10));
      k := if q >= 10 then n else n + 1;
      OneMoreDigit(n, q);
    }
  }

  lemma OneMoreDigit(n: nat, q: nat)
    ensures DigitChar(q % 10) != '.'
    ensures (Repeat('0', n) + Numeral(q / 10)) + [DigitChar(q % 10)]
         == Repeat('0', if q >= 10 then n else n + 1) + Numeral(q)
  {
    var c := DigitChar(q % 10);
    if q >= 10 {
      assert Numeral(q) == Numeral(q / 10) + [c];
    } else {
      assert Numeral(q / 10) == "0" && Numeral(q) == [c];
      assert Repeat('0', n + 1) == Repeat('0', n) + "0";
    }
  }

  lemma SignificantOf(q: nat, f: nat, dot: bool)
    ensures SignificantDigits(FixedText(q, f, dot)) == if q == 0 then f + 1 else |Numeral(q)|
  {
    hide FixedText, DropPoint, Numeral;
    var k := DigitsOf(q, f, dot);
    StripMore(k, Numeral(q));
    NumeralRoundTrip(q, 10, false);
    if q == 0 { ZeroNumeral(); }
  }

  lemma ZeroNumeral()
    ensures Numeral(0) == "0" && StripZeros("0") == ""
  {
  }

  /** `%#g` keeps its zeros. In fixed style the text denotes x rounded half up, and it
      has exactly the digits asked for if and only if x is not zero and lies more than
      half a unit of the last place below 10^precision units. Otherwise it has one
      digit too many; the standard never does. */
  lemma GeneralAlternateFixed(num: nat, den: nat, prec: nat, ch: char) returns (q: nat, f: nat)
    requires den > 0 && (ch == 'g' || ch == 'G')
    requires !UsesExponent(num, den, if prec == 0 then 1 else prec)
    ensures var precision := if prec == 0 then 1 else prec;
            var text := CvtText(num, den, prec, true, ch);
            && f == GeneralFraction(num, den, precision) && q == RoundScaled(num, den, f)
            && Denotes(text, q, f) && RoundsTo(num * Pow10(f), den, q)
            && (SignificantDigits(text) == precision
                <==> num > 0 && 2 * (num * Pow10(f)) < (2 * Pow10(precision) - 1) * den)
            && (SignificantDigits(text) == precision || SignificantDigits(text) == precision + 1)
  {
    hide FixedText, RoundScaled, UsesExponent, Pow10, Denotes, RoundsTo, SignificantDigits, Numeral;
    var precision := if prec == 0 then 1 else prec;
    f, q := GeneralRounding(num, den, precision);
    FixedTextDenotes(q, f, true);
    SignificantOf(q, f, true);
    if num == 0 {
      RoundedZero(den, f);
    } else {
      DigitCount(q, precision);
      ReachesTop(num, den, f, Pow10(precision));
    }
  }

  /** In exponent style it always has exactly the digits asked for. */
  lemma GeneralAlternateScientific(num: nat, den: nat, prec: nat, ch: char)
    returns (significand: string, m: nat, e: int)
    requires den > 0 && (ch == 'g' || ch == 'G')
    requires UsesExponent(num, den, if prec == 0 then 1 else prec)
    ensures var precision := if prec == 0 then 1 else prec;
            && CvtText(num, den, prec, true, ch) == significand + ExponentText(e, if ch == 'g' then 'e' else 'E')
            && Denotes(significand, m, precision - 1) && IsRounded(num, den, precision - 1, m, e)
            && SignificantDigits(significand) == precision
  {
    hide FixedText, ExponentText, ToScientific, IsRounded, Denotes, Value, Pow10, UsesExponent, Numeral,
         SignificantDigits;
    var precision := if prec == 0 then 1 else prec;
    UsesExponentPositive(num, den, precision);
    var s := ToScientific(num, den, precision - 1);
    m, e := s.m, s.e;
    significand := FixedText(m, precision - 1, true);
    ScientificIsRounded(num, den, precision - 1);
    FixedTextDenotes(m, precision - 1, true);
    SignificantOf(m, precision - 1, true);
    DigitCount(m, precision);
  }

  /** Zero to six digits gets seven. */
  lemma AlternateZero()
    ensures CvtText(0, 1, 6, true, 'g') == "0.000000" && SignificantDigits("0.000000") == 7
  {
    hide Pow10;
    QuotientOf(0, 1, 0, 0);
    RoundedZero(1, 6);
    assert FixedText(0, 1, true) == "0.0" && FixedText(0, 3, true) == "0.000";
    assert FixedText(0, 6, true) == "0.000000";
    SignificantOf(0, 6, true);
  }

  /** So does 9.9999996, which becomes 10.00000. */
  lemma AlternateCarry()
    ensures !UsesExponent(99999996, 10000000, 6)
    ensures CvtText(99999996, 10000000, 6, true, 'g') == FixedText(1000000, 5, true)
    ensures SignificantDigits(FixedText(1000000, 5, true)) == 7
  {
    QuotientOf(99999996, 10000000, 9, 9999996);
    assert Pow10(5) == 100000 && Pow10(6) == 1000000;
    HalfUpByRemainder(99999996 * 100000, 10000000, 999999, 9600000);
    SignificantOf(1000000, 5, true);
    DigitCount(1000000, 6);
  }

  // ---------------------------------------------------------------- the sign

  /** A negative value loses its minus sign, which the standard keeps, exactly if it
      is zero, or `%f` rounds it to zero. */
  lemma SignLostExactly(num: nat, den: nat, prec: nat, conv: char)
    requires den > 0
    ensures !CvtSign(true, num, den, prec, conv)
            <==> num == 0 || (conv == 'f' && 2 * (num * Pow10(prec)) < den)
  {
    hide Pow10, RoundScaled;
    ReachesTop(num, den, prec, 1);
  }

  // ---------------------------------------------------------------- unknown letters

  /** `hh` is read as `h`. */
  lemma DoubleShort(s: Spec)
    ensures Flag(Flag(s, 'h'), 'h') == Flag(s, 'h')
  {
  }

  /** So `%hhd` prints the right value exactly if the low 16 bits hold no more than
      the low 8 bits do. */
  lemma DoubleShortExactly(w: Word)
    ensures var char8 := if w % 256 >= 128 then w % 256 - 256 else w % 256;
            Signed(w, 16) == char8 <==> -128 <= Signed(w, 16) < 128
  {
  }

  /** Letters of later standards, such as `z` or `F`, print themselves. */
  lemma UnknownLetter(s: Spec, conv: char, slot: Slot)
    requires !TakesArgument(conv)
    ensures FieldOf(s, conv, slot).body == [conv] && FieldOf(s, conv, slot).Prefix() == ""
    ensures !TakesArgument('z') && !TakesArgument('j') && !TakesArgument('t')
    ensures !TakesArgument('F') && !TakesArgument('a') && !TakesArgument('A')
  {
  }
}
