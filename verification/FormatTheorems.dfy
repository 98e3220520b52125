/** What printed fields mean to a reader: integers read back as the argument,
    floats denote the correctly rounded value, and every specification written
    in the documented order is scanned back as it was meant. */
module FormatTheorems {
  import opened Decimal
  import opened FloatText
  import opened IntegerConversion
  import opened FormatSpec

  // ---------------------------------------------------------------- reading an integer field

  datatype Reading = NoNumber | Number(v: int)

  function SkipBlanks(s: string): string
  {
    if s != "" && s[0] == ' ' then SkipBlanks(s[1..]) else s
  }

  /** The number of leading digits of a base. */
  function DigitRun(s: string, base: nat): (k: nat)
    ensures k <= |s|
  {
    if s != "" && DigitValue(s[0]) < base then 1 + DigitRun(s[1..], base) else 0
  }

  predicate AllBlank(s: string) { forall i :: 0 <= i < |s| ==> s[i] == ' ' }

  /** Strips the sign; also tells whether it was a minus. */
  function SplitSign(s: string): (bool, string)
  {
    if s != "" && (s[0] == '-' || s[0] == '+') then (s[0] == '-', s[1..]) else (false, s)
  }

  /** Strips the hexadecimal prefix. */
  function SplitHex(s: string, base: nat): string
  {
    if base == 16 && |s| >= 2 && s[0] == '0' && (s[1] == 'x' || s[1] == 'X') then s[2..] else s
  }

  /** Reads a field the way a person does: blanks, sign, prefix, digits, blanks;
      no digits at all mean zero. */
  function ReadInteger(s: string, base: nat): Reading
  {
    var (neg, u) := SplitSign(SkipBlanks(s));
    var d := SplitHex(u, base);
    var k := DigitRun(d, base);
    if AllBlank(d[k..]) then
      var v := Value(d[..k], base);
      Number(if neg then 0 - v else v)
    else NoNumber
  }

  lemma {:induction false} SkipLeadingBlanks(n: int, s: string)
    requires s == "" || s[0] != ' '
    ensures SkipBlanks(Repeat(' ', n) + s) == s
  {
    var b := Repeat(' ', n);
    if n <= 0 {
      assert b + s == s;
    } else {
      SkipLeadingBlanks(n - 1, s);
      assert (b + s)[1..] == Repeat(' ', n - 1) + s;
    }
  }

  lemma {:induction false} DigitRunExact(s: string, rest: string, base: nat)
    requires AllDigits(s, base) && base <= 16 && AllBlank(rest)
    ensures DigitRun(s + rest, base) == |s|
  {
    if s == "" {
      assert s + rest == rest;
    } else {
      assert (s + rest)[1..] == s[1..] + rest;
      DigitRunExact(s[1..], rest, base);
    }
  }

  /** A prefix the formatter can print in front of the digits of a base. */
  ghost predicate IsPrefix(p: string, base: nat)
  {
    p == "" || p == "-" || p == "+" || p == " " || ((p == "0x" || p == "0X") && base == 16)
  }

  /** Reading what is left once the blanks are gone. */
  lemma ReadSplit(s: string, neg: bool, digits: string, tail: string, base: nat)
    requires AllDigits(digits, base) && AllBlank(tail) && IsBase(base)
    requires var (n, u) := SplitSign(SkipBlanks(s)); n == neg && SplitHex(u, base) == digits + tail
    ensures ReadInteger(s, base)
         == Number(if neg then 0 - Value(digits, base) else Value(digits, base))
  {
    hide SplitSign, SplitHex, SkipBlanks, Value;
    DigitRunExact(digits, tail, base);
    assert (digits + tail)[..|digits|] == digits && (digits + tail)[|digits|..] == tail;
  }

  /** Blanks, prefix, digits and blanks read back as the digits' value. */
  lemma ReadParts(a: int, p: string, digits: string, c: int, base: nat)
    requires IsPrefix(p, base) && p != " " && AllDigits(digits, base) && IsBase(base)
    ensures var v := Value(digits, base);
            ReadInteger(Repeat(' ', a) + p + digits + Repeat(' ', c), base)
            == Number(if p == "-" then 0 - v else v)
  {
    hide ReadInteger, SplitSign, SplitHex, SkipBlanks, Value;
    var tail := Repeat(' ', c);
    var s := Repeat(' ', a) + p + digits + tail;
    if p == "" && digits == "" {
      SkipAllBlanks(s);
      ReadBlanks(s, base);
    } else {
      assert s == Repeat(' ', a) + (p + digits + tail);
      SkipLeadingBlanks(a, p + digits + tail);
      SplitParts(p, digits, tail, base);
      ReadSplit(s, p == "-", digits, tail, base);
    }
  }

  /** A blank field stands for zero. */
  lemma ReadBlanks(s: string, base: nat)
    requires AllBlank(s)
    ensures ReadInteger(s, base) == Number(Value("", base))
  {
    SkipAllBlanks(s);
  }

  /** A blank in the sign position reads like one more leading blank. */
  lemma ReadPartsBlankSign(a: int, digits: string, c: int, base: nat)
    requires AllDigits(digits, base) && IsBase(base)
    ensures ReadInteger(Repeat(' ', a) + " " + digits + Repeat(' ', c), base) == Number(Value(digits, base))
  {
    hide ReadInteger, Value;
    var n := if a > 0 then a + 1 else 1;
    assert Repeat(' ', a) + " " == Repeat(' ', n) + "";
    assert Repeat(' ', a) + " " + digits + Repeat(' ', c) == Repeat(' ', n) + "" + digits + Repeat(' ', c);
    ReadParts(n, "", digits, c, base);
  }

  lemma {:induction false} SkipAllBlanks(s: string)
    requires AllBlank(s)
    ensures SkipBlanks(s) == ""
  {
    if s != "" {
      SkipAllBlanks(s[1..]);
    }
  }

  lemma SplitParts(p: string, digits: string, tail: string, base: nat)
    requires IsPrefix(p, base) && p != " " && AllDigits(digits, base) && AllBlank(tail) && IsBase(base)
    requires p != "" || digits != ""
    ensures var (neg, u) := SplitSign(p + digits + tail);
            neg == (p == "-") && SplitHex(u, base) == digits + tail
  {
    var s := p + digits + tail;
    if p == "" {
      assert s == digits + tail && DigitValue(s[0]) < base;
      if |s| >= 2 {
        assert s[1] == if |digits| > 1 then digits[1] else tail[0];
      }
    } else if p == "-" || p == "+" {
      var u := digits + tail;
      assert s[1..] == u;
      if |u| >= 2 {
        assert u[1] == if |digits| > 1 then digits[1] else if |digits| == 1 then tail[0] else tail[1];
      }
    } else {
      assert s[2..] == digits + tail;
    }
  }

  // ---------------------------------------------------------------- integers round trip

  /** An integer field is blanks, prefix, zeros and body, blanks. With a
      precision the digits number exactly the larger of it and the body. */
  lemma IntegerFieldParts(f: Field) returns (a: int, digits: string, c: int)
    requires f.extra == 0
    ensures f.Text() == Repeat(' ', a) + f.Prefix() + digits + Repeat(' ', c)
    ensures exists z: nat :: digits == Repeat('0', z) + f.body
    ensures !f.zero ==> |digits| == if f.dprec > |f.body| then f.dprec else |f.body|
    ensures a <= 0 || c <= 0
  {
    a := if f.left || f.zero then 0 else f.Padding();
    c := if f.left then f.Padding() else 0;
    var z1: nat := |Repeat('0', if f.left || !f.zero then 0 else f.Padding())|;
    var z2: nat := |Repeat('0', f.PrecisionZeros())|;
    RepeatSplit('0', z1, z2);
    digits := Repeat('0', z1 + z2) + f.body;
    RepeatLength('0', if f.left || !f.zero then 0 else f.Padding());
    RepeatLength('0', f.PrecisionZeros());
    assert f.Text() == Repeat(' ', a) + f.Prefix() + (Repeat('0', z1) + Repeat('0', z2) + f.body) + Repeat(' ', c);
  }

  lemma RepeatLength(c: char, n: int)
    ensures Repeat(c, n) == Repeat(c, |Repeat(c, n)|)
  {
  }

  /** Whatever the flags, width and precision, an integer field reads back. */
  lemma IntegerFieldRoundTrip(f: Field, v: nat, base: nat)
    requires f.extra == 0 && IsPrefix(f.Prefix(), base) && IsBase(base)
    requires AllDigits(f.body, base) && Value(f.body, base) == v
    ensures ReadInteger(f.Text(), base) == Number(if f.Prefix() == "-" then 0 - v else v)
  {
    hide ReadInteger, Value, Field.Text;
    var a, digits, c := IntegerFieldParts(f);
    var z: nat :| digits == Repeat('0', z) + f.body;
    LeadingZeros(z, f.body, base);
    assert AllDigits(digits, base);
    if f.Prefix() == " " {
      ReadPartsBlankSign(a, digits, c, base);
    } else {
      ReadParts(a, f.Prefix(), digits, c, base);
    }
  }

  /** The sign flags a specification can carry. */
  predicate ScannedSign(s: Spec) { s.sign == '\0' || s.sign == '+' || s.sign == ' ' }

  lemma {:induction false} ScanKeepsSign(fmt: string, i: nat, s: Spec, args: seq<Slot>, arg: nat)
    requires CString(fmt) && i < |fmt| && ScannedSign(s)
    ensures var r := ScanSpec(fmt, i, s, args, arg); r.Conversion? ==> ScannedSign(r.spec)
    decreases |fmt| - i
  {
    var item := ScanItem(fmt, i, s, args, arg);
    if item.Update? {
      ScanKeepsSign(fmt, item.next, item.spec, args, item.arg);
    }
  }

  predicate IsInteger(conv: char)
  {
    conv in {'d', 'D', 'i', 'P', 'o', 'O', 'u', 'U', 'x', 'X', 'p'}
  }

  function BaseOf(conv: char): nat
  {
    if conv == 'o' || conv == 'O' then 8
    else if conv == 'x' || conv == 'X' || conv == 'p' then 16
    else 10
  }

  /** The value an integer conversion is asked to print: the argument truncated
      to the width its length modifier names. */
  function IntegerArgument(s: Spec, conv: char, w: Word): int
  {
    var bits := Bits(ConversionLength(s, conv));
    if conv == 'p' then w
    else if conv == 'P' then Signed(w, 32)
    else if conv in {'d', 'D', 'i'} then Signed(w, bits)
    else Unsigned(w, bits)
  }

  /** Every integer conversion prints a field that reads back as its argument. */
  lemma IntegerRoundTrip(s: Spec, conv: char, slot: Slot)
    requires IsInteger(conv) && ScannedSign(s)
    ensures ReadInteger(FieldOf(s, conv, slot).Text(), BaseOf(conv))
         == Number(IntegerArgument(s, conv, slot.word))
  {
    hide ReadInteger, Field.Text, IntegerBody, FloatField, Signed, Unsigned;
    var v := IntegerArgument(s, conv, slot.word);
    var f := FieldOf(s, conv, slot);
    if conv in {'d', 'D', 'i', 'P'} {
      SignedFieldRoundTrip(s, v);
    } else {
      UnsignedFieldRoundTrip(s, v, BaseOf(conv), conv == 'X', f.hex);
    }
  }

  lemma SignedFieldRoundTrip(s: Spec, v: int)
    requires ScannedSign(s)
    ensures ReadInteger(SignedField(s, v).Text(), 10) == Number(v)
  {
    hide ReadInteger, Field.Text, IntegerBody;
    IntegerBodyRoundTrip(AbsInt(v), 10, false, s.prec, s.alt);
    IntegerFieldRoundTrip(SignedField(s, v), AbsInt(v), 10);
  }

  lemma UnsignedFieldRoundTrip(s: Spec, v: nat, base: nat, upper: bool, hex: string)
    requires IsBase(base) && (hex == "" || (base == 16 && (hex == "0x" || hex == "0X")))
    ensures ReadInteger(UnsignedField(s, v, base, upper, hex).Text(), base) == Number(v)
  {
    hide ReadInteger, Field.Text, IntegerBody;
    IntegerBodyRoundTrip(v, base, upper, s.prec, s.alt);
    IntegerFieldRoundTrip(UnsignedField(s, v, base, upper, hex), v, base);
  }

  // ---------------------------------------------------------------- floats denote rounded values

  /** Decimal text with f fraction digits whose digits, read as one number,
      make q: the text denotes q / 10^f. */
  ghost predicate Denotes(s: string, q: nat, f: nat)
  {
    && AllDigits(DropPoint(s)) && Value(DropPoint(s)) == q
    && (forall i :: 0 <= i < |s| && s[i] == '.' ==> i == |s| - f - 1)
    && (f > 0 ==> |s| > f + 1 && s[|s| - f - 1] == '.')
  }

  lemma FixedTextDenotes(q: nat, f: nat, dot: bool)
    ensures Denotes(FixedText(q, f, dot), q, f)
  {
    FixedTextMeaning(q, f, dot);
  }

  /** `%f` prints x rounded half up to prec fraction digits, exactly prec of
      them; a negative value loses its sign exactly when that is zero. */
  lemma FixedConversion(neg: bool, num: nat, den: nat, prec: nat, alt: bool) returns (q: nat)
    requires den > 0
    ensures Denotes(CvtText(num, den, prec, alt, 'f'), q, prec)
    ensures RoundsTo(num * Pow10(prec), den, q)
    ensures CvtSign(neg, num, den, prec, 'f') <==> neg && q > 0
  {
    q := RoundScaled(num, den, prec);
    RoundScaledMeaning(num, den, prec);
    FixedTextDenotes(q, prec, alt);
    if num == 0 {
      assert num * Pow10(prec) == 0;
      HalfUpUnique(0, den, 0);
    }
  }

  /** `%e` of x > 0 prints a significand of prec + 1 digits, none of them a
      leading zero, and the exponent; together they are x rounded half up. */
  lemma ScientificConversion(num: nat, den: nat, prec: nat, alt: bool, ch: char)
    returns (significand: string, exponent: string, m: nat, e: int)
    requires 0 < num && 0 < den && (ch == 'e' || ch == 'E')
    ensures CvtText(num, den, prec, alt, ch) == significand + exponent
    ensures Denotes(significand, m, prec) && Pow10(prec) <= m < Pow10(prec + 1)
    ensures |exponent| >= 4 && exponent[0] == ch && (exponent[1] == '-' <==> e < 0)
    ensures AllDigits(exponent[2..]) && Value(exponent[2..]) == Magnitude(e)
    ensures IsRounded(num, den, prec, m, e)
  {
    hide FixedText, ExponentText, ToScientific, IsRounded, Denotes, Value, Pow10;
    var s := ToScientific(num, den, prec);
    m, e := s.m, s.e;
    significand, exponent := FixedText(m, prec, alt), ExponentText(e, ch);
    ScientificIsRounded(num, den, prec);
    FixedTextDenotes(m, prec, alt);
    ExponentTextMeaning(e, ch);
  }

  /** m * 10^(e - prec) is x rounded half up in the place the exponent of x
      gives to the last of prec + 1 digits. */
  ghost predicate IsRounded(num: nat, den: nat, prec: nat, m: nat, e: int)
  {
    exists k :: HasExponent(num, den, k) && (e == k || e == k + 1)
             && RoundsScaledTo(num, den, prec - k, if e == k then m else 10 * m)
  }

  lemma ScientificIsRounded(num: nat, den: nat, prec: nat)
    requires 0 < num && 0 < den
    ensures var s := ToScientific(num, den, prec);
            Pow10(prec) <= s.m < Pow10(prec + 1) && IsRounded(num, den, prec, s.m, s.e)
  {
    hide ToScientific, Exponent, HasExponent, RoundsScaledTo, Pow10;
    ScientificMeaning(num, den, prec);
    ExponentIsLogarithm(num, den);
    var k := Exponent(num, den);
    assert HasExponent(num, den, k);
  }

  /** `%g` in fixed style, without `#`: the text denotes x rounded half up to
      the requested significant digits, and neither a trailing fraction zero nor
      a bare point is left. */
  lemma GeneralFixedConversion(num: nat, den: nat, prec: nat, ch: char)
    returns (q: nat, f: nat, q': nat, f': nat)
    requires den > 0 && (ch == 'g' || ch == 'G')
    requires !UsesExponent(num, den, if prec == 0 then 1 else prec)
    ensures Denotes(CvtText(num, den, prec, false, ch), q', f')
    ensures f' <= f && q == q' * Pow10(f - f') && (f' > 0 ==> q' % 10 != 0)
    ensures f' == 0 ==> CvtText(num, den, prec, false, ch) == Numeral(q')
    ensures RoundsTo(num * Pow10(f), den, q)
    ensures num > 0 ==> Pow10((if prec == 0 then 1 else prec) - 1) <= q
                     <= Pow10(if prec == 0 then 1 else prec)
  {
    hide FixedText, RoundScaled, UsesExponent, GeneralFraction, Pow10, Denotes, RoundsTo;
    var precision := if prec == 0 then 1 else prec;
    f, q := GeneralRounding(num, den, precision);
    q', f' := ShortTextMeaning(q, f);
    FixedTextDenotes(q', f', false);
    NoPoint(q');
  }

  lemma NoPoint(q: nat)
    ensures FixedText(q, 0, false) == Numeral(q)
  {
  }

  /** The rounding `%g` performs in fixed style. */
  lemma GeneralRounding(num: nat, den: nat, precision: nat) returns (f: nat, q: nat)
    requires den > 0 && precision > 0 && !UsesExponent(num, den, precision)
    ensures f == GeneralFraction(num, den, precision) && q == RoundScaled(num, den, f)
    ensures RoundsTo(num * Pow10(f), den, q)
    ensures num > 0 ==> Pow10(precision - 1) <= q <= Pow10(precision)
  {
    GeneralFractionNat(num, den, precision);
    f := GeneralFraction(num, den, precision);
    q := RoundScaled(num, den, f);
    RoundScaledMeaning(num, den, f);
    if num > 0 {
      SignificandRange(num, den, precision - 1);
    }
  }

  /** `%g` in e-style, without `#`: a trimmed significand of the same value. */
  lemma GeneralScientificConversion(num: nat, den: nat, prec: nat, ch: char)
    returns (significand: string, m: nat, e: int, m': nat, f': nat)
    requires den > 0 && (ch == 'g' || ch == 'G')
    requires UsesExponent(num, den, if prec == 0 then 1 else prec)
    ensures var places := (if prec == 0 then 1 else prec) - 1;
            && CvtText(num, den, prec, false, ch) == significand + ExponentText(e, if ch == 'g' then 'e' else 'E')
            && Denotes(significand, m', f') && f' <= places && m == m' * Pow10(places - f')
            && (f' > 0 ==> m' % 10 != 0)
            && Pow10(places) <= m < Pow10(places + 1) && IsRounded(num, den, places, m, e)
  {
    hide FixedText, ExponentText, ToScientific, IsRounded, Denotes, Value, Pow10, UsesExponent;
    var places := (if prec == 0 then 1 else prec) - 1;
    UsesExponentPositive(num, den, places + 1);
    var s := ToScientific(num, den, places);
    m, e := s.m, s.e;
    significand := ShortText(m, places);
    ScientificIsRounded(num, den, places);
    m', f' := ShortTextMeaning(m, places);
    FixedTextDenotes(m', f', false);
  }

  lemma UsesExponentPositive(num: nat, den: nat, precision: nat)
    requires den > 0 && UsesExponent(num, den, precision)
    ensures num > 0
  {
  }

  // ---------------------------------------------------------------- where the code leaves the standard

  /** C11 section 7.21.6.1 chooses the style of `%g` by the exponent of the
      rounded value. */
  ghost predicate StandardUsesExponent(num: nat, den: nat, precision: nat)
    requires den > 0 && precision > 0
  {
    var x := ToScientific(num, den, precision - 1).e;
    num > 0 && (x < -4 || x >= precision)
  }

  lemma StyleByExponent(num: nat, den: nat, precision: nat)
    requires num > 0 && den > 0 && precision > 0
    ensures UsesExponent(num, den, precision)
        <==> Exponent(num, den) < -4 || Exponent(num, den) >= precision
  {
    if num < den && num * 10000 < den {
      assert ShiftToOne(num, den) == 1 + ShiftToOne(10 * num, den);
      assert ShiftToOne(10 * num, den) == 1 + ShiftToOne(100 * num, den);
      assert ShiftToOne(100 * num, den) == 1 + ShiftToOne(1000 * num, den);
      assert ShiftToOne(1000 * num, den) == 1 + ShiftToOne(10000 * num, den);
    } else if num < den {
      ShiftAtMostFour(num, den);
    }
  }

  /** x rounds up to a power of ten when only so many digits are kept. */
  predicate RoundsUp(num: nat, den: nat, digits: nat)
    requires num > 0 && den > 0 && digits > 0
  {
    RoundScaled(num, den, digits - 1 - Exponent(num, den)) == Pow10(digits)
  }

  /** The style the standard asks for, by the exponent of the unrounded value. */
  lemma StandardByExponent(num: nat, den: nat, asked: nat)
    requires num > 0 && den > 0 && asked > 0
    ensures var x := Exponent(num, den);
            StandardUsesExponent(num, den, asked)
            <==> if RoundsUp(num, den, asked) then x + 1 < -4 || x + 1 >= asked else x < -4 || x >= asked
  {
  }

  /** The code looks at the value before rounding, and at the precision cut to 39.
      It agrees with the standard, for the precision asked for, except in two cases:
      the value rounds up to a power of ten across one of the two limits, or its
      exponent lies between 39 and that precision and rounding does not lift it out
      of there. */
  lemma StyleMatchesStandard(num: nat, den: nat, asked: nat)
    requires num > 0 && den > 0 && asked > 0
    ensures var x, used, up := Exponent(num, den), FloatPrecision(asked), RoundsUp(num, den, asked);
            (UsesExponent(num, den, used) <==> StandardUsesExponent(num, den, asked))
            <==> if used <= x < asked then up && x == asked - 1
                 else !(up && (x == asked - 1 || x == -5))
  {
    hide UsesExponent, StandardUsesExponent, RoundsUp, Exponent;
    StyleByExponent(num, den, FloatPrecision(asked));
    StandardByExponent(num, den, asked);
  }

  /** 999999.5 to six significant digits rounds up across a limit. */
  lemma StyleDiffers()
    ensures !UsesExponent(1999999, 2, 6) && StandardUsesExponent(1999999, 2, 6)
  {
    var num, precision := 1999999, 6;
    QuotientOf(num, 2, 999999, 1);
    assert |Numeral(999999)| == 6;
    assert Pow10(0) == 1 && Pow10(6) == 1000000;
    assert RoundScaled(num, 2, 0) == 1000000;
    StyleMatchesStandard(num, 2, precision);
  }

  /** 2^140 has 43 digits. To 45 of them the standard asks for all of its digits
      in fixed style; the code switches to an exponent. */
  lemma LongIntegerDiffers()
    ensures UsesExponent(1393796574908163946345982392040522594123776, 1, FloatPrecision(45))
    ensures !StandardUsesExponent(1393796574908163946345982392040522594123776, 1, 45)
  {
    hide Pow10, Numeral, StandardUsesExponent, UsesExponent, Exponent, RoundsUp;
    var num := 1393796574908163946345982392040522594123776;
    LargePowers();
    TenMore(42);
    DigitCount(num, 43);
    LongExponent(num, 42);
    StyleByExponent(num, 1, 39);
    StyleMatchesStandard(num, 1, 45);
  }

  lemma LongExponent(num: nat, x: nat)
    requires num > 0 && |Numeral(num)| == x + 1
    ensures Exponent(num, 1) == x
  {
    hide Numeral;
    QuotientOf(num, 1, num, 0);
  }

  lemma LargePowers()
    ensures Pow10(14) == 100000000000000 && Pow10(28) == 10000000000000000000000000000
    ensures Pow10(42) == 1000000000000000000000000000000000000000000
  {
    assert Pow10(7) == 10000000;
    hide Pow10;
    Pow10Add(7, 7);
    Pow10Add(14, 14);
    Pow10Add(28, 14);
  }

  lemma TenMore(k: nat)
    ensures Pow10(k + 1) == 10 * Pow10(k)
  {
  }

  /** The length of a numeral between two powers of ten. */
  lemma DigitCount(q: nat, n: nat)
    requires n > 0 && Pow10(n - 1) <= q <= Pow10(n)
    ensures |Numeral(q)| == if q == Pow10(n) then n + 1 else n
  {
    hide Numeral;
    NumeralLength(q);
    var len := |Numeral(q)|;
    if len > n + 1 { Pow10Monotone(n + 1, len - 1); }
    if len < n { Pow10Monotone(len, n - 1); }
  }

  /** `#` is to make an octal number start with a zero. It does, unless zero is
      printed with precision zero, where C11 section 7.21.6.1 wants one `0`. */
  lemma OctalAlternate(v: nat, upper: bool, prec: int)
    ensures var s := IntegerBody(v, 8, upper, prec, true);
            (s != "" && s[0] == '0') <==> !(v == 0 && prec == 0)
  {
  }

  lemma OctalAlternateFails()
    ensures IntegerBody(0, 8, false, 0, true) == ""
  {
  }

  lemma {:induction false} ValueZeros(s: string, k: nat)
    ensures Value(s + Repeat('0', k)) == Value(s) * Pow10(k)
  {
    if k == 0 {
      assert s + Repeat('0', 0) == s;
    } else {
      ValueZeros(s, k - 1);
      Reassociate(s, Repeat('0', k - 1), "0");
      ValueSnoc(s + Repeat('0', k - 1), '0', 10);
      TimesTen(Value(s), Pow10(k - 1));
    }
  }

  /** Precision above 39 is served by zeros behind the converted text. For
      `%e` that is behind the exponent, whose printed digits then denote
      10^(prec - 39) times the exponent: right exactly when the exponent is 0. */
  lemma LargePrecisionExponent(s: Spec, num: nat, den: nat, ch: char)
    returns (significand: string, digits: string)
    requires s.prec > MAXFRACT && (ch == 'e' || ch == 'E')
    requires num > 0 && InDoubleRange(num, den)
    ensures var f, e := FloatField(s, ch, Finite(false, num, den)), ToScientific(num, den, MAXFRACT).e;
            && f.body + Repeat('0', f.extra) == significand + [ch, if e < 0 then '-' else '+'] + digits
            && AllDigits(digits) && Value(digits) == Magnitude(e) * Pow10(s.prec - MAXFRACT)
            && (Value(digits) == Magnitude(e) <==> e == 0)
  {
    hide FixedText, ToScientific, Pow10, Value, Numeral, GeneralText, IntegerDigits, ShiftToOne;
    var t := ToScientific(num, den, MAXFRACT);
    var k := s.prec - MAXFRACT;
    var tail := ExponentText(t.e, ch);
    significand := FixedText(t.m, MAXFRACT, s.alt);
    digits := tail[2..] + Repeat('0', k);
    ExponentTextMeaning(t.e, ch);
    ValueZeros(tail[2..], k);
    TenfoldOrZero(Magnitude(t.e), k);
    assert tail == [ch, if t.e < 0 then '-' else '+'] + tail[2..];
    assert (significand + tail) + Repeat('0', k)
        == significand + [ch, if t.e < 0 then '-' else '+'] + digits;
  }

  lemma TenfoldOrZero(n: nat, k: nat)
    requires k > 0
    ensures n * Pow10(k) == n <==> n == 0
  {
    assert Pow10(k) >= 2;
    if n > 0 {
      AtLeastOne(n, Pow10(k) - 1);
      assert n * (Pow10(k) - 1) == n * Pow10(k) - n;
    }
  }
}
