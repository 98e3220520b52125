/** Printed floats read back: whatever the flags, width and precision, the field of a
    float conversion denotes the rounded value, exactly as long as the zeros that
    serve a precision above 39 do no harm. */
module FloatReading {
  import opened Decimal
  import opened FloatText
  import opened FormatSpec
  import opened FormatTheorems
  import opened FloatValues

  // ---------------------------------------------------------------- reading

  /** What a person makes of a printed float. */
  datatype Shown = Unreadable | Word(neg: bool, word: string) | Amount(neg: bool, value: Scaled)

  /** The number of characters behind the first point. */
  function FractionLength(s: string): nat
  {
    if s == "" then 0 else if s[0] == '.' then |s| - 1 else FractionLength(s[1..])
  }

  /** Digits with at most one point among them. */
  ghost predicate IsMantissa(s: string)
  {
    var d := DropPoint(s);
    d != "" && AllDigits(d) && |s| <= |d| + 1
  }

  /** The characters before the exponent letter, all of them if there is none. */
  function MantissaLength(s: string): (k: nat)
    ensures k <= |s|
  {
    if s == "" || s[0] == 'e' || s[0] == 'E' then 0 else 1 + MantissaLength(s[1..])
  }

  /** An exponent: letter, sign, digits. */
  ghost predicate IsExponent(s: string)
  {
    |s| > 2 && (s[1] == '-' || s[1] == '+') && AllDigits(s[2..])
  }

  function ExponentValue(s: string): int
    requires |s| > 2
  {
    if s[1] == '-' then 0 - Value(s[2..]) else Value(s[2..])
  }

  /** Reads what stands between the sign and the blanks. */
  ghost function ReadUnsigned(s: string, neg: bool): Shown
  {
    var k := MantissaLength(s);
    var m, x := s[..k], s[k..];
    if s in {"inf", "INF", "nan", "NAN"} then Word(neg, s)
    else if !IsMantissa(m) then Unreadable
    else if x == "" then Amount(neg, Scaled(Value(DropPoint(m)), 0 - FractionLength(m)))
    else if !IsExponent(x) then Unreadable
    else Amount(neg, Scaled(Value(DropPoint(m)), ExponentValue(x) - FractionLength(m)))
  }

  /** The characters before the first blank. */
  function UpToBlank(s: string): (k: nat)
    ensures k <= |s|
  {
    if s == "" || s[0] == ' ' then 0 else 1 + UpToBlank(s[1..])
  }

  /** Blanks, sign, text, blanks. */
  ghost function ReadFloat(s: string): Shown
  {
    var (neg, u) := SplitSign(SkipBlanks(s));
    var k := UpToBlank(u);
    if AllBlank(u[k..]) then ReadUnsigned(u[..k], neg) else Unreadable
  }

  // ---------------------------------------------------------------- mantissas

  lemma {:induction false} FractionLengthAt(s: string, i: nat)
    requires i < |s| && s[i] == '.' && '.' !in s[..i]
    ensures FractionLength(s) == |s| - 1 - i
    decreases i
  {
    if i > 0 {
      assert s[0] in s[..i];
      assert s[1..][..i - 1] == s[..i][1..];
      FractionLengthAt(s[1..], i - 1);
    }
  }

  lemma {:induction false} NoFraction(s: string)
    requires '.' !in s
    ensures FractionLength(s) == 0
  {
    if s != "" { NoFraction(s[1..]); }
  }

  lemma {:induction false} DropPointZeros(z: nat, s: string)
    ensures DropPoint(Repeat('0', z) + s) == Repeat('0', z) + DropPoint(s)
    ensures |s| <= |DropPoint(s)| + 1 ==> |Repeat('0', z) + s| <= |DropPoint(Repeat('0', z) + s)| + 1
    decreases |s|
  {
    var zeros := Repeat('0', z);
    if s == "" {
      assert zeros + s == zeros;
      DropPointOfDigits(zeros);
    } else {
      var n := |s| - 1;
      assert zeros + s == (zeros + s[..n]) + [s[n]];
      assert s == s[..n] + [s[n]];
      DropPointZeros(z, s[..n]);
      DropPointSnoc(zeros + s[..n], s[n]);
      DropPointSnoc(s[..n], s[n]);
    }
  }

  /** Fixed-point text holds its digits and at most one point. */
  lemma {:induction false} OnePoint(q: nat, f: nat, dot: bool)
    ensures |FixedText(q, f, dot)| <= |DropPoint(FixedText(q, f, dot))| + 1
    ensures DropPoint(FixedText(q, f, dot)) != ""
  {
    if f == 0 {
      NumeralIsDecimalText(q);
      DropPointOfDigits(Numeral(q));
      if dot { DropPointSnoc(Numeral(q), '.'); }
      assert Numeral(q) + "" == Numeral(q);
    } else {
      OnePoint(q / 10, f - 1, true);
      DropPointSnoc(FixedText(q / 10, f - 1, true), DigitChar(q % 10));
    }
  }

  /** Fixed-point text behind any zeros is a mantissa that denotes q / 10^f. */
  lemma ReadMantissa(z: nat, q: nat, f: nat, dot: bool)
    ensures var m := Repeat('0', z) + FixedText(q, f, dot);
            IsMantissa(m) && Value(DropPoint(m)) == q && FractionLength(m) == f
  {
    hide FixedText, Value, DropPoint;
    var zeros, s := Repeat('0', z), FixedText(q, f, dot);
    var m := zeros + s;
    FixedTextMeaning(q, f, dot);
    DropPointZeros(z, s);
    OnePoint(q, f, dot);
    LeadingZeros(z, DropPoint(s), 10);
    assert AllDigits(Repeat('0', z) + DropPoint(s));
    if f > 0 || dot {
      var i := |m| - f - 1;
      assert m[i] == s[|s| - f - 1];
      FractionLengthAt(m, i);
    } else {
      PointFree(q);
      assert s == FixedText(q, 0, false);
      NoFraction(m);
    }
  }

  lemma PointFree(q: nat)
    ensures '.' !in FixedText(q, 0, false)
  {
    NumeralIsDecimalText(q);
  }

  // ---------------------------------------------------------------- unsigned text

  /** Letters of no mantissa, and no blanks. */
  predicate IsPlain(c: char) { IsDigit(c) || c == '.' }

  lemma PlainAt(t: string, j: nat)
    requires DecimalText(t) && j < |t|
    ensures IsPlain(t[j])
  {
    if j > 0 {
      var before := t[j - 1];
      assert IsDigit(t[j]) || (t[j] == '.' && IsDigit(before));
    }
  }

  lemma MantissaPlain(z: nat, q: nat, f: nat, dot: bool)
    ensures var m := Repeat('0', z) + FixedText(q, f, dot);
            m != "" && IsDigit(m[0]) && forall i | 0 <= i < |m| :: IsPlain(m[i])
  {
    hide FixedText;
    FixedTextIsDecimalText(q, f, dot);
    var zeros, t := Repeat('0', z), FixedText(q, f, dot);
    forall i | 0 <= i < |zeros + t| ensures IsPlain((zeros + t)[i]) {
      if i >= |zeros| {
        PlainAt(t, i - |zeros|);
      }
    }
  }

  lemma {:induction false} MantissaEnds(m: string, tail: string)
    requires forall i | 0 <= i < |m| :: IsPlain(m[i])
    requires tail == "" || tail[0] == 'e' || tail[0] == 'E'
    ensures MantissaLength(m + tail) == |m|
    decreases |m|
  {
    if m == "" {
      assert m + tail == tail;
    } else {
      assert (m + tail)[1..] == m[1..] + tail;
      MantissaEnds(m[1..], tail);
    }
  }

  /** An exponent part, or none. */
  ghost predicate IsTail(tail: string)
  {
    tail == "" || (IsExponent(tail) && (tail[0] == 'e' || tail[0] == 'E'))
  }

  ghost function TailValue(tail: string): int
    requires IsTail(tail)
  {
    if tail == "" then 0 else ExponentValue(tail)
  }

  lemma ReadAmount(z: nat, q: nat, f: nat, dot: bool, tail: string, neg: bool)
    requires IsTail(tail)
    ensures ReadUnsigned(Repeat('0', z) + FixedText(q, f, dot) + tail, neg)
         == Amount(neg, Scaled(q, TailValue(tail) - f))
  {
    hide FixedText, Value, DropPoint, IsMantissa, IsExponent, FractionLength;
    var m := Repeat('0', z) + FixedText(q, f, dot);
    MantissaPlain(z, q, f, dot);
    MantissaEnds(m, tail);
    ReadMantissa(z, q, f, dot);
    assert (m + tail)[0] == m[0];
    assert (m + tail)[..|m|] == m && (m + tail)[|m|..] == tail;
  }

  /** An exponent with zeros behind it denotes that many times ten of itself. */
  lemma ReadExponent(e: int, letter: char, k: nat)
    requires letter == 'e' || letter == 'E'
    ensures var t := ExponentText(e, letter) + Repeat('0', k);
            IsTail(t) && TailValue(t) == e * Pow10(k)
  {
    hide Value, Pow10, Numeral;
    var x := ExponentText(e, letter);
    var t := x + Repeat('0', k);
    ExponentTextMeaning(e, letter);
    assert t[2..] == x[2..] + Repeat('0', k);
    ValueZeros(x[2..], k);
    assert e < 0 ==> 0 - (Magnitude(e) * Pow10(k)) == e * Pow10(k);
  }

  // ---------------------------------------------------------------- the field around it

  lemma {:induction false} BlankEnds(t: string, rest: string)
    requires ' ' !in t && (rest == "" || rest[0] == ' ')
    ensures UpToBlank(t + rest) == |t|
  {
    if t == "" {
      assert t + rest == rest;
    } else {
      assert (t + rest)[1..] == t[1..] + rest;
      BlankEnds(t[1..], rest);
    }
  }

  /** Text that starts with neither a sign nor a blank, and holds no blank. */
  predicate IsUnsigned(t: string)
  {
    t != "" && t[0] != '-' && t[0] != '+' && ' ' !in t
  }

  lemma ReadSigned(s: string, neg: bool, t: string, tail: string)
    requires IsUnsigned(t) && AllBlank(tail) && SplitSign(SkipBlanks(s)) == (neg, t + tail)
    ensures ReadFloat(s) == ReadUnsigned(t, neg)
  {
    hide ReadUnsigned, SplitSign, SkipBlanks;
    BlankEnds(t, tail);
    assert (t + tail)[..|t|] == t && (t + tail)[|t|..] == tail;
  }

  lemma ReadAround(a: int, p: string, t: string, c: int)
    requires IsUnsigned(t) && (p == "" || p == "-" || p == "+" || p == " ")
    ensures ReadFloat(Repeat(' ', a) + p + t + Repeat(' ', c)) == ReadUnsigned(t, p == "-")
  {
    hide ReadUnsigned, ReadFloat, SkipBlanks, Repeat;
    var s, tail := Repeat(' ', a) + p + t + Repeat(' ', c), Repeat(' ', c);
    if p == " " {
      var n := if a > 0 then a + 1 else 1;
      BlankSnoc(a);
      assert s == Repeat(' ', n) + (t + tail);
      SkipLeadingBlanks(n, t + tail);
    } else {
      assert s == Repeat(' ', a) + (p + t + tail);
      SkipLeadingBlanks(a, p + t + tail);
      SignSplits(p, t + tail);
      assert p + t + tail == p + (t + tail);
    }
    ReadSigned(s, p == "-", t, tail);
  }

  lemma BlankSnoc(a: int)
    ensures Repeat(' ', a) + " " == Repeat(' ', if a > 0 then a + 1 else 1)
  {
  }

  lemma SignSplits(p: string, u: string)
    requires p == "" || p == "-" || p == "+"
    requires u != "" && u[0] != '-' && u[0] != '+'
    ensures SplitSign(p + u) == (p == "-", u)
  {
    if p == "" { assert p + u == u; } else { assert (p + u)[1..] == u; }
  }

  /** A float field is blanks, sign, zeros, body, zeros, blanks. */
  lemma FloatFieldParts(f: Field) returns (a: int, z: nat, c: int)
    requires f.dprec == 0
    ensures f.Text() == Repeat(' ', a) + f.Prefix()
                        + (Repeat('0', z) + f.body + Repeat('0', f.extra)) + Repeat(' ', c)
    ensures !f.zero ==> z == 0
  {
    a := if f.left || f.zero then 0 else f.Padding();
    c := if f.left then f.Padding() else 0;
    z := |Repeat('0', if f.left || !f.zero then 0 else f.Padding())|;
    RepeatLength('0', if f.left || !f.zero then 0 else f.Padding());
    assert Repeat('0', f.PrecisionZeros()) == "";
    assert f.Text() == Repeat(' ', a) + f.Prefix()
                       + (Repeat('0', z) + f.body + Repeat('0', f.extra)) + Repeat(' ', c);
  }

  // ---------------------------------------------------------------- what is asked for

  /** The precision asked for. */
  function Precision(s: Spec): nat { if s.prec < 0 then 6 else s.prec }

  /** The value rounded half up to the place asked for, with its sign; or the word. */
  function Wanted(s: Spec, conv: char, d: Double): Shown
  {
    var big := conv == 'E' || conv == 'G';
    match d
    case Infinite(neg) => Word(neg, if big then "INF" else "inf")
    case NotANumber => Word(false, if big then "NAN" else "nan")
    case Finite(neg, num, den) =>
      var prec := Precision(s);
      Amount(CvtSign(neg, num, den, prec, conv), RoundedAt(num, den, Places(num, den, prec, conv)))
  }

  /** The same specification with at most 39 digits asked for. */
  function AtMost39(s: Spec): Spec { s.(prec := if s.prec > MAXFRACT then MAXFRACT else s.prec) }

  predicate Matches(a: Shown, b: Shown)
  {
    if a.Amount? && b.Amount? then a.neg == b.neg && SameValue(a.value, b.value) else a == b
  }

  /** x rounds to one digit before the point when prec + 1 digits are kept: it is zero,
      or at least 1 - 10^-(prec+1) / 2 and below 10 - 10^-prec / 2. */
  predicate OneDigit(num: nat, den: nat, prec: nat)
  {
    num == 0 || ((2 * Pow10(prec + 1) - 1) * den <= 2 * (num * Pow10(prec + 1))
                 && 2 * (num * Pow10(prec)) < (2 * Pow10(prec + 1) - 1) * den)
  }

  /** Precision above 39 is served by zeros behind the converted text. They do no
      harm where they continue a fraction, or an exponent that is zero; `%g` without
      `#` asks for none. */
  predicate ZerosHarmless(s: Spec, conv: char, d: Double)
  {
    || s.prec <= MAXFRACT
    || ((conv == 'g' || conv == 'G') && !s.alt)
    || (d.Finite? && match conv
          case 'f' => true
          case 'g' => !UsesExponent(d.num, d.den, MAXFRACT)
          case 'G' => !UsesExponent(d.num, d.den, MAXFRACT)
          case _ => OneDigit(d.num, d.den, MAXFRACT))
  }

  /** A precision above 39 asks for digits that are all zeros. */
  predicate DigitsSuffice(s: Spec, conv: char, d: Double)
  {
    s.prec > MAXFRACT && d.Finite? ==>
      RoundScaled(d.num, d.den, Places(d.num, d.den, s.prec, conv)) % Pow10(s.prec - MAXFRACT) == 0
  }

  // ---------------------------------------------------------------- finite values

  /** Fixed style: zeros behind the fraction change nothing. */
  lemma ReadFixed(z: nat, q: nat, f: nat, dot: bool, k: nat, neg: bool)
    requires k > 0 ==> f > 0 || dot
    ensures var t := ReadUnsigned(Repeat('0', z) + FixedText(q, f, dot) + Repeat('0', k), neg);
            && t.Amount? && t.neg == neg && SameValue(t.value, Scaled(q, 0 - f))
            && (k == 0 ==> t.value == Scaled(q, 0 - f))
  {
    hide FixedText, ReadUnsigned, SameValue, Pow10;
    FixedTextZeros(q, f, k, dot);
    ReadAmount(z, q * Pow10(k), f + k, dot, "", neg);
    SameScaled(q, k, 0 - f);
    Pow10Zero();
    var zeros, body, more := Repeat('0', z), FixedText(q, f, dot), Repeat('0', k);
    assert zeros + body + more == zeros + (body + more) + "";
  }

  /** Scientific style: zeros behind the exponent are harmless exactly if there are
      none, or the exponent or the whole number is zero. */
  lemma ReadScientific(z: nat, q: nat, f: nat, dot: bool, e: int, letter: char, k: nat, neg: bool)
    requires letter == 'e' || letter == 'E'
    ensures var t := ReadUnsigned(Repeat('0', z) + (FixedText(q, f, dot) + ExponentText(e, letter))
                                  + Repeat('0', k), neg);
            && t.Amount? && t.neg == neg
            && (SameValue(t.value, Scaled(q, e - f)) <==> q == 0 || e == 0 || k == 0)
            && t.value == Scaled(q, e * Pow10(k) - f) && (k == 0 ==> t.value == Scaled(q, e - f))
  {
    hide FixedText, ReadUnsigned, SameValue, Pow10, ExponentText, Numeral, IsTail, TailValue;
    ReadExponent(e, letter, k);
    var tail := ExponentText(e, letter) + Repeat('0', k);
    ReadAmount(z, q, f, dot, tail, neg);
    SameExponent(q, e * Pow10(k) - f, e - f);
    TimesPower(e, k);
    var zeros, body, x, more := Repeat('0', z), FixedText(q, f, dot), ExponentText(e, letter), Repeat('0', k);
    assert zeros + (body + x) + more == zeros + body + (x + more);
  }

  lemma TimesPower(e: int, k: nat)
    ensures e * Pow10(k) == e <==> e == 0 || k == 0
  {
    hide Pow10;
    if k > 0 { TenfoldOrZero(Magnitude(e), k); } else { Pow10Zero(); }
    assert e < 0 ==> 0 - (Magnitude(e) * Pow10(k)) == e * Pow10(k);
  }

  /** `%f` and `%e` read back as the rounded value, `%e` exactly if the zeros behind
      its exponent are harmless. */
  lemma ReadPlain(z: nat, num: nat, den: nat, prec: nat, alt: bool, conv: char, k: nat, neg: bool)
    requires den > 0 && conv in {'f', 'e', 'E'} && (k > 0 ==> prec > 0)
    ensures var t := ReadUnsigned(Repeat('0', z) + CvtText(num, den, prec, alt, conv) + Repeat('0', k), neg);
            && t.Amount? && t.neg == neg
            && (SameValue(t.value, RoundedValue(num, den, prec, conv))
                <==> k == 0 || conv == 'f' || ToScientific(num, den, prec).e == 0)
            && (conv != 'f' ==> var x := ToScientific(num, den, prec); t.value == Scaled(x.m, x.e * Pow10(k) - prec))
  {
    hide FixedText, ReadUnsigned, SameValue, Pow10, ExponentText, ToScientific, RoundScaled;
    if conv == 'f' {
      ReadFixed(z, RoundScaled(num, den, prec), prec, alt, k, neg);
    } else {
      var t := ToScientific(num, den, prec);
      ReadScientific(z, t.m, prec, alt, t.e, conv, k, neg);
      SignificandZero(num, den, prec);
    }
  }

  /** Only zero has a significand of zero, and its exponent is zero too. */
  lemma SignificandZero(num: nat, den: nat, prec: nat)
    requires den > 0
    ensures ToScientific(num, den, prec).m == 0 ==> ToScientific(num, den, prec).e == 0
  {
    if num > 0 { ScientificIsRounded(num, den, prec); }
  }

  /** The exponent of `%g` in scientific style is never zero. */
  lemma GeneralExponent(num: nat, den: nat, precision: nat)
    requires den > 0 && precision > 0 && UsesExponent(num, den, precision)
    ensures ToScientific(num, den, precision - 1).e != 0 && ToScientific(num, den, precision - 1).m > 0
  {
    hide UsesExponent, Exponent, Pow10;
    UsesExponentPositive(num, den, precision);
    StyleByExponent(num, den, precision);
    ScientificMeaning(num, den, precision - 1);
  }

  /** `%g` reads back as the rounded value, exactly if there are no zeros behind an
      exponent. */
  lemma ReadGeneral(z: nat, num: nat, den: nat, prec: nat, alt: bool, conv: char, k: nat, neg: bool)
    requires den > 0 && (conv == 'g' || conv == 'G') && (k > 0 ==> alt)
    ensures var t := ReadUnsigned(Repeat('0', z) + CvtText(num, den, prec, alt, conv) + Repeat('0', k), neg);
            && t.Amount? && t.neg == neg
            && (SameValue(t.value, RoundedValue(num, den, prec, conv))
                <==> k == 0 || !UsesExponent(num, den, if prec == 0 then 1 else prec))
            && (alt && UsesExponent(num, den, if prec == 0 then 1 else prec) ==>
                  var places := (if prec == 0 then 1 else prec) - 1;
                  var x := ToScientific(num, den, places);
                  t.value == Scaled(x.m, x.e * Pow10(k) - places))
  {
    hide FixedText, ReadUnsigned, SameValue, Pow10, ExponentText, ToScientific, RoundScaled, ShortText,
         UsesExponent, GeneralFraction;
    var precision := if prec == 0 then 1 else prec;
    var letter := if conv == 'g' then 'e' else 'E';
    if UsesExponent(num, den, precision) {
      var t, places := ToScientific(num, den, precision - 1), precision - 1;
      GeneralExponent(num, den, precision);
      if alt {
        ReadScientific(z, t.m, places, true, t.e, letter, k, neg);
      } else {
        var m', f' := ShortTextMeaning(t.m, places);
        ReadScientific(z, m', f', false, t.e, letter, k, neg);
        SameScaled(m', places - f', t.e - f');
      }
    } else {
      GeneralFractionNat(num, den, precision);
      var f: nat := GeneralFraction(num, den, precision);
      var q := RoundScaled(num, den, f);
      if alt {
        ReadFixed(z, q, f, true, k, neg);
      } else {
        var q', f' := ShortTextMeaning(q, f);
        ReadFixed(z, q', f', false, k, neg);
        var places: int := f';
        SameScaled(q', f - f', 0 - places);
      }
    }
  }

  // ---------------------------------------------------------------- no blanks inside

  lemma FixedUnsigned(q: nat, f: nat, dot: bool)
    ensures IsUnsigned(FixedText(q, f, dot))
  {
    hide FixedText;
    MantissaPlain(0, q, f, dot);
    assert Repeat('0', 0) + FixedText(q, f, dot) == FixedText(q, f, dot);
  }

  lemma ExponentBlankFree(e: int, letter: char)
    requires letter != ' '
    ensures ' ' !in ExponentText(e, letter)
  {
    NumeralIsDecimalText(Magnitude(e));
  }

  lemma UnsignedTail(t: string, more: string)
    requires IsUnsigned(t) && ' ' !in more
    ensures IsUnsigned(t + more)
  {
  }

  lemma CvtUnsigned(num: nat, den: nat, prec: nat, alt: bool, conv: char)
    requires den > 0 && IsFloat(conv)
    ensures IsUnsigned(CvtText(num, den, prec, alt, conv))
  {
    hide FixedText, ExponentText, ToScientific, RoundScaled, ShortText, UsesExponent, IsUnsigned,
         GeneralFraction;
    if conv == 'f' {
      FixedUnsigned(RoundScaled(num, den, prec), prec, alt);
    } else if conv == 'e' || conv == 'E' {
      var t := ToScientific(num, den, prec);
      FixedUnsigned(t.m, prec, alt);
      ExponentBlankFree(t.e, conv);
      UnsignedTail(FixedText(t.m, prec, alt), ExponentText(t.e, conv));
    } else {
      GeneralUnsigned(num, den, prec, alt, if conv == 'g' then 'e' else 'E');
    }
  }

  lemma GeneralUnsigned(num: nat, den: nat, prec: nat, alt: bool, letter: char)
    requires den > 0 && letter != ' '
    ensures IsUnsigned(GeneralText(num, den, prec, alt, letter))
  {
    hide FixedText, ExponentText, ToScientific, RoundScaled, ShortText, UsesExponent, IsUnsigned,
         GeneralFraction;
    var precision := if prec == 0 then 1 else prec;
    if UsesExponent(num, den, precision) {
      var t, places := ToScientific(num, den, precision - 1), precision - 1;
      var front := if alt then FixedText(t.m, places, true) else ShortText(t.m, places);
      var q', f' := ShortTextMeaning(t.m, places);
      FixedUnsigned(if alt then t.m else q', if alt then places else f', alt);
      ExponentBlankFree(t.e, letter);
      UnsignedTail(front, ExponentText(t.e, letter));
    } else {
      GeneralFractionNat(num, den, precision);
      var f: nat := GeneralFraction(num, den, precision);
      var q', f' := ShortTextMeaning(RoundScaled(num, den, f), f);
      FixedUnsigned(if alt then RoundScaled(num, den, f) else q', if alt then f else f', alt);
    }
  }

  /** Zeros on either side make no difference. */
  lemma ZerosUnsigned(z: nat, t: string, k: nat)
    requires IsUnsigned(t)
    ensures IsUnsigned(Repeat('0', z) + t + Repeat('0', k))
  {
  }

  // ---------------------------------------------------------------- words

  lemma {:induction false} DropPointFirst(s: string)
    requires s != "" && s[0] != '.'
    ensures DropPoint(s) != "" && DropPoint(s)[0] == s[0]
  {
    var n := |s| - 1;
    assert s == s[..n] + [s[n]];
    DropPointSnoc(s[..n], s[n]);
    if n > 0 { DropPointFirst(s[..n]); } else { assert DropPoint("") == ""; }
  }

  /** A word reads as itself, and as nothing at all with zeros behind it. */
  lemma ReadWord(w: string, k: nat, neg: bool)
    requires w in {"inf", "INF", "nan", "NAN"}
    ensures ReadUnsigned(w + Repeat('0', k), neg) == if k == 0 then Word(neg, w) else Unreadable
  {
    var t := w + Repeat('0', k);
    if k == 0 {
      assert t == w;
    } else {
      var m := t[..MantissaLength(t)];
      assert t[0] == w[0] && m != "" && m[0] == w[0];
      DropPointFirst(m);
      assert DigitValue(DropPoint(m)[0]) >= 10;
      assert |t| > 3;
    }
  }

  // ---------------------------------------------------------------- every field

  /** The text between sign and blanks of a finite value: the value rounded to at most
      39 digits, or the same digits with too large an exponent. */
  lemma ReadFinite(s: Spec, conv: char, d: Double, z: nat, neg: bool) returns (v: Scaled)
    requires IsFloat(conv) && d.Finite?
    ensures var f := FloatField(s, conv, d);
            ReadUnsigned(Repeat('0', z) + f.body + Repeat('0', f.extra), neg) == Amount(neg, v)
    ensures var prec := Precision(AtMost39(s));
            SameValue(v, RoundedAt(d.num, d.den, Places(d.num, d.den, prec, conv))) <==> ZerosHarmless(s, conv, d)
    ensures !ZerosHarmless(s, conv, d) ==>
              var places := if conv == 'e' || conv == 'E' then 39 else 38;
              var x := ToScientific(d.num, d.den, places);
              d.num > 0 && x.e != 0 && v == Scaled(x.m, x.e * Pow10(s.prec - MAXFRACT) - places)
  {
    hide ReadUnsigned, CvtText, RoundedValue, SameValue, ToScientific, UsesExponent, CvtSign, OneDigit,
         RoundedAt, Places, Pow10, IntegerDigits, ShiftToOne;
    var f, prec := FloatField(s, conv, d), FloatPrecision(s.prec);
    assert prec == Precision(AtMost39(s));
    RoundedValueAt(d.num, d.den, prec, conv);
    if conv == 'f' || conv == 'e' || conv == 'E' {
      ReadPlain(z, d.num, d.den, prec, s.alt, conv, f.extra, neg);
      OneDigitExactly(d.num, d.den, MAXFRACT);
      ZeroIsOneDigit(d.den, MAXFRACT);
    } else {
      ReadGeneral(z, d.num, d.den, prec, s.alt, conv, f.extra, neg);
      if UsesExponent(d.num, d.den, MAXFRACT) {
        UsesExponentPositive(d.num, d.den, MAXFRACT);
        GeneralExponent(d.num, d.den, MAXFRACT);
      }
    }
    v := ReadUnsigned(Repeat('0', z) + f.body + Repeat('0', f.extra), neg).value;
    SameTarget(v, RoundedValue(d.num, d.den, prec, conv),
               RoundedAt(d.num, d.den, Places(d.num, d.den, prec, conv)));
  }

  lemma SameTarget(v: Scaled, a: Scaled, b: Scaled)
    requires SameValue(a, b)
    ensures SameValue(v, a) <==> SameValue(v, b)
  {
    hide SameValue;
    SameAs(a, b, v);
    SameSymmetric(v, a);
    SameSymmetric(v, b);
  }

  /** The exponent printed for x is zero exactly if x rounds to one digit before the
      point. */
  lemma OneDigitExactly(num: nat, den: nat, prec: nat)
    requires den > 0
    ensures ToScientific(num, den, prec).e == 0 <==> OneDigit(num, den, prec)
  {
    hide Pow10, Exponent, RoundScaled;
    if num > 0 {
      var x := Exponent(num, den);
      ExponentIsLogarithm(num, den);
      SignificandRange(num, den, prec);
      TenMore(prec);
      Pow10One();
      Pow10Zero();
      if x == 0 {
        ReachesTop(num, den, prec, Pow10(prec + 1));
        WideEnough(num, den, Pow10(prec));
      } else if x == -1 {
        ReachesTop(num, den, prec + 1, Pow10(prec + 1));
        NarrowEnough(num, den, Pow10(prec));
      } else if x > 0 {
        AboveTen(num, den, x);
        TooWide(num, den, Pow10(prec));
      } else {
        BelowTenth(num, den, 0 - x);
        TooNarrow(num, den, Pow10(prec));
      }
    }
  }

  lemma ZeroIsOneDigit(den: nat, prec: nat)
    ensures OneDigit(0, den, prec)
  {
  }

  /** Rounding reaches q from half a unit below. */
  lemma ReachesTop(num: nat, den: nat, k: nat, q: nat)
    requires den > 0
    ensures RoundScaled(num, den, k) >= q <==> 2 * (num * Pow10(k)) >= (2 * q - 1) * den
  {
    hide Pow10;
    var n, r := num * Pow10(k), RoundScaled(num, den, k);
    HalfUpMeaning(n, den);
    if r >= q {
      AtMostTimes(2 * q - 1, 2 * r - 1, den);
    } else {
      AtMostTimes(2 * r + 1, 2 * q - 1, den);
    }
  }

  lemma WideEnough(num: nat, den: nat, p: nat)
    requires den <= num
    ensures (2 * (10 * p) - 1) * den <= 2 * (num * (10 * p))
  {
    MulMonotone(10 * p, den, num);
    assert (2 * (10 * p) - 1) * den == 2 * (10 * p * den) - den;
  }

  lemma NarrowEnough(num: nat, den: nat, p: nat)
    requires num < den && p > 0
    ensures 2 * (num * p) < (2 * (10 * p) - 1) * den
  {
    MulMonotone(p, num + 1, den);
    MulMonotone(den, 1, p);
    Spread(num, p);
    TwentyLess(p, den);
  }

  lemma Spread(n: nat, p: nat)
    ensures p * (n + 1) == n * p + p
  {
  }

  lemma TwentyLess(p: nat, den: nat)
    ensures (2 * (10 * p) - 1) * den == 20 * (den * p) - den && p * den == den * p
  {
  }

  lemma TooWide(num: nat, den: nat, p: nat)
    requires 10 * den <= num && den > 0
    ensures !(2 * (num * p) < (2 * (10 * p) - 1) * den)
  {
    MulMonotone(p, 10 * den, num);
    assert (2 * (10 * p) - 1) * den == 2 * (p * (10 * den)) - den;
  }

  lemma TooNarrow(num: nat, den: nat, p: nat)
    requires 10 * num < den && p > 0
    ensures !((2 * (10 * p) - 1) * den <= 2 * (num * (10 * p)))
  {
    MulMonotone(p, 10 * num + 1, den);
    assert p * (10 * num + 1) == num * (10 * p) + p;
    assert (2 * (10 * p) - 1) * den == 20 * (p * den) - den;
    MulMonotone(den, 1, p);
  }

  lemma AboveTen(num: nat, den: nat, x: nat)
    requires x > 0 && den * Pow10(x) <= num
    ensures 10 * den <= num
  {
    hide Pow10;
    Pow10One();
    Pow10Monotone(1, x);
    MulMonotone(den, 10, Pow10(x));
  }

  lemma BelowTenth(num: nat, den: nat, x: nat)
    requires x > 1 && num * Pow10(x) < 10 * den
    ensures 10 * num < den
  {
    hide Pow10;
    TenMore(x - 1);
    Pow10One();
    Pow10Monotone(1, x - 1);
    MulMonotone(num, 10, Pow10(x - 1));
    TimesTen(num, Pow10(x - 1));
  }

  /** Zeros behind an exponent move the value far from where it should be, whatever
      the number of digits. */
  lemma HarmfulExponent(num: nat, den: nat, few: nat, many: nat, k: nat, v: Scaled)
    requires num > 0 && den > 0 && k > 0
    requires var x := ToScientific(num, den, few); x.e != 0 && v == Scaled(x.m, x.e * Pow10(k) - few)
    ensures !SameValue(v, RoundedAt(num, den, many - Exponent(num, den)))
  {
    hide ToScientific, Exponent, SameValue, Pow10, RoundedAt, HasPlace;
    var t, wanted := ToScientific(num, den, many), RoundedAt(num, den, many - Exponent(num, den));
    var x := ToScientific(num, den, few);
    ScientificAt(num, den, many);
    ScientificAt(num, den, few);
    ScientificMeaning(num, den, many);
    ScientificMeaning(num, den, few);
    FarApart(x.e, t.e, k);
    MovedPlace(x.m, x.e - few, x.e * Pow10(k) - few, x.e);
    SameTarget(v, Scaled(t.m, t.e - many), wanted);
    if SameValue(v, wanted) {
      SamePlace(v, Scaled(t.m, t.e - many), x.e * Pow10(k), t.e);
    }
  }

  lemma MovedPlace(m: nat, a: int, b: int, place: int)
    requires HasPlace(Scaled(m, a), place)
    ensures HasPlace(Scaled(m, b), place + b - a)
  {
    var p: nat :| Pow10(p) <= m < Pow10(p + 1) && place == a + p;
    assert Pow10(p) <= m < Pow10(p + 1) && place + b - a == b + p;
  }

  lemma FarApart(e: int, e': int, k: nat)
    requires e != 0 && k > 0 && -1 <= e - e' <= 1
    ensures e * Pow10(k) != e'
  {
    hide Pow10;
    Pow10One();
    Pow10Monotone(1, k);
    MulMonotone(Magnitude(e), 10, Pow10(k));
    assert e < 0 ==> 0 - (Magnitude(e) * Pow10(k)) == e * Pow10(k);
  }

  /** Whatever the flags and the width, for every float conversion and argument: the
      field reads back as the value rounded half up to the place asked for, with the
      right sign, or as the right word, if and only if the zeros for a precision
      above 39 are harmless and the digits they stand for are zeros. */
  lemma FloatRoundTrip(s: Spec, conv: char, slot: Slot)
    requires IsFloat(conv) && ScannedSign(s)
    ensures Matches(ReadFloat(FieldOf(s, conv, slot).Text()), Wanted(s, conv, slot.dbl))
        <==> ZerosHarmless(s, conv, slot.dbl) && DigitsSuffice(s, conv, slot.dbl)
  {
    hide ReadFloat, ReadUnsigned, Field.Text, Matches, Wanted, ZerosHarmless, DigitsSuffice, FieldOf;
    var z := ReadField(s, conv, slot);
    ReadFieldText(s, conv, slot.dbl, z);
  }

  /** Rounded to at most 39 digits, it does if and only if the zeros are harmless. */
  lemma FloatShown(s: Spec, conv: char, slot: Slot)
    requires IsFloat(conv) && ScannedSign(s)
    ensures Matches(ReadFloat(FieldOf(s, conv, slot).Text()), Wanted(AtMost39(s), conv, slot.dbl))
        <==> ZerosHarmless(s, conv, slot.dbl)
  {
    hide ReadFloat, ReadUnsigned, Field.Text, Matches, Wanted, ZerosHarmless, FieldOf;
    var z := ReadField(s, conv, slot);
    ReadShownText(s, conv, slot.dbl, z);
  }

  /** Reading a field is reading its text between sign and blanks. */
  lemma ReadField(s: Spec, conv: char, slot: Slot) returns (z: nat)
    requires IsFloat(conv) && ScannedSign(s)
    ensures var f := FloatField(s, conv, slot.dbl);
            && (!f.zero ==> z == 0)
            && ReadFloat(FieldOf(s, conv, slot).Text())
               == ReadUnsigned(Repeat('0', z) + f.body + Repeat('0', f.extra), f.Prefix() == "-")
  {
    hide ReadFloat, ReadUnsigned, Field.Text, IsUnsigned, CvtText;
    var f := FloatField(s, conv, slot.dbl);
    var a, c;
    a, z, c := FloatFieldParts(f);
    var t := Repeat('0', z) + f.body + Repeat('0', f.extra);
    FieldUnsigned(s, conv, slot.dbl);
    ZerosUnsigned(z, f.body, f.extra);
    ReadAround(a, f.Prefix(), t, c);
    assert FieldOf(s, conv, slot) == f;
  }

  lemma FieldUnsigned(s: Spec, conv: char, d: Double)
    requires IsFloat(conv)
    ensures IsUnsigned(FloatField(s, conv, d).body)
  {
    hide CvtText;
    if d.Finite? { CvtUnsigned(d.num, d.den, FloatPrecision(s.prec), s.alt, conv); }
  }

  /** The same of the text between sign and blanks. */
  lemma ReadShownText(s: Spec, conv: char, d: Double, z: nat)
    requires IsFloat(conv) && ScannedSign(s) && (!FloatField(s, conv, d).zero ==> z == 0)
    ensures var f := FloatField(s, conv, d);
            Matches(ReadUnsigned(Repeat('0', z) + f.body + Repeat('0', f.extra), f.Prefix() == "-"),
                    Wanted(AtMost39(s), conv, d))
            <==> ZerosHarmless(s, conv, d)
  {
    hide ReadUnsigned, CvtText, SameValue, UsesExponent, CvtSign, OneDigit, RoundedAt, Places;
    var f := FloatField(s, conv, d);
    if d.Finite? {
      var v := ReadFinite(s, conv, d, z, f.Prefix() == "-");
    } else {
      ReadWord(f.body, f.extra, f.Prefix() == "-");
      assert Repeat('0', z) + f.body == f.body;
    }
  }

  lemma ReadFieldText(s: Spec, conv: char, d: Double, z: nat)
    requires IsFloat(conv) && ScannedSign(s) && (!FloatField(s, conv, d).zero ==> z == 0)
    ensures var f := FloatField(s, conv, d);
            Matches(ReadUnsigned(Repeat('0', z) + f.body + Repeat('0', f.extra), f.Prefix() == "-"),
                    Wanted(s, conv, d))
            <==> ZerosHarmless(s, conv, d) && DigitsSuffice(s, conv, d)
  {
    hide ReadUnsigned, CvtText, SameValue, CvtSign, ZerosHarmless, RoundedAt, Places, RoundScaled;
    ReadShownText(s, conv, d, z);
    if s.prec > MAXFRACT && d.Finite? {
      var f := FloatField(s, conv, d);
      var v := ReadFinite(s, conv, d, z, f.Prefix() == "-");
      MoreDigits(s, conv, d, v);
    } else {
      assert s.prec <= MAXFRACT ==> AtMost39(s) == s;
    }
  }

  /** Above 39 the value is the one asked for exactly if no digit was lost. */
  lemma MoreDigits(s: Spec, conv: char, d: Double, v: Scaled)
    requires IsFloat(conv) && d.Finite? && s.prec > MAXFRACT
    requires SameValue(v, RoundedAt(d.num, d.den, Places(d.num, d.den, MAXFRACT, conv))) <==> ZerosHarmless(s, conv, d)
    requires !ZerosHarmless(s, conv, d) ==>
              var places := if conv == 'e' || conv == 'E' then 39 else 38;
              var x := ToScientific(d.num, d.den, places);
              d.num > 0 && x.e != 0 && v == Scaled(x.m, x.e * Pow10(s.prec - MAXFRACT) - places)
    ensures SameValue(v, RoundedAt(d.num, d.den, Places(d.num, d.den, s.prec, conv)))
            <==> ZerosHarmless(s, conv, d) && DigitsSuffice(s, conv, d)
    ensures ZerosHarmless(s, conv, d) && DigitsSuffice(s, conv, d) ==>
              (CvtSign(d.neg, d.num, d.den, MAXFRACT, conv) <==> CvtSign(d.neg, d.num, d.den, s.prec, conv))
  {
    hide SameValue, ToScientific, RoundScaled, Pow10, Exponent;
    var k := s.prec - MAXFRACT;
    var few, many := Places(d.num, d.den, MAXFRACT, conv), Places(d.num, d.den, s.prec, conv);
    assert many == few + k;
    FewerPlacesSame(d.num, d.den, few, k);
    if ZerosHarmless(s, conv, d) {
      SameAs(v, RoundedAt(d.num, d.den, few), RoundedAt(d.num, d.den, many));
      if DigitsSuffice(s, conv, d) {
        SameAs(RoundedAt(d.num, d.den, few), RoundedAt(d.num, d.den, many), v);
      }
    } else {
      var g := if conv == 'e' || conv == 'E' then 0 else 1;
      HarmfulExponent(d.num, d.den, 39 - g, s.prec - g, k, v);
    }
  }

  /** Up to a precision of 39 it does without any condition. */
  lemma FloatExact(s: Spec, conv: char, slot: Slot)
    requires IsFloat(conv) && ScannedSign(s) && s.prec <= 39
    ensures Matches(ReadFloat(FieldOf(s, conv, slot).Text()), Wanted(s, conv, slot.dbl))
  {
    hide ReadFloat, Field.Text, Matches, Wanted, FieldOf;
    FloatRoundTrip(s, conv, slot);
  }
}
