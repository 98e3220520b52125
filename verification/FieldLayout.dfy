/** What every field looks like, character for character: where the padding goes, which
    sign or prefix is printed, how many digits there are and in which case, when a
    point is written, and how much of a string is kept. */
module FieldLayout {
  import opened Decimal
  import opened FloatText
  import opened IntegerConversion
  import opened FormatSpec
  import opened FormatTheorems

  // ---------------------------------------------------------------- decimal text

  /** Digits without a superfluous zero in front, a point if there is to be one, and
      exactly f more digits. */
  ghost predicate Looks(s: string, f: nat, point: bool)
  {
    var w := f + if point then 1 else 0;
    && |s| > w && (f > 0 ==> point)
    && AllDigits(s[..|s| - w]) && AllDigits(s[|s| - f..])
    && (point ==> s[|s| - w] == '.')
    && (|s| - w > 1 ==> s[0] != '0')
  }

  lemma PointIff(s: string, f: nat, point: bool)
    requires Looks(s, f, point)
    ensures '.' in s <==> point
  {
    var w := f + if point then 1 else 0;
    forall i | 0 <= i < |s| ensures s[i] == '.' <==> point && i == |s| - w {
      if i < |s| - w { assert s[..|s| - w][i] == s[i]; }
      if i >= |s| - f { assert s[|s| - f..][i - (|s| - f)] == s[i]; }
    }
  }

  lemma {:induction false} FixedLooks(q: nat, f: nat, dot: bool)
    ensures Looks(FixedText(q, f, dot), f, f > 0 || dot)
  {
    if f == 0 {
      NumeralRoundTrip(q, 10, false);
      var n := Numeral(q);
      assert (n + ".")[..|n|] == n && n[..|n|] == n;
      assert |n| > 1 ==> q > 0;
    } else {
      FixedLooks(q / 10, f - 1, true);
      var s, c := FixedText(q / 10, f - 1, true), DigitChar(q % 10);
      DigitRoundTrip(q % 10, false);
      LooksSnoc(s, f - 1, c);
    }
  }

  lemma LooksSnoc(s: string, f: nat, c: char)
    requires Looks(s, f, true) && DigitValue(c) < 10
    ensures Looks(s + [c], f + 1, true)
  {
    var t := s + [c];
    assert t[..|t| - (f + 2)] == s[..|s| - (f + 1)];
    assert t[|t| - (f + 1)..] == s[|s| - f..] + [c];
    AllDigitsSnoc(s[|s| - f..], c, 10);
  }

  /** An exponent: letter, sign, and two digits or more, no more than needed. */
  ghost predicate ExponentLooks(s: string, letter: char, negative: bool)
  {
    && |s| >= 4 && s[0] == letter && s[1] == (if negative then '-' else '+')
    && AllDigits(s[2..]) && (|s| > 4 ==> s[2] != '0')
  }

  lemma ExponentTextLooks(e: int, letter: char)
    ensures ExponentLooks(ExponentText(e, letter), letter, e < 0)
  {
    var n, x := Magnitude(e), ExponentText(e, letter);
    ExponentTextMeaning(e, letter);
    NumeralRoundTrip(n, 10, false);
    if n < 10 {
      assert |Numeral(n)| == 1;
    } else {
      assert x[2..] == Numeral(n) && x[2] == Numeral(n)[0];
    }
  }

  /** `%f`: exactly prec fraction digits; a point if and only if there are any, or `#`
      was given. */
  lemma FixedLayout(num: nat, den: nat, prec: nat, alt: bool)
    requires den > 0
    ensures Looks(CvtText(num, den, prec, alt, 'f'), prec, prec > 0 || alt)
  {
    hide FixedText;
    FixedLooks(RoundScaled(num, den, prec), prec, alt);
  }

  /** `%e`: one digit, exactly prec fraction digits, a point if and only if there are
      any, or `#` was given, and an exponent with the letter of the conversion. */
  lemma ScientificLayout(num: nat, den: nat, prec: nat, alt: bool, ch: char) returns (m: string, x: string)
    requires den > 0 && (ch == 'e' || ch == 'E')
    ensures CvtText(num, den, prec, alt, ch) == m + x
    ensures Looks(m, prec, prec > 0 || alt) && |m| == 1 + prec + if prec > 0 || alt then 1 else 0
    ensures ExponentLooks(x, ch, ToScientific(num, den, prec).e < 0)
  {
    hide FixedText, ExponentText, ToScientific, Looks, ExponentLooks, Pow10;
    var t := ToScientific(num, den, prec);
    m, x := FixedText(t.m, prec, alt), ExponentText(t.e, ch);
    FixedLooks(t.m, prec, alt);
    ExponentTextLooks(t.e, ch);
    OneDigitInFront(num, den, prec);
    FixedLength(t.m, prec, alt);
  }

  lemma OneDigitInFront(num: nat, den: nat, prec: nat)
    requires den > 0
    ensures ToScientific(num, den, prec).m < Pow10(prec + 1)
  {
    if num > 0 { ScientificMeaning(num, den, prec); }
  }

  lemma {:induction false} FixedLength(q: nat, f: nat, dot: bool)
    requires q < Pow10(f + 1)
    ensures |FixedText(q, f, dot)| == 1 + f + if f > 0 || dot then 1 else 0
  {
    if f == 0 {
      assert Pow10(1) == 10;
    } else {
      FixedLength(q / 10, f - 1, true);
    }
  }

  /** `%g` in fixed style: a point always with `#`, and otherwise if and only if a
      fraction digit is left, the last of which is then not zero. */
  lemma GeneralFixedLayout(num: nat, den: nat, prec: nat, alt: bool, ch: char) returns (f: nat)
    requires den > 0 && (ch == 'g' || ch == 'G')
    requires !UsesExponent(num, den, if prec == 0 then 1 else prec)
    ensures var text := CvtText(num, den, prec, alt, ch);
            && Looks(text, f, f > 0 || alt)
            && (alt ==> f == GeneralFraction(num, den, if prec == 0 then 1 else prec))
            && (!alt && f > 0 ==> text[|text| - 1] != '0')
  {
    hide FixedText, Looks, RoundScaled, UsesExponent, GeneralFraction, ShortText;
    var precision := if prec == 0 then 1 else prec;
    GeneralFractionNat(num, den, precision);
    var places: nat := GeneralFraction(num, den, precision);
    var q := RoundScaled(num, den, places);
    if alt {
      f := places;
      FixedLooks(q, f, true);
    } else {
      f := ShortLayout(q, places);
    }
  }

  lemma ShortLayout(q: nat, places: nat) returns (f: nat)
    ensures f <= places && Looks(ShortText(q, places), f, f > 0)
    ensures f > 0 ==> ShortText(q, places)[|ShortText(q, places)| - 1] != '0'
  {
    hide Looks, ShortText;
    var q', f' := ShortTextMeaning(q, places);
    f := f';
    FixedLooks(q', f', false);
    if f' > 0 { LastDigitShown(q', f'); }
  }

  lemma LastDigitShown(q: nat, f: nat)
    requires f > 0 && q % 10 != 0
    ensures var s := FixedText(q, f, false); s[|s| - 1] != '0'
  {
    DigitRoundTrip(q % 10, false);
  }

  /** `%g` in exponent style: one digit in front, the same rule for the point, and the
      exponent with the letter e or E. */
  lemma GeneralScientificLayout(num: nat, den: nat, prec: nat, alt: bool, ch: char)
    returns (m: string, x: string, f: nat)
    requires den > 0 && (ch == 'g' || ch == 'G')
    requires UsesExponent(num, den, if prec == 0 then 1 else prec)
    ensures CvtText(num, den, prec, alt, ch) == m + x && Looks(m, f, f > 0 || alt)
    ensures alt ==> f == (if prec == 0 then 1 else prec) - 1
    ensures !alt && f > 0 ==> m[|m| - 1] != '0'
    ensures ExponentLooks(x, if ch == 'g' then 'e' else 'E',
                          ToScientific(num, den, (if prec == 0 then 1 else prec) - 1).e < 0)
  {
    hide FixedText, ExponentText, ToScientific, Looks, ExponentLooks, ShortText, UsesExponent;
    var places := (if prec == 0 then 1 else prec) - 1;
    var t := ToScientific(num, den, places);
    x := ExponentText(t.e, if ch == 'g' then 'e' else 'E');
    ExponentTextLooks(t.e, if ch == 'g' then 'e' else 'E');
    if alt {
      m, f := FixedText(t.m, places, true), places;
      FixedLooks(t.m, places, true);
    } else {
      m := ShortText(t.m, places);
      f := ShortLayout(t.m, places);
    }
  }

  /** The field of `%f` shows exactly as many fraction digits as the precision says, six
      if it says nothing, also where zeros serve for those above 39. */
  lemma FixedField(s: Spec, slot: Slot)
    requires slot.dbl.Finite?
    ensures var f, prec := FieldOf(s, 'f', slot), if s.prec < 0 then 6 else s.prec;
            Looks(f.body + Repeat('0', f.extra), prec, prec > 0 || s.alt)
  {
    hide FixedText, Looks, RoundScaled, CvtSign, Pow10, IntegerDigits, ShiftToOne;
    var d, used, f := slot.dbl, FloatPrecision(s.prec), FieldOf(s, 'f', slot);
    var q := RoundScaled(d.num, d.den, used);
    FixedTextZeros(q, used, f.extra, s.alt);
    FixedLooks(q * Pow10(f.extra), used + f.extra, s.alt);
  }

  /** In the field of `%f` and `%e` a point is printed if and only if the precision is
      not zero, or `#` was given. */
  lemma PointPrinted(s: Spec, conv: char, slot: Slot)
    requires conv in {'f', 'e', 'E'} && slot.dbl.Finite?
    ensures '.' in FieldOf(s, conv, slot).body <==> s.prec != 0 || s.alt
  {
    hide CvtText, Looks, ExponentLooks, ToScientific, CvtSign;
    var d, prec := slot.dbl, FloatPrecision(s.prec);
    if conv == 'f' {
      FixedLayout(d.num, d.den, prec, s.alt);
      PointIff(CvtText(d.num, d.den, prec, s.alt, 'f'), prec, prec > 0 || s.alt);
    } else {
      var m, x := ScientificLayout(d.num, d.den, prec, s.alt, conv);
      PointIff(m, prec, prec > 0 || s.alt);
      NoPointInExponent(x, conv, ToScientific(d.num, d.den, prec).e < 0);
    }
  }

  lemma NoPointInExponent(x: string, letter: char, negative: bool)
    requires ExponentLooks(x, letter, negative) && letter != '.'
    ensures '.' !in x
  {
    forall i | 0 <= i < |x| ensures x[i] != '.' {
      if i >= 2 { assert x[2..][i - 2] == x[i]; }
    }
  }

  // ---------------------------------------------------------------- arguments

  /** The value that an integer conversion prints is the argument cut to the type that
      the letter and the length modifiers name. */
  lemma ArgumentMeaning(s: Spec, conv: char, w: Word)
    requires IsInteger(conv)
    ensures var v := IntegerArgument(s, conv, w);
            var bits := if conv in {'p', 'D', 'O', 'U'} then 64
                        else if conv == 'P' then 32
                        else if s.len.longLong || s.len.long then 64
                        else if s.len.short then 16 else 32;
            var m := if bits == 64 then 0x1_0000_0000_0000_0000
                     else if bits == 32 then 0x1_0000_0000 else 0x1_0000;
            && v % m == w % m
            && if conv in {'d', 'D', 'i', 'P'} then 0 - m <= 2 * v < m else 0 <= v < m
  {
    hide Signed, Unsigned;
    var bits := Bits(ConversionLength(s, conv));
    SignedMeaning(w, bits);
    SignedMeaning(w, 32);
    UnsignedMeaning(w, bits);
  }

  lemma UnsignedMeaning(w: int, bits: nat)
    requires bits == 16 || bits == 32 || bits == 64
    ensures Unsigned(w, bits) % Modulus(bits) == w % Modulus(bits)
    ensures Unsigned(w, bits) < Modulus(bits)
  {
  }

  // ---------------------------------------------------------------- sign and prefix

  /** What is printed in front of the digits. */
  function PrefixOf(s: Spec, conv: char, slot: Slot): string
  {
    var flag := if s.sign == '\0' then "" else [s.sign];
    if conv in {'d', 'D', 'i', 'P'} then
      if IntegerArgument(s, conv, slot.word) < 0 then "-" else flag
    else if conv == 'p' then "0x"
    else if conv == 'x' || conv == 'X' then
      if s.alt && IntegerArgument(s, conv, slot.word) != 0 then ['0', conv] else ""
    else if IsFloat(conv) then
      match slot.dbl
      case NotANumber => flag
      case Infinite(neg) => if neg then "-" else flag
      case Finite(neg, num, den) =>
        if CvtSign(neg, num, den, FloatPrecision(s.prec), conv) then "-" else flag
    else ""
  }

  lemma PrefixPrinted(s: Spec, conv: char, slot: Slot)
    ensures FieldOf(s, conv, slot).Prefix() == PrefixOf(s, conv, slot)
  {
    hide CvtText, IntegerBody, Signed, Unsigned, CvtSign, StringBody;
  }

  // ---------------------------------------------------------------- padding

  /** Zeros serve as padding where the flag asks for them, except with the precision of
      an integer, for words, and for characters and strings. */
  predicate ZeroPads(s: Spec, conv: char, slot: Slot)
  {
    && s.zero
    && (IsInteger(conv) ==> s.prec < 0)
    && (IsFloat(conv) ==> slot.dbl.Finite?)
    && conv != 'c' && conv != 's'
  }

  /** A width pads the same text without one: blanks behind it with the flag `-`, zeros
      behind its sign or prefix, or blanks in front of it. */
  lemma WidthPads(s: Spec, conv: char, slot: Slot)
    ensures var t, p := FieldOf(s.(width := 0), conv, slot).Text(), |PrefixOf(s, conv, slot)|;
            && p <= |t| && t[..p] == PrefixOf(s, conv, slot)
            && FieldOf(s, conv, slot).Text()
               == if s.left then t + Repeat(' ', s.width - |t|)
                  else if ZeroPads(s, conv, slot) then t[..p] + Repeat('0', s.width - |t|) + t[p..]
                  else Repeat(' ', s.width - |t|) + t
  {
    hide FieldOf, Field.Text, Field.Prefix, PrefixOf, ZeroPads;
    var f := FieldOf(s, conv, slot);
    Shape(s, conv, slot);
    PrefixPrinted(s, conv, slot);
    FieldPads(f);
  }

  lemma Shape(s: Spec, conv: char, slot: Slot)
    ensures var f := FieldOf(s, conv, slot);
            && FieldOf(s.(width := 0), conv, slot) == f.(width := 0)
            && f.left == s.left && f.width == s.width && (f.zero <==> ZeroPads(s, conv, slot))
  {
    hide FieldOf, ZeroPads;
    WidthApart(s, conv, slot);
    ZeroPadding(s, conv, slot);
  }

  lemma WidthApart(s: Spec, conv: char, slot: Slot)
    ensures var f := FieldOf(s, conv, slot);
            && FieldOf(s.(width := 0), conv, slot) == f.(width := 0)
            && f.left == s.left && f.width == s.width
  {
    hide IntegerBody, Signed, Unsigned, FloatField, SignedField, UnsignedField, TextField, StringBody, Bits;
    var t := s.(width := 0);
    FloatApart(s, conv, slot.dbl);
    var bits, u := Bits(ConversionLength(s, conv)), Unsigned(slot.word, Bits(ConversionLength(s, conv)));
    SignedApart(s, Signed(slot.word, bits));
    SignedApart(s, Signed(slot.word, 32));
    UnsignedApart(s);
    TextApart(s);
    assert StringBody(t, slot.str) == StringBody(s, slot.str) by { SameBody(s, slot.str); }
  }

  lemma SignedApart(s: Spec, v: int)
    ensures SignedField(s.(width := 0), v) == SignedField(s, v).(width := 0)
    ensures SignedField(s, v).left == s.left && SignedField(s, v).width == s.width
  {
    hide IntegerBody;
  }

  lemma UnsignedApart(s: Spec)
    ensures forall v: nat, base: nat, upper, hex | IsBase(base) ::
              && UnsignedField(s.(width := 0), v, base, upper, hex) == UnsignedField(s, v, base, upper, hex).(width := 0)
              && UnsignedField(s, v, base, upper, hex).left == s.left
              && UnsignedField(s, v, base, upper, hex).width == s.width
  {
    hide IntegerBody;
  }

  lemma TextApart(s: Spec)
    ensures forall body ::
              && TextField(s.(width := 0), body) == TextField(s, body).(width := 0)
              && TextField(s, body).left == s.left && TextField(s, body).width == s.width
  {
  }

  lemma SameBody(s: Spec, p: CharPointer)
    ensures StringBody(s.(width := 0), p) == StringBody(s, p)
  {
  }

  lemma FloatApart(s: Spec, conv: char, d: Double)
    ensures FloatField(s.(width := 0), conv, d) == FloatField(s, conv, d).(width := 0)
    ensures FloatField(s, conv, d).left == s.left && FloatField(s, conv, d).width == s.width
  {
    hide CvtText, CvtSign;
  }

  lemma ZeroPadding(s: Spec, conv: char, slot: Slot)
    ensures FieldOf(s, conv, slot).zero <==> ZeroPads(s, conv, slot)
  {
    hide CvtText, IntegerBody, Signed, Unsigned, CvtSign, StringBody, FloatPrecision, ExtraZeros;
  }

  /** What stands behind the prefix, without any padding. */
  function Inner(f: Field): string
  {
    Repeat('0', f.PrecisionZeros()) + (f.body + Repeat('0', f.extra))
  }

  lemma PlainText(f: Field)
    ensures f.(width := 0).Text() == f.Prefix() + Inner(f)
    ensures |f.(width := 0).Text()| == f.RealSize()
  {
    var g := f.(width := 0);
    g.TextLength();
    assert g.Prefix() == f.Prefix() && g.PrecisionZeros() == f.PrecisionZeros();
    assert g.Front() == g.Prefix();
    assert g.Back() == Inner(f);
  }

  lemma FrontAndBack(f: Field)
    ensures f.Front() == if f.left then f.Prefix()
                         else if f.zero then f.Prefix() + Repeat('0', f.Padding())
                         else Repeat(' ', f.Padding()) + f.Prefix()
    ensures f.Back() == if f.left then Inner(f) + Repeat(' ', f.Padding()) else Inner(f)
  {
    hide Field.RealSize, Field.Padding, Field.Prefix;
    assert Repeat(' ', 0) == "" && Repeat('0', 0) == "";
    var zeros, extra := Repeat('0', f.PrecisionZeros()), Repeat('0', f.extra);
    assert zeros + f.body + extra == Inner(f);
  }

  lemma FieldPads(f: Field)
    ensures var t, p := f.(width := 0).Text(), |f.Prefix()|;
            && p <= |t| && t[..p] == f.Prefix()
            && f.Text() == if f.left then t + Repeat(' ', f.width - |t|)
                           else if f.zero then t[..p] + Repeat('0', f.width - |t|) + t[p..]
                           else Repeat(' ', f.width - |t|) + t
  {
    PlainText(f);
    FrontAndBack(f);
    hide Field.Front, Field.Back, Field.RealSize, Field.Prefix, Inner;
    var t, p, inner := f.(width := 0).Text(), f.Prefix(), Inner(f);
    assert t[..|p|] == p && t[|p|..] == inner;
    var pad := f.width - |t|;
    assert f.Padding() == pad;
    Reassociate(p, inner, Repeat(' ', pad));
    Reassociate(Repeat(' ', pad), p, inner);
  }

  // ---------------------------------------------------------------- integers

  /** Digits of a number in a base: none for zero with precision zero; otherwise at
      least as many as the precision, and no zero in front beyond that, but one for
      an octal number with `#`; letters in the case of the conversion. */
  ghost predicate DigitsLook(d: string, v: nat, base: nat, upper: bool, prec: int, octal: bool)
  {
    && AllDigits(d, base) && Value(d, base) == v
    && (v == 0 && prec == 0 <==> d == "")
    && |d| >= prec
    && (|d| > 1 && |d| > prec && d[0] == '0' ==> octal && d[1] != '0')
    && (octal && v > 0 ==> d[0] == '0')
    && CaseOf(d, upper)
  }

  /** Letters among digits are of one case. */
  predicate CaseOf(d: string, upper: bool)
  {
    forall i | 0 <= i < |d| :: IsDigit(d[i]) || if upper then 'A' <= d[i] <= 'F' else 'a' <= d[i] <= 'f'
  }

  lemma {:induction false} NumeralCase(n: nat, base: nat, upper: bool)
    requires IsBase(base)
    ensures CaseOf(Numeral(n, base, upper), upper)
    decreases n
  {
    if n >= base { NumeralCase(n / base, base, upper); }
  }

  /** Without a width, the field of an integer conversion is its prefix and its digits. */
  lemma IntegerLayout(s: Spec, conv: char, slot: Slot) returns (d: string)
    requires IsInteger(conv)
    ensures FieldOf(s.(width := 0), conv, slot).Text() == PrefixOf(s, conv, slot) + d
    ensures DigitsLook(d, AbsInt(IntegerArgument(s, conv, slot.word)), BaseOf(conv), conv == 'X', s.prec,
                       s.alt && BaseOf(conv) == 8)
  {
    hide FieldOf, IntegerBody, DigitsLook, IntegerArgument, Field.Text, Field.Prefix, PrefixOf;
    var t := s.(width := 0);
    var f := FieldOf(t, conv, slot);
    PrefixPrinted(t, conv, slot);
    SamePrefix(s, conv, slot);
    IntegerFieldOf(t, conv, slot);
    assert IntegerArgument(t, conv, slot.word) == IntegerArgument(s, conv, slot.word) by { SameArgument(s, conv, slot.word); }
    PlainText(f);
    assert f.(width := 0) == f;
    d := Inner(f);
    BodyLooks(AbsInt(IntegerArgument(s, conv, slot.word)), BaseOf(conv), conv == 'X', s.prec, s.alt);
    assert d == Repeat('0', s.prec - |f.body|) + f.body by { assert f.body + Repeat('0', 0) == f.body; }
  }

  lemma SameArgument(s: Spec, conv: char, w: Word)
    ensures IntegerArgument(s.(width := 0), conv, w) == IntegerArgument(s, conv, w)
  {
    hide Signed, Unsigned;
  }

  lemma IntegerFieldOf(s: Spec, conv: char, slot: Slot)
    requires IsInteger(conv)
    ensures var f, v := FieldOf(s, conv, slot), AbsInt(IntegerArgument(s, conv, slot.word));
            f.body == IntegerBody(v, BaseOf(conv), conv == 'X', s.prec, s.alt)
            && f.dprec == s.prec && f.extra == 0 && f.width == s.width
  {
    hide Signed, Unsigned, IntegerBody, FloatField;
  }

  lemma SamePrefix(s: Spec, conv: char, slot: Slot)
    ensures PrefixOf(s.(width := 0), conv, slot) == PrefixOf(s, conv, slot)
  {
    hide CvtSign, Signed, Unsigned;
  }

  lemma BodyLooks(v: nat, base: nat, upper: bool, prec: int, alt: bool)
    requires IsBase(base)
    ensures var body := IntegerBody(v, base, upper, prec, alt);
            DigitsLook(Repeat('0', prec - |body|) + body, v, base, upper, prec, alt && base == 8)
  {
    hide IntegerBody, Value, DigitValue, AllDigits, CaseOf;
    var body := IntegerBody(v, base, upper, prec, alt);
    IntegerBodyRoundTrip(v, base, upper, prec, alt);
    LeadingZeros(prec - |body|, body, base);
    BodyCase(v, base, upper, prec, alt);
    ZerosInFront(body, prec - |body|, base, upper);
  }

  /** Zeros are digits of every base, in either case. */
  lemma ZerosInFront(body: string, k: int, base: nat, upper: bool)
    requires AllDigits(body, base) && base > 0 && CaseOf(body, upper)
    ensures var d := Repeat('0', k) + body;
            && AllDigits(d, base) && CaseOf(d, upper)
            && (k > 0 ==> d[0] == '0') && (k <= 0 ==> d == body)
  {
    hide DigitValue;
    ZeroDigit();
    var zeros := Repeat('0', k);
    var d := zeros + body;
    forall i | 0 <= i < |d| ensures d[i] == if i < |zeros| then '0' else body[i - |zeros|] {}
  }

  lemma ZeroDigit()
    ensures DigitValue('0') == 0
  {
  }

  /** The digits before any precision zeros. */
  lemma BodyCase(v: nat, base: nat, upper: bool, prec: int, alt: bool)
    requires IsBase(base)
    ensures var body := IntegerBody(v, base, upper, prec, alt);
            && (v == 0 && prec == 0 <==> body == "")
            && (|body| > 1 && body[0] == '0' ==> alt && base == 8 && body[1] != '0')
            && (alt && base == 8 && v > 0 ==> body[0] == '0')
            && CaseOf(body, upper)
  {
    hide Numeral, Value;
    NumeralRoundTrip(v, base, upper);
    NumeralCase(v, base, upper);
    NumeralZero(base, upper);
  }

  lemma NumeralZero(base: nat, upper: bool)
    requires IsBase(base)
    ensures Numeral(0, base, upper) == "0"
  {
  }

  // ---------------------------------------------------------------- characters and strings

  /** `%c` prints one character, the argument cut to a byte. `%s` prints the longest
      front of the string that the precision allows; a null pointer reads "(null)". */
  lemma TextLayout(s: Spec, slot: Slot)
    ensures FieldOf(s.(width := 0), 'c', slot).Text() == [(slot.word % 256) as char]
    ensures var whole := if slot.str.Null? then "(null)" else slot.str.s;
            var t := FieldOf(s.(width := 0), 's', slot).Text();
            && t <= whole && (|t| == s.prec || (t == whole && (s.prec < 0 || |t| <= s.prec)))
  {
    var c, t := FieldOf(s.(width := 0), 'c', slot), FieldOf(s.(width := 0), 's', slot);
    assert c.Text() == c.body && t.Text() == t.body;
  }
}
