/** The floating-point conversion: from an exact finite value to its characters
    in the conversion buffer, in fixed, scientific and general style. */
module FloatConversion {
  import opened Decimal
  import opened FloatText
  import opened FloatDigits
  import opened Rounding

  // ---------------------------------------------------------------- rounding off

  /** Rounding by the last remainder is rounding x itself. */
  lemma RoundByRemainder(num: nat, den: nat, k: nat, m: nat, r: nat)
    requires Remaining(num, den, k, m, r)
    ensures RoundScaled(num, den, k) == if 2 * r >= den then m + 1 else m
  {
    HalfUpByRemainder(num * Pow10(k), den, m, r);
  }

  /** Nothing left: more places only scale the digits. */
  lemma ExactScaling(num: nat, den: nat, k: nat, m: nat, n: nat)
    requires Remaining(num, den, k, m, 0)
    ensures RoundScaled(num, den, k + n) == m * Pow10(n)
  {
    Pow10Add(k, n);
    Associate(num, Pow10(k), Pow10(n));
    Associate(Pow10(n), m, den);
    assert num * Pow10(k + n) == m * Pow10(n) * den;
    HalfUpByRemainder(num * Pow10(k + n), den, m * Pow10(n), 0);
  }

  /** Finishes fixed-style text: rounds when digits are left over. */
  method RoundFixed(a: array<char>, t: nat, r: nat, den: nat, doSign: bool,
                    ghost num: nat, ghost m: nat, ghost f: nat, ghost dot: bool)
    returns (start: nat, doSign': bool)
    requires Remaining(num, den, f, m, r) && r > 0
    requires 2 <= t <= a.Length && a[1..t] == FixedText(m, f, dot) && a[0] == '\0'
    modifies a
    ensures start <= 1 && (start == 1 <==> a[0] == '\0')
    ensures var q := RoundScaled(num, den, f);
            a[start..t] == FixedText(q, f, dot) && doSign' == (doSign && q > 0)
  {
    FixedTextIsDecimalText(m, f, dot);
    FixedTextZeroIff(m, f, dot);
    RoundByRemainder(num, den, f, m, r);
    IncFixedText(m, f, dot);
    var e;
    start, e, doSign' := RoundCvt(a, r, den, false, 0, 1, t - 1, '\0', doSign);
    if start == 0 {
      FixedTextIsDecimalText(m + 1, f, dot);
      assert a[start] == a[start..t][0];
    }
  }

  // ---------------------------------------------------------------- scientific style

  /** Text of a significand of f + 1 digits. */
  lemma {:induction false} SignificandLength(m: nat, f: nat, dot: bool)
    requires Pow10(f) <= m
    ensures m < Pow10(f + 1) ==> |FixedText(m, f, dot)| == f + 1 + (if f > 0 || dot then 1 else 0)
    ensures m == Pow10(f + 1) ==> |FixedText(m, f, dot)| == f + 2 + (if f > 0 || dot then 1 else 0)
  {
    if f == 0 {
      assert Pow10(1) == 10 && |Numeral(10)| == 2;
    } else {
      SignificandLength(m / 10, f - 1, true);
    }
  }

  /** Rounds the significand by the next digit; all nines restart at one. */
  method RoundScientific(a: array<char>, t: nat, r: nat, den: nat, ch: char, expcnt: int, doSign: bool,
                         ghost m: nat, ghost f: nat, ghost dot: bool)
    returns (expcnt': int, doSign': bool)
    requires r < den && (r == 0 ==> IsDigit(ch))
    requires Pow10(f) <= m < Pow10(f + 1)
    requires 2 <= t <= a.Length && a[1..t] == FixedText(m, f, dot)
    modifies a
    ensures var up := if r > 0 then 2 * r >= den else ch >= '5';
            var s := Normalize(if up then m + 1 else m, expcnt, f);
            a[1..t] == FixedText(s.m, f, dot) && expcnt' == s.e
    ensures doSign' == doSign && a[0] == old(a[0])
  {
    FixedTextIsDecimalText(m, f, dot);
    FixedTextZeroIff(m, f, dot);
    IncFixedText(m, f, dot);
    SignificandLength(m, f, dot);
    SignificandLength(m + 1, f, dot);
    if m + 1 == Pow10(f + 1) {
      AllNinesCarry(f, dot);
    }
    var start;
    start, expcnt', doSign' := RoundCvt(a, r, den, true, expcnt, 1, t - 1, ch, doSign);
    if m + 1 == Pow10(f + 1) && (if r > 0 then 2 * r >= den else ch >= '5') {
      assert a[1..t] == FixedText(Pow10(f), f, dot);
    }
  }

  /** Goes on from f + 1 significant digits to f + prec + 1 of them: more
      digits while there is something left, then rounding or zeros. */
  method ScientificTail(a: array<char>, t: nat, r: nat, den: nat, prec: nat, expcnt: int, doSign: bool,
                        ghost num: nat, ghost k: nat, ghost m: nat, ghost f: nat, ghost dot: bool)
    returns (t': nat, expcnt': int, doSign': bool)
    requires Remaining(num, den, k, m, r) && Pow10(f) <= m < Pow10(f + 1)
    requires 2 <= t && t + prec <= a.Length && a[1..t] == FixedText(m, f, dot)
    requires prec > 0 ==> f > 0 || dot
    modifies a
    ensures t' == t + prec && doSign' == doSign && a[0] == old(a[0])
    ensures var s := Normalize(RoundScaled(num, den, k + prec), expcnt, f + prec);
            a[1..t'] == FixedText(s.m, f + prec, dot) && expcnt' == s.e
  {
    hide FixedText, Remaining, RoundScaled, Normalize;
    var prec', r';
    ghost var m';
    t', prec', r', m' := FractionDigits(a, t, prec, r, den, num, k, m, f, dot);
    DigitsGained(num, den, k, m, r, f, prec - prec', m', r');
    t', expcnt', doSign' := ScientificEnd(a, t', r', den, prec', expcnt, doSign, num,
                                          k + (prec - prec'), m', f + (prec - prec'), dot);
  }

  /** The digits are used up or the value is: round, or pad with zeros. */
  method ScientificEnd(a: array<char>, t: nat, r: nat, den: nat, prec: nat, expcnt: int, doSign: bool,
                       ghost num: nat, ghost k: nat, ghost m: nat, ghost f: nat, ghost dot: bool)
    returns (t': nat, expcnt': int, doSign': bool)
    requires Remaining(num, den, k, m, r) && Pow10(f) <= m < Pow10(f + 1)
    requires 2 <= t && t + prec <= a.Length && a[1..t] == FixedText(m, f, dot)
    requires prec > 0 ==> r == 0 && (f > 0 || dot)
    modifies a
    ensures t' == t + prec && doSign' == doSign && a[0] == old(a[0])
    ensures var s := Normalize(RoundScaled(num, den, k + prec), expcnt, f + prec);
            a[1..t'] == FixedText(s.m, f + prec, dot) && expcnt' == s.e
  {
    if r > 0 {
      t' := t;
      RoundByRemainder(num, den, k, m, r);
      expcnt', doSign' := RoundScientific(a, t, r, den, '\0', expcnt, doSign, m, f, dot);
    } else {
      t' := PadSignificand(a, t, den, prec, num, k, m, f, dot);
      expcnt', doSign' := expcnt, doSign;
    }
  }

  /** Appends the zeros an exact significand still needs. */
  method PadSignificand(a: array<char>, t: nat, den: nat, n: nat,
                        ghost num: nat, ghost k: nat, ghost m: nat, ghost f: nat, ghost dot: bool)
    returns (t': nat)
    requires Remaining(num, den, k, m, 0) && m < Pow10(f + 1)
    requires f > 0 || dot || n == 0
    requires 1 <= t && t + n <= a.Length && a[1..t] == FixedText(m, f, dot)
    modifies a
    ensures t' == t + n && a[0] == old(a[0])
    ensures RoundScaled(num, den, k + n) < Pow10(f + n + 1)
    ensures a[1..t'] == FixedText(RoundScaled(num, den, k + n), f + n, dot)
  {
    SignificandPadded(num, den, k, m, f, n, dot);
    ghost var text := a[1..t];
    t' := PadZeros(a, t, n);
    assert a[1..t] == a[..t][1..] == text;
    assert a[1..t'] == text + Repeat('0', n);
    assert a[0] == a[..t][0];
  }

  /** An exact significand padded with zeros is already rounded. */
  lemma SignificandPadded(num: nat, den: nat, k: nat, m: nat, f: nat, n: nat, dot: bool)
    requires Remaining(num, den, k, m, 0) && m < Pow10(f + 1)
    requires f > 0 || dot || n == 0
    ensures RoundScaled(num, den, k + n) < Pow10(f + n + 1)
    ensures FixedText(m, f, dot) + Repeat('0', n) == FixedText(RoundScaled(num, den, k + n), f + n, dot)
  {
    ExactScaling(num, den, k, m, n);
    FixedTextZeros(m, f, n, dot);
    Pow10Add(f + 1, n);
    StrictlyLess(m, Pow10(f + 1), Pow10(n));
  }

  lemma StrictlyLess(a: nat, b: nat, c: nat)
    requires a < b && c > 0
    ensures a * c < b * c
  {
    AtLeastOne(b - a, c);
    Distribute(a, b - a, c);
  }

  // ---------------------------------------------------------------- digits of the integer part

  /** i without its last j digits. */
  ghost function DropDigits(i: nat, j: nat): nat
  {
    if j == 0 then i else DropDigits(i / 10, j - 1)
  }

  lemma {:induction false} DropOneMore(i: nat, j: nat)
    ensures DropDigits(i, j + 1) == DropDigits(i, j) / 10
  {
    if j > 0 {
      DropOneMore(i / 10, j - 1);
    }
  }

  lemma {:induction false} DropDigitsBounds(i: nat, j: nat)
    ensures DropDigits(i, j) * Pow10(j) <= i < DropDigits(i, j) * Pow10(j) + Pow10(j)
  {
    if j > 0 {
      DropDigitsBounds(i / 10, j - 1);
      TimesTen(DropDigits(i, j), Pow10(j - 1));
    }
  }

  lemma {:induction false} NumeralPrefix(i: nat, j: nat)
    requires j < |Numeral(i)|
    ensures Numeral(i)[..|Numeral(i)| - j] == Numeral(DropDigits(i, j))
    ensures j > 0 ==> Numeral(i)[|Numeral(i)| - j] == DigitChar(DropDigits(i, j - 1) % 10)
  {
    if j > 0 {
      NumeralPrefix(i / 10, j - 1);
      assert Numeral(i)[..|Numeral(i)| - j] == Numeral(i / 10)[..|Numeral(i / 10)| - (j - 1)];
      if j > 1 {
        assert Numeral(i)[|Numeral(i)| - j] == Numeral(i / 10)[|Numeral(i / 10)| - (j - 1)];
      }
    }
  }

  /** Rounding by the first integer digit that was not printed is rounding x. */
  lemma RoundInsideInteger(num: nat, den: nat, i: nat, r: nat, j: nat)
    requires num == i * den + r && r < den && j > 0
    ensures var m, d := DropDigits(i, j), DropDigits(i, j - 1) % 10;
            RoundScaled(num, den, 0 - j) == if d >= 5 then m + 1 else m
  {
    var k, p := DropDigits(i, j - 1), Pow10(j - 1);
    DropOneMore(i, j - 1);
    DropDigitsBounds(i, j - 1);
    IntegerBounds(num, den, i, r, k, p);
    TimesTen(den, p);
    RoundByTenths(num, den * p, k / 10, k % 10);
    ScaledPositive(den, j);
    HalfUpUnique(num, den * Pow10(j), if k % 10 >= 5 then k / 10 + 1 else k / 10);
  }

  lemma IntegerBounds(num: nat, den: nat, i: nat, r: nat, k: nat, p: nat)
    requires num == i * den + r && r < den && k * p <= i < k * p + p
    ensures k * (den * p) <= num < k * (den * p) + den * p
  {
    MulMonotone(den, k * p, i);
    MulMonotone(den, i + 1, k * p + p);
    Rearrange(k, den, p);
    Distribute(k * p, p, den);
  }

  lemma RoundByTenths(num: nat, u: nat, m: nat, d: nat)
    requires (10 * m + d) * u <= num < (10 * m + d) * u + u && d < 10
    ensures RoundsTo(num, 10 * u, if d >= 5 then m + 1 else m)
  {
    Distribute(10 * m, d, u);
    Associate(10, m, u);
    MulMonotone(u, d, 9);
    if d >= 5 {
      MulMonotone(u, 5, d);
      Distribute(m, 1, u);
      OddMultiples(m + 1, u);
    } else {
      MulMonotone(u, d, 4);
      OddMultiples(m, u);
    }
  }

  lemma OddMultiples(q: nat, u: nat)
    ensures (2 * q - 1) * (10 * u) == 20 * (q * u) - 10 * u
    ensures (2 * q + 1) * (10 * u) == 20 * (q * u) + 10 * u
  {
  }

  /** A numeral with a point after its first digit. */
  lemma {:induction false} PointAfterFirst(m: nat, n: nat, dot: bool)
    requires |Numeral(m)| == n + 1
    ensures FixedText(m, n, dot)
         == Numeral(m)[..1] + (if n > 0 || dot then "." else "") + Numeral(m)[1..]
  {
    if n > 0 {
      PointAfterFirst(m / 10, n - 1, true);
      var front := Numeral(m / 10);
      assert Numeral(m)[..1] == front[..1];
      assert Numeral(m)[1..] == front[1..] + [DigitChar(m % 10)];
    } else {
      assert Numeral(m)[..1] == Numeral(m);
    }
  }

  /** The buffer with the integer digits still at its back. */
  ghost predicate IntegerAtBack(a: array<char>, p: int, i: nat)
    reads a
  {
    && a.Length == 400 && |IntegerText(i)| <= 309
    && p == a.Length - 1 - |IntegerText(i)| && a[p + 1..] == IntegerText(i)
  }

  /** The digits of a number cut after the first and n more. */
  lemma LeadingText(i: nat, n: nat, dot: bool)
    requires n < |Numeral(i)| && (n > 0 ==> dot)
    ensures Numeral(i)[..1] + (if dot then "." else "") + Numeral(i)[1..][..n]
         == FixedText(DropDigits(i, |Numeral(i)| - 1 - n), n, dot)
  {
    var j, text := |Numeral(i)| - 1 - n, Numeral(i);
    NumeralPrefix(i, j);
    assert text[..n + 1][..1] == text[..1] && text[..n + 1][1..] == text[1..][..n];
    PointAfterFirst(DropDigits(i, j), n, dot);
  }

  /** Prints the first integer digit, and the point when one is wanted. */
  method FirstDigit(a: array<char>, p: int, dot: bool, ghost i: nat) returns (t: nat)
    requires i > 0 && IntegerAtBack(a, p, i)
    modifies a
    ensures t == if dot then 3 else 2
    ensures a[1..t] == Numeral(i)[..1] + (if dot then "." else "")
    ensures a[p + 2..] == Numeral(i)[1..] && a[0] == old(a[0])
  {
    assert a[p + 2..] == a[p + 1..][1..] && a[p + 1] == a[p + 1..][0];
    a[1] := a[p + 1];
    t := 2;
    if dot {
      a[t] := '.';
      t := t + 1;
    }
  }

  /** Prints the leading digits of a number that has an integer part: the first
      digit, the point, and integer digits as far as the precision goes. */
  method LeadingInteger(a: array<char>, p: int, prec: nat, dot: bool, ghost i: nat)
    returns (t: nat, n: nat)
    requires i > 0 && IntegerAtBack(a, p, i) && prec <= 39 && (prec > 0 ==> dot)
    modifies a
    ensures n == if prec < |Numeral(i)| - 1 then prec else |Numeral(i)| - 1
    ensures t == n + if dot then 3 else 2
    ensures a[1..t] == FixedText(DropDigits(i, |Numeral(i)| - 1 - n), n, dot)
    ensures a[p + 2 + n..] == Numeral(i)[1..][n..]
    ensures a[0] == old(a[0])
  {
    t := FirstDigit(a, p, dot, i);
    ghost var head := a[1..t];
    n := CopyDigits(a, t, p + 1, prec);
    assert a[1..t] == a[..t][1..] == head;
    assert a[0] == a[..t][0];
    LeadingText(i, n, dot);
    assert a[1..t + n] == a[1..t] + a[t..t + n];
    t := t + n;
  }

  // ---------------------------------------------------------------- the e-style significand

  /** x as an integer part i and a proper fraction r / den. */
  ghost predicate Parts(num: nat, den: nat, i: nat, r: nat)
  {
    num == i * den + r && r < den
  }

  /** a[1..t] and e are the significand and exponent of x. */
  ghost predicate IsScientific(text: string, e: int, num: nat, den: nat, prec: nat, dot: bool)
    requires den > 0
  {
    var s := ToScientific(num, den, prec);
    text == FixedText(s.m, prec, dot) && e == s.e
  }

  /** The digits cut off after the first and n more, and the digit that follows. */
  lemma CutDigits(i: nat, n: nat)
    requires n + 1 < |Numeral(i)|
    ensures var j := |Numeral(i)| - 1 - n;
            var m, d := DropDigits(i, j), DropDigits(i, j - 1) % 10;
            && Pow10(n) <= m < Pow10(n + 1)
            && Numeral(i)[n + 1] == DigitChar(d) && IsDigit(DigitChar(d))
            && (DigitChar(d) >= '5' <==> d >= 5)
  {
    var j := |Numeral(i)| - 1 - n;
    var m := DropDigits(i, j);
    NumeralPrefix(i, j);
    NumeralLength(m);
    assert |Numeral(m)| == n + 1;
    NumeralRoundTrip(i, 10, false);
    assert Numeral(m)[0] == Numeral(i)[0] != '0';
  }

  /** Rounding inside the integer digits yields the significand of x. */
  lemma IntegerSignificandText(num: nat, den: nat, i: nat, r: nat, n: nat, up: bool)
    requires Parts(num, den, i, r) && i > 0 && n + 1 < |Numeral(i)|
    requires up <==> DropDigits(i, |Numeral(i)| - 2 - n) % 10 >= 5
    ensures ToScientific(num, den, n)
         == var m := DropDigits(i, |Numeral(i)| - 1 - n);
            Normalize(if up then m + 1 else m, |Numeral(i)| - 1, n)
  {
    var j: nat := |Numeral(i)| - 1 - n;
    IntegerExponent(num, den, i, r);
    RoundInsideInteger(num, den, i, r, j);
    assert n - Exponent(num, den) == 0 - j;
    var m := DropDigits(i, j);
    assert RoundScaled(num, den, n - Exponent(num, den)) == if up then m + 1 else m;
  }

  /** With every integer digit printed the fraction decides. */
  lemma IntegerTail(num: nat, den: nat, i: nat, r: nat)
    requires Parts(num, den, i, r) && i > 0
    ensures Remaining(num, den, 0, i, r)
    ensures Pow10(|Numeral(i)| - 1) <= i < Pow10(|Numeral(i)|)
  {
    assert Pow10(0) == 1;
    NumeralLength(i);
  }

  /** The significand of a number with an integer part. */
  method ScientificInteger(a: array<char>, p: int, expcnt: nat, r: nat, den: nat, prec: nat, dot: bool,
                           doSign: bool, ghost num: nat, ghost i: nat)
    returns (t: nat, e: int, doSign': bool)
    requires i > 0 && IntegerAtBack(a, p, i) && expcnt == |Numeral(i)| && Parts(num, den, i, r)
    requires prec <= 39 && (prec > 0 ==> dot)
    modifies a
    ensures 1 <= t <= 42 && doSign' == doSign && a[0] == old(a[0])
    ensures IsScientific(a[1..t], e, num, den, prec, dot)
  {
    var n;
    t, n := LeadingInteger(a, p, prec, dot, i);
    if n == prec && p + 2 + n < a.Length {
      assert a[p + 2 + n] == a[p + 2 + n..][0];
      e, doSign' := RoundInteger(a, t, a[p + 2 + n], den, expcnt - 1, doSign, num, i, r, n, dot);
    } else {
      IntegerTail(num, den, i, r);
      IntegerExponent(num, den, i, r);
      t, e, doSign' := ScientificTail(a, t, r, den, prec - n, expcnt - 1, doSign, num, 0, i, n, dot);
    }
  }

  /** Rounds by the integer digit that follows the printed ones; the fraction
      no longer matters. */
  method RoundInteger(a: array<char>, t: nat, ch: char, den: nat, expcnt: int, doSign: bool,
                      ghost num: nat, ghost i: nat, ghost r: nat, ghost n: nat, ghost dot: bool)
    returns (e: int, doSign': bool)
    requires Parts(num, den, i, r) && i > 0 && n + 1 < |Numeral(i)|
    requires ch == Numeral(i)[n + 1] && expcnt == |Numeral(i)| - 1
    requires 2 <= t <= a.Length && a[1..t] == FixedText(DropDigits(i, |Numeral(i)| - 1 - n), n, dot)
    modifies a
    ensures doSign' == doSign && a[0] == old(a[0])
    ensures IsScientific(a[1..t], e, num, den, n, dot)
  {
    hide FixedText, RoundScaled, DropDigits, Numeral, DigitChar;
    CutDigits(i, n);
    IntegerSignificandText(num, den, i, r, n, ch >= '5');
    e, doSign' := RoundScientific(a, t, 0, den, ch, expcnt, doSign,
                                  DropDigits(i, |Numeral(i)| - 1 - n), n, dot);
  }

  lemma IntegerExponent(num: nat, den: nat, i: nat, r: nat)
    requires Parts(num, den, i, r) && i > 0
    ensures num > 0 && Exponent(num, den) == |Numeral(i)| - 1
  {
    QuotientOf(num, den, i, r);
    AtLeastOne(i, den);
  }

  /** The significand of a number without an integer part. */
  method ScientificFraction(a: array<char>, r: nat, den: nat, prec: nat, dot: bool, doSign: bool)
    returns (t: nat, e: int, doSign': bool)
    requires 0 < r < den && a.Length == 400 && prec <= 39 && (prec > 0 ==> dot)
    modifies a
    ensures 1 <= t <= 42 && doSign' == doSign && a[0] == old(a[0])
    ensures IsScientific(a[1..t], e, r, den, prec, dot)
  {
    var expcnt, d, r' := FirstSignificant(r, den);
    a[1] := DigitChar(d);
    t := 2;
    if dot {
      a[t] := '.';
      t := t + 1;
    }
    assert a[1..t] == FixedText(d, 0, dot);
    assert Pow10(0) == 1 && Pow10(1) == 10;
    t, e, doSign' := ScientificTail(a, t, r', den, prec, expcnt, doSign, r, -expcnt, d, 0, dot);
    assert Exponent(r, den) == expcnt;
  }

  /** Zeros only. */
  method ScientificZero(a: array<char>, prec: nat, dot: bool) returns (t: nat)
    requires a.Length == 400 && prec <= 39
    modifies a
    ensures 1 <= t <= 42 && a[0] == old(a[0])
    ensures a[1..t] == "0" + (if dot then "." else "") + Repeat('0', prec)
  {
    a[1] := '0';
    t := 2;
    if dot {
      a[t] := '.';
      t := t + 1;
    }
    ghost var head := a[1..t];
    var t' := PadZeros(a, t, prec);
    assert a[1..t] == a[..t][1..] == head;
    assert a[0] == a[..t][0];
    assert a[1..t'] == head + Repeat('0', prec);
    t := t';
  }

  lemma ZeroText(prec: nat, dot: bool, den: nat)
    requires den > 0 && (prec > 0 ==> dot)
    ensures IsScientific("0" + (if dot then "." else "") + Repeat('0', prec), 0, 0, den, prec, dot)
  {
    var q := 0;
    assert Numeral(q) == "0" && q * Pow10(prec) == q;
    FixedTextZeros(q, 0, prec, dot);
  }

  /** The e-style significand of any value, the integer digits being at the back. */
  method ScientificDigits(a: array<char>, p: int, expcnt: nat, r: nat, den: nat, prec: nat, alt: bool,
                          doSign: bool, ghost num: nat, ghost i: nat)
    returns (t: nat, e: int, doSign': bool)
    requires IntegerAtBack(a, p, i) && expcnt == |IntegerText(i)| && Parts(num, den, i, r)
    requires prec <= 39
    modifies a
    ensures 1 <= t <= 42 && doSign' == doSign && a[0] == old(a[0])
    ensures IsScientific(a[1..t], e, num, den, prec, prec > 0 || alt)
  {
    hide FixedText, Exponent, ToScientific;
    if expcnt > 0 {
      t, e, doSign' := ScientificInteger(a, p, expcnt, r, den, prec, prec > 0 || alt, doSign, num, i);
    } else if r > 0 {
      t, e, doSign' := ScientificFraction(a, r, den, prec, prec > 0 || alt, doSign);
    } else {
      t := ScientificZero(a, prec, prec > 0 || alt);
      ZeroText(prec, prec > 0 || alt, den);
      e, doSign' := 0, doSign;
    }
  }

  // ---------------------------------------------------------------- fixed style

  /** Copies the integer part to the front, or prints a zero. */
  method IntegerToFront(a: array<char>, p: int, expcnt: nat, ghost i: nat) returns (t: nat)
    requires IntegerAtBack(a, p, i) && expcnt == |IntegerText(i)|
    modifies a
    ensures t == |Numeral(i)| + 1 && a[1..t] == Numeral(i) && a[0] == old(a[0])
  {
    if expcnt > 0 {
      var n := CopyDigits(a, 1, p, expcnt);
      t := n + 1;
      assert a[0] == a[..1][0];
    } else {
      a[1] := '0';
      t := 2;
    }
  }

  /** The integer part and, when wanted, the point. */
  method FixedInteger(a: array<char>, p: int, expcnt: nat, dot: bool, ghost i: nat) returns (t: nat)
    requires IntegerAtBack(a, p, i) && expcnt == |IntegerText(i)|
    modifies a
    ensures t == |Numeral(i)| + 1 + (if dot then 1 else 0)
    ensures a[1..t] == FixedText(i, 0, dot) && a[0] == old(a[0])
  {
    t := IntegerToFront(a, p, expcnt, i);
    ghost var digits := a[1..t];
    if dot {
      a[t] := '.';
      t := t + 1;
      assert a[1..t] == digits + ".";
    }
  }

  lemma ExactSign(num: nat, den: nat, f: nat, m: nat, n: nat)
    requires Remaining(num, den, f, m, 0)
    ensures RoundScaled(num, den, f + n) > 0 <==> num > 0
  {
    ExactScaling(num, den, f, m, n);
    if num > 0 {
      AtLeastOne(num, Pow10(f));
      if m > 0 {
        AtLeastOne(m, Pow10(n));
      }
    }
  }

  /** Ends fixed-style text: rounds what is left over, or pads with zeros. */
  method FixedEnd(a: array<char>, t: nat, r: nat, den: nat, prec: nat, doSign: bool,
                  ghost num: nat, ghost f: nat, ghost m: nat, ghost dot: bool)
    returns (start: nat, t': nat, doSign': bool)
    requires Remaining(num, den, f, m, r)
    requires 2 <= t && t + prec <= a.Length && a[1..t] == FixedText(m, f, dot) && a[0] == '\0'
    requires prec > 0 ==> r == 0 && (f > 0 || dot)
    requires doSign ==> num > 0
    modifies a
    ensures start <= 1 && (start == 1 <==> a[0] == '\0') && t' == t + prec
    ensures var q := RoundScaled(num, den, f + prec);
            a[start..t'] == FixedText(q, f + prec, dot) && doSign' == (doSign && q > 0)
  {
    if r > 0 {
      t' := t;
      start, doSign' := RoundFixed(a, t, r, den, doSign, num, m, f, dot);
    } else {
      start, doSign' := 1, doSign;
      ExactScaling(num, den, f, m, prec);
      ExactSign(num, den, f, m, prec);
      FixedTextZeros(m, f, prec, dot);
      ghost var text := a[1..t];
      t' := PadZeros(a, t, prec);
      assert a[1..t] == a[..t][1..] == text;
      assert a[1..t'] == text + Repeat('0', prec);
      assert a[0] == a[..t][0];
    }
  }

  /** `%f`: the integer part, then prec fraction digits. */
  method FixedDigits(a: array<char>, p: int, expcnt: nat, r: nat, den: nat, prec: nat, alt: bool,
                     doSign: bool, ghost num: nat, ghost i: nat)
    returns (start: nat, t: nat, doSign': bool)
    requires IntegerAtBack(a, p, i) && expcnt == |IntegerText(i)| && Parts(num, den, i, r)
    requires prec <= 39 && a[0] == '\0' && (doSign ==> num > 0)
    modifies a
    ensures start <= 1 && start <= t <= 360 && (start == 1 <==> a[0] == '\0')
    ensures var q := RoundScaled(num, den, prec);
            a[start..t] == FixedText(q, prec, alt) && doSign' == (doSign && q > 0)
  {
    var dot := prec > 0 || alt;
    t := FixedInteger(a, p, expcnt, dot, i);
    assert Pow10(0) == 1;
    var prec', r';
    ghost var m;
    t, prec', r', m := FractionDigits(a, t, prec, r, den, num, 0, i, 0, dot);
    start, t, doSign' := FixedEnd(a, t, r', den, prec', doSign, num, prec - prec', m, dot);
  }

  // ---------------------------------------------------------------- general style

  /** Ends `%g` in fixed style: rounds, then keeps or trims trailing zeros. */
  method GeneralEnd(a: array<char>, t: nat, r: nat, den: nat, prec: nat, alt: bool, dot: bool, doSign: bool,
                    ghost num: nat, ghost f: nat, ghost m: nat)
    returns (start: nat, t': nat, doSign': bool)
    requires Remaining(num, den, f, m, r)
    requires 2 <= t && t + prec <= a.Length && a[1..t] == FixedText(m, f, dot) && a[0] == '\0'
    requires prec > 0 ==> r == 0
    requires (f + prec > 0 || alt) ==> dot
    requires (doSign ==> num > 0) && (num > 0 ==> RoundScaled(num, den, f + prec) > 0)
    modifies a
    ensures start <= 1 && start <= t' <= t + prec && (start == 1 <==> a[0] == '\0')
    ensures var q := RoundScaled(num, den, f + prec);
            a[start..t'] == if alt then FixedText(q, f + prec, true) else ShortText(q, f + prec)
    ensures doSign' == doSign
  {
    ghost var q := RoundScaled(num, den, f + prec);
    if alt {
      start, t', doSign' := FixedEnd(a, t, r, den, prec, doSign, num, f, m, dot);
    } else {
      start, t', doSign' := 1, t, doSign;
      if r > 0 {
        start, doSign' := RoundFixed(a, t, r, den, doSign, num, m, f, dot);
      } else {
        ExactScaling(num, den, f, m, prec);
        ShortTextZeros(m, f, prec);
      }
      if dot {
        t' := TrimZeros(a, start, t, if r > 0 then q else m, f, dot);
      }
    }
  }

  /** `%g` in fixed style: precision counts significant digits, so the leading
      zeros of a fraction are free. */
  method GeneralFixed(a: array<char>, p: int, expcnt: nat, r: nat, den: nat, precision: nat, alt: bool,
                      doSign: bool, ghost num: nat, ghost i: nat)
    returns (start: nat, t: nat, doSign': bool)
    requires IntegerAtBack(a, p, i) && expcnt == |IntegerText(i)| && Parts(num, den, i, r)
    requires 1 <= precision <= 39 && a[0] == '\0' && (doSign ==> num > 0)
    requires !UsesExponent(num, den, precision) && expcnt <= precision
    modifies a
    ensures start <= 1 && start <= t <= 360 && (start == 1 <==> a[0] == '\0') && doSign' == doSign
    ensures var f := GeneralFraction(num, den, precision);
            var q := RoundScaled(num, den, f);
            f >= 0 && a[start..t] == if alt then FixedText(q, f, true) else ShortText(q, f)
  {
    GeneralPositive(num, den, precision);
    var prec := precision - expcnt;
    var dot := prec > 0 || alt;
    t := FixedInteger(a, p, expcnt, dot, i);
    var prec', r';
    ghost var f, m;
    t, prec', r', f, m := GeneralDigits(a, t, expcnt, r, den, prec, precision, dot, num, i);
    start, t, doSign' := GeneralEnd(a, t, r', den, prec', alt, dot, doSign, num, f, m);
  }

  /** The fraction digits of `%g`, leading zeros first. */
  method GeneralDigits(a: array<char>, t: nat, expcnt: nat, r: nat, den: nat, prec: nat,
                       ghost precision: nat, ghost dot: bool, ghost num: nat, ghost i: nat)
    returns (t': nat, prec': nat, r': nat, ghost f: nat, ghost m: nat)
    requires Parts(num, den, i, r) && expcnt == |IntegerText(i)| && prec == precision - expcnt
    requires 1 <= precision <= 39 && !UsesExponent(num, den, precision)
    requires 2 <= t && t + 50 <= a.Length && a[1..t] == FixedText(i, 0, dot) && (prec > 0 ==> dot)
    modifies a
    ensures t <= t' && t' + prec' <= t + 43 && a[0] == old(a[0])
    ensures a[1..t'] == FixedText(m, f, dot) && Remaining(num, den, f, m, r')
    ensures prec' > 0 ==> r' == 0
    ensures f + prec' == GeneralFraction(num, den, precision) && (f + prec' > 0 ==> dot)
  {
    t', prec', r' := t, prec, r;
    f, m := 0, i;
    assert Pow10(0) == 1;
    if r > 0 && prec > 0 && expcnt == 0 {
      FractionExponent(num, den, r);
      t', r', m := LeadingFraction(a, t, r, den);
      f := ShiftToOne(r, den);
      prec' := prec - 1;
    } else if i > 0 {
      IntegerExponent(num, den, i, r);
    }
    ghost var before := prec';
    t', prec', r', m := FractionDigits(a, t', prec', r', den, num, f, m, f, dot);
    f := f + (before - prec');
  }

  lemma GeneralPositive(num: nat, den: nat, precision: nat)
    requires den > 0 && precision > 0 && !UsesExponent(num, den, precision)
    ensures GeneralFraction(num, den, precision) >= 0
    ensures num > 0 ==> RoundScaled(num, den, GeneralFraction(num, den, precision)) > 0
  {
    GeneralFractionNat(num, den, precision);
    if num > 0 {
      SignificandRange(num, den, precision - 1);
    }
  }

  lemma FractionExponent(num: nat, den: nat, r: nat)
    requires Parts(num, den, 0, r) && r > 0 && num * 10000 >= den
    ensures num == r && Exponent(num, den) == 0 - ShiftToOne(r, den) && ShiftToOne(r, den) <= 4
  {
    ShiftAtMostFour(num, den);
  }

  /** The e-style significand without trailing zeros. */
  method TrimSignificand(a: array<char>, t: nat, e: int, den: nat, prec: nat, ghost num: nat)
    returns (t': nat)
    requires 1 <= t <= a.Length && den > 0 && num > 0
    requires IsScientific(a[1..t], e, num, den, prec, prec > 0)
    ensures 1 <= t' <= t && a[1..t'] == ShortText(ToScientific(num, den, prec).m, prec)
  {
    ghost var m := ToScientific(num, den, prec).m;
    ScientificMeaning(num, den, prec);
    if prec == 0 {
      assert Pow10(0) == 1 && Pow10(1) == 10;
    }
    t' := TrimZeros(a, 1, t, m, prec, prec > 0);
  }

  // ---------------------------------------------------------------- the conversion

  /** Appends the exponent part to a significand. */
  method AppendExponent(a: array<char>, t: nat, e: int, letter: char) returns (t': nat)
    requires 1 <= t && t + 6 <= a.Length && Magnitude(e) < 10000
    modifies a
    ensures t <= t' <= t + 6 && a[0] == old(a[0])
    ensures a[1..t'] == old(a[1..t]) + ExponentText(e, letter)
  {
    ghost var text := a[1..t];
    t' := ExponentCvt(a, t, e, letter);
    assert a[1..t] == a[..t][1..] == text;
    assert a[0] == a[..t][0];
  }

  /** Converts a finite value. The characters are a[start..t]; start is 0 when a
      carry took the spare slot in front, which is then no longer NUL. */
  method Cvt(a: array<char>, neg: bool, num: nat, den: nat, prec: nat, alt: bool, ch: char)
    returns (start: nat, t: nat, doSign: bool)
    requires a.Length == 400 && a[0] == '\0'
    requires InDoubleRange(num, den) && prec <= 39
    requires ch in {'e', 'E', 'f', 'g', 'G'}
    modifies a
    ensures start <= 1 && start <= t <= 400 && (start == 1 <==> a[0] == '\0')
    ensures a[start..t] == CvtText(num, den, prec, alt, ch)
    ensures doSign == CvtSign(neg, num, den, prec, ch)
  {
    doSign := neg && num != 0;
    var integer := Quotient(num, den);
    var r := num - integer * den;
    SmallQuotient(num, den);
    var p, expcnt := IntegerToBack(a, integer);
    if ch == 'f' {
      start, t, doSign := FixedDigits(a, p, expcnt, r, den, prec, alt, doSign, num, integer);
    } else if ch == 'e' || ch == 'E' {
      start := 1;
      t, doSign := CvtScientific(a, p, expcnt, r, den, prec, alt, ch, doSign, num, integer);
    } else {
      start, t, doSign := CvtGeneral(a, p, expcnt, r, den, prec, alt, ch, doSign, num, integer);
    }
  }

  /** Numbers below one have no integer part. */
  lemma SmallQuotient(num: nat, den: nat)
    requires den > 0
    ensures |IntegerText(Quotient(num, den))| == IntegerDigits(num, den)
  {
    if num < den {
      QuotientOf(num, den, 0, num);
    } else {
      QuotientOf(num, den, Quotient(num, den), num - Quotient(num, den) * den);
    }
  }

  method CvtScientific(a: array<char>, p: int, expcnt: nat, r: nat, den: nat, prec: nat, alt: bool,
                       letter: char, doSign: bool, ghost num: nat, ghost i: nat)
    returns (t: nat, doSign': bool)
    requires IntegerAtBack(a, p, i) && expcnt == |IntegerText(i)| && Parts(num, den, i, r)
    requires prec <= 39 && InDoubleRange(num, den)
    modifies a
    ensures 1 <= t <= 48 && doSign' == doSign && a[0] == old(a[0])
    ensures a[1..t] == SciText(num, den, prec, alt, letter)
  {
    var e;
    ExponentFits(num, den, prec);
    t, e, doSign' := ScientificDigits(a, p, expcnt, r, den, prec, alt, doSign, num, i);
    t := AppendExponent(a, t, e, letter);
  }

  method CvtGeneral(a: array<char>, p: int, expcnt: nat, r: nat, den: nat, prec: nat, alt: bool,
                    ch: char, doSign: bool, ghost num: nat, ghost i: nat)
    returns (start: nat, t: nat, doSign': bool)
    requires IntegerAtBack(a, p, i) && Parts(num, den, i, r)
    requires expcnt == |IntegerText(i)| == IntegerDigits(num, den)
    requires prec <= 39 && InDoubleRange(num, den) && a[0] == '\0' && (doSign ==> num > 0)
    requires ch == 'g' || ch == 'G'
    modifies a
    ensures start <= 1 && start <= t <= 400 && (start == 1 <==> a[0] == '\0') && doSign' == doSign
    ensures a[start..t] == CvtText(num, den, prec, alt, ch)
  {
    hide UsesExponent, FixedText, Numeral, RoundScaled, GeneralFraction, ToScientific;
    var precision := if prec == 0 then 1 else prec;
    StyleChoice(num, den, i, r, precision);
    if expcnt > precision || (expcnt == 0 && r > 0 && r * 10000 < den) {
      start := 1;
      t, doSign' := GeneralScientific(a, p, expcnt, r, den, precision, alt, ch - 2 as char, doSign, num, i);
    } else {
      start, t, doSign' := GeneralFixed(a, p, expcnt, r, den, precision, alt, doSign, num, i);
    }
  }

  /** The style test on the converted parts is the test on x itself. */
  lemma StyleChoice(num: nat, den: nat, i: nat, r: nat, precision: nat)
    requires Parts(num, den, i, r)
    ensures var expcnt := |IntegerText(i)|;
            UsesExponent(num, den, precision)
            <==> expcnt > precision || (expcnt == 0 && r > 0 && r * 10000 < den)
  {
    QuotientOf(num, den, i, r);
    if i > 0 {
      AtLeastOne(i, den);
    }
  }

  method GeneralScientific(a: array<char>, p: int, expcnt: nat, r: nat, den: nat, precision: nat, alt: bool,
                           letter: char, doSign: bool, ghost num: nat, ghost i: nat)
    returns (t: nat, doSign': bool)
    requires IntegerAtBack(a, p, i) && expcnt == |IntegerText(i)| && Parts(num, den, i, r)
    requires 1 <= precision <= 39 && InDoubleRange(num, den) && num > 0
    modifies a
    ensures 1 <= t <= 48 && doSign' == doSign && a[0] == old(a[0])
    ensures var s := ToScientific(num, den, precision - 1);
            a[1..t] == (if alt then FixedText(s.m, precision - 1, true) else ShortText(s.m, precision - 1))
                       + ExponentText(s.e, letter)
  {
    var e;
    ExponentFits(num, den, precision - 1);
    t, e, doSign' := ScientificDigits(a, p, expcnt, r, den, precision - 1, alt, doSign, num, i);
    if !alt {
      t := TrimSignificand(a, t, e, den, precision - 1, num);
    }
    t := AppendExponent(a, t, e, letter);
  }
}
