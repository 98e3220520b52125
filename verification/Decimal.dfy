/** Positional notation: numerals in a base, fixed-point decimal text, and the
    rounding of an exact rational to a scaled integer. */
module Decimal {

  // ---------------------------------------------------------------- digits

  predicate IsDigit(c: char) { '0' <= c <= '9' }

  function DigitChar(d: nat, upper: bool := false): char
    requires d < 16
  {
    if d < 10 then '0' + d as char
    else if upper then 'A' + (d - 10) as char
    else 'a' + (d - 10) as char
  }

  /** The value of a digit character in a base up to sixteen; 16 for anything else. */
  function DigitValue(c: char): nat
  {
    if '0' <= c <= '9' then c as int - '0' as int
    else if 'a' <= c <= 'f' then 10 + (c as int - 'a' as int)
    else if 'A' <= c <= 'F' then 10 + (c as int - 'A' as int)
    else 16
  }

  ghost predicate AllDigits(s: string, base: nat := 10)
  {
    forall i :: 0 <= i < |s| ==> DigitValue(s[i]) < base
  }

  /** The number a digit string denotes; the empty string denotes zero. */
  function Value(s: string, base: nat := 10): nat
  {
    if s == "" then 0 else base * Value(s[..|s| - 1], base) + DigitValue(s[|s| - 1])
  }

  /** The bases the formatter converts to. */
  predicate IsBase(base: nat) { base == 8 || base == 10 || base == 16 }

  /** The shortest numeral of n in the base. */
  function Numeral(n: nat, base: nat := 10, upper: bool := false): (s: string)
    requires IsBase(base)
    ensures |s| > 0
    decreases n
  {
    if n < base then [DigitChar(n, upper)]
    else Numeral(n / base, base, upper) + [DigitChar(n % base, upper)]
  }

  /** Copies of one character. */
  function Repeat(c: char, n: int): (s: string)
    ensures |s| == if n > 0 then n else 0
    ensures forall i :: 0 <= i < |s| ==> s[i] == c
  {
    if n <= 0 then "" else Repeat(c, n - 1) + [c]
  }

  lemma {:induction false} RepeatSplit(c: char, m: nat, n: nat)
    ensures Repeat(c, m) + Repeat(c, n) == Repeat(c, m + n)
  {
    if n > 0 {
      RepeatSplit(c, m, n - 1);
    }
  }

  // ---------------------------------------------------------------- numerals and values

  /** A numeral reads back as the number it was made from, and has no leading zero. */
  lemma {:induction false} NumeralRoundTrip(n: nat, base: nat, upper: bool)
    requires IsBase(base)
    ensures AllDigits(Numeral(n, base, upper), base)
    ensures Value(Numeral(n, base, upper), base) == n
    ensures n > 0 ==> Numeral(n, base, upper)[0] != '0'
    decreases n
  {
    if n < base {
      assert [DigitChar(n, upper)][..0] == "";
    } else {
      NumeralRoundTrip(n / base, base, upper);
      var front := Numeral(n / base, base, upper);
      NumeralDigit(front, n, base, upper);
    }
  }

  lemma NumeralDigit(front: string, n: nat, base: nat, upper: bool)
    requires IsBase(base)
    requires AllDigits(front, base) && Value(front, base) == n / base
    ensures var s := front + [DigitChar(n % base, upper)]; AllDigits(s, base) && Value(s, base) == n
  {
    var c := DigitChar(n % base, upper);
    DigitRoundTrip(n % base, upper);
    ValueSnoc(front, c, base);
    AllDigitsSnoc(front, c, base);
    Division(n, base);
  }

  lemma DigitRoundTrip(d: nat, upper: bool)
    requires d < 16
    ensures DigitValue(DigitChar(d, upper)) == d
  {
  }

  lemma Division(n: nat, base: nat)
    requires base > 0
    ensures n == base * (n / base) + n % base
    ensures n / base >= 0
  {
  }

  lemma AllDigitsSnoc(s: string, c: char, base: nat)
    requires AllDigits(s, base) && DigitValue(c) < base
    ensures AllDigits(s + [c], base)
  {
  }

  lemma ValueSnoc(s: string, c: char, base: nat)
    ensures Value(s + [c], base) == base * Value(s, base) + DigitValue(c)
  {
    assert (s + [c])[..|s|] == s;
  }

  /** Leading zeros do not change a value. */
  lemma {:induction false} LeadingZeros(k: int, s: string, base: nat)
    ensures Value(Repeat('0', k) + s, base) == Value(s, base)
    decreases |s|, if k > 0 then k else 0
  {
    var z := Repeat('0', k);
    if s != "" {
      assert (z + s)[..|z + s| - 1] == z + s[..|s| - 1];
      LeadingZeros(k, s[..|s| - 1], base);
    } else if k > 0 {
      assert z + s == z && z[..|z| - 1] == Repeat('0', k - 1) + "";
      LeadingZeros(k - 1, "", base);
    }
  }

  // ---------------------------------------------------------------- powers of ten

  function Pow10(k: nat): (p: nat)
    ensures p > 0
  {
    if k == 0 then 1 else 10 * Pow10(k - 1)
  }

  lemma {:induction false} Pow10Add(a: nat, b: nat)
    ensures Pow10(a + b) == Pow10(a) * Pow10(b)
  {
    if a > 0 {
      Pow10Add(a - 1, b);
      assert Pow10(a + b) == 10 * Pow10(a - 1 + b);
      assert 10 * (Pow10(a - 1) * Pow10(b)) == (10 * Pow10(a - 1)) * Pow10(b);
    }
  }

  lemma {:induction false} Pow10Monotone(a: nat, b: nat)
    requires a <= b
    ensures Pow10(a) <= Pow10(b)
  {
    if a < b {
      Pow10Monotone(a, b - 1);
    }
  }

  /** A numeral has k digits exactly when its number lies between powers of ten. */
  lemma {:induction false} NumeralLength(n: nat)
    ensures n < Pow10(|Numeral(n)|)
    ensures n > 0 ==> Pow10(|Numeral(n)| - 1) <= n
  {
    if n >= 10 {
      NumeralLength(n / 10);
    }
  }

  lemma NumeralLengthBound(n: nat, k: nat)
    requires 0 < k && n < Pow10(k)
    ensures |Numeral(n)| <= k
  {
    NumeralLength(n);
    if |Numeral(n)| > k && n > 0 {
      Pow10Monotone(k, |Numeral(n)| - 1);
    }
  }

  // ---------------------------------------------------------------- fixed-point text

  /** The decimal q / 10^f written with exactly f fraction digits; the point
      is written when there are fraction digits or `dot` asks for it. */
  function FixedText(q: nat, f: nat, dot: bool): (s: string)
    ensures |s| > 0
  {
    if f == 0 then Numeral(q) + (if dot then "." else "")
    else FixedText(q / 10, f - 1, true) + [DigitChar(q % 10)]
  }

  function DropPoint(s: string): string
  {
    if s == "" then ""
    else DropPoint(s[..|s| - 1]) + (if s[|s| - 1] == '.' then "" else [s[|s| - 1]])
  }

  /** Digits with isolated points, the first character being a digit. */
  ghost predicate DecimalText(s: string)
  {
    && |s| > 0 && IsDigit(s[0])
    && (forall i :: 0 < i < |s| ==> IsDigit(s[i]) || (s[i] == '.' && IsDigit(s[i - 1])))
  }

  lemma {:induction false} NumeralIsDecimalText(q: nat)
    ensures forall i :: 0 <= i < |Numeral(q)| ==> IsDigit(Numeral(q)[i])
  {
    NumeralRoundTrip(q, 10, false);
    var s := Numeral(q);
    forall i | 0 <= i < |s| ensures IsDigit(s[i]) {
      assert DigitValue(s[i]) < 10;
    }
  }

  lemma {:induction false} FixedTextIsDecimalText(q: nat, f: nat, dot: bool)
    ensures DecimalText(FixedText(q, f, dot))
  {
    if f == 0 {
      NumeralIsDecimalText(q);
    } else {
      FixedTextIsDecimalText(q / 10, f - 1, true);
      DecimalTextSnoc(FixedText(q / 10, f - 1, true), DigitChar(q % 10));
    }
  }

  lemma DecimalTextSnoc(s: string, c: char)
    requires DecimalText(s) && IsDigit(c)
    ensures DecimalText(s + [c])
  {
    var t := s + [c];
    forall i | 0 < i < |t| ensures IsDigit(t[i]) || (t[i] == '.' && IsDigit(t[i - 1])) {
      if i < |s| {
        assert t[i] == s[i] && t[i - 1] == s[i - 1];
      }
    }
  }

  /** What fixed-point text means: without its point it is the numeral of q
      (padded on the left), and exactly f digits follow the point. */
  lemma FixedTextMeaning(q: nat, f: nat, dot: bool)
    ensures var s := FixedText(q, f, dot);
            && AllDigits(DropPoint(s)) && Value(DropPoint(s)) == q
            && (f > 0 || dot ==> |s| > f + 1 && s[|s| - f - 1] == '.')
            && (forall i :: 0 <= i < |s| && s[i] == '.' ==> i == |s| - f - 1)
  {
    FixedTextValue(q, f, dot);
    FixedTextPoint(q, f, dot);
  }

  lemma {:induction false} FixedTextValue(q: nat, f: nat, dot: bool)
    ensures AllDigits(DropPoint(FixedText(q, f, dot)))
    ensures Value(DropPoint(FixedText(q, f, dot))) == q
  {
    if f == 0 {
      NumeralIsDecimalText(q);
      NumeralRoundTrip(q, 10, false);
      DropPointOfDigits(Numeral(q));
      DropPointSnoc(Numeral(q), '.');
      assert Numeral(q) + "" == Numeral(q);
    } else {
      FixedTextValue(q / 10, f - 1, true);
      DropPointDigit(FixedText(q / 10, f - 1, true), q % 10);
    }
  }

  lemma {:induction false} FixedTextPoint(q: nat, f: nat, dot: bool)
    ensures var s := FixedText(q, f, dot);
            && (f > 0 || dot ==> |s| > f + 1 && s[|s| - f - 1] == '.')
            && (forall i :: 0 <= i < |s| && s[i] == '.' ==> i == |s| - f - 1)
  {
    if f == 0 {
      NumeralIsDecimalText(q);
    } else {
      FixedTextPoint(q / 10, f - 1, true);
    }
  }

  lemma DropPointSnoc(s: string, c: char)
    ensures DropPoint(s + [c]) == DropPoint(s) + (if c == '.' then "" else [c])
  {
    assert (s + [c])[..|s|] == s;
  }

  lemma DropPointDigit(s: string, d: nat)
    requires d < 10 && AllDigits(DropPoint(s))
    ensures AllDigits(DropPoint(s + [DigitChar(d)]))
    ensures Value(DropPoint(s + [DigitChar(d)])) == 10 * Value(DropPoint(s)) + d
  {
    var c := DigitChar(d);
    assert IsDigit(c) && DigitValue(c) == d && c != '.';
    DropPointSnoc(s, c);
    var p := DropPoint(s);
    ValueSnoc(p, c, 10);
    AllDigitsSnoc(p, c, 10);
  }

  lemma {:induction false} DropPointOfDigits(s: string)
    requires forall i :: 0 <= i < |s| ==> s[i] != '.'
    ensures DropPoint(s) == s
  {
    if s != "" {
      DropPointOfDigits(s[..|s| - 1]);
      assert s == s[..|s| - 1] + [s[|s| - 1]];
    }
  }

  /** Zeros after the last fraction digit scale the number and nothing else. */
  lemma {:induction false} FixedTextZeros(q: nat, f: nat, k: nat, dot: bool)
    requires f > 0 || dot || k == 0
    ensures FixedText(q, f, dot) + Repeat('0', k) == FixedText(q * Pow10(k), f + k, dot)
  {
    if k == 0 {
      assert FixedText(q, f, dot) + "" == FixedText(q, f, dot);
    } else {
      FixedTextZeros(q, f, k - 1, dot);
      TimesTen(q, Pow10(k - 1));
      FixedTextZero(q * Pow10(k - 1), f + k - 1, dot);
      Reassociate(FixedText(q, f, dot), Repeat('0', k - 1), "0");
    }
  }

  lemma FixedTextZero(q: nat, f: nat, dot: bool)
    requires f > 0 || dot
    ensures FixedText(10 * q, f + 1, dot) == FixedText(q, f, dot) + "0"
  {
  }

  lemma Reassociate(a: string, b: string, c: string)
    ensures a + (b + c) == (a + b) + c
  {
  }

  lemma TimesTen(q: nat, p: nat)
    ensures q * (10 * p) == 10 * (q * p)
  {
  }

  // ---------------------------------------------------------------- incrementing text

  /** Adds one unit in the last place to decimal text, carrying across the
      point; a carry out of the first digit adds a digit in front. */
  function IncText(s: string): string
  {
    if s == "" then "1"
    else
      var front, c := s[..|s| - 1], s[|s| - 1];
      if c == '.' then IncText(front) + "."
      else if c < '9' then front + [c + 1 as char]
      else IncText(front) + "0"
  }

  lemma IncTextSnoc(s: string, c: char)
    ensures IncText(s + [c])
         == if c == '.' then IncText(s) + "."
            else if c < '9' then s + [c + 1 as char]
            else IncText(s) + "0"
  {
    assert (s + [c])[..|s|] == s;
  }

  /** Incrementing text that ends in the last digit of q, given what
      incrementing the text of q / 10 does. */
  lemma IncTextDigit(s: string, s': string, q: nat)
    requires IncText(s) == s'
    ensures IncText(s + [DigitChar(q % 10)])
         == (if q % 10 == 9 then s' else s) + [DigitChar((q + 1) % 10)]
    ensures (q + 1) / 10 == if q % 10 == 9 then q / 10 + 1 else q / 10
  {
    IncTextSnoc(s, DigitChar(q % 10));
  }

  lemma {:induction false} IncNumeral(q: nat)
    ensures IncText(Numeral(q)) == Numeral(q + 1)
  {
    var s := Numeral(q);
    if q < 10 {
      assert s[..0] == "";
      if q == 9 {
        assert Numeral(10) == Numeral(1) + "0";
      }
    } else {
      IncNumeral(q / 10);
      IncTextDigit(Numeral(q / 10), Numeral(q / 10 + 1), q);
    }
  }

  /** Incrementing fixed-point text adds one to the scaled number. */
  lemma {:induction false} IncFixedText(q: nat, f: nat, dot: bool)
    ensures IncText(FixedText(q, f, dot)) == FixedText(q + 1, f, dot)
  {
    if f == 0 {
      IncNumeral(q);
      IncTextSnoc(Numeral(q), '.');
      assert Numeral(q) + "" == Numeral(q) && Numeral(q + 1) + "" == Numeral(q + 1);
    } else {
      IncFixedText(q / 10, f - 1, true);
      IncTextDigit(FixedText(q / 10, f - 1, true), FixedText(q / 10 + 1, f - 1, true), q);
    }
  }

  /** Ten times a power of ten differs from the power only by its second character. */
  lemma {:induction false} AllNinesCarry(f: nat, dot: bool)
    ensures FixedText(Pow10(f), f, dot) == "1" + FixedText(Pow10(f + 1), f, dot)[2..]
    ensures |FixedText(Pow10(f + 1), f, dot)| >= 2
    ensures FixedText(Pow10(f + 1), f, dot)[..2] == "10"
  {
    if f == 0 {
      assert Pow10(1) == 10;
      assert Numeral(10) == Numeral(1) + "0" == "10";
    } else {
      AllNinesCarry(f - 1, true);
      var t := FixedText(Pow10(f), f - 1, true);
      assert Pow10(f) == 10 * Pow10(f - 1) && Pow10(f + 1) == 10 * Pow10(f);
      assert FixedText(Pow10(f + 1), f, dot) == t + "0";
      assert (t + "0")[2..] == t[2..] + "0";
    }
  }

  // ---------------------------------------------------------------- rounding

  /** The integer part of n / d. */
  function Quotient(n: nat, d: nat): (q: nat)
    requires d > 0
    ensures q * d <= n < q * d + d
  {
    Division(n, d);
    n / d
  }

  lemma QuotientOf(n: nat, d: nat, q: nat, r: nat)
    requires d > 0 && n == q * d + r && r < d
    ensures Quotient(n, d) == q
  {
    QuotientUnique(n, d, q, r);
  }

  /** n / d rounded to the nearest integer, ties upward. */
  function HalfUp(n: nat, d: nat): nat
    requires d > 0
  {
    (2 * n + d) / (2 * d)
  }

  /** q is n / d rounded half up: q - 1/2 <= n/d < q + 1/2. */
  ghost predicate RoundsTo(n: nat, d: nat, q: nat)
  {
    (2 * q - 1) * d <= 2 * n < (2 * q + 1) * d
  }

  lemma QuotientUnique(a: nat, b: nat, q: nat, r: nat)
    requires b > 0 && a == q * b + r && r < b
    ensures a / b == q && a % b == r
  {
    var q', r' := a / b, a % b;
    assert a == b * q' + r';
    assert (q - q') * b == q * b - q' * b == r' - r;
    assert (q' - q) * b == q' * b - q * b == r - r';
    if q' < q {
      AtLeastOne(q - q', b);
    } else if q' > q {
      AtLeastOne(q' - q, b);
    }
  }

  lemma AtLeastOne(k: int, b: nat)
    requires k >= 1
    ensures k * b >= b
  {
    assert (k - 1) * b >= 0;
  }

  lemma HalfUpMeaning(n: nat, d: nat)
    requires d > 0
    ensures RoundsTo(n, d, HalfUp(n, d))
  {
    var q := HalfUp(n, d);
    assert 2 * n + d == (2 * d) * q + (2 * n + d) % (2 * d);
    assert (2 * d) * q == (2 * q) * d;
    assert (2 * q - 1) * d == (2 * q) * d - d;
    assert (2 * q + 1) * d == (2 * q) * d + d;
  }

  lemma HalfUpUnique(n: nat, d: nat, q: nat)
    requires d > 0 && RoundsTo(n, d, q)
    ensures q == HalfUp(n, d)
  {
    assert (2 * q - 1) * d == (2 * d) * q - d;
    assert (2 * q + 1) * d == (2 * d) * q + d;
    QuotientUnique(2 * n + d, 2 * d, q, 2 * n + d - (2 * d) * q);
  }

  /** Rounding by the remainder: up exactly when it is at least half the divisor. */
  lemma HalfUpByRemainder(n: nat, d: nat, m: nat, r: nat)
    requires d > 0 && n == m * d + r && r < d
    ensures HalfUp(n, d) == if 2 * r >= d then m + 1 else m
  {
    assert (2 * m - 1) * d == 2 * (m * d) - d;
    assert (2 * m + 1) * d == 2 * (m * d) + d;
    assert (2 * (m + 1) + 1) * d == 2 * (m * d) + 3 * d;
    assert (2 * (m + 1) - 1) * d == (2 * m + 1) * d;
    HalfUpUnique(n, d, if 2 * r >= d then m + 1 else m);
  }

  /** The next decimal digit of a proper fraction r / d is five or more exactly
      when the fraction is at least one half. */
  lemma TenthsDigit(r: nat, d: nat)
    requires d > 0 && r < d
    ensures 10 * r / d <= 9
    ensures 10 * r / d > 4 <==> 2 * r >= d
    ensures 10 * r == (10 * r / d) * d + 10 * r % d
  {
    var t := 10 * r / d;
    assert 10 * r == t * d + 10 * r % d;
    assert (t - 9) * d == t * d - 9 * d;
    if t <= 4 {
      assert (4 - t) * d >= 0;
    } else if t <= 9 {
      assert (t - 5) * d >= 0;
    } else {
      AtLeastOne(t - 9, d);
    }
  }
}
