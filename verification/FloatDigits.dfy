/** The digit-producing loops of the floating-point conversion, each working in
    place on the one conversion buffer. Text grows from index 1: index 0 is the
    slot kept free for a carry out of the first digit. */
module FloatDigits {
  import opened Decimal
  import opened FloatText

  /** The numeral of a non-zero integer part; nothing for zero. */
  function IntegerText(i: nat): string { if i == 0 then "" else Numeral(i) }

  /** Puts the integer digits at the back of the buffer, last digit first. */
  method IntegerToBack(a: array<char>, i: nat) returns (p: int, expcnt: nat)
    requires |IntegerText(i)| < a.Length
    modifies a
    ensures expcnt == |IntegerText(i)| && p == a.Length - 1 - expcnt
    ensures a[p + 1..] == IntegerText(i) && a[0] == old(a[0])
  {
    hide Numeral, DigitChar;
    p, expcnt := a.Length - 1, 0;
    var integer := i;
    ghost var text := IntegerText(i);
    ghost var base := a.Length - |text|;
    while integer != 0
      invariant p == a.Length - 1 - expcnt && expcnt <= |text|
      invariant IntegerText(integer) == text[..|text| - expcnt]
      invariant forall q :: p < q < a.Length ==> a[q] == text[q - base]
      invariant a[0] == old(a[0])
    {
      LastIntegerDigit(integer);
      a[p] := DigitChar(integer % 10);
      assert a[p] == text[p - base];
      integer := integer / 10;
      p, expcnt := p - 1, expcnt + 1;
      assert IntegerText(integer) == text[..|text| - expcnt];
    }
    assert p + 1 == base;
  }

  lemma LastIntegerDigit(i: nat)
    requires i > 0
    ensures var s := IntegerText(i);
            |s| > 0 && s[|s| - 1] == DigitChar(i % 10) && s[..|s| - 1] == IntegerText(i / 10)
  {
  }

  /** Moves at most `limit` digits from the back of the buffer to index t. The
      front never catches up with the digits still to be read. */
  method CopyDigits(a: array<char>, t: nat, p: nat, limit: nat) returns (n: nat)
    requires t <= p < a.Length
    modifies a
    ensures n == if limit < a.Length - 1 - p then limit else a.Length - 1 - p
    ensures a[..t] == old(a[..t])
    ensures a[t..t + n] == old(a[p + 1..])[..n] && a[p + 1 + n..] == old(a[p + 1..])[n..]
  {
    n := 0;
    while n != limit && p + 1 + n < a.Length
      invariant n <= limit && p + 1 + n <= a.Length
      invariant a[..t] == old(a[..t])
      invariant a[t..t + n] == old(a[p + 1..])[..n] && a[p + 1 + n..] == old(a[p + 1..])[n..]
      decreases limit - n
    {
      ghost var moved, rest := a[t..t + n], a[p + 1 + n..];
      a[t + n] := a[p + 1 + n];
      assert a[t..t + n + 1] == moved + [rest[0]];
      assert a[p + 2 + n..] == rest[1..];
      n := n + 1;
    }
  }

  /** Appends n zeros. */
  method PadZeros(a: array<char>, t: nat, n: nat) returns (t': nat)
    requires t + n <= a.Length
    modifies a
    ensures t' == t + n && a[..t] == old(a[..t]) && a[t..t'] == Repeat('0', n)
  {
    t' := t;
    while t' < t + n
      invariant t <= t' <= t + n
      invariant a[..t] == old(a[..t]) && a[t..t'] == Repeat('0', t' - t)
    {
      a[t'] := '0';
      t' := t' + 1;
    }
  }

  /** x * 10^k == m + r / den: m is what has been printed, r / den what is left. */
  ghost predicate Remaining(num: nat, den: nat, k: nat, m: nat, r: nat)
  {
    num * Pow10(k) == m * den + r && r < den
  }

  lemma NothingPrinted(r: nat, den: nat)
    requires r < den
    ensures Remaining(r, den, 0, 0, r)
  {
    assert Pow10(0) == 1;
  }

  /** Taking one more digit off the fraction. */
  lemma NextDigit(num: nat, den: nat, k: nat, m: nat, r: nat)
    requires Remaining(num, den, k, m, r)
    ensures den > 0 && 0 <= 10 * r / den <= 9
    ensures Remaining(num, den, k + 1, 10 * m + 10 * r / den, 10 * r % den)
    ensures r > 0 && 10 * r / den == 0 ==> 10 * r % den == 10 * r
  {
    TenthsDigit(r, den);
    TimesTen(num, Pow10(k));
    var d := 10 * r / den;
    assert (10 * m + d) * den == 10 * (m * den) + d * den by {
      Distribute(10 * m, d, den);
      Associate(10, m, den);
    }
  }

  lemma Distribute(a: nat, b: nat, c: nat)
    ensures (a + b) * c == a * c + b * c
  {
  }

  /** Prints fraction digits until the precision is used up or nothing is left. */
  method FractionDigits(a: array<char>, t: nat, prec: nat, r: nat, den: nat,
                        ghost num: nat, ghost k: nat, ghost m: nat, ghost f: nat, ghost dot: bool)
    returns (t': nat, prec': nat, r': nat, ghost m': nat)
    requires Remaining(num, den, k, m, r)
    requires 1 <= t && t + prec <= a.Length && a[1..t] == FixedText(m, f, dot)
    requires prec > 0 ==> f > 0 || dot
    modifies a
    ensures prec' <= prec && t' == t + (prec - prec') && a[0] == old(a[0])
    ensures a[1..t'] == FixedText(m', f + (prec - prec'), dot)
    ensures Remaining(num, den, k + (prec - prec'), m', r')
    ensures prec' == 0 || r' == 0
  {
    hide FixedText, Remaining, Pow10;
    t', prec', r', m' := t, prec, r, m;
    while prec' != 0 && r' != 0
      invariant prec' <= prec && t' == t + (prec - prec') && a[0] == old(a[0])
      invariant a[1..t'] == FixedText(m', f + (prec - prec'), dot)
      invariant Remaining(num, den, k + (prec - prec'), m', r')
      decreases prec'
    {
      NextDigit(num, den, k + (prec - prec'), m', r');
      var d := 10 * r' / den;
      ghost var before := a[1..t'];
      a[t'] := DigitChar(d);
      assert a[1..t' + 1] == before + [DigitChar(d)];
      AppendDigit(m', f + (prec - prec'), dot, d);
      r', m' := 10 * r' % den, 10 * m' + d;
      t', prec' := t' + 1, prec' - 1;
    }
  }

  /** A significand of f + 1 digits has f + n + 1 of them after n more. */
  lemma DigitsGained(num: nat, den: nat, k: nat, m: nat, r: nat, f: nat, n: nat, m': nat, r': nat)
    requires Remaining(num, den, k, m, r) && Remaining(num, den, k + n, m', r')
    requires Pow10(f) <= m < Pow10(f + 1)
    ensures Pow10(f + n) <= m' < Pow10(f + n + 1)
  {
    var p := Pow10(n);
    MoreDigits(num, den, k, m, r, n, m', r');
    Pow10Add(f, n);
    Pow10Add(f + 1, n);
    ScaledRange(Pow10(f), m, Pow10(f + 1), p);
  }

  lemma ScaledRange(lo: nat, m: nat, hi: nat, p: nat)
    requires lo <= m < hi
    ensures lo * p <= m * p && m * p + p <= hi * p
  {
    MulMonotone(p, lo, m);
    MulMonotone(p, m + 1, hi);
  }

  lemma MoreDigits(num: nat, den: nat, k: nat, m: nat, r: nat, n: nat, m': nat, r': nat)
    requires Remaining(num, den, k, m, r) && Remaining(num, den, k + n, m', r')
    ensures m * Pow10(n) <= m' < m * Pow10(n) + Pow10(n)
  {
    var p := Pow10(n);
    Pow10Add(k, n);
    Associate(num, Pow10(k), p);
    ScaleSum(m, den, r, p);
    QuotientBetween(m * p, r * p, den, r, p, m', r');
  }

  lemma ScaleSum(m: nat, den: nat, r: nat, p: nat)
    ensures (m * den + r) * p == m * p * den + r * p
  {
    Distribute(m * den, r, p);
    assert m * den * p == m * p * den;
  }

  lemma QuotientBetween(lo: nat, rest: nat, den: nat, q: nat, p: nat, m: nat, r: nat)
    requires lo * den + rest == m * den + r && r < den
    requires rest == q * p && q < den && p > 0
    ensures lo <= m < lo + p
  {
    MulMonotone(p, q + 1, den);
    assert (lo - m) * den == lo * den - m * den;
    if m < lo {
      AtLeastOne(lo - m, den);
    }
  }

  lemma AppendDigit(m: nat, f: nat, dot: bool, d: nat)
    requires d < 10 && (f > 0 || dot)
    ensures FixedText(10 * m + d, f + 1, dot) == FixedText(m, f, dot) + [DigitChar(d)]
  {
  }

  /** Finds the first non-zero digit of a proper fraction without printing. The
      remainder grows on every zero, so the search ends. */
  method FirstSignificant(r: nat, den: nat) returns (expcnt: int, d: nat, r': nat)
    requires 0 < r < den
    ensures expcnt == 0 - ShiftToOne(r, den) < 0 && 1 <= d <= 9
    ensures Remaining(r, den, -expcnt, d, r')
  {
    r', expcnt := r, -1;
    NothingPrinted(r, den);
    while true
      invariant 0 < r' < den && expcnt <= -1
      invariant Remaining(r, den, -1 - expcnt, 0, r')
      invariant ShiftToOne(r, den) == -1 - expcnt + ShiftToOne(r', den)
      decreases den - r'
    {
      NextDigit(r, den, -1 - expcnt, 0, r');
      TenthsDigit(r', den);
      d := 10 * r' / den;
      ghost var before := r';
      r' := 10 * r' % den;
      if d != 0 {
        DigitAtLeastOne(before, den, d, r');
        return;
      }
      expcnt := expcnt - 1;
    }
  }

  lemma DigitAtLeastOne(r: nat, den: nat, d: nat, r': nat)
    requires 10 * r == d * den + r' && d >= 1
    ensures 10 * r >= den
  {
    AtLeastOne(d, den);
  }

  /** Prints the digits of a proper fraction up to its first non-zero one. */
  method LeadingFraction(a: array<char>, t: nat, r: nat, den: nat)
    returns (t': nat, r': nat, ghost m': nat)
    requires 0 < r < den && ShiftToOne(r, den) <= 10
    requires 1 <= t && t + 10 <= a.Length && a[1..t] == FixedText(0, 0, true)
    modifies a
    ensures t' == t + ShiftToOne(r, den) && a[0] == old(a[0])
    ensures a[1..t'] == FixedText(m', ShiftToOne(r, den), true)
    ensures Remaining(r, den, ShiftToOne(r, den), m', r') && m' > 0
  {
    hide FixedText, Remaining, Pow10;
    t', r', m' := t, r, 0;
    ghost var k := 0;
    NothingPrinted(r, den);
    while true
      invariant 0 < r' < den && t' == t + k && m' == 0
      invariant ShiftToOne(r, den) == k + ShiftToOne(r', den)
      invariant a[1..t'] == FixedText(0, k, true) && a[0] == old(a[0])
      invariant Remaining(r, den, k, 0, r')
      decreases den - r'
    {
      NextDigit(r, den, k, 0, r');
      TenthsDigit(r', den);
      var d := 10 * r' / den;
      ghost var before, text := r', a[1..t'];
      a[t'] := DigitChar(d);
      assert a[1..t' + 1] == text + [DigitChar(d)];
      AppendDigit(0, k, true, d);
      r' := 10 * r' % den;
      t', k := t' + 1, k + 1;
      if d != 0 {
        DigitAtLeastOne(before, den, d, r');
        m' := d;
        return;
      }
    }
  }

  /** Drops trailing fraction zeros, and the point when nothing follows it. */
  method TrimZeros(a: array<char>, start: nat, t: nat, ghost q: nat, ghost f: nat, ghost dot: bool)
    returns (t': nat)
    requires start < t <= a.Length && a[start..t] == FixedText(q, f, dot)
    requires f > 0 || dot || q % 10 != 0
    ensures start <= t' <= t && a[start..t'] == ShortText(q, f)
  {
    hide Numeral;
    var u := t;
    ghost var m, k, point := q, f, dot;
    while true
      invariant start < u <= t && a[start..u] == FixedText(m, k, point)
      invariant ShortText(q, f) == ShortText(m, k)
      invariant k > 0 || point || m % 10 != 0
      decreases u
    {
      LastCharacter(m, k, point);
      assert a[u - 1] == a[start..u][u - 1 - start];
      u := u - 1;
      if a[u] != '0' {
        break;
      }
      assert a[start..u] == FixedText(m / 10, k - 1, true);
      m, k, point := m / 10, k - 1, true;
    }
    if a[u] == '.' {
      t' := u;
      assert a[start..u] == Numeral(m) == FixedText(m, 0, false);
    } else {
      t' := u + 1;
      assert FixedText(m, k, point) == FixedText(m, k, false);
    }
  }

  /** The last character of fixed-point text, and what is in front of it. */
  lemma LastCharacter(q: nat, f: nat, dot: bool)
    ensures var s := FixedText(q, f, dot);
            var c, front := s[|s| - 1], s[..|s| - 1];
            if f > 0 then c == DigitChar(q % 10) && front == FixedText(q / 10, f - 1, true)
            else if dot then c == '.' && front == Numeral(q)
            else c == DigitChar(q % 10)
  {
    if f == 0 && !dot {
      assert FixedText(q, f, dot) == Numeral(q);
    }
  }
}
