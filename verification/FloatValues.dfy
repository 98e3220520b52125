/** Decimal values with a scale, and what rounding to some place gives: which value a
    conversion is asked for, and when rounding to fewer places gives the same. */
module FloatValues {
  import opened Decimal
  import opened FloatText
  import opened FormatSpec
  import opened FormatTheorems

  // ---------------------------------------------------------------- values

  /** digits * 10^scale. */
  datatype Scaled = Scaled(digits: nat, scale: int)

  /** The same number, compared without fractions. */
  predicate SameValue(a: Scaled, b: Scaled)
  {
    if a.scale >= b.scale then a.digits * Pow10(a.scale - b.scale) == b.digits
    else a.digits == b.digits * Pow10(b.scale - a.scale)
  }

  lemma Cancel(a: nat, b: nat, p: nat)
    requires p > 0
    ensures a * p == b * p <==> a == b
  {
    if a < b { AtLeastOne(b - a, p); } else if b < a { AtLeastOne(a - b, p); }
    assert (b - a) * p == b * p - a * p;
  }

  /** Two values compared at any common scale. */
  lemma SameAt(a: Scaled, b: Scaled, t: int)
    requires a.scale + t >= 0 && b.scale + t >= 0
    ensures SameValue(a, b) <==> a.digits * Pow10(a.scale + t) == b.digits * Pow10(b.scale + t)
  {
    hide Pow10;
    if a.scale >= b.scale {
      var p, q := Pow10(a.scale - b.scale), Pow10(b.scale + t);
      Pow10Add(a.scale - b.scale, b.scale + t);
      Associate(a.digits, p, q);
      Cancel(a.digits * p, b.digits, q);
    } else {
      var p, q := Pow10(b.scale - a.scale), Pow10(a.scale + t);
      Pow10Add(b.scale - a.scale, a.scale + t);
      Associate(b.digits, p, q);
      Cancel(b.digits * p, a.digits, q);
    }
  }

  function CommonScale(a: Scaled, b: Scaled, c: Scaled): (t: int)
    ensures a.scale + t >= 0 && b.scale + t >= 0 && c.scale + t >= 0
  {
    Magnitude(a.scale) + Magnitude(b.scale) + Magnitude(c.scale)
  }

  lemma SameSymmetric(a: Scaled, b: Scaled)
    ensures SameValue(a, b) <==> SameValue(b, a)
  {
    var t := CommonScale(a, b, b);
    SameAt(a, b, t);
    SameAt(b, a, t);
  }

  lemma SameAs(a: Scaled, b: Scaled, c: Scaled)
    requires SameValue(a, b)
    ensures SameValue(a, c) <==> SameValue(b, c)
    ensures a.digits == 0 <==> b.digits == 0
  {
    hide SameValue, Pow10;
    var t := CommonScale(a, b, c);
    SameAt(a, b, t);
    SameAt(a, c, t);
    SameAt(b, c, t);
    Cancel(a.digits, 0, Pow10(a.scale + t));
    Cancel(b.digits, 0, Pow10(b.scale + t));
  }

  /** One number at two scales. */
  lemma SameScaled(q: nat, k: nat, scale: int)
    ensures SameValue(Scaled(q * Pow10(k), scale - k), Scaled(q, scale))
    ensures SameValue(Scaled(q, scale), Scaled(q * Pow10(k), scale - k))
  {
    assert Pow10(0) == 1;
  }

  /** Two exponents on the same digits. */
  lemma SameExponent(q: nat, a: int, b: int)
    ensures SameValue(Scaled(q, a), Scaled(q, b)) <==> q == 0 || a == b
  {
    hide Pow10;
    if a > b { TenfoldOrZero(q, a - b); }
    else if a < b { TenfoldOrZero(q, b - a); }
    else { Pow10Zero(); }
  }

  lemma Pow10Zero()
    ensures Pow10(0) == 1
  {
  }

  /** The number of digits of the integer part, one less; for values of one or more
      digits, wherever their point is. */
  ghost predicate HasPlace(v: Scaled, place: int)
  {
    exists p: nat :: Pow10(p) <= v.digits < Pow10(p + 1) && place == v.scale + p
  }

  /** Equal values have their first digit in the same place. */
  lemma SamePlace(a: Scaled, b: Scaled, x: int, y: int)
    requires SameValue(a, b) && HasPlace(a, x) && HasPlace(b, y)
    ensures x == y
  {
    hide SameValue, Pow10;
    var t := CommonScale(a, b, b);
    SameAt(a, b, t);
    var n := a.digits * Pow10(a.scale + t);
    InDecade(a, x, t);
    InDecade(b, y, t);
    if x < y { Pow10Monotone(x + t + 1, y + t); }
    if y < x { Pow10Monotone(y + t + 1, x + t); }
  }

  lemma InDecade(v: Scaled, x: int, t: int)
    requires HasPlace(v, x) && v.scale + t >= 0
    ensures x + t >= 0 && Pow10(x + t) <= v.digits * Pow10(v.scale + t) < Pow10(x + t + 1)
  {
    hide Pow10;
    var p: nat :| Pow10(p) <= v.digits < Pow10(p + 1) && x == v.scale + p;
    var s := Pow10(v.scale + t);
    Pow10Add(p, v.scale + t);
    Pow10Add(p + 1, v.scale + t);
    MulMonotone(s, Pow10(p), v.digits);
    MulMonotone(s, v.digits + 1, Pow10(p + 1));
  }

  // ---------------------------------------------------------------- rounding to a place

  /** x rounded half up to so many places behind the point; before it, if negative. */
  function RoundedAt(num: nat, den: nat, places: int): Scaled
    requires den > 0
  {
    Scaled(RoundScaled(num, den, places), 0 - places)
  }

  /** The place that a conversion rounds to: so many fraction digits, or so many
      significant digits. */
  function Places(num: nat, den: nat, prec: nat, conv: char): int
    requires den > 0
  {
    if conv == 'f' || num == 0 then prec
    else if conv == 'e' || conv == 'E' then prec - Exponent(num, den)
    else (if prec == 0 then 1 else prec) - 1 - Exponent(num, den)
  }

  /** The same as digits and exponent, in the style of the conversion. */
  function RoundedValue(num: nat, den: nat, prec: nat, conv: char): Scaled
    requires den > 0
  {
    if conv == 'f' then Scaled(RoundScaled(num, den, prec), 0 - prec)
    else if conv == 'e' || conv == 'E' then
      var t := ToScientific(num, den, prec);
      Scaled(t.m, t.e - prec)
    else
      var precision := if prec == 0 then 1 else prec;
      if UsesExponent(num, den, precision) then
        var t := ToScientific(num, den, precision - 1);
        Scaled(t.m, t.e - (precision - 1))
      else
        var f := GeneralFraction(num, den, precision);
        Scaled(RoundScaled(num, den, f), 0 - f)
  }

  /** Significand and exponent are x rounded to the place of the last digit. */
  lemma ScientificAt(num: nat, den: nat, prec: nat)
    requires num > 0 && den > 0
    ensures var t := ToScientific(num, den, prec);
            && SameValue(Scaled(t.m, t.e - prec), RoundedAt(num, den, prec - Exponent(num, den)))
            && HasPlace(Scaled(t.m, t.e - prec), t.e)
  {
    hide Pow10, Exponent, SameValue, RoundScaled;
    var x, t := Exponent(num, den), ToScientific(num, den, prec);
    var r := RoundScaled(num, den, prec - x);
    ScientificMeaning(num, den, prec);
    if r == Pow10(prec + 1) {
      TenMore(prec);
      Pow10One();
      SameScaled(t.m, 1, t.e - prec);
      assert t.m * Pow10(1) == r && t.e - prec - 1 == 0 - (prec - x);
    } else {
      SameExponent(t.m, t.e - prec, x - prec);
    }
  }

  lemma Pow10One()
    ensures Pow10(1) == 10
  {
    assert Pow10(0) == 1;
  }

  /** Whatever the style, the value is x rounded to the place asked for. */
  lemma RoundedValueAt(num: nat, den: nat, prec: nat, conv: char)
    requires den > 0
    ensures SameValue(RoundedValue(num, den, prec, conv), RoundedAt(num, den, Places(num, den, prec, conv)))
  {
    hide Pow10, Exponent, SameValue, RoundScaled, UsesExponent, ToScientific;
    if num == 0 {
      ZeroValue(den, prec, conv);
      SameExponent(0, RoundedValue(0, den, prec, conv).scale, 0 - Places(0, den, prec, conv));
    } else if conv == 'f' {
      SameExponent(RoundScaled(num, den, prec), 0 - prec, 0 - prec);
    } else if conv == 'e' || conv == 'E' {
      ScientificAt(num, den, prec);
    } else {
      var precision := if prec == 0 then 1 else prec;
      ScientificAt(num, den, precision - 1);
      var f := precision - 1 - Exponent(num, den);
      SameExponent(RoundScaled(num, den, f), 0 - f, 0 - f);
    }
  }

  lemma ZeroValue(den: nat, prec: nat, conv: char)
    requires den > 0
    ensures RoundedValue(0, den, prec, conv).digits == 0
    ensures RoundedAt(0, den, Places(0, den, prec, conv)).digits == 0
  {
    RoundedZero(den, prec);
    RoundedZero(den, if prec == 0 then 1 else prec);
  }

  lemma RoundedZero(den: nat, f: nat)
    requires den > 0
    ensures RoundScaled(0, den, f) == 0
  {
    HalfUpByRemainder(0 * Pow10(f), den, 0, 0);
  }

  // ---------------------------------------------------------------- fewer places

  /** Rounding to fewer places and then adding zeros is rounding to more places
      exactly if that ends in zeros. */
  lemma RoundedTwice(num: nat, den: nat, places: nat, k: nat)
    requires den > 0
    ensures RoundScaled(num, den, places + k) == RoundScaled(num, den, places) * Pow10(k)
            <==> RoundScaled(num, den, places + k) % Pow10(k) == 0
  {
    hide Pow10, RoundsTo;
    var q, r, p := RoundScaled(num, den, places), RoundScaled(num, den, places + k), Pow10(k);
    RoundScaledMeaning(num, den, places + k);
    if r == q * p {
      Division(r, p);
      QuotientUnique(r, p, q, 0);
    }
    if r % p == 0 {
      Division(r, p);
      var m := r / p;
      Pow10Add(places, k);
      Associate(num, Pow10(places), p);
      assert p * m == m * p;
      FewerPlaces(num * Pow10(places), den, m, p);
      HalfUpUnique(num * Pow10(places), den, m);
    }
  }

  lemma FewerPlaces(n: nat, den: nat, m: nat, p: nat)
    requires den > 0 && p > 0 && RoundsTo(n * p, den, m * p)
    ensures RoundsTo(n, den, m)
  {
    var low, high := (2 * m - 1) * den - 2 * n, 2 * n - (2 * m + 1) * den;
    assert (2 * (m * p) - 1) * den == 2 * (m * p * den) - den;
    assert (2 * (m * p) + 1) * den == 2 * (m * p * den) + den;
    assert low * p == 2 * (m * p * den) - den * p - 2 * (n * p);
    assert high * p == 2 * (n * p) - 2 * (m * p * den) - den * p;
    AtLeastOne(p, den);
    assert p * den == den * p;
    assert high < 0 || high * p >= 0;
    if low > 0 { AtLeastOne(low, p); }
  }

  lemma HalfUpScaled(n: nat, d: nat, c: nat)
    requires d > 0 && c > 0
    ensures d * c > 0 && HalfUp(n * c, d * c) == HalfUp(n, d)
  {
    hide HalfUp, RoundsTo;
    AtLeastOne(d, c);
    var q := HalfUp(n, d);
    HalfUpMeaning(n, d);
    RoundsScaled(n, d, c, q);
    HalfUpUnique(n * c, d * c, q);
  }

  lemma RoundsScaled(n: nat, d: nat, c: nat, q: nat)
    requires d > 0 && c > 0 && RoundsTo(n, d, q)
    ensures RoundsTo(n * c, d * c, q)
  {
    Scale(2 * q - 1, d, c);
    Scale(2 * q + 1, d, c);
    Scale(2, n, c);
    AtMostTimes((2 * q - 1) * d, 2 * n, c);
    AtMostTimes(2 * n + 1, (2 * q + 1) * d, c);
    assert (2 * n + 1) * c == 2 * n * c + c;
  }

  lemma Scale(a: int, b: nat, c: nat)
    ensures a * (b * c) == a * b * c
  {
  }

  lemma AtMostTimes(a: int, b: int, c: nat)
    requires a <= b
    ensures a * c <= b * c
  {
    assert (b - a) * c >= 0;
    assert (b - a) * c == b * c - a * c;
  }

  /** Places before the point are places of a smaller number. */
  lemma ScaledDown(num: nat, den: nat, t: nat, k: nat)
    requires den > 0
    ensures den * Pow10(t) > 0 && RoundScaled(num, den * Pow10(t), k) == RoundScaled(num, den, k - t)
  {
    hide Pow10, HalfUp;
    ScaledPositive(den, t);
    if k >= t {
      Pow10Add(k - t, t);
      Associate(num, Pow10(k - t), Pow10(t));
      HalfUpScaled(num * Pow10(k - t), den, Pow10(t));
    } else {
      Pow10Add(t - k, k);
      Associate(den, Pow10(t - k), Pow10(k));
      ScaledPositive(den, t - k);
      HalfUpScaled(num, den * Pow10(t - k), Pow10(k));
    }
  }

  /** Over all places: x rounded to fewer places is x rounded to more exactly if the
      digits between are all zeros. */
  lemma FewerPlacesSame(num: nat, den: nat, places: int, k: nat)
    requires den > 0
    ensures SameValue(RoundedAt(num, den, places), RoundedAt(num, den, places + k))
            <==> RoundScaled(num, den, places + k) % Pow10(k) == 0
  {
    hide RoundScaled, Pow10;
    if places >= 0 {
      RoundedTwice(num, den, places, k);
    } else {
      ScaledDown(num, den, 0 - places, 0);
      ScaledDown(num, den, 0 - places, k);
      RoundedTwice(num, den * Pow10(0 - places), 0, k);
    }
    assert k == 0 ==> Pow10(k) == 1 by { Pow10Zero(); }
  }
}
