/** Rounding of decimal text in place, and the exponent text. */
module Rounding {
  import opened Decimal
  import opened FloatText

  /** What a carry running through a character leaves behind. */
  function Carried(c: char): char { if c == '.' then '.' else '0' }

  /** From position k on, text consists of nines and points. */
  ghost predicate NinesFrom(text: string, k: int)
  {
    forall i :: 0 <= i < |text| && k <= i ==> text[i] == '9' || text[i] == '.'
  }

  /** The carry stops at the last digit that is not a nine. */
  lemma {:induction false} CarryStops(text: string, k: nat)
    requires k < |text| && '0' <= text[k] < '9' && NinesFrom(text, k + 1)
    ensures var inc := IncText(text);
            && |inc| == |text| && inc[k] == text[k] + 1 as char
            && (forall i :: 0 <= i < k ==> inc[i] == text[i])
            && (forall i :: k < i < |text| ==> inc[i] == Carried(text[i]))
  {
    var front, c := text[..|text| - 1], text[|text| - 1];
    if k < |front| {
      CarryStops(front, k);
    }
  }

  /** Text of nines only overflows into a new leading one. */
  lemma {:induction false} CarryOut(text: string)
    requires NinesFrom(text, 0)
    ensures var inc := IncText(text);
            && |inc| == |text| + 1 && inc[0] == '1'
            && (forall j :: 1 <= j <= |text| ==> inc[j] == Carried(text[j - 1]))
  {
    if text != "" {
      CarryOut(text[..|text| - 1]);
    }
  }

  /** Runs the carry right to left from `last`; stop is the digit it was
      absorbed by, or start - 1 when it ran out of the first digit. */
  method CarryLeft(a: array<char>, start: nat, last: nat) returns (stop: int)
    requires 1 <= start <= last < a.Length
    requires DecimalText(a[start..last + 1])
    modifies a
    ensures start - 1 <= stop <= last
    ensures stop >= start ==> '0' <= old(a[stop]) < '9' && a[stop] == old(a[stop]) + 1 as char
    ensures forall i :: stop < i <= last ==> old(a[i]) == '9' || old(a[i]) == '.'
    ensures forall i :: stop < i <= last ==> a[i] == Carried(old(a[i]))
    ensures forall i :: 0 <= i < a.Length && (i < stop || i < start || last < i) ==> a[i] == old(a[i])
  {
    ghost var text := a[start..last + 1];
    stop := last;
    while true
      invariant start <= stop <= last
      invariant forall i :: 0 <= i < a.Length && (i <= stop || last < i) ==> a[i] == old(a[i])
      invariant forall i :: stop < i <= last ==> old(a[i]) == '9' || old(a[i]) == '.'
      invariant forall i :: stop < i <= last ==> a[i] == Carried(old(a[i]))
      decreases stop
    {
      assert a[stop] == text[stop - start];
      if a[stop] == '.' {
        assert a[stop - 1] == text[stop - start - 1];
        stop := stop - 1;
      }
      a[stop] := a[stop] + 1 as char;
      if a[stop] <= '9' {
        return;
      }
      a[stop] := '0';
      if stop == start {
        stop := stop - 1;
        return;
      }
      stop := stop - 1;
    }
  }

  /** Adds one unit in the last place of a[start..last]. A carry out of the
      first digit either restarts the significand at 1 and bumps the exponent,
      or takes the slot in front. */
  method Increment(a: array<char>, start: nat, last: nat, hasExp: bool, exp: int)
    returns (start': nat, exp': int)
    requires 1 <= start <= last < a.Length
    requires DecimalText(a[start..last + 1])
    modifies a
    ensures forall i :: 0 <= i < a.Length && (i < start - 1 || last < i) ==> a[i] == old(a[i])
    ensures start' == start ==> a[start - 1] == old(a[start - 1])
    ensures var inc := IncText(old(a[start..last + 1]));
            if |inc| == last + 1 - start then
              start' == start && exp' == exp && a[start..last + 1] == inc
            else if hasExp then
              start' == start && exp' == exp + 1 && |inc| >= 2
              && a[start..last + 1] == "1" + inc[2..]
            else
              start' == start - 1 && exp' == exp && a[start'..last + 1] == inc
  {
    hide IncText, DecimalText;
    ghost var text := a[start..last + 1];
    start', exp' := start, exp;
    var stop := CarryLeft(a, start, last);
    ghost var n, inc := |text|, IncText(text);
    if stop >= start {
      CarryStops(text, stop - start);
      ghost var out := a[start..last + 1];
      assert forall i :: 0 <= i < n ==> out[i] == inc[i];
    } else {
      CarryOut(text);
      if hasExp {
        a[start] := '1';
        exp' := exp' + 1;
        ghost var out, want := a[start..last + 1], "1" + inc[2..];
        assert forall j :: 1 <= j < n ==> want[j] == inc[j + 1] == Carried(text[j]) == out[j];
      } else {
        start' := start' - 1;
        a[start'] := '1';
        ghost var out := a[start'..last + 1];
        assert forall j :: 1 <= j <= n ==> out[j] == a[start' + j] == inc[j];
      }
    }
  }

  ghost predicate AllZero(text: string)
  {
    forall i :: 0 <= i < |text| ==> text[i] == '0' || text[i] == '.'
  }

  lemma {:induction false} NumeralNotZero(q: nat)
    ensures AllZero(Numeral(q)) <==> q == 0
  {
    if q >= 10 {
      NumeralNotZero(q / 10);
      assert Numeral(q)[..|Numeral(q)| - 1] == Numeral(q / 10);
      assert forall i :: 0 <= i < |Numeral(q / 10)| ==> Numeral(q)[i] == Numeral(q / 10)[i];
    } else {
      assert Numeral(q)[0] == DigitChar(q);
    }
  }

  /** Fixed-point text shows only zeros exactly when its number is zero. */
  lemma {:induction false} FixedTextZeroIff(q: nat, f: nat, dot: bool)
    ensures AllZero(FixedText(q, f, dot)) <==> q == 0
  {
    var s := FixedText(q, f, dot);
    if f == 0 {
      NumeralNotZero(q);
      assert forall i :: 0 <= i < |Numeral(q)| ==> s[i] == Numeral(q)[i];
    } else {
      FixedTextZeroIff(q / 10, f - 1, true);
      var front := FixedText(q / 10, f - 1, true);
      assert forall i :: 0 <= i < |front| ==> s[i] == front[i];
      assert s[|front|] == DigitChar(q % 10);
    }
  }

  /** Looks for a digit other than zero, right to left. */
  method AnyNonZero(a: array<char>, start: nat, last: nat) returns (found: bool)
    requires start <= last < a.Length
    requires DecimalText(a[start..last + 1])
    ensures found == !AllZero(a[start..last + 1])
  {
    ghost var text := a[start..last + 1];
    var end := last;
    while true
      invariant start <= end <= last
      invariant forall i :: end - start < i < |text| ==> text[i] == '0' || text[i] == '.'
      decreases end
    {
      assert a[end] == text[end - start];
      if a[end] == '.' {
        assert a[end - 1] == text[end - start - 1];
        end := end - 1;
      }
      if a[end] != '0' {
        return true;
      }
      if end == start {
        return false;
      }
      end := end - 1;
    }
  }

  /** Rounds a[start..last] by the first digit that was not printed: the next
      digit of the proper fraction r / den or, when nothing is left of it, the
      digit `ch`. A negative number that rounds to zero loses its sign. */
  method RoundCvt(a: array<char>, r: nat, den: nat, hasExp: bool, exp: int,
                  start: nat, last: nat, ch: char, doSign: bool)
    returns (start': nat, exp': int, doSign': bool)
    requires 1 <= start <= last < a.Length && r < den
    requires r == 0 ==> IsDigit(ch)
    requires DecimalText(a[start..last + 1])
    modifies a
    ensures var text := old(a[start..last + 1]);
            if (if r > 0 then 2 * r >= den else ch >= '5') then
              var inc := IncText(text);
              doSign' == doSign
              && (if |inc| == |text| then
                    start' == start && exp' == exp && a[start..last + 1] == inc
                  else if hasExp then
                    start' == start && exp' == exp + 1 && |inc| >= 2
                    && a[start..last + 1] == "1" + inc[2..]
                  else
                    start' == start - 1 && exp' == exp && a[start'..last + 1] == inc)
            else
              a[..] == old(a[..]) && start' == start && exp' == exp
              && doSign' == (doSign && !AllZero(text))
    ensures forall i :: 0 <= i < a.Length && (i < start - 1 || last < i) ==> a[i] == old(a[i])
    ensures start' == start ==> a[start - 1] == old(a[start - 1])
  {
    TenthsDigit(r, den);
    var tmp := if r > 0 then 10 * r / den else ch as int - '0' as int;
    start', exp', doSign' := start, exp, doSign;
    if tmp > 4 {
      start', exp' := Increment(a, start, last, hasExp, exp);
    } else if doSign {
      doSign' := AnyNonZero(a, start, last);
    }
  }

  /** Writes the exponent part at a[p..]. The scratch buffer holds four digits. */
  method ExponentCvt(a: array<char>, p: nat, exp: int, letter: char) returns (p': nat)
    requires Magnitude(exp) < 10000
    requires p + 6 <= a.Length
    modifies a
    ensures p <= p' <= p + 6 && a[p..p'] == ExponentText(exp, letter)
    ensures a[..p] == old(a[..p])
  {
    var e := Magnitude(exp);
    var sign := if exp < 0 then '-' else '+';
    if e > 9 {
      var expbuf, t := ScratchDigits(e);
      a[p], a[p + 1] := letter, sign;
      p' := CopyOut(expbuf, t, a, p + 2);
      assert a[p..p'] == a[..p + 2][p..] + Numeral(e);
    } else {
      a[p], a[p + 1], a[p + 2], a[p + 3] := letter, sign, '0', DigitChar(e);
      p' := p + 4;
      assert a[p..p'] == [letter, sign] + "0" + Numeral(e);
    }
  }

  /** The digits of the exponent, produced last first. */
  method ScratchDigits(n: nat) returns (expbuf: array<char>, t: nat)
    requires 9 < n < 10000
    ensures fresh(expbuf) && expbuf.Length == 4 && t <= 4
    ensures expbuf[t..] == Numeral(n)
  {
    expbuf := new char[4];
    var e := n;
    t := 4;
    assert Pow10(4) == 10000;
    NumeralLengthBound(n, 4);
    while e > 9
      invariant 0 <= t <= 4 && |Numeral(e)| <= t
      invariant Numeral(n) == Numeral(e) + expbuf[t..]
    {
      ghost var rest := expbuf[t..];
      var c := DigitChar(e % 10);
      t := t - 1;
      expbuf[t] := c;
      assert expbuf[t..] == [c] + rest;
      Reassociate(Numeral(e / 10), [c], rest);
      e := e / 10;
    }
    t := t - 1;
    expbuf[t] := DigitChar(e);
  }

  /** Copies the rest of one buffer into another. */
  method CopyOut(src: array<char>, t: nat, a: array<char>, p: nat) returns (p': nat)
    requires src != a && t <= src.Length && p + (src.Length - t) <= a.Length
    modifies a
    ensures p' == p + (src.Length - t) && a[p..p'] == src[t..]
    ensures a[..p] == old(a[..p])
  {
    p' := p;
    for i := t to src.Length
      invariant p' == p + (i - t)
      invariant a[p..p'] == src[t..i]
      invariant a[..p] == old(a[..p])
    {
      a[p'] := src[i];
      p' := p' + 1;
    }
  }
}
