/** Fractions of a second in a time format: %f, %f3, %f6 and %f9 are replaced by
    digits before the rest of the format is used. */
module TimeFraction {
  import opened Decimal

  datatype Fractional = Millisecond | Microsecond | Nanosecond | NanosecondDefault

  /** The C++ program throws std::length_error. */
  datatype Result = Ok(text: string) | LengthError

  /** What C++ division does: it rounds toward zero. */
  function Truncated(a: int, b: nat): int
    requires b > 0
  {
    if a >= 0 then a / b else -((-a) / b)
  }

  // ---------------------------------------------------------------- one fraction

  function Width(f: Fractional): nat
  {
    match f
    case Millisecond => 3
    case Microsecond => 6
    case _ => 9
  }

  function Divisor(f: Fractional): nat
  {
    match f
    case Millisecond => 1000000
    case Microsecond => 1000
    case _ => 1
  }

  /** The nanoseconds beyond the last full second, counted toward zero. */
  function Nanoseconds(ts: int): int { ts - Truncated(ts, 1000000000) * 1000000000 }

  function FractionValue(ts: int, f: Fractional): int { Truncated(Nanoseconds(ts), Divisor(f)) }

  function DecimalOf(n: int): string { if n < 0 then "-" + Numeral(-n) else Numeral(n) }

  /** The fraction, filled up with zeros on the left. The length of the filling is
      computed without a sign, so too long a value makes it huge. */
  function ToString(ts: int, f: Fractional): Result
  {
    var value := DecimalOf(FractionValue(ts, f));
    if |value| > Width(f) then LengthError
    else Ok(Repeat('0', Width(f) - |value|) + value)
  }

  /** Powers of ten that the widths need. */
  lemma FractionRange(ts: int, f: Fractional)
    ensures var v := FractionValue(ts, f); 0 - Pow10(Width(f)) < v < Pow10(Width(f))
    ensures ts >= 0 ==> FractionValue(ts, f) == (ts % 1000000000) / Divisor(f)
  {
    assert Pow10(3) == 1000 && Pow10(6) == 1000000 && Pow10(9) == 1000000000 by { Powers(); }
    hide Pow10;
    var n := Nanoseconds(ts);
    assert -1000000000 < n < 1000000000;
    match f
    case Millisecond =>
    case Microsecond =>
    case _ =>
  }

  lemma Powers()
    ensures Pow10(3) == 1000 && Pow10(6) == 1000000 && Pow10(9) == 1000000000
    ensures Pow10(2) == 100 && Pow10(5) == 100000 && Pow10(8) == 100000000
  {
    assert Pow10(2) == 100;
    assert Pow10(4) == 10000;
    assert Pow10(5) == 100000;
    assert Pow10(7) == 10000000;
    assert Pow10(8) == 100000000;
  }

  /** From the epoch on, the text has the full width and denotes the fraction. */
  lemma FractionText(ts: nat, f: Fractional)
    ensures ToString(ts, f).Ok?
    ensures |ToString(ts, f).text| == Width(f)
    ensures AllDigits(ToString(ts, f).text, 10)
    ensures Value(ToString(ts, f).text, 10) == (ts % 1000000000) / Divisor(f)
  {
    hide Pow10, Value, Numeral;
    FractionRange(ts, f);
    var v: nat := FractionValue(ts, f);
    NumeralLengthBound(v, Width(f));
    NumeralRoundTrip(v, 10, false);
    LeadingZeros(Width(f) - |Numeral(v)|, Numeral(v), 10);
  }

  /** Before the epoch the minus sign takes a place of its own. The conversion throws
      exactly for times before the epoch that are a tenth of a second or more away
      from the next full second, whatever the kind of fraction. */
  predicate TooLong(ts: int) { ts < 0 && (-ts) % 1000000000 >= 100000000 }

  lemma LengthErrorExactly(ts: int, f: Fractional)
    ensures ToString(ts, f).LengthError? <==> TooLong(ts)
  {
    hide Pow10, Numeral;
    FractionRange(ts, f);
    TooLongFraction(ts, f);
    var v := FractionValue(ts, f);
    if v < 0 {
      var m: nat := -v;
      NumeralLength(m);
      if m < Pow10(Width(f) - 1) {
        NumeralLengthBound(m, Width(f) - 1);
      } else if |Numeral(m)| < Width(f) {
        Pow10Monotone(|Numeral(m)|, Width(f) - 1);
      }
    } else {
      NumeralLengthBound(v, Width(f));
    }
  }

  /** The time is too long exactly if the fraction needs all of the width for its
      digits. */
  lemma TooLongFraction(ts: int, f: Fractional)
    ensures TooLong(ts) <==> FractionValue(ts, f) <= 0 - Pow10(Width(f) - 1)
  {
    assert Pow10(2) == 100 && Pow10(5) == 100000 && Pow10(8) == 100000000 by { Powers(); }
    hide Pow10;
  }

  /** A tenth of a second before the epoch is such a time. */
  lemma BeforeEpochThrows(f: Fractional)
    ensures ToString(-100000000, f).LengthError? && ToString(-99999999, f).Ok?
  {
    hide ToString;
    LengthErrorExactly(-100000000, f);
    LengthErrorExactly(-99999999, f);
  }

  // ---------------------------------------------------------------- the format

  predicate IdentifierAt(s: string, i: nat) { i + 1 < |s| && s[i] == '%' && s[i + 1] == 'f' }

  /** The kind of fraction asked for at a position, and the length of the request. */
  function GetFractional(s: string, i: nat): Fractional
  {
    if i + 2 >= |s| then NanosecondDefault
    else match s[i + 2]
      case '3' => Millisecond
      case '6' => Microsecond
      case '9' => Nanosecond
      case _ => NanosecondDefault
  }

  function IdentifierLength(s: string, i: nat): nat
  {
    if GetFractional(s, i).NanosecondDefault? then 2 else 3
  }

  function Prepend(front: string, r: Result): Result
  {
    match r case Ok(t) => Ok(front + t) case LengthError => LengthError
  }

  /** The format read once from left to right. */
  function Expand(ts: int, s: string): Result
    decreases |s|
  {
    if s == "" then Ok("")
    else if IdentifierAt(s, 0) && IdentifierLength(s, 0) <= |s| then
      match ToString(ts, GetFractional(s, 0))
      case Ok(t) => Prepend(t, Expand(ts, s[IdentifierLength(s, 0)..]))
      case LengthError => LengthError
    else Prepend(s[..1], Expand(ts, s[1..]))
  }

  /** The first request at or after a position. */
  method Find(s: string, from: nat) returns (pos: nat, found: bool)
    ensures found ==> from <= pos && IdentifierAt(s, pos)
    ensures forall i | from <= i < (if found then pos else |s|) :: !IdentifierAt(s, i)
  {
    pos := from;
    while pos + 1 < |s|
      invariant from <= pos
      invariant forall i | from <= i < pos :: !IdentifierAt(s, i)
    {
      if s[pos] == '%' && s[pos + 1] == 'f' { return pos, true; }
      pos := pos + 1;
    }
    found := false;
  }

  function Percents(s: string): nat
  {
    if s == "" then 0 else (if s[0] == '%' then 1 else 0) + Percents(s[1..])
  }

  lemma {:induction false} PercentsAppend(a: string, b: string)
    ensures Percents(a + b) == Percents(a) + Percents(b)
  {
    if a == "" { assert a + b == b; }
    else {
      PercentsAppend(a[1..], b);
      assert (a + b)[1..] == a[1..] + b;
    }
  }

  lemma {:induction false} NoPercents(s: string)
    requires '%' !in s
    ensures Percents(s) == 0
  {
    if s != "" { NoPercents(s[1..]); }
  }

  lemma {:induction false} Plain(ts: int, s: string, k: nat)
    requires k <= |s| && forall i | 0 <= i < k :: !IdentifierAt(s, i)
    ensures Expand(ts, s) == Prepend(s[..k], Expand(ts, s[k..]))
    decreases k
  {
    if k > 0 {
      var rest := s[1..];
      forall i | 0 <= i < k - 1 ensures !IdentifierAt(rest, i) {
        assert !IdentifierAt(s, i + 1);
      }
      assert !IdentifierAt(s, 0);
      Plain(ts, rest, k - 1);
      assert rest[k - 1..] == s[k..];
      assert s[..1] + rest[..k - 1] == s[..k];
      PrependTwice(s[..1], rest[..k - 1], Expand(ts, s[k..]));
    } else {
      assert s[..0] == "" && s[0..] == s;
    }
  }

  lemma PrependTwice(a: string, b: string, r: Result)
    ensures Prepend(a, Prepend(b, r)) == Prepend(a + b, r)
  {
    if r.Ok? { assert a + (b + r.text) == (a + b) + r.text; }
  }

  /** No inserted text looks like part of a request. */
  lemma InsertedIsPlain(ts: int, f: Fractional)
    requires ToString(ts, f).Ok?
    ensures '%' !in ToString(ts, f).text && 'f' !in ToString(ts, f).text
    ensures |ToString(ts, f).text| == Width(f)
  {
    hide Numeral, Nanoseconds;
    var v := FractionValue(ts, f);
    NumeralIsDecimalText(if v < 0 then -v else v);
  }

  /** The text with a request replaced by its fraction. */
  function Replaced(s: string, pos: nat, text: string): string
    requires IdentifierAt(s, pos)
  {
    s[..pos] + text + s[pos + IdentifierLength(s, pos)..]
  }

  lemma RequestExpands(ts: int, s: string)
    requires IdentifierAt(s, 0) && ToString(ts, GetFractional(s, 0)).Ok?
    ensures var rest := s[IdentifierLength(s, 0)..];
            && Expand(ts, s) == Prepend(ToString(ts, GetFractional(s, 0)).text, Expand(ts, rest))
            && Percents(rest) < Percents(s)
  {
    var front := s[..IdentifierLength(s, 0)];
    assert s == front + s[|front|..];
    PercentsAppend(front, s[|front|..]);
  }

  /** One replacement keeps the outcome of the single pass over what lies behind the
      place where the search resumes, two characters into the inserted text. */
  lemma ReplacedExpands(ts: int, s: string, pos: nat)
    requires IdentifierAt(s, pos) && ToString(ts, GetFractional(s, pos)).Ok?
    ensures var t := Replaced(s, pos, ToString(ts, GetFractional(s, pos)).text);
            && pos + 2 <= |t|
            && Prepend(s[..pos], Expand(ts, s[pos..])) == Prepend(t[..pos + 2], Expand(ts, t[pos + 2..]))
            && Percents(t[pos + 2..]) < Percents(s[pos..])
  {
    hide ToString, Expand, Percents, Prepend;
    var f, len := GetFractional(s, pos), IdentifierLength(s, pos);
    var text, rest := ToString(ts, f).text, s[pos + len..];
    var t := Replaced(s, pos, text);
    InsertedIsPlain(ts, f);
    var from := s[pos..];
    assert GetFractional(from, 0) == f && from[len..] == rest;
    RequestExpands(ts, from);
    var back := text[2..] + rest;
    assert t[pos + 2..] == back && t[..pos + 2] == s[..pos] + text[..2];
    assert forall i | 0 <= i < |text| - 2 :: back[i] == text[i + 2];
    Plain(ts, back, |text| - 2);
    assert back[..|text| - 2] == text[2..] && back[|text| - 2..] == rest;
    PrependTwice(s[..pos], text, Expand(ts, rest));
    PrependTwice(t[..pos + 2], text[2..], Expand(ts, rest));
    assert s[..pos] + text == t[..pos + 2] + text[2..];
    PercentsAppend(text[2..], rest);
    NoPercents(text[2..]);
    assert from == from[..len] + rest;
  }

  /** Skipping to the next request, or to the end, changes nothing either. */
  lemma Skipped(ts: int, s: string, pos: nat, next: nat)
    requires pos <= next <= |s| && forall i | pos <= i < next :: !IdentifierAt(s, i)
    ensures Prepend(s[..pos], Expand(ts, s[pos..])) == Prepend(s[..next], Expand(ts, s[next..]))
    ensures Percents(s[next..]) <= Percents(s[pos..])
  {
    hide Expand, Percents, Prepend;
    var rest, k := s[pos..], next - pos;
    forall i | 0 <= i < k ensures !IdentifierAt(rest, i) { assert !IdentifierAt(s, pos + i); }
    Plain(ts, rest, k);
    assert rest[k..] == s[next..] && s[..pos] + rest[..k] == s[..next];
    PrependTwice(s[..pos], rest[..k], Expand(ts, s[next..]));
    PercentsAppend(rest[..k], rest[k..]);
    assert rest == rest[..k] + rest[k..];
  }

  /** The find-and-replace loop: although each replacement makes the string longer,
      and the search goes on inside what was inserted, it ends with the result of
      the single pass. */
  method LocaltimeFormattedFractions(ts: int, format: string) returns (r: Result)
    ensures r == Expand(ts, format)
  {
    hide Expand, ToString, Percents;
    var buffer := format;
    var pos: nat, found: bool := Find(buffer, 0);
    Skipped(ts, buffer, 0, if found then pos else |buffer|);
    assert buffer[..0] == "" && buffer[0..] == buffer;
    PrependNothing(Expand(ts, format));
    while found
      invariant found ==> IdentifierAt(buffer, pos)
      invariant var at := if found then pos else |buffer|;
                Expand(ts, format) == Prepend(buffer[..at], Expand(ts, buffer[at..]))
      decreases found, if found then Percents(buffer[pos..]) else 0
    {
      var f := GetFractional(buffer, pos);
      var value := ToString(ts, f);
      if value.LengthError? {
        RequestFails(ts, buffer, pos);
        return LengthError;
      }
      ReplacedExpands(ts, buffer, pos);
      buffer := Replaced(buffer, pos, value.text);
      var from := pos + 2;
      pos, found := Find(buffer, from);
      Skipped(ts, buffer, from, if found then pos else |buffer|);
    }
    NothingLeft(ts);
    assert buffer[|buffer|..] == "" && buffer[..|buffer|] == buffer;
    return Ok(buffer);
  }

  lemma PrependNothing(r: Result)
    ensures Prepend("", r) == r
  {
    if r.Ok? { assert "" + r.text == r.text; }
  }

  lemma NothingLeft(ts: int)
    ensures Expand(ts, "") == Ok("")
    ensures forall s: string :: s + "" == s
  {
  }

  lemma RequestFails(ts: int, s: string, pos: nat)
    requires IdentifierAt(s, pos) && ToString(ts, GetFractional(s, pos)).LengthError?
    ensures Expand(ts, s[pos..]).LengthError?
  {
    assert GetFractional(s[pos..], 0) == GetFractional(s, pos);
  }

  // ---------------------------------------------------------------- the result

  ghost predicate HasIdentifier(s: string) { exists i: nat :: IdentifierAt(s, i) }

  predicate StartsWithF(s: string) { s != "" && s[0] == 'f' }

  /** No request is left in the result, not even one made up of a percent sign of the
      format and what follows it. */
  lemma {:induction false} NoIdentifierLeft(ts: int, s: string)
    requires Expand(ts, s).Ok?
    ensures !HasIdentifier(Expand(ts, s).text)
    ensures StartsWithF(Expand(ts, s).text) ==> StartsWithF(s)
    decreases |s|
  {
    if s == "" {
    } else if IdentifierAt(s, 0) {
      var t := ToString(ts, GetFractional(s, 0)).text;
      var rest := s[IdentifierLength(s, 0)..];
      InsertedIsPlain(ts, GetFractional(s, 0));
      NoIdentifierLeft(ts, rest);
      Joined(t, Expand(ts, rest).text);
      assert |t| > 0 && t[0] in t;
    } else {
      NoIdentifierLeft(ts, s[1..]);
      var text := Expand(ts, s[1..]).text;
      assert Expand(ts, s).text == s[..1] + text;
      assert s[0] == '%' ==> !StartsWithF(s[1..]);
      forall i: nat ensures !IdentifierAt(s[..1] + text, i) {
        if i > 0 { assert !IdentifierAt(text, i - 1); }
      }
    }
  }

  lemma Joined(t: string, rest: string)
    requires '%' !in t && !HasIdentifier(rest)
    ensures !HasIdentifier(t + rest)
  {
    forall i: nat ensures !IdentifierAt(t + rest, i) {
      if i >= |t| { assert !IdentifierAt(rest, i - |t|); }
    }
  }

  /** Formatting throws exactly if the time is too long and the format asks for a
      fraction at all. */
  lemma {:induction false} ExpandThrowsExactly(ts: int, s: string)
    ensures Expand(ts, s).LengthError? <==> TooLong(ts) && HasIdentifier(s)
    decreases |s|
  {
    hide ToString, TooLong;
    if s == "" {
    } else if IdentifierAt(s, 0) {
      LengthErrorExactly(ts, GetFractional(s, 0));
      ExpandThrowsExactly(ts, s[IdentifierLength(s, 0)..]);
    } else {
      ExpandThrowsExactly(ts, s[1..]);
      IdentifierLater(s);
    }
  }

  lemma IdentifierLater(s: string)
    requires s != "" && !IdentifierAt(s, 0)
    ensures HasIdentifier(s) <==> HasIdentifier(s[1..])
  {
    if i: nat :| IdentifierAt(s, i) {
      assert IdentifierAt(s[1..], i - 1);
    }
    if i: nat :| IdentifierAt(s[1..], i) {
      assert IdentifierAt(s, i + 1);
    }
  }

  /** From the epoch on, formatting always succeeds. */
  lemma ExpandSucceeds(ts: nat, s: string)
    ensures Expand(ts, s).Ok?
  {
    ExpandThrowsExactly(ts, s);
  }

  /** A format that is refused just before the epoch. */
  lemma FormatThrows()
    ensures Expand(-100000000, "%f3").LengthError?
  {
    ExpandThrowsExactly(-100000000, "%f3");
    assert IdentifierAt("%f3", 0);
  }

  // ---------------------------------------------------------------- requests in their place

  /** Text that neither holds a request nor starts one. */
  ghost predicate NoRequest(a: string)
  {
    !HasIdentifier(a) && (a != "" ==> a[|a| - 1] != '%')
  }

  /** The digits from the epoch on: as many as asked for, with the value in that unit. */
  ghost predicate FractionDigits(t: string, digits: nat, ts: nat, unit: nat)
    requires unit > 0
  {
    |t| == digits && AllDigits(t, 10) && Value(t, 10) == (ts % 1000000000) / unit
  }

  lemma RequestBehind(ts: int, a: string, s: string)
    requires NoRequest(a)
    ensures Expand(ts, a + s) == Prepend(a, Expand(ts, s))
  {
    var whole := a + s;
    forall i | 0 <= i < |a| ensures !IdentifierAt(whole, i) {
      assert !IdentifierAt(a, i);
      assert whole[i] == a[i];
    }
    Plain(ts, whole, |a|);
    assert whole[..|a|] == a && whole[|a|..] == s;
  }

  /** Text without a request prints itself. */
  lemma OrdinaryFormat(ts: int, a: string)
    requires !HasIdentifier(a)
    ensures Expand(ts, a) == Ok(a)
  {
    Plain(ts, a, |a|);
    assert a[..|a|] == a && a[|a|..] == "";
    assert Expand(ts, "") == Ok("") && a + "" == a;
  }

  /** `%f3` stands for three digits, the milliseconds; `%f6` for six, the
      microseconds; `%f9` for nine, the nanoseconds. What is around them goes on. */
  lemma DigitRequest(ts: nat, a: string, digit: char, b: string) returns (t: string)
    requires NoRequest(a) && (digit == '3' || digit == '6' || digit == '9')
    ensures Expand(ts, b).Ok?
    ensures Expand(ts, a + ("%f" + [digit] + b)) == Ok(a + (t + Expand(ts, b).text))
    ensures digit == '3' ==> FractionDigits(t, 3, ts, 1000000)
    ensures digit == '6' ==> FractionDigits(t, 6, ts, 1000)
    ensures digit == '9' ==> FractionDigits(t, 9, ts, 1)
  {
    hide Value, Percents;
    var s := "%f" + [digit] + b;
    assert s[0] == '%' && s[1] == 'f' && s[2] == digit && s[3..] == b;
    ExpandSucceeds(ts, b);
    RequestBehind(ts, a, s);
    FractionText(ts, GetFractional(s, 0));
    RequestExpands(ts, s);
    t := ToString(ts, GetFractional(s, 0)).text;
  }

  /** A bare `%f` stands for nine. */
  lemma BareRequest(ts: nat, a: string, b: string) returns (t: string)
    requires NoRequest(a) && (b == "" || b[0] !in "369")
    ensures Expand(ts, b).Ok?
    ensures Expand(ts, a + ("%f" + b)) == Ok(a + (t + Expand(ts, b).text))
    ensures FractionDigits(t, 9, ts, 1)
  {
    hide Value, Percents;
    var s := "%f" + b;
    assert s[0] == '%' && s[1] == 'f' && s[2..] == b;
    assert b != "" ==> s[2] == b[0];
    ExpandSucceeds(ts, b);
    RequestBehind(ts, a, s);
    FractionText(ts, GetFractional(s, 0));
    RequestExpands(ts, s);
    t := ToString(ts, GetFractional(s, 0)).text;
  }
}
