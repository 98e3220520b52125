/** Every conversion specification, written in the documented order, is scanned
    back as exactly that specification, wherever it stands in a format. */
module SpecRoundTrip {
  import opened Decimal
  import opened IntegerConversion
  import opened FormatSpec

  // ---------------------------------------------------------------- writing a specification

  function FlagText(s: Spec): string
  {
    (if s.left then "-" else "")
    + (if s.sign == '\0' then "" else [s.sign])
    + (if s.alt then "#" else "")
    + (if s.zero then "0" else "")
  }

  function WidthText(s: Spec): string { if s.width == 0 then "" else Numeral(s.width) }

  function PrecisionText(s: Spec): string { if s.prec < 0 then "" else "." + Numeral(s.prec) }

  function LengthText(len: Length): string
  {
    if len.longLong then "ll" else if len.long then "l" else if len.short then "h" else ""
  }

  /** Flags, width, precision, length: the order the C standard prescribes. */
  function SpecText(s: Spec): string
  {
    FlagText(s) + WidthText(s) + PrecisionText(s) + LengthText(s.len)
  }

  /** Specifications that can be written: one sign flag, one length modifier. */
  ghost predicate Writable(s: Spec)
  {
    && (s.sign == '\0' || s.sign == '+' || s.sign == ' ') && s.prec >= -1
    && (s.len.longLong ==> !s.len.long && !s.len.short) && (s.len.long ==> !s.len.short)
  }

  /** Letters that end a specification. */
  predicate IsLetter(ch: char)
  {
    ch != '\0' && ch !in " #-+0hL*.l" && !IsDigit(ch)
  }

  /** Scanning from i with s is scanning from j with t. */
  ghost predicate SameScan(fmt: string, i: nat, s: Spec, j: nat, t: Spec, args: seq<Slot>, arg: nat)
    requires CString(fmt)
  {
    i < |fmt| && j < |fmt| && ScanSpec(fmt, i, s, args, arg) == ScanSpec(fmt, j, t, args, arg)
  }

  // ---------------------------------------------------------------- one item at a time

  /** An optional one-character flag. */
  lemma ScanFlag(fmt: string, i: nat, on: bool, ch: char, s: Spec, args: seq<Slot>, arg: nat)
    requires CString(fmt) && i < |fmt| - 1 && ch in " #-+0hL"
    requires on ==> fmt[i] == ch
    ensures SameScan(fmt, i, s, if on then i + 1 else i, if on then Flag(s, ch) else s, args, arg)
  {
    hide SkipDigits, Flag, Value;
    if on {
      assert ScanItem(fmt, i, s, args, arg) == Update(Flag(s, ch), i + 1, arg);
    }
  }

  lemma {:induction false} SkipNumeral(fmt: string, i: nat, digits: string)
    requires i + |digits| < |fmt| && fmt[i..i + |digits|] == digits
    requires forall k :: 0 <= k < |digits| ==> IsDigit(digits[k])
    requires !IsDigit(fmt[i + |digits|])
    ensures SkipDigits(fmt, i) == i + |digits|
    decreases |digits|
  {
    if digits != "" {
      assert fmt[i] == digits[0];
      assert fmt[i + 1..i + |digits|] == digits[1..];
      SkipNumeral(fmt, i + 1, digits[1..]);
    }
  }

  lemma NumeralAt(fmt: string, i: nat, n: nat)
    requires i + |Numeral(n)| < |fmt| && fmt[i..i + |Numeral(n)|] == Numeral(n)
    requires !IsDigit(fmt[i + |Numeral(n)|])
    ensures SkipDigits(fmt, i) == i + |Numeral(n)| && Value(fmt[i..SkipDigits(fmt, i)]) == n
    ensures IsDigit(fmt[i]) && (n > 0 ==> fmt[i] != '0')
  {
    NumeralRoundTrip(n, 10, false);
    NumeralIsDecimalText(n);
    SkipNumeral(fmt, i, Numeral(n));
    assert fmt[i] == Numeral(n)[0];
  }

  /** The width. */
  lemma ScanWidth(fmt: string, i: nat, n: nat, s: Spec, args: seq<Slot>, arg: nat)
    requires CString(fmt) && n > 0
    requires i + |Numeral(n)| < |fmt| && fmt[i..i + |Numeral(n)|] == Numeral(n)
    requires !IsDigit(fmt[i + |Numeral(n)|])
    ensures SameScan(fmt, i, s, i + |Numeral(n)|, s.(width := n), args, arg)
  {
    hide SkipDigits, Flag, Value, Numeral;
    NumeralAt(fmt, i, n);
    assert ScanItem(fmt, i, s, args, arg) == Update(s.(width := n), i + |Numeral(n)|, arg);
  }

  /** The precision. */
  lemma ScanPrecision(fmt: string, i: nat, n: nat, s: Spec, args: seq<Slot>, arg: nat)
    requires CString(fmt) && i + 1 + |Numeral(n)| < |fmt|
    requires fmt[i] == '.' && fmt[i + 1..i + 1 + |Numeral(n)|] == Numeral(n)
    requires !IsDigit(fmt[i + 1 + |Numeral(n)|])
    ensures SameScan(fmt, i, s, i + 1 + |Numeral(n)|, s.(prec := n), args, arg)
  {
    hide SkipDigits, Flag, Value, Numeral;
    NumeralAt(fmt, i + 1, n);
    assert ScanItem(fmt, i, s, args, arg) == Update(s.(prec := n), i + 1 + |Numeral(n)|, arg);
  }

  /** The length modifier. */
  lemma ScanLength(fmt: string, i: nat, len: Length, s: Spec, args: seq<Slot>, arg: nat)
    requires CString(fmt) && i + |LengthText(len)| < |fmt| && s.len == Length(false, false, false)
    requires fmt[i..i + |LengthText(len)|] == LengthText(len) && IsLetter(fmt[i + |LengthText(len)|])
    requires Writable(s.(len := len))
    ensures SameScan(fmt, i, s, i + |LengthText(len)|, s.(len := len), args, arg)
  {
    hide SkipDigits, Value;
    var n := |LengthText(len)|;
    if len.longLong {
      assert fmt[i] == fmt[i..i + n][0] && fmt[i + 1] == fmt[i..i + n][1];
      assert ScanItem(fmt, i, s, args, arg) == Update(s.(len := len), i + 2, arg);
    } else if len.long {
      assert fmt[i] == fmt[i..i + n][0];
      assert ScanItem(fmt, i, s, args, arg) == Update(s.(len := len), i + 1, arg);
    } else if len.short {
      assert fmt[i] == fmt[i..i + n][0];
      ScanFlag(fmt, i, true, 'h', s, args, arg);
    }
  }

  // ---------------------------------------------------------------- the whole specification

  /** text stands at position i, with something behind it. */
  ghost predicate At(fmt: string, i: nat, text: string)
  {
    i + |text| < |fmt| && fmt[i..i + |text|] == text
  }

  /** Text found at a position splits there. */
  lemma SplitAt(fmt: string, i: nat, a: string, b: string)
    requires At(fmt, i, a + b)
    ensures At(fmt, i, a) && At(fmt, i + |a|, b)
  {
    assert fmt[i..i + |a + b|][..|a|] == a && fmt[i..i + |a + b|][|a|..] == b;
  }

  lemma SplitFour(fmt: string, i: nat, a: string, b: string, c: string, d: string)
    requires At(fmt, i, a + b + c + d)
    ensures At(fmt, i, a) && At(fmt, i + |a|, b) && At(fmt, i + |a| + |b|, c)
    ensures At(fmt, i + |a| + |b| + |c|, d)
  {
    hide At;
    SplitAt(fmt, i, a + b + c, d);
    SplitAt(fmt, i, a + b, c);
    SplitAt(fmt, i, a, b);
  }

  lemma FirstAt(fmt: string, i: nat, text: string)
    requires At(fmt, i, text) && text != ""
    ensures fmt[i] == text[0] && At(fmt, i + 1, text[1..])
  {
    assert fmt[i] == fmt[i..i + |text|][0];
    assert fmt[i + 1..i + |text|] == fmt[i..i + |text|][1..];
  }

  lemma SameTransitive(fmt: string, i: nat, s: Spec, j: nat, t: Spec, k: nat, u: Spec,
                       args: seq<Slot>, arg: nat)
    requires CString(fmt) && SameScan(fmt, i, s, j, t, args, arg) && SameScan(fmt, j, t, k, u, args, arg)
    ensures SameScan(fmt, i, s, k, u, args, arg)
  {
  }

  /** An optional flag, as text. */
  lemma ScanFlagText(fmt: string, i: nat, on: bool, ch: char, s: Spec, args: seq<Slot>, arg: nat)
    requires CString(fmt) && ch in " #-+0hL" && i < |fmt| - 1
    requires At(fmt, i, if on then [ch] else "")
    ensures SameScan(fmt, i, s, i + if on then 1 else 0, if on then Flag(s, ch) else s, args, arg)
  {
    hide SameScan;
    if on {
      FirstAt(fmt, i, [ch]);
    }
    ScanFlag(fmt, i, on, ch, s, args, arg);
  }

  /** The four flags. */
  lemma ScanFlags(fmt: string, i: nat, s: Spec, args: seq<Slot>, arg: nat)
    requires CString(fmt) && Writable(s) && i + |FlagText(s)| < |fmt| - 1
    requires At(fmt, i, FlagText(s))
    ensures SameScan(fmt, i, PLAIN_SPEC, i + |FlagText(s)|,
                     PLAIN_SPEC.(left := s.left, sign := s.sign, alt := s.alt, zero := s.zero), args, arg)
  {
    hide SameScan, At, ScanSpec;
    var signed := s.sign != '\0';
    var t1, t2 := if s.left then "-" else "", if signed then [s.sign] else "";
    var t3, t4 := if s.alt then "#" else "", if s.zero then "0" else "";
    SplitFour(fmt, i, t1, t2, t3, t4);
    var i1 := i + |t1|;
    var i2 := i1 + |t2|;
    var i3 := i2 + |t3|;
    var s1 := PLAIN_SPEC.(left := s.left);
    var s2 := s1.(sign := s.sign);
    var s3 := s2.(alt := s.alt);
    var s4 := s3.(zero := s.zero);
    ScanFlagText(fmt, i, s.left, '-', PLAIN_SPEC, args, arg);
    ScanFlagText(fmt, i1, signed, if s.sign == '+' then '+' else ' ', s1, args, arg);
    ScanFlagText(fmt, i2, s.alt, '#', s2, args, arg);
    ScanFlagText(fmt, i3, s.zero, '0', s3, args, arg);
    SameTransitive(fmt, i, PLAIN_SPEC, i1, s1, i2, s2, args, arg);
    SameTransitive(fmt, i, PLAIN_SPEC, i2, s2, i3, s3, args, arg);
    SameTransitive(fmt, i, PLAIN_SPEC, i3, s3, i3 + |t4|, s4, args, arg);
  }

  lemma ScanWidthText(fmt: string, i: nat, s: Spec, t: Spec, args: seq<Slot>, arg: nat)
    requires CString(fmt) && At(fmt, i, WidthText(s)) && t.width == 0
    requires !IsDigit(fmt[i + |WidthText(s)|])
    ensures SameScan(fmt, i, t, i + |WidthText(s)|, t.(width := s.width), args, arg)
  {
    hide ScanSpec, Numeral;
    if s.width > 0 {
      ScanWidth(fmt, i, s.width, t, args, arg);
    }
  }

  lemma ScanPrecisionText(fmt: string, i: nat, s: Spec, t: Spec, args: seq<Slot>, arg: nat)
    requires CString(fmt) && At(fmt, i, PrecisionText(s)) && t.prec == -1 && s.prec >= -1
    requires !IsDigit(fmt[i + |PrecisionText(s)|])
    ensures SameScan(fmt, i, t, i + |PrecisionText(s)|, t.(prec := s.prec), args, arg)
  {
    hide ScanSpec, Numeral;
    if s.prec >= 0 {
      FirstAt(fmt, i, PrecisionText(s));
      assert PrecisionText(s)[1..] == Numeral(s.prec);
      ScanPrecision(fmt, i, s.prec, t, args, arg);
    }
  }

  lemma ScanLetter(fmt: string, i: nat, s: Spec, args: seq<Slot>, arg: nat)
    requires CString(fmt) && i < |fmt| && IsLetter(fmt[i])
    ensures ScanSpec(fmt, i, s, args, arg) == Conversion(s, fmt[i], i + 1, arg)
  {
    assert ScanItem(fmt, i, s, args, arg) == Letter;
  }

  /** No part that follows the width starts with a digit. */
  lemma NoDigitFollows(fmt: string, i: nat, s: Spec)
    requires At(fmt, i, PrecisionText(s)) && At(fmt, i + |PrecisionText(s)|, LengthText(s.len))
    requires IsLetter(fmt[i + |PrecisionText(s)| + |LengthText(s.len)|])
    ensures !IsDigit(fmt[i]) && !IsDigit(fmt[i + |PrecisionText(s)|])
  {
    hide Numeral;
    var j := i + |PrecisionText(s)|;
    if LengthText(s.len) != "" {
      FirstAt(fmt, j, LengthText(s.len));
    }
    if s.prec >= 0 {
      FirstAt(fmt, i, PrecisionText(s));
    }
  }

  /** A written specification scans back as itself, whatever stands around it. */
  lemma SpecReadsBack(fmt: string, i: nat, s: Spec, conv: char, args: seq<Slot>, arg: nat)
    requires CString(fmt) && Writable(s) && IsLetter(conv)
    requires i + |SpecText(s)| < |fmt| - 1 && fmt[i..i + |SpecText(s)|] == SpecText(s)
    requires fmt[i + |SpecText(s)|] == conv
    ensures ScanSpec(fmt, i, PLAIN_SPEC, args, arg) == Conversion(s, conv, i + |SpecText(s)| + 1, arg)
  {
    hide ScanSpec, FlagText, WidthText, PrecisionText, LengthText;
    var flags, width, prec, len := FlagText(s), WidthText(s), PrecisionText(s), LengthText(s.len);
    SplitFour(fmt, i, flags, width, prec, len);
    var i1 := i + |flags|;
    var i2 := i1 + |width|;
    var i3 := i2 + |prec|;
    NoDigitFollows(fmt, i2, s);
    ScanFlags(fmt, i, s, args, arg);
    var s1 := PLAIN_SPEC.(left := s.left, sign := s.sign, alt := s.alt, zero := s.zero);
    var s2 := s1.(width := s.width);
    var s3 := s2.(prec := s.prec);
    ScanWidthText(fmt, i1, s, s1, args, arg);
    ScanPrecisionText(fmt, i2, s, s2, args, arg);
    ScanLength(fmt, i3, s.len, s3, args, arg);
    assert s3.(len := s.len) == s;
    ScanLetter(fmt, i3 + |len|, s, args, arg);
  }
}
