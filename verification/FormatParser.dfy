/** The scanner of one conversion specification, and what it accepts. */
module FormatParser {
  import opened Decimal
  import opened IntegerConversion
  import opened FormatSpec

  /** Reads a run of digits; stops at the first other character. */
  method ReadNumber(fmt: string, i: nat) returns (n: nat, j: nat)
    requires CString(fmt) && i < |fmt|
    ensures j == SkipDigits(fmt, i) && n == Value(fmt[i..j])
  {
    n, j := 0, i;
    DigitsEnd(fmt, i);
    while IsDigit(fmt[j])
      invariant i <= j < |fmt| && SkipDigits(fmt, j) == SkipDigits(fmt, i)
      invariant n == Value(fmt[i..j])
      decreases |fmt| - j
    {
      assert fmt[i..j + 1][..j - i] == fmt[i..j];
      n := 10 * n + (fmt[j] as int - '0' as int);
      j := j + 1;
    }
  }

  /** Reads one item whose first character `ch` has just been taken. */
  method ReadItem(fmt: string, fp: nat, ch: char, s: Spec, args: seq<Slot>, arg: nat) returns (r: Item)
    requires CString(fmt) && 0 < fp <= |fmt| && ch == fmt[fp - 1]
    ensures r == ScanItem(fmt, fp - 1, s, args, arg)
  {
    var n, j;
    if ch == '\0' {
      return End;
    } else if ch in " #-+0hL" {
      return Update(Flag(s, ch), fp, arg);
    } else if ch == '*' {
      return Update(Star(s, FetchInt(args, arg)), fp, arg + 1);
    } else if ch == '.' {
      if fmt[fp] == '*' {
        n := FetchInt(args, arg);
        return Update(s.(prec := if n < 0 then -1 else n), fp + 1, arg + 1);
      }
      DigitsEnd(fmt, fp);
      n, j := ReadNumber(fmt, fp);
      return Update(s.(prec := n), j, arg);
    } else if IsDigit(ch) {
      DigitsEnd(fmt, fp - 1);
      n, j := ReadNumber(fmt, fp - 1);
      return Update(s.(width := n), j, arg);
    } else if ch == 'l' {
      if fmt[fp] == 'l' {
        return Update(s.(len := s.len.(longLong := true)), fp + 1, arg);
      }
      return Update(s.(len := s.len.(long := true)), fp, arg);
    }
    return Letter;
  }

  /** Scans the specification after a `%`. Every pass over the loop consumes a
      character, and meeting the terminator ends the scan. */
  method ReadSpec(fmt: string, i: nat, args: seq<Slot>, arg: nat) returns (r: Scan)
    requires CString(fmt) && i < |fmt|
    ensures r == ScanSpec(fmt, i, PLAIN_SPEC, args, arg)
  {
    var s, a, fp := PLAIN_SPEC, arg, i;
    while true
      invariant i <= fp < |fmt|
      invariant ScanSpec(fmt, i, PLAIN_SPEC, args, arg) == ScanSpec(fmt, fp, s, args, a)
      decreases |fmt| - fp
    {
      var ch := fmt[fp];
      var item := ReadItem(fmt, fp + 1, ch, s, args, a);
      match item
      case End => return Unfinished;
      case Letter => return Conversion(s, ch, fp + 1, a);
      case Update(s', next, a') => s, fp, a := s', next, a';
    }
  }
}
