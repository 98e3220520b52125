/** The format language: argument slots, conversion specifications, the field a
    conversion prints, and the unbounded text of a whole format. */
module FormatSpec {
  import opened Decimal
  import opened FloatText
  import opened IntegerConversion

  // ---------------------------------------------------------------- arguments

  /** A double: an exact finite value in range, an infinity, or not a number. */
  datatype RawDouble = Finite(neg: bool, num: nat, den: nat) | Infinite(neg: bool) | NotANumber

  type Double = d: RawDouble | d.Finite? ==> InDoubleRange(d.num, d.den) witness NotANumber

  /** A char pointer: null, or the characters before the terminator. */
  datatype CharPointer = Null | Chars(s: string)

  /** One variadic argument, as each type it may be fetched with. */
  datatype Slot = Slot(word: Word, dbl: Double, str: CharPointer)

  /** Fetching past the last argument has no meaning in C; here it reads zeros. */
  function Fetch(args: seq<Slot>, i: nat): Slot
  {
    if i < |args| then args[i] else Slot(0, NotANumber, Null)
  }

  function FetchInt(args: seq<Slot>, i: nat): int { Signed(Fetch(args, i).word, 32) }

  /** A format string: characters, then the only NUL. */
  ghost predicate CString(s: string)
  {
    && |s| > 0 && s[|s| - 1] == '\0'
    && (forall i :: 0 <= i < |s| - 1 ==> s[i] != '\0')
  }

  // ---------------------------------------------------------------- specifications

  /** A conversion specification; sign is NUL when none was asked for, and prec
      is -1 when none was given. */
  datatype Spec = Spec(alt: bool, left: bool, zero: bool, sign: char, width: nat, prec: int, len: Length)

  const PLAIN_SPEC := Spec(false, false, false, '\0', 0, -1, Length(false, false, false))

  /** What a scan of one specification comes to: the format ended inside it, or
      conversion `conv` with the text going on at `next`. */
  datatype Scan = Unfinished | Conversion(spec: Spec, conv: char, next: nat, arg: nat)
  {
    /** The first argument the rest of the format fetches. */
    function NextArg(): nat
      requires Conversion?
    {
      if TakesArgument(conv) then arg + 1 else arg
    }
  }

  /** The end of a run of digits. */
  function SkipDigits(fmt: string, i: nat): (j: nat)
    requires i <= |fmt|
    ensures i <= j <= |fmt|
    ensures forall k :: i <= k < j ==> IsDigit(fmt[k])
    ensures j < |fmt| ==> !IsDigit(fmt[j])
    decreases |fmt| - i
  {
    if i < |fmt| && IsDigit(fmt[i]) then SkipDigits(fmt, i + 1) else i
  }

  /** One item of a specification: the end of the format, the conversion
      letter, or a flag, width, precision or length that updates the spec. */
  datatype Item = End | Letter | Update(spec: Spec, next: nat, arg: nat)

  function Flag(s: Spec, ch: char): Spec
  {
    match ch
    case ' ' => if s.sign == '\0' then s.(sign := ' ') else s
    case '#' => s.(alt := true)
    case '-' => s.(left := true)
    case '+' => s.(sign := '+')
    case '0' => s.(zero := true)
    case 'h' => s.(len := s.len.(short := true))
    case _ => s
  }

  function Star(s: Spec, w: int): Spec { s.(width := AbsInt(w), left := s.left || w < 0) }

  function ScanItem(fmt: string, i: nat, s: Spec, args: seq<Slot>, arg: nat): (r: Item)
    requires CString(fmt) && i < |fmt|
    ensures r.Update? ==> i < r.next < |fmt|
    ensures r.Letter? ==> i + 1 < |fmt|
  {
    var ch := fmt[i];
    if ch == '\0' then End
    else if ch in " #-+0hL" then Update(Flag(s, ch), i + 1, arg)
    else if ch == '*' then Update(Star(s, FetchInt(args, arg)), i + 1, arg + 1)
    else if ch == '.' then
      if fmt[i + 1] == '*' then
        var n := FetchInt(args, arg);
        Update(s.(prec := if n < 0 then -1 else n), i + 2, arg + 1)
      else
        DigitsEnd(fmt, i + 1);
        var j := SkipDigits(fmt, i + 1);
        Update(s.(prec := Value(fmt[i + 1..j])), j, arg)
    else if IsDigit(ch) then
      DigitsEnd(fmt, i);
      var j := SkipDigits(fmt, i);
      Update(s.(width := Value(fmt[i..j])), j, arg)
    else if ch == 'l' then
      if fmt[i + 1] == 'l' then Update(s.(len := s.len.(longLong := true)), i + 2, arg)
      else Update(s.(len := s.len.(long := true)), i + 1, arg)
    else Letter
  }

  /** Reads the rest of a specification from position i. Flags, width, precision
      and length may come in any order and repeat; the last one counts. */
  function ScanSpec(fmt: string, i: nat, s: Spec, args: seq<Slot>, arg: nat): (r: Scan)
    requires CString(fmt) && i < |fmt|
    ensures r.Conversion? ==> i < r.next < |fmt|
    decreases |fmt| - i
  {
    match ScanItem(fmt, i, s, args, arg)
    case End => Unfinished
    case Letter => Conversion(s, fmt[i], i + 1, arg)
    case Update(s', next, arg') => ScanSpec(fmt, next, s', args, arg')
  }

  /** A run of digits ends before the terminator. */
  lemma DigitsEnd(fmt: string, i: nat)
    requires CString(fmt) && i < |fmt|
    ensures SkipDigits(fmt, i) < |fmt|
  {
    assert !IsDigit(fmt[|fmt| - 1]);
  }

  // ---------------------------------------------------------------- fields

  /** Everything the common tail of a conversion works from. dprec is the
      precision of an integer conversion (-1 when none) and 0 for the others;
      extra is the number of zeros a float precision above 39 leaves over. */
  datatype Field = Field(sign: char, hex: string, body: string, dprec: int, extra: nat,
                         width: nat, left: bool, zero: bool)
  {
    function Prefix(): string { if sign != '\0' then [sign] else hex }

    /** Zeros demanded by an integer precision. */
    function PrecisionZeros(): int { dprec - |body| - extra }

    function RealSize(): nat
    {
      |Prefix()| + (if dprec > |body| + extra then dprec else |body| + extra)
    }

    function Padding(): int { width - RealSize() }

    /** Blanks, prefix, zeros: everything in front of the digits. */
    function Front(): string
    {
      Repeat(' ', if left || zero then 0 else Padding()) + Prefix()
      + Repeat('0', if left || !zero then 0 else Padding())
    }

    /** Precision zeros, body, leftover zeros, and the blanks of a left field. */
    function Back(): string
    {
      Repeat('0', PrecisionZeros()) + body + Repeat('0', extra)
      + Repeat(' ', if left then Padding() else 0)
    }

    /** The width padding goes to exactly one of three places. */
    function Text(): string { Front() + Back() }

    /** A field is exactly as long as the larger of its width and its content. */
    lemma TextLength()
      ensures |Text()| == if width > RealSize() then width else RealSize()
    {
    }
  }

  /** The largest precision the float conversions compute with. */
  const MAXFRACT: nat := 39

  function IntegerField(s: Spec, sign: char, hex: string, body: string): Field
  {
    Field(sign, hex, body, s.prec, 0, s.width, s.left, s.zero && s.prec < 0)
  }

  function SignedField(s: Spec, v: int): Field
  {
    IntegerField(s, if v < 0 then '-' else s.sign, "", IntegerBody(AbsInt(v), 10, false, s.prec, s.alt))
  }

  function UnsignedField(s: Spec, v: nat, base: nat, upper: bool, hex: string): Field
    requires IsBase(base)
  {
    IntegerField(s, '\0', hex, IntegerBody(v, base, upper, s.prec, s.alt))
  }

  function TextField(s: Spec, body: string): Field
  {
    Field('\0', "", body, 0, 0, s.width, s.left, false)
  }

  /** Precision actually used for digits, and the zeros left over. */
  function FloatPrecision(prec: int): nat
  {
    if prec < 0 then 6 else if prec > MAXFRACT then MAXFRACT else prec
  }

  function ExtraZeros(s: Spec, conv: char): nat
  {
    if s.prec > MAXFRACT && ((conv != 'g' && conv != 'G') || s.alt) then s.prec - MAXFRACT else 0
  }

  function FloatField(s: Spec, conv: char, d: Double): Field
  {
    var big := conv == 'E' || conv == 'G';
    var extra := ExtraZeros(s, conv);
    match d
    case Infinite(neg) =>
      Field(if neg then '-' else s.sign, "", if big then "INF" else "inf", 0, extra, s.width, s.left, false)
    case NotANumber =>
      Field(s.sign, "", if big then "NAN" else "nan", 0, extra, s.width, s.left, false)
    case Finite(neg, num, den) =>
      var prec := FloatPrecision(s.prec);
      Field(if CvtSign(neg, num, den, prec, conv) then '-' else s.sign, "",
            CvtText(num, den, prec, s.alt, conv), 0, extra, s.width, s.left, s.zero)
  }

  predicate IsFloat(conv: char) { conv in {'e', 'E', 'f', 'g', 'G'} }

  /** D, O and U are the long forms of d, o and u. */
  function ConversionLength(s: Spec, conv: char): Length
  {
    if conv == 'D' || conv == 'O' || conv == 'U' then s.len.(long := true) else s.len
  }

  /** Bytes of a string that fit the precision. */
  function StringBody(s: Spec, p: CharPointer): string
  {
    var t := if p.Null? then "(null)" else p.s;
    if 0 <= s.prec < |t| then t[..s.prec] else t
  }

  /** The field of every conversion but `n`. Unknown letters print themselves. */
  function FieldOf(s: Spec, conv: char, slot: Slot): Field
  {
    var bits := Bits(ConversionLength(s, conv));
    var u := Unsigned(slot.word, bits);
    if conv == 'c' then TextField(s, [(slot.word % 256) as char])
    else if conv == 'd' || conv == 'D' || conv == 'i' then SignedField(s, Signed(slot.word, bits))
    else if conv == 'P' then SignedField(s, Signed(slot.word, 32))
    else if conv == 'o' || conv == 'O' then UnsignedField(s, u, 8, false, "")
    else if conv == 'u' || conv == 'U' then UnsignedField(s, u, 10, false, "")
    else if conv == 'x' then UnsignedField(s, u, 16, false, if s.alt && u != 0 then "0x" else "")
    else if conv == 'X' then UnsignedField(s, u, 16, true, if s.alt && u != 0 then "0X" else "")
    else if conv == 'p' then UnsignedField(s, slot.word, 16, false, "0x")
    else if conv == 's' then TextField(s, StringBody(s, slot.str))
    else if IsFloat(conv) then FloatField(s, conv, slot.dbl)
    else TextField(s, [conv]).(zero := s.zero)
  }

  predicate TakesArgument(conv: char)
  {
    IsFloat(conv) || conv in {'c', 'd', 'D', 'i', 'n', 'o', 'O', 'P', 'p', 's', 'u', 'U', 'X', 'x'}
  }

  // ---------------------------------------------------------------- whole formats

  /** A format is a sequence of literal runs and conversions; the conversion
      remembers which argument it fetches. */
  datatype Piece = Literal(run: string) | Directive(spec: Spec, conv: char, arg: nat)

  /** The end of a run of ordinary characters. */
  function LiteralEnd(fmt: string, i: nat): (j: nat)
    requires CString(fmt) && i < |fmt|
    ensures i <= j < |fmt| && (fmt[j] == '\0' || fmt[j] == '%')
    ensures forall k :: i <= k < j ==> fmt[k] != '\0' && fmt[k] != '%'
    decreases |fmt| - i
  {
    if fmt[i] == '\0' || fmt[i] == '%' then i else LiteralEnd(fmt, i + 1)
  }

  /** The pieces of a format from position i on. */
  function Pieces(fmt: string, i: nat, args: seq<Slot>, arg: nat): seq<Piece>
    requires CString(fmt) && i < |fmt|
    decreases |fmt| - i
  {
    var j := LiteralEnd(fmt, i);
    var scan := if fmt[j] == '\0' then Unfinished else ScanSpec(fmt, j + 1, PLAIN_SPEC, args, arg);
    [Literal(fmt[i..j])]
    + match scan
      case Unfinished => []
      case Conversion(s, conv, next, a) => [Directive(s, conv, a)] + Pieces(fmt, next, args, scan.NextArg())
  }

  /** A value stored through a `%n` argument. */
  datatype Store = Store(arg: nat, bits: nat, value: int)

  datatype Output = Output(text: string, stores: seq<Store>)

  /** What one piece contributes when `written` characters are already out. */
  function PieceOutput(p: Piece, args: seq<Slot>, written: nat): Output
  {
    match p
    case Literal(run) => Output(run, [])
    case Directive(s, conv, a) =>
      if conv == 'n' then Output("", [Store(a, Bits(s.len), Signed(written, Bits(s.len)))])
      else Output(FieldOf(s, conv, Fetch(args, a)).Text(), [])
  }

  /** The unbounded output of a sequence of pieces. */
  function Render(ps: seq<Piece>, args: seq<Slot>): Output
  {
    if ps == [] then Output("", [])
    else
      var front := Render(ps[..|ps| - 1], args);
      var last := PieceOutput(ps[|ps| - 1], args, |front.text|);
      Output(front.text + last.text, front.stores + last.stores)
  }

  /** The unbounded output of a whole format. */
  function Format(fmt: string, args: seq<Slot>): Output
    requires CString(fmt)
  {
    Render(Pieces(fmt, 0, args, 0), args)
  }
}
