/** The formatter itself: a clipping output buffer, the emission of one field,
    the conversions, and the loop over a format. */
module Formatter {
  import opened Decimal
  import opened FloatText
  import opened FloatConversion
  import opened IntegerConversion
  import opened FormatSpec
  import opened FormatParser

  function Min(a: int, b: int): int { if a < b then a else b }

  /** Characters of an unbounded output that fit a buffer of `count`. */
  function Clip(text: string, count: nat): string
  {
    if count == 0 then "" else text[..Min(|text|, count - 1)]
  }

  /** A full buffer keeps what it has. */
  lemma ClipFull(text: string, s: string, count: nat)
    requires count <= |Clip(text, count)| + 1
    ensures Clip(text + s, count) == Clip(text, count)
  {
  }

  /** Otherwise nothing was lost so far, and what still fits is appended. */
  lemma ClipMore(text: string, s: string, count: nat, length: nat)
    requires |Clip(text, count)| + 1 < count
    requires length == Min(|s|, count - 1 - |Clip(text, count)|)
    ensures Clip(text, count) == text && Clip(text + s, count) == text + s[..length]
  {
  }

  lemma Associate3(t: string, a: string, b: string, c: string)
    ensures ((t + a) + b) + c == t + ((a + b) + c)
  {
  }

  /** The destination: what fits is copied, the rest only counted. */
  class OutBuf {
    const buffer: array<char>
    const end: nat
    var pos: nat
    ghost var text: string          // everything put so far, clipped or not
    ghost const before: string      // the buffer as it was handed over

    ghost predicate Valid()
      reads this, buffer
    {
      && end <= buffer.Length == |before|
      && pos == |Clip(text, end)|
      && buffer[..pos] == Clip(text, end)
      && buffer[pos..] == before[pos..]
    }

    constructor (buffer: array<char>, count: nat)
      requires count <= buffer.Length
      ensures Valid() && this.buffer == buffer && end == count && text == ""
      ensures before == buffer[..]
    {
      this.buffer, end, pos := buffer, count, 0;
      text, before := "", buffer[..];
    }

    /** Appends characters, keeping the last byte of the buffer for the
        terminator. */
    method Put(s: string)
      requires Valid()
      modifies this`pos, this`text, buffer
      ensures Valid() && text == old(text) + s
    {
      var remaining := end - pos - 1;
      if remaining <= 0 {
        ClipFull(text, s, end);
        text := text + s;
        return;
      }
      var length := if |s| > remaining then remaining else |s|;
      ClipMore(text, s, end, length);
      ghost var head := buffer[..pos];
      forall i | 0 <= i < length {
        buffer[pos + i] := s[i];
      }
      assert buffer[..pos + length] == head + s[..length];
      pos := pos + length;
      text := text + s;
    }

    /** Appends n copies of a character, at most sixteen at a time. */
    method Pad(n: int, c: char)
      requires Valid()
      modifies this`pos, this`text, buffer
      ensures Valid() && text == old(text) + Repeat(c, n)
    {
      var left := n;
      ghost var done := 0;
      while left > 16
        invariant Valid() && 0 <= done && n == left + done
        invariant n > 0 ==> left > 0
        invariant n <= 0 ==> done == 0
        invariant text == old(text) + Repeat(c, done)
      {
        Put(Repeat(c, 16));
        RepeatSplit(c, done, 16);
        done, left := done + 16, left - 16;
      }
      if left > 0 {
        Put(Repeat(c, left));
        RepeatSplit(c, done, left);
      }
    }

    /** Pads only when asked to. */
    method PadIf(wanted: bool, n: int, c: char)
      requires Valid()
      modifies this`pos, this`text, buffer
      ensures Valid() && text == old(text) + Repeat(c, if wanted then n else 0)
    {
      if wanted {
        Pad(n, c);
      }
    }

    method PutFront(f: Field)
      requires Valid()
      modifies this`pos, this`text, buffer
      ensures Valid() && text == old(text) + f.Front()
    {
      ghost var t := text;
      PadIf(!f.left && !f.zero, f.Padding(), ' ');
      Put(f.Prefix());
      PadIf(!f.left && f.zero, f.Padding(), '0');
      Associate3(t, Repeat(' ', if f.left || f.zero then 0 else f.Padding()), f.Prefix(),
                 Repeat('0', if f.left || !f.zero then 0 else f.Padding()));
    }

    method PutBack(f: Field)
      requires Valid()
      modifies this`pos, this`text, buffer
      ensures Valid() && text == old(text) + f.Back()
    {
      ghost var t := text;
      Pad(f.PrecisionZeros(), '0');
      Put(f.body);
      Pad(f.extra, '0');
      PadIf(f.left, f.Padding(), ' ');
      ghost var zeros, blanks := Repeat('0', f.extra), Repeat(' ', if f.left then f.Padding() else 0);
      Associate3(t, Repeat('0', f.PrecisionZeros()), f.body, zeros);
      Reassociate(t, Repeat('0', f.PrecisionZeros()) + f.body + zeros, blanks);
    }

    /** Emits one field. */
    method PutField(f: Field)
      requires Valid()
      modifies this`pos, this`text, buffer
      ensures Valid() && text == old(text) + f.Text()
    {
      PutFront(f);
      PutBack(f);
    }
  }

  // ---------------------------------------------------------------- conversions

  /** Runs a float conversion through the conversion buffer. */
  method MakeFloat(s: Spec, conv: char, d: Double) returns (f: Field)
    requires IsFloat(conv)
    ensures f == FloatField(s, conv, d)
  {
    var extra := ExtraZeros(s, conv);
    match d
    case Infinite(neg) =>
      var body := if conv == 'E' || conv == 'G' then "INF" else "inf";
      f := Field(if neg then '-' else s.sign, "", body, 0, extra, s.width, s.left, false);
    case NotANumber =>
      var body := if conv == 'E' || conv == 'G' then "NAN" else "nan";
      f := Field(s.sign, "", body, 0, extra, s.width, s.left, false);
    case Finite(neg, num, den) =>
      var buf := new char[400];
      buf[0] := '\0';
      var cp, t, doSign := Cvt(buf, neg, num, den, FloatPrecision(s.prec), s.alt, conv);
      f := Field(if doSign then '-' else s.sign, "", buf[cp..t], 0, extra, s.width, s.left, s.zero);
  }

  /** Runs an integer conversion through the conversion buffer. */
  method MakeInteger(s: Spec, sign: char, v: Word, base: nat, upper: bool, hex: string) returns (f: Field)
    requires IsBase(base)
    ensures f == IntegerField(s, sign, hex, IntegerBody(v, base, upper, s.prec, s.alt))
  {
    var buf := new char[400];
    var cp := ConvertInteger(buf, v, base, upper, s.prec, s.alt);
    f := IntegerField(s, sign, hex, buf[cp..]);
  }

  /** The signed conversions print the magnitude and keep the sign apart. */
  method MakeSigned(s: Spec, v: int) returns (f: Field)
    requires -0x8000_0000_0000_0000 <= v < 0x8000_0000_0000_0000
    ensures f == SignedField(s, v)
  {
    var sign := s.sign;
    if v < 0 {
      sign := '-';
    }
    f := MakeInteger(s, sign, AbsInt(v), 10, false, "");
  }

  /** One conversion other than `n`. */
  method Convert(s: Spec, conv: char, slot: Slot) returns (f: Field)
    ensures f == FieldOf(s, conv, slot)
  {
    var bits := Bits(ConversionLength(s, conv));
    var u := Unsigned(slot.word, bits);
    match conv
    case 'c' => f := TextField(s, [(slot.word % 256) as char]);
    case 'd' | 'D' | 'i' =>
      SignedMeaning(slot.word, bits);
      f := MakeSigned(s, Signed(slot.word, bits));
    case 'P' =>
      SignedMeaning(slot.word, 32);
      f := MakeSigned(s, Signed(slot.word, 32));
    case 'o' | 'O' => f := MakeInteger(s, '\0', u, 8, false, "");
    case 'u' | 'U' => f := MakeInteger(s, '\0', u, 10, false, "");
    case 'x' => f := MakeInteger(s, '\0', u, 16, false, if s.alt && u != 0 then "0x" else "");
    case 'X' => f := MakeInteger(s, '\0', u, 16, true, if s.alt && u != 0 then "0X" else "");
    case 'p' => f := MakeInteger(s, '\0', slot.word, 16, false, "0x");
    case 's' => f := TextField(s, StringBody(s, slot.str));
    case 'e' | 'E' | 'f' | 'g' | 'G' => f := MakeFloat(s, conv, slot.dbl);
    case _ => f := TextField(s, [conv]).(zero := s.zero);
  }

  // ---------------------------------------------------------------- the format loop

  /** Ordinary characters up to the next `%` or the end. */
  method ReadLiteral(fmt: string, i: nat) returns (j: nat)
    requires CString(fmt) && i < |fmt|
    ensures j == LiteralEnd(fmt, i)
  {
    j := i;
    while fmt[j] != '\0' && fmt[j] != '%'
      invariant i <= j < |fmt| && LiteralEnd(fmt, j) == LiteralEnd(fmt, i)
      decreases |fmt| - j
    {
      j := j + 1;
    }
  }

  /** Text, count and stores agree with the pieces carried out so far. */
  ghost predicate UpTo(done: seq<Piece>, args: seq<Slot>, text: string, ret: nat, stores: seq<Store>)
  {
    var o := Render(done, args);
    text == o.text && ret == |o.text| && stores == o.stores
  }

  lemma UpToSnoc(done: seq<Piece>, p: Piece, args: seq<Slot>, text: string, ret: nat, stores: seq<Store>)
    requires UpTo(done, args, text, ret, stores)
    ensures var o := PieceOutput(p, args, ret);
            UpTo(done + [p], args, text + o.text, ret + |o.text|, stores + o.stores)
  {
    assert (done + [p])[..|done|] == done;
  }

  /** Carries out one conversion specification. */
  method PutConversion(s: Spec, conv: char, args: seq<Slot>, a: nat, out: OutBuf,
                       ret: nat, stores: seq<Store>, ghost done: seq<Piece>)
    returns (ret': nat, stores': seq<Store>)
    requires out.Valid() && UpTo(done, args, out.text, ret, stores)
    modifies out`pos, out`text, out.buffer
    ensures out.Valid() && UpTo(done + [Directive(s, conv, a)], args, out.text, ret', stores')
  {
    ret', stores' := ret, stores;
    UpToSnoc(done, Directive(s, conv, a), args, out.text, ret, stores);
    if conv == 'n' {
      var bits := Bits(s.len);
      stores' := stores + [Store(a, bits, Signed(ret, bits))];
      assert out.text + "" == out.text;
    } else {
      var f := Convert(s, conv, Fetch(args, a));
      var realsz := f.RealSize();
      out.PutField(f);
      f.TextLength();
      ret' := ret + if f.width > realsz then f.width else realsz;
      assert stores + [] == stores;
    }
  }

  /** Copies one run of ordinary characters. */
  method PutLiteral(run: string, args: seq<Slot>, out: OutBuf,
                    ret: nat, stores: seq<Store>, ghost done: seq<Piece>)
    returns (ret': nat)
    requires out.Valid() && UpTo(done, args, out.text, ret, stores)
    modifies out`pos, out`text, out.buffer
    ensures out.Valid() && UpTo(done + [Literal(run)], args, out.text, ret', stores)
  {
    UpToSnoc(done, Literal(run), args, out.text, ret, stores);
    assert stores + [] == stores;
    out.Put(run);
    ret' := ret + |run|;
  }

  lemma NothingYet(args: seq<Slot>)
    ensures UpTo([], args, "", 0, [])
  {
  }

  /** Formats into an output buffer. The result counts every character of the
      unbounded output, whether or not it fitted. */
  method FioFormat(fmt: string, args: seq<Slot>, out: OutBuf) returns (ret: nat, stores: seq<Store>)
    requires CString(fmt) && out.Valid() && out.text == ""
    modifies out`pos, out`text, out.buffer
    ensures out.Valid() && UpTo(Pieces(fmt, 0, args, 0), args, out.text, ret, stores)
  {
    hide Pieces, ScanSpec, Render;
    var i: nat, arg: nat := 0, 0;
    NothingYet(args);
    ret, stores := 0, [];
    ghost var all, done := Pieces(fmt, 0, args, 0), [];
    while true
      invariant i < |fmt| && out.Valid() && UpTo(done, args, out.text, ret, stores)
      invariant all == done + Pieces(fmt, i, args, arg)
      decreases |fmt| - i
    {
      var j := ReadLiteral(fmt, i);
      ret := PutLiteral(fmt[i..j], args, out, ret, stores, done);
      var scan := Unfinished;
      if fmt[j] != '\0' {
        scan := ReadSpec(fmt, j + 1, args, arg);
      }
      NextPieces(fmt, i, args, arg, done, scan);
      done := done + [Literal(fmt[i..j])];
      if scan.Unfinished? {
        return;
      }
      ret, stores := PutConversion(scan.spec, scan.conv, args, scan.arg, out, ret, stores, done);
      done := done + [Directive(scan.spec, scan.conv, scan.arg)];
      i, arg := scan.next, scan.NextArg();
    }
  }

  /** Moving the next literal and the next conversion over to the done pieces. */
  lemma NextPieces(fmt: string, i: nat, args: seq<Slot>, arg: nat, done: seq<Piece>, scan: Scan)
    requires CString(fmt) && i < |fmt|
    requires var j := LiteralEnd(fmt, i);
             scan == if fmt[j] == '\0' then Unfinished else ScanSpec(fmt, j + 1, PLAIN_SPEC, args, arg)
    ensures var done' := done + [Literal(fmt[i..LiteralEnd(fmt, i)])];
            done + Pieces(fmt, i, args, arg)
            == match scan
               case Unfinished => done'
               case Conversion(s, conv, next, a) =>
                 done' + [Directive(s, conv, a)] + Pieces(fmt, next, args, scan.NextArg())
  {
    hide ScanSpec;
    if scan.Conversion? {
      var rest := Pieces(fmt, scan.next, args, scan.NextArg());
      var l, d := [Literal(fmt[i..LiteralEnd(fmt, i)])], [Directive(scan.spec, scan.conv, scan.arg)];
      assert done + (l + (d + rest)) == (done + l) + d + rest;
    }
  }

  /** Formats into the first `count` bytes of a buffer. */
  method Vsnprintf(buffer: array<char>, count: nat, fmt: string, args: seq<Slot>)
    returns (n: nat, stores: seq<Store>)
    requires CString(fmt) && count <= buffer.Length
    modifies buffer
    ensures var whole := Format(fmt, args);
            var kept := Clip(whole.text, count);
            && n == |whole.text| && stores == whole.stores
            && buffer[..] == (if count == 0 then old(buffer[..])
                              else kept + "\0" + old(buffer[..])[|kept| + 1..])
  {
    ghost var before := buffer[..];
    var out := new OutBuf(buffer, count);
    n, stores := FioFormat(fmt, args, out);
    if count != 0 {
      var pos := out.pos;
      buffer[pos] := '\0';
      assert buffer[..] == buffer[..pos] + [buffer[pos]] + buffer[pos + 1..];
      assert buffer[pos + 1..] == before[pos + 1..];
    } else {
      assert buffer[..] == buffer[0..] == before;
    }
  }

  /** Outputs for different buffer sizes are prefixes of each other, as long as the
      buffer and its terminator allow; a buffer receives everything exactly if it is larger than the returned length, or
      there is nothing to receive. */
  lemma ClipPrefix(text: string, c1: nat, c2: nat)
    requires c1 <= c2
    ensures Clip(text, c1) <= Clip(text, c2) <= text
    ensures |Clip(text, c2)| == if c2 == 0 then 0 else if |text| < c2 then |text| else c2 - 1
    ensures Clip(text, c2) == text <==> c2 > |text| || text == ""
  {
    if c1 > 0 {
      assert text[..Min(|text|, c2 - 1)][..Min(|text|, c1 - 1)] == text[..Min(|text|, c1 - 1)];
    }
  }
}
