/** From the text of a format to the text of its output: ordinary characters print
    themselves, each conversion prints its field in its place, and the rest of the
    format goes on with the arguments that are left. */
module FormatText {
  import opened Decimal
  import opened IntegerConversion
  import opened FormatSpec
  import opened SpecRoundTrip
  import opened WholeFormat

  /** The arguments from one on. */
  function Rest(args: seq<Slot>, n: nat): seq<Slot> { if n <= |args| then args[n..] else [] }

  lemma FetchRest(args: seq<Slot>, n: nat, i: nat)
    ensures Fetch(args, n + i) == Fetch(Rest(args, n), i)
  {
  }

  // ---------------------------------------------------------------- a format behind another

  function Later(p: Piece, n: nat): Piece { if p.Directive? then p.(arg := p.arg + n) else p }

  function AllLater(ps: seq<Piece>, n: nat): seq<Piece>
  {
    if ps == [] then [] else [Later(ps[0], n)] + AllLater(ps[1..], n)
  }

  function LaterItem(r: Item, k: nat, n: nat): Item
  {
    if r.Update? then r.(next := r.next + k, arg := r.arg + n) else r
  }

  function LaterScan(r: Scan, k: nat, n: nat): Scan
  {
    if r.Conversion? then r.(next := r.next + k, arg := r.arg + n) else r
  }

  lemma Behind(front: string, fmt: string)
    requires CString(fmt) && '\0' !in front
    ensures CString(front + fmt)
  {
    var s := front + fmt;
    assert s[|s| - 1] == fmt[|fmt| - 1];
    forall i | 0 <= i < |s| - 1 ensures s[i] != '\0' {
      if i < |front| { assert s[i] in front; } else { assert s[i] == fmt[i - |front|]; }
    }
  }

  lemma {:induction false} DigitsBehind(front: string, fmt: string, i: nat)
    requires i <= |fmt|
    ensures SkipDigits(front + fmt, |front| + i) == |front| + SkipDigits(fmt, i)
    decreases |fmt| - i
  {
    if i < |fmt| && IsDigit(fmt[i]) { DigitsBehind(front, fmt, i + 1); }
  }

  lemma SliceBehind(front: string, fmt: string, i: nat, j: nat)
    requires i <= j <= |fmt|
    ensures (front + fmt)[|front| + i..|front| + j] == fmt[i..j]
  {
  }

  lemma PrecisionBehind(front: string, fmt: string, i: nat, s: Spec, args: seq<Slot>, n: nat, arg: nat)
    requires CString(fmt) && CString(front + fmt) && i < |fmt| && fmt[i] == '.'
    ensures ScanItem(front + fmt, |front| + i, s, args, n + arg)
         == LaterItem(ScanItem(fmt, i, s, Rest(args, n), arg), |front|, n)
  {
    hide SkipDigits, Value, Flag, Star, Signed, CString;
    FetchRest(args, n, arg);
    assert |fmt| > i + 1 by { NotLast(fmt, i); }
    assert (front + fmt)[|front| + i + 1] == fmt[i + 1];
    DigitsEnd(fmt, i + 1);
    DigitsBehind(front, fmt, i + 1);
    SliceBehind(front, fmt, i + 1, SkipDigits(fmt, i + 1));
  }

  lemma NotLast(fmt: string, i: nat)
    requires CString(fmt) && i < |fmt| && fmt[i] != '\0'
    ensures i + 1 < |fmt|
  {
  }

  lemma NumberBehind(front: string, fmt: string, i: nat, s: Spec, args: seq<Slot>, n: nat, arg: nat)
    requires CString(fmt) && CString(front + fmt) && i < |fmt| && IsDigit(fmt[i])
    ensures ScanItem(front + fmt, |front| + i, s, args, n + arg)
         == LaterItem(ScanItem(fmt, i, s, Rest(args, n), arg), |front|, n)
  {
    hide SkipDigits, Value, Flag, Star, Signed, CString;
    assert (front + fmt)[|front| + i] == fmt[i];
    DigitsEnd(fmt, i);
    DigitsBehind(front, fmt, i);
    SliceBehind(front, fmt, i, SkipDigits(fmt, i));
  }

  lemma ItemBehind(front: string, fmt: string, i: nat, s: Spec, args: seq<Slot>, n: nat, arg: nat)
    requires CString(fmt) && '\0' !in front && i < |fmt|
    ensures CString(front + fmt)
    ensures ScanItem(front + fmt, |front| + i, s, args, n + arg)
         == LaterItem(ScanItem(fmt, i, s, Rest(args, n), arg), |front|, n)
  {
    hide SkipDigits, Value, Flag, Star, Signed, CString;
    Behind(front, fmt);
    if fmt[i] == '.' {
      PrecisionBehind(front, fmt, i, s, args, n, arg);
    } else if IsDigit(fmt[i]) {
      NumberBehind(front, fmt, i, s, args, n, arg);
    } else {
      FetchRest(args, n, arg);
      assert (front + fmt)[|front| + i] == fmt[i];
      if fmt[i] == 'l' {
        NotLast(fmt, i);
        assert (front + fmt)[|front| + i + 1] == fmt[i + 1];
      }
    }
  }

  lemma {:induction false} ScanBehind(front: string, fmt: string, i: nat, s: Spec, args: seq<Slot>, n: nat, arg: nat)
    requires CString(fmt) && '\0' !in front && i < |fmt|
    ensures CString(front + fmt)
    ensures ScanSpec(front + fmt, |front| + i, s, args, n + arg)
         == LaterScan(ScanSpec(fmt, i, s, Rest(args, n), arg), |front|, n)
    decreases |fmt| - i
  {
    hide ScanItem;
    ItemBehind(front, fmt, i, s, args, n, arg);
    var item := ScanItem(fmt, i, s, Rest(args, n), arg);
    assert (front + fmt)[|front| + i] == fmt[i];
    if item.Update? { ScanBehind(front, fmt, item.next, item.spec, args, n, item.arg); }
  }

  lemma {:induction false} LiteralBehind(front: string, fmt: string, i: nat)
    requires CString(fmt) && '\0' !in front && i < |fmt|
    ensures CString(front + fmt)
    ensures LiteralEnd(front + fmt, |front| + i) == |front| + LiteralEnd(fmt, i)
    decreases |fmt| - i
  {
    Behind(front, fmt);
    assert (front + fmt)[|front| + i] == fmt[i];
    if fmt[i] != '\0' && fmt[i] != '%' { LiteralBehind(front, fmt, i + 1); }
  }

  /** The pieces of a format behind another are its own, with later arguments. */
  lemma {:induction false} PiecesBehind(front: string, fmt: string, i: nat, args: seq<Slot>, n: nat, arg: nat)
    requires CString(fmt) && '\0' !in front && i < |fmt|
    ensures CString(front + fmt)
    ensures Pieces(front + fmt, |front| + i, args, n + arg)
         == AllLater(Pieces(fmt, i, Rest(args, n), arg), n)
    decreases |fmt| - i
  {
    hide ScanSpec, LiteralEnd, AllLater;
    LiteralBehind(front, fmt, i);
    var j, whole, rest := LiteralEnd(fmt, i), front + fmt, Rest(args, n);
    SliceBehind(front, fmt, i, j);
    assert whole[|front| + j] == fmt[j];
    var scan := if fmt[j] == '\0' then Unfinished else ScanSpec(fmt, j + 1, PLAIN_SPEC, rest, arg);
    if fmt[j] != '\0' { ScanBehind(front, fmt, j + 1, PLAIN_SPEC, args, n, arg); }
    var run := Literal(fmt[i..j]);
    if scan.Conversion? {
      PiecesBehind(front, fmt, scan.next, args, n, scan.NextArg());
      var d, more := Directive(scan.spec, scan.conv, scan.arg), Pieces(fmt, scan.next, rest, scan.NextArg());
      assert Pieces(fmt, i, rest, arg) == [run] + ([d] + more);
      LaterTwo(run, d, more, n);
      assert Pieces(whole, |front| + i, args, n + arg)
          == [Later(run, n)] + ([Later(d, n)] + AllLater(more, n));
    } else {
      assert Pieces(fmt, i, rest, arg) == [run];
      LaterOne(run, n);
    }
  }

  lemma LaterOne(a: Piece, n: nat)
    ensures AllLater([a], n) == [Later(a, n)]
  {
    assert [a][1..] == [];
  }

  lemma LaterTwo(a: Piece, b: Piece, more: seq<Piece>, n: nat)
    ensures AllLater([a] + ([b] + more), n) == [Later(a, n)] + ([Later(b, n)] + AllLater(more, n))
  {
    assert ([a] + ([b] + more))[1..] == [b] + more && ([b] + more)[1..] == more;
  }

  // ---------------------------------------------------------------- text

  /** The text of one piece; it does not depend on what is out already. */
  function PieceText(p: Piece, args: seq<Slot>): string { PieceOutput(p, args, 0).text }

  lemma {:induction false} RenderFront(p: Piece, ps: seq<Piece>, args: seq<Slot>)
    ensures Render([p] + ps, args).text == PieceText(p, args) + Render(ps, args).text
  {
    hide FieldOf, Field.Text;
    var all, n := [p] + ps, |ps|;
    if ps == [] {
      assert all == [p] && [p][..0] == [];
    } else {
      assert all[..n] == [p] + ps[..n - 1] && all[n] == ps[n - 1];
      RenderFront(p, ps[..n - 1], args);
    }
  }

  lemma {:induction false} RenderLater(ps: seq<Piece>, args: seq<Slot>, n: nat)
    ensures Render(AllLater(ps, n), args).text == Render(ps, Rest(args, n)).text
  {
    hide FieldOf, Field.Text;
    if ps != [] {
      RenderLater(ps[1..], args, n);
      RenderFront(Later(ps[0], n), AllLater(ps[1..], n), args);
      RenderFront(ps[0], ps[1..], Rest(args, n));
      assert ps == [ps[0]] + ps[1..];
      if ps[0].Directive? { FetchRest(args, n, ps[0].arg); }
    }
  }

  // ---------------------------------------------------------------- ordinary characters

  lemma {:induction false} LiteralRun(a: string, fmt: string, i: nat)
    requires CString(a + fmt) && i <= |a| && fmt != "" && (fmt[0] == '%' || fmt[0] == '\0')
    requires '%' !in a && '\0' !in a
    ensures LiteralEnd(a + fmt, i) == |a|
    decreases |a| - i
  {
    if i < |a| {
      assert (a + fmt)[i] in a;
      LiteralRun(a, fmt, i + 1);
    }
  }

  /** A format without conversions prints itself. */
  lemma OrdinaryText(a: string, args: seq<Slot>)
    requires '%' !in a && '\0' !in a
    ensures CString(a + "\0") && Format(a + "\0", args) == Output(a, [])
  {
    Behind(a, "\0");
    LiteralRun(a, "\0", 0);
    var fmt := a + "\0";
    assert fmt[0..|a|] == a && fmt[|a|] == '\0';
    var ps := Pieces(fmt, 0, args, 0);
    assert ps == [Literal(a)] && ps[..0] == [];
    assert Render([], args) == Output("", []);
  }

  /** A format that ends inside a specification prints what stands before it. */
  lemma UnfinishedText(a: string, fmt: string, args: seq<Slot>)
    requires '%' !in a && '\0' !in a && CString(a + fmt) && |fmt| > 1 && fmt[0] == '%'
    requires ScanSpec(a + fmt, |a| + 1, PLAIN_SPEC, args, 0).Unfinished?
    ensures Format(a + fmt, args) == Output(a, [])
  {
    hide ScanSpec;
    LiteralRun(a, fmt, 0);
    var whole := a + fmt;
    assert whole[0..|a|] == a && whole[|a|] == '%';
    var ps := Pieces(whole, 0, args, 0);
    assert ps == [Literal(a)] && ps[..0] == [];
    assert Render([], args) == Output("", []);
  }

  /** A lone `%` at the end prints nothing. */
  lemma LonePercent(a: string, args: seq<Slot>)
    requires '%' !in a && '\0' !in a
    ensures CString(a + "%\0") && Format(a + "%\0", args) == Output(a, [])
  {
    Behind(a, "%\0");
    assert (a + "%\0")[|a| + 1] == '\0';
    assert ScanItem(a + "%\0", |a| + 1, PLAIN_SPEC, args, 0) == End;
    UnfinishedText(a, "%\0", args);
  }

  // ---------------------------------------------------------------- conversions in their place

  /** What a conversion prints. */
  function ConversionText(s: Spec, conv: char, slot: Slot): string
  {
    if conv == 'n' then "" else FieldOf(s, conv, slot).Text()
  }

  /** Ordinary characters, then any conversion, then the rest of the format: each
      prints in its place, and the rest goes on with the arguments that are left. */
  lemma ConversionInText(a: string, fmt: string, args: seq<Slot>, scan: Scan)
    requires '%' !in a && '\0' !in a && CString(a + fmt) && |fmt| > 1 && fmt[0] == '%'
    requires scan == ScanSpec(a + fmt, |a| + 1, PLAIN_SPEC, args, 0) && scan.Conversion?
    requires |a| + 1 < scan.next
    ensures var rest := (a + fmt)[scan.next..];
            && CString(rest)
            && Format(a + fmt, args).text
               == a + ConversionText(scan.spec, scan.conv, Fetch(args, scan.arg))
                  + Format(rest, Rest(args, scan.NextArg())).text
  {
    hide ScanSpec, FieldOf, Field.Text, Pieces, Render, ConversionText, AllLater, Rest, LiteralEnd;
    var whole := a + fmt;
    var front, rest, n := whole[..scan.next], whole[scan.next..], scan.NextArg();
    LiteralRun(a, fmt, 0);
    assert whole[0..|a|] == a && whole[|a|] == '%';
    assert whole == front + rest;
    Suffix(whole, scan.next);
    PiecesBehind(front, rest, 0, args, n, 0);
    var d, more := Directive(scan.spec, scan.conv, scan.arg), Pieces(rest, 0, Rest(args, n), 0);
    PiecesOf(whole, a, d, scan, args);
    RenderThree(a, d, more, args, n);
    FormatIs(whole, args);
    FormatIs(rest, Rest(args, n));
  }

  lemma FormatIs(fmt: string, args: seq<Slot>)
    requires CString(fmt)
    ensures Format(fmt, args) == Render(Pieces(fmt, 0, args, 0), args)
  {
    hide Render, Pieces;
  }

  lemma RenderThree(a: string, d: Piece, more: seq<Piece>, args: seq<Slot>, n: nat)
    requires d.Directive?
    ensures Render([Literal(a)] + ([d] + AllLater(more, n)), args).text
         == a + ConversionText(d.spec, d.conv, Fetch(args, d.arg)) + Render(more, Rest(args, n)).text
  {
    hide FieldOf, Field.Text, Render, AllLater, Rest;
    RenderFront(Literal(a), [d] + AllLater(more, n), args);
    RenderFront(d, AllLater(more, n), args);
    RenderLater(more, args, n);
  }

  lemma Suffix(whole: string, k: nat)
    requires CString(whole) && k < |whole|
    ensures CString(whole[k..]) && '\0' !in whole[..k]
  {
  }

  lemma PiecesOf(whole: string, a: string, d: Piece, scan: Scan, args: seq<Slot>)
    requires CString(whole) && LiteralEnd(whole, 0) == |a| < |whole| - 1 && whole[0..|a|] == a && whole[|a|] == '%'
    requires scan == ScanSpec(whole, |a| + 1, PLAIN_SPEC, args, 0) && scan.Conversion?
    requires d == Directive(scan.spec, scan.conv, scan.arg)
    ensures Pieces(whole, 0, args, 0)
         == [Literal(a)] + ([d] + Pieces(whole, scan.next, args, scan.NextArg()))
  {
    hide ScanSpec;
  }

  /** The same for a written specification: the field is that of the first argument,
      and the rest has all the others, or all of them if the conversion takes none. */
  lemma DirectiveInText(a: string, s: Spec, conv: char, b: string, args: seq<Slot>)
    requires '%' !in a && '\0' !in a && '\0' !in b && Writable(s) && IsLetter(conv)
    ensures var fmt := a + ("%" + SpecText(s) + [conv] + b + "\0");
            && CString(fmt) && CString(b + "\0")
            && Format(fmt, args).text
               == a + ConversionText(s, conv, Fetch(args, 0))
                  + Format(b + "\0", if TakesArgument(conv) then Rest(args, 1) else args).text
  {
    hide ScanSpec, SpecText, Format, ConversionText, TakesArgument;
    var n, tail := |SpecText(s)|, "%" + SpecText(s) + [conv] + b + "\0";
    var whole := a + tail;
    SpecTextPrintable(s);
    assert tail == ("%" + SpecText(s) + [conv] + b) + "\0";
    Behind("%" + SpecText(s) + [conv] + b, "\0");
    Behind(b, "\0");
    Behind(a, tail);
    assert tail[1..1 + n] == SpecText(s) && tail[1 + n] == conv;
    SliceBehind(a, tail, 1, 1 + n);
    assert whole[|a| + 1 + n] == conv;
    SpecReadsBack(whole, |a| + 1, s, conv, args, 0);
    assert whole[|a| + 2 + n..] == b + "\0";
    ConversionInText(a, tail, args, ScanSpec(whole, |a| + 1, PLAIN_SPEC, args, 0));
    assert Rest(args, 0) == args;
  }

  // ---------------------------------------------------------------- arguments for width and precision

  /** The int passed for a star. */
  function StarValue(args: seq<Slot>): int { Signed(Fetch(args, 0).word, 32) }

  /** `*` takes an argument for the width; a negative one asks for the left as well. */
  lemma StarWidth(a: string, conv: char, b: string, args: seq<Slot>)
    requires '%' !in a && '\0' !in a && '\0' !in b && IsLetter(conv)
    ensures var w, fmt := StarValue(args), a + ("%*" + [conv] + b + "\0");
            && CString(fmt) && CString(b + "\0")
            && Format(fmt, args).text
               == a + ConversionText(PLAIN_SPEC.(width := if w < 0 then 0 - w else w, left := w < 0),
                                     conv, Fetch(args, 1))
                  + Format(b + "\0", Rest(args, if TakesArgument(conv) then 2 else 1)).text
  {
    hide Format, ConversionText, TakesArgument, Signed;
    var w, tail := StarValue(args), "%*" + [conv] + b + "\0";
    var whole, k := a + tail, |a| + 1;
    StarBehind(a, tail, "%*" + [conv] + b, b);
    var s := Star(PLAIN_SPEC, w);
    assert whole[k] == '*' && whole[k + 1] == conv;
    assert ScanItem(whole, k, PLAIN_SPEC, args, 0) == Update(s, k + 1, 1);
    ScanLetter(whole, k + 1, s, args, 1);
    assert whole[k + 2..] == b + "\0";
    ConversionInText(a, tail, args, ScanSpec(whole, k, PLAIN_SPEC, args, 0));
  }

  /** `.*` takes one for the precision; a negative one asks for none. */
  lemma StarPrecision(a: string, conv: char, b: string, args: seq<Slot>)
    requires '%' !in a && '\0' !in a && '\0' !in b && IsLetter(conv)
    ensures var w, fmt := StarValue(args), a + ("%.*" + [conv] + b + "\0");
            && CString(fmt) && CString(b + "\0")
            && Format(fmt, args).text
               == a + ConversionText(PLAIN_SPEC.(prec := if w < 0 then -1 else w), conv, Fetch(args, 1))
                  + Format(b + "\0", Rest(args, if TakesArgument(conv) then 2 else 1)).text
  {
    hide Format, ConversionText, TakesArgument, Signed;
    var w, tail := StarValue(args), "%.*" + [conv] + b + "\0";
    var whole, k := a + tail, |a| + 1;
    StarBehind(a, tail, "%.*" + [conv] + b, b);
    var s := PLAIN_SPEC.(prec := if w < 0 then -1 else w);
    assert whole[k] == '.' && whole[k + 1] == '*' && whole[k + 2] == conv;
    assert ScanItem(whole, k, PLAIN_SPEC, args, 0) == Update(s, k + 2, 1);
    ScanLetter(whole, k + 2, s, args, 1);
    assert whole[k + 3..] == b + "\0";
    ConversionInText(a, tail, args, ScanSpec(whole, k, PLAIN_SPEC, args, 0));
  }

  lemma StarBehind(a: string, tail: string, most: string, b: string)
    requires tail == most + "\0" && '\0' !in most && '\0' !in a && '\0' !in b
    ensures CString(a + tail) && CString(b + "\0") && CString(tail)
  {
    Behind(most, "\0");
    Behind(b, "\0");
    Behind(a, tail);
  }

  /** A blank flag and a plus flag in any order are a plus; the star keeps other flags. */
  lemma SignFlags(s: Spec)
    ensures Flag(Flag(s, ' '), '+').sign == '+' && Flag(Flag(s, '+'), ' ').sign == '+'
    ensures s.sign == '\0' ==> Flag(s, ' ') == s.(sign := ' ') && Flag(s, '+') == s.(sign := '+')
  {
  }
}
