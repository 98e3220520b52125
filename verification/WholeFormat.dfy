/** Whole formats: every piece keeps its place in the output, stored counts are the
    lengths reached so far, and a conversion written out and printed reads back. */
module WholeFormat {
  import opened Decimal
  import opened IntegerConversion
  import opened FormatSpec
  import opened FormatTheorems
  import opened SpecRoundTrip
  import opened FloatReading

  /** The text of a piece stands right behind the text of the pieces before it, and
      nothing later changes either. A `%n` stores, truncated to its type, the length
      of the unbounded output in front of it. */
  lemma {:induction false} PieceInPlace(ps: seq<Piece>, args: seq<Slot>, k: nat)
    requires k < |ps|
    ensures var before := Render(ps[..k], args).text;
            var o := PieceOutput(ps[k], args, |before|);
            && before + o.text <= Render(ps, args).text
            && (forall store <- o.stores :: store in Render(ps, args).stores)
            && (ps[k].Directive? && ps[k].conv == 'n' ==>
                  var bits := Bits(ps[k].spec.len);
                  Store(ps[k].arg, bits, Signed(|before|, bits)) in Render(ps, args).stores)
  {
    hide FieldOf, Field.Text, Signed, Bits;
    var n := |ps| - 1;
    if k < n {
      PieceInPlace(ps[..n], args, k);
      assert ps[..n][..k] == ps[..k];
      var front := Render(ps[..n], args);
      assert front.text <= Render(ps, args).text;
    }
  }

  function FormatOf(s: Spec, conv: char): string { "%" + SpecText(s) + [conv] + "\0" }

  /** A format made of one written specification prints that specification's field. */
  lemma OneDirective(s: Spec, conv: char, args: seq<Slot>)
    requires Writable(s) && IsLetter(conv) && conv != 'n'
    ensures CString(FormatOf(s, conv))
    ensures Format(FormatOf(s, conv), args) == Output(FieldOf(s, conv, Fetch(args, 0)).Text(), [])
  {
    hide FieldOf, Field.Text, SpecText, ScanSpec;
    var fmt := FormatOf(s, conv);
    SpecTextPrintable(s);
    var n := |SpecText(s)|;
    assert fmt[1..1 + n] == SpecText(s) && fmt[1 + n] == conv && fmt[n + 2] == '\0';
    SpecReadsBack(fmt, 1, s, conv, args, 0);
    assert LiteralEnd(fmt, 0) == 0 && LiteralEnd(fmt, n + 2) == n + 2;
    var d := Directive(s, conv, 0);
    assert Pieces(fmt, 0, args, 0)
        == [Literal("")] + ([d] + [Literal("")]) by {
      assert fmt[0..0] == "" && fmt[n + 2..n + 2] == "";
    }
    RenderThree(d, args);
  }

  lemma RenderThree(d: Piece, args: seq<Slot>)
    requires d.Directive? && d.conv != 'n'
    ensures Render([Literal("")] + ([d] + [Literal("")]), args)
         == Output(FieldOf(d.spec, d.conv, Fetch(args, d.arg)).Text(), [])
  {
    hide FieldOf, Field.Text;
    var e := Literal("");
    var ps := [e] + ([d] + [e]);
    assert ps[..2] == [e, d] && ps[..2][..1] == [e] && [e][..0] == [];
    assert Render([e], args) == Output("", []);
    var t := FieldOf(d.spec, d.conv, Fetch(args, d.arg)).Text();
    assert "" + t == t && t + "" == t;
    assert Render(ps[..2], args) == Output(t, []);
  }

  /** A written specification holds no NUL. */
  lemma SpecTextPrintable(s: Spec)
    requires Writable(s)
    ensures '\0' !in SpecText(s)
  {
    hide Numeral, FlagText, WidthText, PrecisionText, LengthText;
    FlagsPrintable(s);
    NumbersPrintable(s);
  }

  lemma FlagsPrintable(s: Spec)
    requires Writable(s)
    ensures '\0' !in FlagText(s) && '\0' !in LengthText(s.len)
  {
  }

  lemma NumbersPrintable(s: Spec)
    ensures '\0' !in WidthText(s) && '\0' !in PrecisionText(s)
  {
    hide Numeral;
    if s.width > 0 { NumeralIsDecimalText(s.width); }
    if s.prec >= 0 { NumeralIsDecimalText(s.prec); }
  }

  /** From the text of the format to the value read out of the output: for every
      specification, integer conversion and argument. */
  lemma IntegerEndToEnd(s: Spec, conv: char, slot: Slot)
    requires Writable(s) && IsInteger(conv)
    ensures CString(FormatOf(s, conv))
    ensures ReadInteger(Format(FormatOf(s, conv), [slot]).text, BaseOf(conv))
         == Number(IntegerArgument(s, conv, slot.word))
  {
    hide FieldOf, Field.Text, SpecText, ReadInteger, Format, IntegerArgument;
    OneDirective(s, conv, [slot]);
    IntegerRoundTrip(s, conv, slot);
  }

  /** The same for floats: the output reads back as the value rounded as asked for, or
      as the word for it, if and only if the zeros for a precision above 39 are
      harmless and stand for zeros. */
  lemma FloatEndToEnd(s: Spec, conv: char, slot: Slot)
    requires Writable(s) && IsFloat(conv)
    ensures CString(FormatOf(s, conv))
    ensures Matches(ReadFloat(Format(FormatOf(s, conv), [slot]).text), Wanted(s, conv, slot.dbl))
            <==> ZerosHarmless(s, conv, slot.dbl) && DigitsSuffice(s, conv, slot.dbl)
  {
    hide FieldOf, Field.Text, SpecText, ReadFloat, Format, Wanted, Matches, ZerosHarmless, DigitsSuffice;
    OneDirective(s, conv, [slot]);
    FloatRoundTrip(s, conv, slot);
  }
}
