/** The integer conversions: argument truncation, digits in three bases, and
    what reading the digits back gives. */
module IntegerConversion {
  import opened Decimal

  // ---------------------------------------------------------------- arguments

  /** A 64-bit argument slot seen as an integer. */
  type Word = w: nat | w < 0x1_0000_0000_0000_0000

  /** The length modifiers; `ll` wins over `l`, which wins over `h`. */
  datatype Length = Length(longLong: bool, long: bool, short: bool)

  function Bits(len: Length): nat
  {
    if len.longLong || len.long then 64 else if len.short then 16 else 32
  }

  function Modulus(bits: nat): nat
  {
    if bits == 16 then 0x1_0000 else if bits == 32 then 0x1_0000_0000 else 0x1_0000_0000_0000_0000
  }

  /** The low bits of a word as an unsigned number. */
  function Unsigned(w: int, bits: nat): nat
  {
    w % Modulus(bits)
  }

  /** The low bits of a word as a two's complement number. */
  function Signed(w: int, bits: nat): int
  {
    var u: int := Unsigned(w, bits);
    if 2 * u >= Modulus(bits) then u - Modulus(bits) else u
  }

  /** Truncation keeps the residue and lands in the range of the type. */
  lemma SignedMeaning(w: int, bits: nat)
    requires bits == 16 || bits == 32 || bits == 64
    ensures Signed(w, bits) % Modulus(bits) == w % Modulus(bits)
    ensures 0 - Modulus(bits) <= 2 * Signed(w, bits) < Modulus(bits)
  {
    if bits == 16 {
    } else if bits == 32 {
    } else {
    }
  }

  function AbsInt(v: int): nat { if v < 0 then 0 - v else v }

  // ---------------------------------------------------------------- digits

  /** The characters an integer conversion prints before padding: nothing for
      zero with precision zero, and an octal number starts with a zero when the
      alternate form asks for one. */
  function IntegerBody(v: nat, base: nat, upper: bool, prec: int, alt: bool): string
    requires IsBase(base)
  {
    if v == 0 && prec == 0 then ""
    else
      var s := Numeral(v, base, upper);
      if base == 8 && alt && s[0] != '0' then "0" + s else s
  }

  /** The body is made of digits of the base and reads back as the number. */
  lemma IntegerBodyRoundTrip(v: nat, base: nat, upper: bool, prec: int, alt: bool)
    requires IsBase(base)
    ensures var s := IntegerBody(v, base, upper, prec, alt);
            AllDigits(s, base) && Value(s, base) == v
  {
    NumeralRoundTrip(v, base, upper);
    var s := Numeral(v, base, upper);
    assert Repeat('0', 1) == "0";
    LeadingZeros(1, s, base);
    assert "" == Repeat('0', 0) + "";
  }

  function Pow8(k: nat): nat { if k == 0 then 1 else 8 * Pow8(k - 1) }

  lemma {:induction false} NumeralAtMost(n: nat, base: nat, upper: bool, k: nat)
    requires IsBase(base) && k > 0 && n < Pow8(k)
    ensures |Numeral(n, base, upper)| <= k
  {
    if n >= base && k > 1 {
      assert n / base < Pow8(k - 1);
      NumeralAtMost(n / base, base, upper, k - 1);
    }
  }

  /** A 64-bit number needs at most 22 digits, in octal. */
  lemma WordNumeral(v: Word, base: nat, upper: bool)
    requires IsBase(base)
    ensures |Numeral(v, base, upper)| <= 22
  {
    assert Pow8(6) == 0x4_0000;
    assert Pow8(12) == 0x10_0000_0000;
    assert Pow8(18) == 0x40_0000_0000_0000;
    assert Pow8(22) == 0x4_0000_0000_0000_0000;
    NumeralAtMost(v, base, upper, 22);
  }

  /** Produces the digits last first at the back of the buffer. */
  method DigitsToBack(buf: array<char>, v: nat, base: nat, upper: bool) returns (cp: nat)
    requires IsBase(base) && |Numeral(v, base, upper)| <= buf.Length
    modifies buf
    ensures cp == buf.Length - |Numeral(v, base, upper)| && buf[cp..] == Numeral(v, base, upper)
  {
    hide DigitChar;
    ghost var text := Numeral(v, base, upper);
    ghost var first := buf.Length - |text|;
    cp := buf.Length;
    var rest: nat := v;
    while rest >= base
      invariant first < cp <= buf.Length
      invariant Numeral(rest, base, upper) == text[..cp - first]
      invariant forall q :: cp <= q < buf.Length ==> buf[q] == text[q - first]
      decreases rest
    {
      LastDigit(rest, base, upper);
      Division(rest, base);
      cp := cp - 1;
      buf[cp] := DigitChar(rest % base, upper);
      assert buf[cp] == text[cp - first];
      rest := rest / base;
      assert Numeral(rest, base, upper) == text[..cp - first];
    }
    assert cp - first == 1;
    cp := cp - 1;
    buf[cp] := DigitChar(rest, upper);
  }

  lemma LastDigit(v: nat, base: nat, upper: bool)
    requires IsBase(base) && v >= base
    ensures var s := Numeral(v, base, upper);
            && s[|s| - 1] == DigitChar(v % base, upper)
            && 0 <= v / base < v && s[..|s| - 1] == Numeral(v / base, base, upper)
  {
    Division(v, base);
  }

  /** Converts one integer. The characters are buf[cp..], 23 at most. */
  method ConvertInteger(buf: array<char>, v: Word, base: nat, upper: bool, prec: int, alt: bool)
    returns (cp: nat)
    requires buf.Length == 400 && IsBase(base)
    modifies buf
    ensures 377 <= cp <= 400 && buf[cp..] == IntegerBody(v, base, upper, prec, alt)
  {
    cp := buf.Length;
    if v != 0 || prec != 0 {
      WordNumeral(v, base, upper);
      cp := DigitsToBack(buf, v, base, upper);
      if base == 8 && alt && buf[cp] != '0' {
        ghost var digits := buf[cp..];
        cp := cp - 1;
        buf[cp] := '0';
        assert buf[cp..] == "0" + digits;
      }
    }
  }
}
