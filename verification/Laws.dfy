/** What printing promises its users, directive by directive. */
module Laws {
  import opened Text
  import opened Words
  import opened Numerals
  import opened Directives
  import opened Fields
  import opened Rendering

  // --- Integer directives ---

  /** Whether the zeros of the `0` flag apply. */
  predicate ZeroPads(f: Flags) { f.zeropad && !f.left && !f.precision }

  /** The sign of an integer conversion. */
  function SignOf(conversion: char, f: Flags, v: int): string {
    if !IsSigned(conversion) then ""
    else if v < 0 then "-" else if f.plus then "+" else if f.space then " " else ""
  }

  function DigitsOf(conversion: char, f: Flags, v: int): string {
    if f.precision && v == 0 then "" else Numeral(Magnitude(v), BaseOf(conversion), conversion == 'X')
  }

  /** The least number of digits that the precision or the `0` flag asks for. */
  function MinDigits(conversion: char, f: Flags, width: nat, prec: nat, v: int): int {
    if ZeroPads(f) then width - |SignOf(conversion, f, v)| else if f.precision then prec else 0
  }

  /** An integer as ISO/IEC 9899:2011, 7.21.6.1 lays it out, in terms of the directive as written. */
  function IsoInteger(conversion: char, f: Flags, width: nat, prec: nat, v: int): string {
    var digits := DigitsOf(conversion, f, v);
    Justified(SignOf(conversion, f, v) + Spelled(MinDigits(conversion, f, width, prec, v), digits), width, f)
  }

  /** `digits` with zeros in front up to `n` digits. */
  function Spelled(n: int, digits: string): string {
    Repeat('0', Max(n - |digits|, 0)) + digits
  }

  /** The directive flags of a parsed integer directive: no upper case yet, no precision value without a precision. */
  predicate Parsed(f: Flags, prec: nat) {
    !f.uppercase && (f.precision || prec == 0)
  }

  /** What an integer directive prints between its spaces. */
  function IntegerContent(conversion: char, f: Flags, width: nat, prec: nat, v: int): string {
    var base, g := BaseOf(conversion), ConversionFlags(conversion, f);
    Content(StoredDigits(Magnitude(v), base, g), v < 0, base, prec, InnerWidth(width, v < 0, g), g)
  }

  /** Sign and digits fit the buffer, and `-` does not meet a precision that asks for zeros. */
  predicate FitsBuffer(conversion: char, f: Flags, width: nat, prec: nat, v: int) {
    var d := |DigitsOf(conversion, f, v)|;
    && |SignOf(conversion, f, v)| + Max(d, MinDigits(conversion, f, width, prec, v)) <= BUFFER_SIZE
    && (f.left ==> prec <= d)
  }

  /** A space for a sign that the buffer has no room for, where a padding space takes its place. */
  predicate SpaceForSpace(conversion: char, f: Flags, width: nat, prec: nat, v: int) {
    && IsSigned(conversion) && v >= 0 && f.space && !f.plus && !f.left
    && f.precision && prec == BUFFER_SIZE && width > BUFFER_SIZE
  }

  /**
   Between its spaces an integer directive without `#` prints the sign, zeros and digits of the
   standard exactly when they fit the buffer. What it prints is the standard's exactly then, or
   when a padding space stands where a space for a sign was dropped.
   */
  lemma IntegerConforms(conversion: char, f: Flags, width: nat, prec: nat, bits: uint64)
    requires IsInteger(conversion) && Parsed(f, prec) && (f.hash ==> BaseOf(conversion) == 10)
    ensures var v := IntegerArg(conversion, ArgRange(f.size), bits);
            IntegerContent(conversion, f, width, prec, v)
            == SignOf(conversion, f, v) + Spelled(MinDigits(conversion, f, width, prec, v), DigitsOf(conversion, f, v))
            <==> FitsBuffer(conversion, f, width, prec, v)
    ensures var v := IntegerArg(conversion, ArgRange(f.size), bits);
            IntegerText(conversion, f, width, prec, bits) == IsoInteger(conversion, f, width, prec, v)
            <==> FitsBuffer(conversion, f, width, prec, v) || SpaceForSpace(conversion, f, width, prec, v)
  {
    var v := IntegerArg(conversion, ArgRange(f.size), bits);
    assert Magnitude(v) < U64;
    hide IntegerArg, ArgRange, IntField, IsoInteger, IntegerContent, FitsBuffer, SpaceForSpace;
    ConformsAt(conversion, f, width, prec, v);
  }

  lemma ConformsAt(conversion: char, f: Flags, width: nat, prec: nat, v: int)
    requires IsInteger(conversion) && Parsed(f, prec) && (f.hash ==> BaseOf(conversion) == 10)
    requires Magnitude(v) < U64 && (!IsSigned(conversion) ==> v >= 0)
    ensures IntegerContent(conversion, f, width, prec, v)
            == SignOf(conversion, f, v) + Spelled(MinDigits(conversion, f, width, prec, v), DigitsOf(conversion, f, v))
            <==> FitsBuffer(conversion, f, width, prec, v)
    ensures IntField(Magnitude(v), v < 0, BaseOf(conversion), prec, width, ConversionFlags(conversion, f))
            == IsoInteger(conversion, f, width, prec, v)
            <==> FitsBuffer(conversion, f, width, prec, v) || SpaceForSpace(conversion, f, width, prec, v)
  {
    var g := ConversionFlags(conversion, f);
    assert g.left == f.left && !g.hash;
    SameContent(conversion, f, width, prec, v);
    SameLayout(conversion, f, width, prec, v);
    SameSpace(conversion, f, width, prec, v);
    hide BaseOf, IntField, IsoField, IsoContent, Content, ConversionFlags, IsoDigits, DigitsOf, SpaceTakesOver,
         SpaceForSpace, SignOf, MinDigits, Spelled, IsoInteger, InnerWidth, StoredDigits;
    IsoConformance(Magnitude(v), v < 0, BaseOf(conversion), prec, width, g);
  }

  lemma SameSpace(conversion: char, f: Flags, width: nat, prec: nat, v: int)
    requires IsInteger(conversion) && Parsed(f, prec) && Magnitude(v) < U64 && (!IsSigned(conversion) ==> v >= 0)
    ensures var g := ConversionFlags(conversion, f);
            SpaceTakesOver(|IsoDigits(Magnitude(v), BaseOf(conversion), g)|, v < 0, prec, width, g)
            <==> SpaceForSpace(conversion, f, width, prec, v)
  {
    var g := ConversionFlags(conversion, f);
    StoredExactly(Magnitude(v), g);
    SameSign(conversion, f, v);
    assert IsSigned(conversion) ==> BaseOf(conversion) == 10;
    hide IsoDigits, StoredDigits, Value, BaseOf;
  }

  /** The standard's layout of a field, once in the flags as written and once as adjusted. */
  lemma SameContent(conversion: char, f: Flags, width: nat, prec: nat, v: int)
    requires IsInteger(conversion) && Parsed(f, prec) && (!IsSigned(conversion) ==> v >= 0)
    ensures IsoDigits(Magnitude(v), BaseOf(conversion), ConversionFlags(conversion, f)) == DigitsOf(conversion, f, v)
    ensures IsoContent(Magnitude(v), v < 0, BaseOf(conversion), prec, width, ConversionFlags(conversion, f))
            == SignOf(conversion, f, v) + Spelled(MinDigits(conversion, f, width, prec, v), DigitsOf(conversion, f, v))
  {
    hide BaseOf, Numeral;
    var base, g := BaseOf(conversion), ConversionFlags(conversion, f);
    assert IsoDigits(Magnitude(v), base, g) == DigitsOf(conversion, f, v);
    SameSign(conversion, f, v);
    SameMinimum(conversion, f, width, prec, v);
    hide IsoDigits, DigitsOf, SignText, SignOf, ConversionFlags, MinDigits, IsoMinDigits, Repeat;
    var digits, sign := DigitsOf(conversion, f, v), SignOf(conversion, f, v);
    var zeros := Repeat('0', Max(MinDigits(conversion, f, width, prec, v) - |digits|, 0));
    assert sign + zeros + digits == sign + (zeros + digits);
  }

  lemma SameLayout(conversion: char, f: Flags, width: nat, prec: nat, v: int)
    requires IsInteger(conversion) && Parsed(f, prec) && (!IsSigned(conversion) ==> v >= 0)
    ensures |IsoContent(Magnitude(v), v < 0, BaseOf(conversion), prec, width, ConversionFlags(conversion, f))|
            == |SignOf(conversion, f, v)| + Max(|DigitsOf(conversion, f, v)|, MinDigits(conversion, f, width, prec, v))
    ensures IsoField(Magnitude(v), v < 0, BaseOf(conversion), prec, width, ConversionFlags(conversion, f))
            == IsoInteger(conversion, f, width, prec, v)
  {
    SameContent(conversion, f, width, prec, v);
    assert ConversionFlags(conversion, f).left == f.left;
    hide IsoContent, BaseOf, ConversionFlags, SignOf, DigitsOf, MinDigits, Spaces, Magnitude;
  }

  lemma SameSign(conversion: char, f: Flags, v: int)
    requires !IsSigned(conversion) ==> v >= 0
    ensures SignText(v < 0, ConversionFlags(conversion, f)) == SignOf(conversion, f, v)
  {
    hide BaseOf;
  }

  lemma SameMinimum(conversion: char, f: Flags, width: nat, prec: nat, v: int)
    requires Parsed(f, prec) && (!IsSigned(conversion) ==> v >= 0)
    ensures var g := ConversionFlags(conversion, f);
            Max(IsoMinDigits(v < 0, prec, width, g), 0) == Max(MinDigits(conversion, f, width, prec, v), 0)
  {
    SameSign(conversion, f, v);
    hide BaseOf, SignText, SignOf;
  }

  /** Values of 64 bits have at most 22 digits in base 8, 10 and 16; in base 2 the low 32 are kept. */
  lemma StoredExactly(value: uint64, f: Flags)
    ensures forall base | base == 8 || base == 10 || base == 16 ::
              StoredDigits(value, base, f) == IsoDigits(value, base, f) && |StoredDigits(value, base, f)| <= 22
    ensures Value(StoredDigits(value, 2, f), 2) == value % U32
  {
    forall base | base == 8 || base == 10 || base == 16
      ensures StoredDigits(value, base, f) == IsoDigits(value, base, f) && |StoredDigits(value, base, f)| <= 22
    {
      Powers();
      PowMonotoneBase(8, base, 22);
      NumeralLength(value, base, f.uppercase, 22);
      hide Pow, Numeral;
    }
    Powers();
    StoredValue(value, 2, f);
  }

  lemma Powers()
    ensures Pow(8, 22) == 4 * U64
    ensures Pow(2, 32) == U32
  {
    assert Pow(8, 11) == 0x2_0000_0000;
    PowAdd(8, 11, 11);
    assert Pow(2, 8) == 0x100;
    PowAdd(2, 8, 8);
    PowAdd(2, 16, 16);
  }

  lemma {:induction false} PowAdd(base: nat, m: nat, n: nat)
    ensures Pow(base, m + n) == Pow(base, m) * Pow(base, n)
  {
    if m > 0 {
      PowAdd(base, m - 1, n);
      Associates(base, Pow(base, m - 1), Pow(base, n));
    }
  }

  lemma Associates(a: nat, b: nat, c: nat)
    ensures a * (b * c) == (a * b) * c
  {
  }

  lemma {:induction false} PowMonotoneBase(a: nat, b: nat, n: nat)
    requires a <= b
    ensures Pow(a, n) <= Pow(b, n)
  {
    if n > 0 {
      PowMonotoneBase(a, b, n - 1);
      MulMonotone(a, b, Pow(a, n - 1), Pow(b, n - 1));
    }
  }

  lemma MulMonotone(a: nat, b: nat, c: nat, d: nat)
    requires a <= b && c <= d
    ensures a * c <= b * d
  {
    assert a * c <= b * c;
    assert b * c <= b * d;
  }

  /**
   Reading what an integer directive without `#` printed gives back the argument as cut to its
   length modifier, exactly when a binary number is below 2^32 and the zeros before a negative
   number leave room for its sign.
   */
  lemma DirectiveRoundTrip(conversion: char, f: Flags, width: nat, prec: nat, bits: uint64)
    requires IsInteger(conversion) && Parsed(f, prec) && (f.hash ==> BaseOf(conversion) == 10)
    ensures var v := IntegerArg(conversion, ArgRange(f.size), bits);
            ReadInteger(IntegerText(conversion, f, width, prec, bits), BaseOf(conversion)) == v
            <==> (conversion == 'b' ==> v < U32)
                 && (v < 0 && !f.left ==> MinDigits(conversion, f, width, prec, v) < BUFFER_SIZE)
  {
    var v := IntegerArg(conversion, ArgRange(f.size), bits);
    assert Magnitude(v) < U64;
    hide IntegerArg, ArgRange, BaseOf, ReadInteger, IntField, ConversionFlags;
    ReadBack(conversion, f, width, prec, v);
  }

  lemma ReadBack(conversion: char, f: Flags, width: nat, prec: nat, v: int)
    requires IsInteger(conversion) && Parsed(f, prec) && (f.hash ==> BaseOf(conversion) == 10)
    requires Magnitude(v) < U64 && (!IsSigned(conversion) ==> v >= 0)
    ensures var base, g := BaseOf(conversion), ConversionFlags(conversion, f);
            ReadInteger(IntField(Magnitude(v), v < 0, base, prec, width, g), base) == v
            <==> (conversion == 'b' ==> v < U32)
                 && (v < 0 && !f.left ==> MinDigits(conversion, f, width, prec, v) < BUFFER_SIZE)
  {
    var base, g := BaseOf(conversion), ConversionFlags(conversion, f);
    assert conversion == 'b' <==> base == 2;
    assert v < 0 ==> base == 10;
    assert g.left == f.left && !g.hash;
    hide BaseOf, IntField, ReadInteger, ConversionFlags, Pow, Numeral;
    IntegerRoundTrip(Magnitude(v), v < 0, base, prec, width, g);
    Bounds(Magnitude(v), base);
    SameMinimum(conversion, f, width, prec, v);
    hide MinDigits, IsoMinDigits;
  }

  lemma Bounds(value: uint64, base: nat)
    requires base == 2 || base == 8 || base == 10 || base == 16
    ensures if base == 2 then value < Pow(base, 32) <==> value < U32
            else value < Pow(base, 31) && value < Pow(base, 32)
  {
    Powers();
    if base != 2 {
      PowMonotoneBase(8, base, 22);
      PowMonotone(base, 22, 31);
      PowMonotone(base, 31, 32);
    }
    hide Pow;
  }

  // --- Where the layout differs ---

  /** Where the layout is not the standard's: `%-.3d` of 5, and `%.32d` of -1. */
  lemma LayoutDeviates()
    ensures IntegerText('d', NO_FLAGS.(left := true, precision := true), 0, 3, 5) == "5"
    ensures IntegerText('d', NO_FLAGS.(precision := true), 0, 32, U32 - 1) == Repeat('0', 31) + "1"
  {
    assert Numeral(5, 10, false) == "5" && Numeral(1, 10, false) == "1";
    assert Signed(5, U32) == 5 && Signed(U32 - 1, U32) == -1;
  }

  // --- Pointers and numbers ---

  /** A pointer printed without `#` reads back in base 16, and fills 16 characters by default. */
  lemma PointerRoundTrip(f: Flags, prec: nat, bits: uint64)
    requires !f.hash
    ensures ReadInteger(PointerText(f, prec, bits), 16) == bits
    ensures !f.left && !f.precision && !f.plus && !f.space && prec == 0 ==> |PointerText(f, prec, bits)| == 16
  {
    var g := f.(zeropad := true, uppercase := true);
    IntegerRoundTrip(bits, false, 16, prec, 16, g);
    Bounds(bits, 16);
    FieldLength(bits, false, 16, prec, 16, g);
    Powers();
    SixteenDigits();
    NumeralLength(bits, 16, true, 16);
    hide Pow, Numeral, ReadInteger, IntField;
  }

  lemma SixteenDigits()
    ensures Pow(16, 16) == U64
  {
    assert Pow(16, 8) == U32;
    PowAdd(16, 8, 8);
  }

  /** The parser's number reader undoes the flagless decimal conversion. */
  lemma NumberReadsPrinted(n: uint32, rest: string)
    requires !IsDigit(Head(rest))
    ensures NumberAt(IntegerText('u', NO_FLAGS, 0, 0, n) + rest) == (n, rest)
  {
    PlainUnsigned(n);
    hide IntegerText, NumberAt, Numeral;
    NumberRoundTrip(n, rest);
  }

  lemma PlainUnsigned(n: uint32)
    ensures IntegerText('u', NO_FLAGS, 0, 0, n) == Numeral(n, 10, false)
  {
    assert IntegerArg('u', ArgRange(NO_SIZE), n) == n;
    IntegerConforms('u', NO_FLAGS, 0, 0, n);
    PlainIso(n);
    StoredExactly(n, NO_FLAGS);
    hide Numeral, StoredDigits, IntegerText, IsoInteger, IsoDigits, DigitsOf, SignOf, MinDigits, IntegerArg;
  }

  lemma PlainIso(n: uint32)
    ensures IsoInteger('u', NO_FLAGS, 0, 0, n) == Numeral(n, 10, false) == IsoDigits(n, 10, NO_FLAGS)
    ensures SignOf('u', NO_FLAGS, n) == "" && DigitsOf('u', NO_FLAGS, n) == Numeral(n, 10, false)
    ensures MinDigits('u', NO_FLAGS, 0, 0, n) == 0
  {
    hide Numeral;
  }

  // --- String directives ---

  /**
   A string directive emits the first characters of its string, as many as the precision allows,
   on the side that `-` chooses of a field of spaces.
   */
  lemma StringDirective(f: Flags, width: nat, prec: nat, s: string, args: seq<Arg>)
    requires ValueFits('s', ArgRange(f.size), args) && args[0].s == s
    ensures var text := ConversionText('s', f, width, prec, args);
            var n := if f.precision then Min(|s|, prec) else |s|;
            && |text| == Max(width, n)
            && (if f.left then text[..n] == s[..n] && forall i | n <= i < |text| :: text[i] == ' '
                else text[|text| - n..] == s[..n] && forall i | 0 <= i < |text| - n :: text[i] == ' ')
  {
    var n := if f.precision then Min(|s|, prec) else |s|;
    assert ConversionText('s', f, width, prec, args) == StringText(f, width, prec, s);
    assert StringText(f, width, prec, s) == Justified(s[..n], width, f) by {
      assert s[..|s|] == s;
      hide Justified;
    }
    hide ConversionText, StringText;
    JustifiedShape(s[..n], width, f);
  }

  lemma JustifiedShape(t: string, width: nat, f: Flags)
    ensures var text := Justified(t, width, f);
            && |text| == Max(width, |t|)
            && (if f.left then text[..|t|] == t && forall i | |t| <= i < |text| :: text[i] == ' '
                else text[|text| - |t|..] == t && forall i | 0 <= i < |text| - |t| :: text[i] == ' ')
  {
  }
}
