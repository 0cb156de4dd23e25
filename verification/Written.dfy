/**
 Formats as they are written, and what they print. Width, precision, flags and length modifier
 are texts and numbers here; nothing depends on what the parser makes of them.
 */
module Written {
  import opened Text
  import opened Words
  import opened Numerals
  import opened Directives
  import opened Fields
  import opened Rendering
  import opened Laws
  import opened HashLaws
  import opened Conformance
  import Formats

  // --- How a directive is written ---

  /** A width of zero is not written. */
  function WidthText(w: nat): string {
    if w == 0 then "" else Numeral(w, 10, false)
  }

  /** A negative number stands for no precision. */
  function PrecisionText(p: int): string {
    if p < 0 then "" else "." + Numeral(p, 10, false)
  }

  function FormatText(flags: string, w: nat, p: int, length: string, conversion: char): string {
    "%" + (flags + (WidthText(w) + (PrecisionText(p) + (length + [conversion]))))
  }

  predicate IsFlags(flags: string) {
    forall c <- flags :: c == '0' || c == '-' || c == '+' || c == ' ' || c == '#'
  }

  predicate IsLength(length: string) {
    length == "" || length == "l" || length == "ll" || length == "h" || length == "hh"
    || length == "t" || length == "j" || length == "z"
  }

  /** What a written directive is parsed to. */
  function Spelt(flags: string, w: uint32, p: int, length: string, conversion: char): Directive
    requires p < U32
  {
    var precision := if p < 0 then NoPrecision else Precision(Number(p));
    Directive(FlagsOf(flags), if w == 0 then Absent else Number(w), precision, LengthOf(length), conversion)
  }

  function LengthOf(length: string): Length {
    if length == "l" then L else if length == "ll" then LL else if length == "h" then H else if length == "hh" then HH
    else if length == "t" then T else if length == "j" then J else if length == "z" then Z else NoLength
  }

  /** The conversions that no earlier section of a directive can take for its own. */
  predicate CanEnd(conversion: char) {
    conversion !in "\0-+ #*.lhtjz" && !IsDigit(conversion)
  }

  lemma SpeltParsed(flags: string, w: uint32, p: int, length: string, conversion: char)
    requires IsFlags(flags) && IsLength(length) && CanEnd(conversion) && p < U32
    ensures DirectiveAt(FormatText(flags, w, p, length, conversion)[1..])
            == (Spelt(flags, w, p, length, conversion), "")
  {
    hide FieldAt, PrecisionAt, LengthAt, SpellField, SpellPrecision, SpellLength, FlagsOf, Numeral, CanEnd, IsLength,
         LengthOf;
    var d := Spelt(flags, w, p, length, conversion).(flags := NO_FLAGS);
    var s4 := [conversion];
    var s3, s2 := length + s4, PrecisionText(p) + (length + s4);
    var s1 := WidthText(w) + s2;
    SectionTexts(w, p, length, conversion);
    FieldsRoundTrip(d, s4, s3, s2, s1);
    FlagRunAppend(flags, s1);
    assert (flags + s1)[..|flags|] == flags && (flags + s1)[|flags|..] == s1;
    assert FormatText(flags, w, p, length, conversion)[1..] == flags + s1;
  }

  lemma SectionTexts(w: uint32, p: int, length: string, conversion: char)
    requires IsLength(length) && CanEnd(conversion) && p < U32
    ensures var d := Spelt("", w, p, length, conversion).(flags := NO_FLAGS);
            && Canonical(d)
            && SpellField(d.width) == WidthText(w) && SpellPrecision(d.precision) == PrecisionText(p)
            && SpellLength(d.length) == length
  {
    hide Numeral;
  }

  // --- Any conversion that takes an argument ---

  /** The flags as their characters say. */
  function FlagSet(flags: string, p: int): Flags {
    Flags('0' in flags, '-' in flags, '+' in flags, ' ' in flags, '#' in flags, false, p >= 0, NO_SIZE)
  }

  /** The text of a written directive, by the text of its conversion under the fields that are written. */
  lemma WrittenText(flags: string, w: uint32, p: int, length: string, conversion: char, a: Arg)
    requires IsFlags(flags) && IsLength(length) && CanEnd(conversion) && p < U32 && TakesArgument(conversion)
    requires ValueFits(conversion, ArgRange(SizeOf(LengthOf(length))), [a])
    ensures var f := FlagSet(flags, p).(size := SizeOf(LengthOf(length)));
            var format := FormatText(flags, w, p, length, conversion);
            && Accepts(format, [a])
            && Formatted(format, [a]) == ConversionText(conversion, f, w, Max(p, 0), [a])
  {
    var d := Spelt(flags, w, p, length, conversion);
    SpeltParsed(flags, w, p, length, conversion);
    SpeltFits(flags, w, p, length, conversion, a);
    hide DirectiveAt, DirectiveText, Fits, Arity, Accepts, Formatted, Spelt, ConversionText, CanEnd, ValueFits;
    Formats.OneDirective(FormatText(flags, w, p, length, conversion), d, [a]);
  }

  lemma SpeltFits(flags: string, w: uint32, p: int, length: string, conversion: char, a: Arg)
    requires p < U32 && CanEnd(conversion) && TakesArgument(conversion)
    requires ValueFits(conversion, ArgRange(SizeOf(LengthOf(length))), [a])
    ensures var d := Spelt(flags, w, p, length, conversion);
            var f := FlagSet(flags, p).(size := SizeOf(LengthOf(length)));
            && Fits(d, [a]) && Arity(d) == 1 && d.conversion != '\0'
            && DirectiveText(d, [a]) == ConversionText(conversion, f, w, Max(p, 0), [a])
  {
    var d := Spelt(flags, w, p, length, conversion);
    assert ValueArgs(d, [a]) == [a];
    assert [a][0..] == [a];
    hide ConversionText, ValueFits, CanEnd, LengthOf, SizeOf;
    assert FlagsWith(d, [a]) == FlagSet(flags, p).(size := SizeOf(LengthOf(length)));
    assert WidthOf(d, [a]) == w && PrecisionOf(d, [a]) == Max(p, 0);
  }

  // --- Strings, characters and other characters ---

  /** `text` in a field of `w` characters, on the left under `-`. */
  function InField(text: string, w: nat, left: bool): string {
    var spaces := Repeat(' ', Max(w - |text|, 0));
    if left then text + spaces else spaces + text
  }

  /** `%s` shows its string, cut to the precision, in a field of the width. */
  lemma WrittenString(flags: string, w: uint32, p: int, s: string)
    requires IsFlags(flags) && p < U32 && '\0' !in s
    ensures var format := FormatText(flags, w, p, "", 's');
            && Accepts(format, [Str(s)])
            && Formatted(format, [Str(s)]) == InField(if p < 0 then s else s[..Min(|s|, p)], w, '-' in flags)
  {
    hide Accepts, Formatted;
    WrittenText(flags, w, p, "", 's', Str(s));
  }

  /** `%c` shows its argument modulo 256 in a field of the width. */
  lemma WrittenChar(flags: string, w: uint32, p: int, bits: uint64)
    requires IsFlags(flags) && p < U32
    ensures var format := FormatText(flags, w, p, "", 'c');
            && Accepts(format, [Word(bits)])
            && Formatted(format, [Word(bits)]) == InField([(bits % 256) as char], w, '-' in flags)
  {
    hide Accepts, Formatted;
    WrittenText(flags, w, p, "", 'c', Word(bits));
  }

  /** Any other character that can end a directive stands for itself, a percent sign among them. */
  lemma WrittenOther(flags: string, w: uint32, p: int, length: string, conversion: char)
    requires IsFlags(flags) && IsLength(length) && CanEnd(conversion) && p < U32
    requires conversion !in "diuxXobcsp"
    ensures var format := FormatText(flags, w, p, length, conversion);
            Accepts(format, []) && Formatted(format, []) == [conversion]
    ensures CanEnd('%') && FormatText("", 0, -1, "", '%') == "%%"
  {
    hide DirectiveAt, DirectiveText, Fits, Arity, Accepts, Formatted, Spelt, CanEnd, IsLength;
    SpeltParsed(flags, w, p, length, conversion);
    OtherFits(flags, w, p, length, conversion);
    Formats.OneDirective(FormatText(flags, w, p, length, conversion), Spelt(flags, w, p, length, conversion), []);
    PercentWritten();
  }

  lemma PercentWritten()
    ensures CanEnd('%') && FormatText("", 0, -1, "", '%') == "%%"
  {
  }

  lemma OtherFits(flags: string, w: uint32, p: int, length: string, conversion: char)
    requires p < U32 && CanEnd(conversion) && conversion !in "diuxXobcsp"
    ensures var d := Spelt(flags, w, p, length, conversion);
            Fits(d, []) && Arity(d) == 0 && d.conversion != '\0' && DirectiveText(d, []) == [conversion]
  {
    NotTaken(conversion);
    var d := Spelt(flags, w, p, length, conversion);
    assert d.conversion != '\0' by { assert "\0-+ #*.lhtjz"[0] == '\0'; }
    hide LengthOf, SizeOf, FlagsOf, CanEnd;
    assert ValueArgs(d, []) == [];
  }

  lemma NotTaken(conversion: char)
    requires conversion !in "diuxXobcsp"
    ensures !TakesArgument(conversion)
  {
    var all := "diuxXobcsp";
    assert all[0] == 'd' && all[1] == 'i' && all[2] == 'u' && all[3] == 'x' && all[4] == 'X' && all[5] == 'o'
           && all[6] == 'b' && all[7] == 'c' && all[8] == 's' && all[9] == 'p';
  }

  // --- Integers ---

  /** How many values a length modifier leaves, on a target where long has 64 bits. */
  function Modulus(length: string): int {
    if length == "" then 0x1_0000_0000
    else if length == "h" then 0x1_0000
    else if length == "hh" then 0x100
    else 0x1_0000_0000_0000_0000
  }

  /** The low bits of a slot as a number, in two's complement for `%d` and `%i`. */
  function NumberIn(conversion: char, length: string, bits: nat): int {
    var m := Modulus(length);
    var low := bits % m;
    if (conversion == 'd' || conversion == 'i') && 2 * low >= m then low - m else low
  }

  predicate IsNumber(conversion: char) {
    conversion == 'd' || conversion == 'i' || conversion == 'u' || conversion == 'x' || conversion == 'X'
    || conversion == 'o' || conversion == 'b'
  }

  function Radix(conversion: char): (base: nat)
    ensures 2 <= base <= 16
  {
    match conversion
    case 'o' => 8
    case 'b' => 2
    case 'x' => 16
    case 'X' => 16
    case _ => 10
  }

  /** The least int or long cannot be negated. */
  predicate CanPrint(conversion: char, length: string, bits: nat) {
    Modulus(length) >= 0x1_0000_0000 ==> -Modulus(length) < 2 * NumberIn(conversion, length, bits)
  }

  lemma NumberTaken(conversion: char, length: string, bits: uint64)
    requires IsNumber(conversion) && IsLength(length)
    ensures var range := ArgRange(SizeOf(LengthOf(length)));
            && range == Modulus(length)
            && IntegerArg(conversion, range, bits) == NumberIn(conversion, length, bits)
            && (CanPrint(conversion, length, bits) ==> ValueFits(conversion, range, [Word(bits)]))
    ensures IsInteger(conversion) && TakesArgument(conversion) && BaseOf(conversion) == Radix(conversion)
  {
    SignedLow(bits, Modulus(length));
    hide Signed;
  }

  lemma SignedLow(bits: nat, m: int)
    requires m in {U8, U16, U32, U64}
    ensures Signed(bits, m) == if 2 * (bits % m) >= m then bits % m - m else bits % m
  {
  }

  /**
   A written integer directive prints the standard's text for the number that its length modifier
   leaves, exactly when that fits the buffer.
   */
  lemma WrittenInteger(flags: string, w: uint32, p: int, length: string, conversion: char, bits: uint64)
    requires IsFlags(flags) && IsLength(length) && IsNumber(conversion) && p < U32
    requires CanPrint(conversion, length, bits)
    ensures var format, f := FormatText(flags, w, p, length, conversion), FlagSet(flags, p);
            var v := NumberIn(conversion, length, bits);
            && Accepts(format, [Word(bits)])
            && (Formatted(format, [Word(bits)])
                == InField(IsoMiddle(conversion, f, w, Max(p, 0), v), w, '-' in flags)
                <==> GivenFits(conversion, f, w, Max(p, 0), v))
  {
    hide Accepts, Formatted, IntegerText, IsoMiddle, GivenFits, NumberIn, ArgRange, SizeOf, LengthOf, IntegerArg,
         ValueFits, CanPrint, Modulus;
    var f := FlagSet(flags, p).(size := SizeOf(LengthOf(length)));
    NumberTaken(conversion, length, bits);
    WrittenText(flags, w, p, length, conversion, Word(bits));
    GivenInteger(conversion, f, w, Max(p, 0), bits);
    var v := NumberIn(conversion, length, bits);
    SizeIgnored(conversion, FlagSet(flags, p), SizeOf(LengthOf(length)), w, Max(p, 0), v);
  }

  lemma SizeIgnored(conversion: char, f: Flags, size: Size, w: nat, p: nat, v: int)
    requires !IsSigned(conversion) ==> v >= 0
    ensures var g := f.(size := size);
            && IsoMiddle(conversion, g, w, p, v) == IsoMiddle(conversion, f, w, p, v)
            && (GivenFits(conversion, g, w, p, v) <==> GivenFits(conversion, f, w, p, v))
  {
    hide BaseOf, SignOf, DigitsOf, MinDigits, MarkFits;
    PartsIgnoreSize(conversion, f, size, w, p, v);
  }

  lemma PartsIgnoreSize(conversion: char, f: Flags, size: Size, w: nat, p: nat, v: int)
    ensures var g := f.(size := size);
            && SignOf(conversion, g, v) == SignOf(conversion, f, v)
            && DigitsOf(conversion, g, v) == DigitsOf(conversion, f, v)
            && MinDigits(conversion, g, w, p, v) == MinDigits(conversion, f, w, p, v)
            && (forall d: nat :: MarkFits(d, BaseOf(conversion), w, p, g) <==> MarkFits(d, BaseOf(conversion), w, p, f))
  {
    hide BaseOf, Numeral;
  }

  /** Reading what `%d` and its like printed gives the number that the length modifier leaves. */
  lemma PlainNumber(length: string, conversion: char, bits: uint64)
    requires IsLength(length) && IsNumber(conversion) && CanPrint(conversion, length, bits)
    ensures var format, v := FormatText("", 0, -1, length, conversion), NumberIn(conversion, length, bits);
            && Accepts(format, [Word(bits)])
            && (ReadInteger(Formatted(format, [Word(bits)]), Radix(conversion)) == v
                <==> (conversion == 'b' ==> v < 0x1_0000_0000))
  {
    hide Accepts, Formatted, IntegerText, NumberIn, ArgRange, SizeOf, LengthOf, IntegerArg, ValueFits, CanPrint,
         Modulus, ReadInteger, BaseOf, Radix;
    var f := FlagSet("", -1).(size := SizeOf(LengthOf(length)));
    NumberTaken(conversion, length, bits);
    WrittenText("", 0, -1, length, conversion, Word(bits));
    DirectiveRoundTrip(conversion, f, 0, 0, bits);
  }

  // --- Decimal numbers ---

  /** The digits of a number below 2^32 and its minus sign, which the buffer always has room for. */
  lemma FewDecimals(v: int)
    requires -0x1_0000_0000 < v < 0x1_0000_0000
    ensures 1 <= |Numeral(Magnitude(v), 10, false)| <= 10
  {
    assert Pow(10, 5) == 100000;
    PowAdd(10, 5, 5);
    NumeralLength(Magnitude(v), 10, false, 10);
    hide Numeral, Pow;
  }

  function Minus(v: int): string {
    if v < 0 then "-" else ""
  }

  /** What `%d` prints under some flags and a width, if the buffer holds it. */
  lemma DecimalUnder(flags: string, w: uint32, p: int, bits: uint64)
    requires IsFlags(flags) && '#' !in flags && p < U32 && CanPrint('d', "", bits)
    ensures var format, f := FormatText(flags, w, p, "", 'd'), FlagSet(flags, p);
            var v := NumberIn('d', "", bits);
            var sign := if v < 0 then "-" else if f.plus then "+" else if f.space then " " else "";
            var digits := if p >= 0 && v == 0 then "" else Numeral(Magnitude(v), 10, false);
            var least := if f.zeropad && !f.left && p < 0 then w - |sign| else p;
            && Accepts(format, [Word(bits)])
            && (|sign| + Max(|digits|, least) <= 32 && (f.left ==> p <= |digits|) ==>
                  Formatted(format, [Word(bits)])
                  == InField(sign + (Repeat('0', Max(least - |digits|, 0)) + digits), w, f.left))
  {
    hide Accepts, Formatted, NumberIn, Numeral, CanPrint, InField;
    WrittenInteger(flags, w, p, "", 'd', bits);
    hide GivenFits, IsoMiddle;
    DecimalMiddle(FlagSet(flags, p), w, p, NumberIn('d', "", bits));
  }

  lemma DecimalMiddle(f: Flags, w: nat, p: int, v: int)
    requires f.precision == (p >= 0) && !f.hash
    ensures var sign := if v < 0 then "-" else if f.plus then "+" else if f.space then " " else "";
            var digits := if p >= 0 && v == 0 then "" else Numeral(Magnitude(v), 10, false);
            var least := if f.zeropad && !f.left && p < 0 then w - |sign| else p;
            && IsoMiddle('d', f, w, Max(p, 0), v) == sign + (Repeat('0', Max(least - |digits|, 0)) + digits)
            && (|sign| + Max(|digits|, least) <= 32 && (f.left ==> p <= |digits|)
                ==> GivenFits('d', f, w, Max(p, 0), v))
  {
    hide Numeral;
  }

  /** `%5d` and its like: the number on the right of its field, on the left under `-`. */
  lemma PaddedDecimal(w: uint32, bits: uint64)
    requires CanPrint('d', "", bits) && w > 0
    ensures var v, width := NumberIn('d', "", bits), Numeral(w, 10, false);
            var number := Minus(v) + Numeral(Magnitude(v), 10, false);
            var spaces := Repeat(' ', Max(w - |number|, 0));
            && Accepts("%" + width + "d", [Word(bits)]) && Accepts("%-" + width + "d", [Word(bits)])
            && Formatted("%" + width + "d", [Word(bits)]) == spaces + number
            && Formatted("%-" + width + "d", [Word(bits)]) == number + spaces
  {
    hide Accepts, Formatted, NumberIn, Numeral, CanPrint;
    var v, width := NumberIn('d', "", bits), Numeral(w, 10, false);
    NumberBound(bits);
    FewDecimals(v);
    DecimalUnder("", w, -1, bits);
    DecimalUnder("-", w, -1, bits);
    var digits := Numeral(Magnitude(v), 10, false);
    assert Repeat('0', 0) + digits == digits;
    assert FormatText("", w, -1, "", 'd') == "%" + width + "d";
    assert FormatText("-", w, -1, "", 'd') == "%-" + width + "d";
  }

  lemma NumberBound(bits: nat)
    ensures -0x1_0000_0000 < NumberIn('d', "", bits) < 0x1_0000_0000
  {
  }

  /** `%05d` and its like, up to the buffer: zeros between the sign and the digits. */
  lemma ZeroedDecimal(w: uint32, bits: uint64)
    requires CanPrint('d', "", bits) && 0 < w <= 32
    ensures var v, width := NumberIn('d', "", bits), Numeral(w, 10, false);
            var digits := Numeral(Magnitude(v), 10, false);
            var zeros := Repeat('0', Max(w - |Minus(v)| - |digits|, 0));
            && Accepts("%0" + width + "d", [Word(bits)])
            && Formatted("%0" + width + "d", [Word(bits)]) == Minus(v) + zeros + digits
  {
    hide Accepts, Formatted, NumberIn, Numeral, CanPrint;
    var v, width := NumberIn('d', "", bits), Numeral(w, 10, false);
    NumberBound(bits);
    FewDecimals(v);
    DecimalUnder("0", w, -1, bits);
    var digits := Numeral(Magnitude(v), 10, false);
    var zeros := Repeat('0', Max(w - |Minus(v)| - |digits|, 0));
    Regroup(Minus(v), zeros, digits);
    assert |Minus(v) + zeros + digits| >= w;
    NoField(Minus(v) + zeros + digits, w);
    assert FormatText("0", w, -1, "", 'd') == "%0" + width + "d";
  }

  lemma NoField(text: string, w: nat)
    requires |text| >= w
    ensures InField(text, w, false) == text
  {
  }

  /** `%.3d` and its like, up to the buffer: at least so many digits. */
  lemma PreciseDecimal(p: uint32, bits: uint64)
    requires CanPrint('d', "", bits) && p <= 31
    ensures var v, precision := NumberIn('d', "", bits), Numeral(p, 10, false);
            var digits := if v == 0 then "" else Numeral(Magnitude(v), 10, false);
            && Accepts("%." + precision + "d", [Word(bits)])
            && Formatted("%." + precision + "d", [Word(bits)])
               == Minus(v) + Repeat('0', Max(p - |digits|, 0)) + digits
  {
    hide Accepts, Formatted, NumberIn, Numeral, CanPrint, FormatText, InField, Repeat, FlagSet;
    EmptyFlags(p);
    var v, precision := NumberIn('d', "", bits), Numeral(p, 10, false);
    NumberBound(bits);
    FewDecimals(v);
    DecimalUnder("", 0, p, bits);
    var digits := if v == 0 then "" else Numeral(Magnitude(v), 10, false);
    var zeros := Repeat('0', Max(p - |digits|, 0));
    Regroup(Minus(v), zeros, digits);
    NoField(Minus(v) + zeros + digits, 0);
    PrecisionWritten(precision, p);
  }

  lemma EmptyFlags(p: int)
    ensures FlagSet("", p) == NO_FLAGS.(precision := p >= 0)
  {
  }

  lemma PrecisionWritten(precision: string, p: nat)
    requires precision == Numeral(p, 10, false)
    ensures FormatText("", 0, p, "", 'd') == "%." + precision + "d"
  {
    hide Numeral;
  }

  /** `%+d` and `% d`: a sign for every number, or a space for none. */
  lemma SignedDecimal(bits: uint64)
    requires CanPrint('d', "", bits)
    ensures var v := NumberIn('d', "", bits);
            var digits := Numeral(Magnitude(v), 10, false);
            && Accepts("%+d", [Word(bits)]) && Accepts("% d", [Word(bits)])
            && Formatted("%+d", [Word(bits)]) == (if v < 0 then "-" else "+") + digits
            && Formatted("% d", [Word(bits)]) == (if v < 0 then "-" else " ") + digits
  {
    hide Accepts, Formatted, NumberIn, Numeral, CanPrint;
    var v := NumberIn('d', "", bits);
    NumberBound(bits);
    FewDecimals(v);
    DecimalUnder("+", 0, -1, bits);
    DecimalUnder(" ", 0, -1, bits);
    var digits := Numeral(Magnitude(v), 10, false);
    assert Repeat('0', 0) + digits == digits;
    NoField((if v < 0 then "-" else "+") + digits, 0);
    NoField((if v < 0 then "-" else " ") + digits, 0);
    assert FormatText("+", 0, -1, "", 'd') == "%+d";
    assert FormatText(" ", 0, -1, "", 'd') == "% d";
  }

  // --- Other bases ---

  /** The prefix that `#` asks for. */
  function PrefixOf(conversion: char, flags: string): string {
    if '#' !in flags then ""
    else if conversion == 'x' || conversion == 'X' then "0x"
    else if conversion == 'o' then "0"
    else "0b"
  }

  /** `%x`, `%X`, `%o` and `%b`, and with `#`, of a non-zero number that fits the buffer. */
  lemma WrittenInBase(flags: string, length: string, conversion: char, bits: uint64)
    requires (flags == "" || flags == "#") && IsLength(length)
    requires conversion == 'x' || conversion == 'X' || conversion == 'o' || conversion == 'b'
    requires NumberIn(conversion, length, bits) > 0
    ensures var format := FormatText(flags, 0, -1, length, conversion);
            var number := Numeral(NumberIn(conversion, length, bits), Radix(conversion), conversion == 'X');
            && Accepts(format, [Word(bits)])
            && (conversion != 'b' || |PrefixOf(conversion, flags)| + |number| <= 32 ==>
                  Formatted(format, [Word(bits)]) == PrefixOf(conversion, flags) + number)
  {
    hide Accepts, Formatted, NumberIn, Numeral, InField, CanPrint;
    var v := NumberIn(conversion, length, bits);
    Unsigned(conversion, length, bits);
    WrittenInteger(flags, 0, -1, length, conversion, bits);
    hide GivenFits, IsoMiddle;
    BaseMiddle(flags, conversion, v);
    NoField(PrefixOf(conversion, flags) + Numeral(v, Radix(conversion), conversion == 'X'), 0);
  }

  lemma Unsigned(conversion: char, length: string, bits: uint64)
    requires conversion == 'x' || conversion == 'X' || conversion == 'o' || conversion == 'b'
    ensures CanPrint(conversion, length, bits) && 0 <= NumberIn(conversion, length, bits) < U64
  {
  }

  lemma BaseMiddle(flags: string, conversion: char, v: int)
    requires flags == "" || flags == "#"
    requires conversion == 'x' || conversion == 'X' || conversion == 'o' || conversion == 'b'
    requires 0 < v < U64
    ensures var f, number := FlagSet(flags, -1), Numeral(v, Radix(conversion), conversion == 'X');
            && IsoMiddle(conversion, f, 0, 0, v) == PrefixOf(conversion, flags) + number
            && (conversion != 'b' || |PrefixOf(conversion, flags)| + |number| <= 32 ==>
                  GivenFits(conversion, f, 0, 0, v))
  {
    hide Numeral, DigitsOf, IsoMiddle, GivenFits, Lead, ZerosOf, FlagSet, Radix, PrefixOf, Repeat;
    var f := FlagSet(flags, -1);
    var number := Numeral(v, Radix(conversion), conversion == 'X');
    BaseParts(flags, conversion, v);
    if conversion != 'b' || |PrefixOf(conversion, flags)| + |number| <= 32 {
      BaseFits(flags, conversion, v);
    }
    MiddleShape(conversion, f, 0, v);
    Regroup(Lead(conversion, f, v), Repeat('0', ZerosOf(conversion, f, 0, v)), number);
  }

  lemma BaseParts(flags: string, conversion: char, v: int)
    requires flags == "" || flags == "#"
    requires conversion == 'x' || conversion == 'X' || conversion == 'o' || conversion == 'b'
    requires v > 0
    ensures var f := FlagSet(flags, -1);
            && DigitsOf(conversion, f, v) == Numeral(v, Radix(conversion), conversion == 'X')
            && Lead(conversion, f, v) + Repeat('0', ZerosOf(conversion, f, 0, v)) == PrefixOf(conversion, flags)
  {
    assert Repeat('0', 0) == "" && Repeat('0', 1) == "0";
    hide Numeral;
  }

  lemma BaseFits(flags: string, conversion: char, v: int)
    requires flags == "" || flags == "#"
    requires conversion == 'x' || conversion == 'X' || conversion == 'o' || conversion == 'b'
    requires 0 < v < U64
    requires conversion != 'b' ||
             |PrefixOf(conversion, flags)| + |Numeral(v, Radix(conversion), conversion == 'X')| <= 32
    ensures GivenFits(conversion, FlagSet(flags, -1), 0, 0, v)
  {
    var f := FlagSet(flags, -1);
    assert DigitsOf(conversion, f, v) == Numeral(v, Radix(conversion), conversion == 'X');
    FewDigits(conversion, f, v);
    hide Numeral, DigitsOf;
  }

  /** `%x` writes no upper-case digit, `%X` no lower-case one, under any flags, width and precision. */
  lemma WrittenCase(flags: string, w: uint32, p: int, length: string, bits: uint64, c: char)
    requires IsFlags(flags) && IsLength(length) && p < U32
    ensures var lower, upper := FormatText(flags, w, p, length, 'x'), FormatText(flags, w, p, length, 'X');
            && Accepts(lower, [Word(bits)]) && Accepts(upper, [Word(bits)])
            && ('A' <= c <= 'F' ==> c !in Formatted(lower, [Word(bits)]))
            && ('a' <= c <= 'f' ==> c !in Formatted(upper, [Word(bits)]))
  {
    hide Accepts, Formatted, NumberIn, SizeOf, LengthOf, ArgRange, IntegerText;
    var f := FlagSet(flags, p).(size := SizeOf(LengthOf(length)));
    WrittenText(flags, w, p, length, 'x', Word(bits));
    WrittenText(flags, w, p, length, 'X', Word(bits));
    if 'A' <= c <= 'F' {
      TextCase('x', f, w, Max(p, 0), bits, c);
    } else if 'a' <= c <= 'f' {
      TextCase('X', f, w, Max(p, 0), bits, c);
    }
  }

  lemma TextCase(conversion: char, f: Flags, width: nat, prec: nat, bits: uint64, c: char)
    requires !f.uppercase
    requires (conversion == 'x' && 'A' <= c <= 'F') || (conversion == 'X' && 'a' <= c <= 'f')
    ensures c !in IntegerText(conversion, f, width, prec, bits)
  {
    var v := IntegerArg(conversion, ArgRange(f.size), bits);
    assert ConversionFlags(conversion, f).uppercase == (conversion == 'X');
    NumeralCase(Magnitude(v), 16, c);
    assert BaseOf(conversion) == 16;
    hide IntField, ConversionFlags, IntegerArg, ArgRange, Numeral;
    FieldAvoids(c, Magnitude(v), v < 0, 16, prec, width, ConversionFlags(conversion, f));
  }

  // --- Pointers ---

  /** `%p` writes sixteen upper-case hexadecimal digits; with any flags and precision no lower-case digit. */
  lemma WrittenPointer(flags: string, p: int, bits: uint64, c: char)
    requires IsFlags(flags) && p < U32
    ensures var format, number := FormatText(flags, 0, p, "", 'p'), Numeral(bits, 16, true);
            && Accepts(format, [Word(bits)]) && |number| <= 16
            && (flags == "" && p < 0 ==> Formatted(format, [Word(bits)]) == Repeat('0', 16 - |number|) + number)
            && ('a' <= c <= 'f' ==> c !in Formatted(format, [Word(bits)]))
  {
    hide Accepts, Formatted, Numeral, IntField, FormatText, IsFlags, ValueFits, CanEnd, LengthOf, SizeOf;
    PointerTaken(bits);
    var f := FlagSet(flags, p);
    WrittenText(flags, 0, p, "", 'p', Word(bits));
    hide FlagSet;
    SixteenDigits();
    NumeralLength(bits, 16, true, 16);
    hide Pow;
    if 'a' <= c <= 'f' {
      NumeralCase(bits, 16, c);
      FieldAvoids(c, bits, false, 16, Max(p, 0), 16, f.(zeropad := true, uppercase := true));
    }
    if flags == "" && p < 0 {
      EmptyFlags(p);
      PlainPointer(bits, f);
    }
  }

  lemma PointerTaken(bits: uint64)
    ensures CanEnd('p') && TakesArgument('p') && IsLength("") && SizeOf(LengthOf("")) == NO_SIZE
    ensures ValueFits('p', ArgRange(NO_SIZE), [Word(bits)])
  {
  }

  lemma PlainPointer(bits: uint64, f: Flags)
    requires f == NO_FLAGS && |Numeral(bits, 16, true)| <= 16
    ensures PointerText(f, 0, bits) == Repeat('0', 16 - |Numeral(bits, 16, true)|) + Numeral(bits, 16, true)
  {
    hide Numeral;
    var g := f.(zeropad := true, uppercase := true);
    assert g.(hash := false) == g;
    var digits := StoredDigits(bits, 16, g);
    assert digits == Numeral(bits, 16, true);
    hide StoredDigits;
    FieldShape(digits, false, 16, 0, 16, g);
    var shown := Repeat('0', 16 - |digits|) + digits;
    assert "" + shown == shown && shown + Spaces(0) == shown && Spaces(0) + shown == shown;
    hide FormattedField;
  }

  // --- Fields from the arguments ---

  /** A width from the arguments is one written out, a negative one with `-` as well. */
  lemma StarWidth(d: Directive, args: seq<Arg>)
    requires Fits(d, args) && d.width == Star
    ensures args[0].Word?
    ensures var w := Signed(args[0].bits, 0x1_0000_0000);
            var e := d.(width := Number(if w < 0 then 0 - w else w), flags := d.flags.(left := d.flags.left || w < 0));
            Fits(e, args[1..]) && DirectiveText(d, args) == DirectiveText(e, args[1..])
  {
    hide ConversionText, ValueFits, Signed, SizeOf, ValueArgs, ArgRange;
    var w := Signed(args[0].bits, 0x1_0000_0000);
    var e := d.(width := Number(if w < 0 then 0 - w else w), flags := d.flags.(left := d.flags.left || w < 0));
    StarValueArgs(d, e, args);
    assert args[1..][0..] == args[1..];
    assert Fits(e, args[1..]);
    StarFields(d, e, args);
    hide Fits;
  }

  lemma StarValueArgs(d: Directive, e: Directive, args: seq<Arg>)
    requires |args| >= Arity(d) && d.width == Star && e.width != Star
    requires e.precision == d.precision && e.conversion == d.conversion
    ensures Arity(e) == Arity(d) - 1 && ValueArgs(e, args[1..]) == ValueArgs(d, args)
  {
  }

  lemma StarFields(d: Directive, e: Directive, args: seq<Arg>)
    requires Fits(d, args) && d.width == Star && Fits(e, args[1..])
    requires var w := Signed(args[0].bits, 0x1_0000_0000);
             e == d.(width := Number(if w < 0 then 0 - w else w), flags := d.flags.(left := d.flags.left || w < 0))
    ensures FlagsWith(e, args[1..]) == FlagsWith(d, args) && WidthOf(e, args[1..]) == WidthOf(d, args)
    ensures PrecisionOf(e, args[1..]) == PrecisionOf(d, args)
  {
    hide ValueFits, Signed, SizeOf, ValueArgs;
    assert args[1..][0..] == args[1..];
  }

  /** A directive with a `*` for its width. */
  function StarText(flags: string, p: int, length: string, conversion: char): string {
    "%" + (flags + ("*" + (PrecisionText(p) + (length + [conversion]))))
  }

  /** Any int but the least is accepted for a `*` width, and prints what that width does when it is written. */
  lemma WrittenStar(flags: string, p: int, length: string, conversion: char, bits: uint64, a: Arg)
    requires IsFlags(flags) && IsLength(length) && CanEnd(conversion) && p < U32 && TakesArgument(conversion)
    requires ValueFits(conversion, ArgRange(SizeOf(LengthOf(length))), [a])
    requires CanPrint('d', "", bits)
    ensures var format := StarText(flags, p, length, conversion);
            var written := AsWritten(flags, NumberIn('d', "", bits), p, length, conversion);
            && Accepts(format, [Word(bits), a]) && Accepts(written, [a])
            && Formatted(format, [Word(bits), a]) == Formatted(written, [a])
  {
    hide Accepts, Formatted, ConversionText, CanEnd, ValueFits, FormatText, Signed, IsLength, DirectiveText, Arity,
         Fits, FlagSet, TakesArgument, SizeOf, LengthOf, NumberIn, Spelt, StarText, IsFlags, CanPrint,
         ArgRange;
    var w := NumberIn('d', "", bits);
    SignedWidth(bits);
    MinusFlag(flags);
    WrittenText(if w < 0 then flags + "-" else flags, if w < 0 then 0 - w else w, p, length, conversion, a);
    StarParsedAs(flags, p, length, conversion);
    StarSpelt(flags, p, length, conversion, bits, a);
    var d := Spelt(flags, 0, p, length, conversion).(width := Star);
    Formats.OneDirective(StarText(flags, p, length, conversion), d, [Word(bits), a]);
  }

  /** A width as it is written: a negative one with `-` and its magnitude. */
  function AsWritten(flags: string, w: int, p: int, length: string, conversion: char): string {
    if w < 0 then FormatText(flags + "-", 0 - w, p, length, conversion) else FormatText(flags, w, p, length, conversion)
  }

  lemma SignedWidth(bits: uint64)
    requires CanPrint('d', "", bits)
    ensures NumberIn('d', "", bits) == Signed(bits, 0x1_0000_0000) && -0x8000_0000 < Signed(bits, 0x1_0000_0000)
  {
    SignedLow(bits, 0x1_0000_0000);
    hide Signed;
  }

  lemma MinusFlag(flags: string)
    requires IsFlags(flags)
    ensures IsFlags(flags + "-")
    ensures forall p: int :: FlagSet(flags + "-", p) == FlagSet(flags, p).(left := true)
  {
    assert forall c: char :: c in flags + "-" <==> c in flags || c == '-';
  }

  lemma StarParsedAs(flags: string, p: int, length: string, conversion: char)
    requires IsFlags(flags) && IsLength(length) && CanEnd(conversion) && p < U32
    ensures var text := StarText(flags, p, length, conversion);
            && text != "" && text[0] == '%'
            && DirectiveAt(text[1..]) == (Spelt(flags, 0, p, length, conversion).(width := Star), "")
  {
    hide FieldAt, PrecisionAt, LengthAt, SpellPrecision, SpellLength, FlagsOf, Numeral, CanEnd, IsLength, LengthOf;
    var d := Spelt(flags, 0, p, length, conversion).(flags := NO_FLAGS, width := Star);
    var s4 := [conversion];
    var s3, s2 := length + s4, PrecisionText(p) + (length + s4);
    var s1 := "*" + s2;
    SectionTexts(0, p, length, conversion);
    StarCanonical(p, length, conversion);
    FieldsRoundTrip(d, s4, s3, s2, s1);
    FlagRunAppend(flags, s1);
    assert (flags + s1)[..|flags|] == flags && (flags + s1)[|flags|..] == s1;
    assert StarText(flags, p, length, conversion)[1..] == flags + s1;
  }

  lemma StarCanonical(p: int, length: string, conversion: char)
    requires CanEnd(conversion) && p < U32
    ensures Canonical(Spelt("", 0, p, length, conversion).(flags := NO_FLAGS, width := Star))
  {
  }

  lemma StarSpelt(flags: string, p: int, length: string, conversion: char, bits: uint64, a: Arg)
    requires p < U32 && CanEnd(conversion) && TakesArgument(conversion)
    requires ValueFits(conversion, ArgRange(SizeOf(LengthOf(length))), [a])
    requires -0x8000_0000 < Signed(bits, 0x1_0000_0000)
    ensures var d, args := Spelt(flags, 0, p, length, conversion).(width := Star), [Word(bits), a];
            var w := Signed(bits, 0x1_0000_0000);
            var f := FlagSet(flags, p);
            var g := (if w < 0 then f.(left := true) else f).(size := SizeOf(LengthOf(length)));
            && Fits(d, args) && Arity(d) == 2 && d.conversion != '\0'
            && DirectiveText(d, args) == ConversionText(conversion, g, if w < 0 then 0 - w else w, Max(p, 0), [a])
  {
    hide ConversionText, ValueFits, CanEnd, LengthOf, SizeOf, Signed;
    var d, args := Spelt(flags, 0, p, length, conversion).(width := Star), [Word(bits), a];
    assert ValueArgs(d, args) == [a];
    assert args[1..] == [a];
    assert d.conversion != '\0' by { EndNotNul(conversion); }
    var w, f := Signed(bits, 0x1_0000_0000), FlagSet(flags, p);
    assert FlagsWith(d, args) == (if w < 0 then f.(left := true) else f).(size := SizeOf(LengthOf(length)));
  }

  lemma EndNotNul(conversion: char)
    requires CanEnd(conversion)
    ensures conversion != '\0'
  {
    assert "\0-+ #*.lhtjz"[0] == '\0';
  }

  /** A precision from the arguments is one written out, a negative one is zero; a dot alone is zero too. */
  lemma StarPrecisionWritten(d: Directive, args: seq<Arg>)
    requires Fits(d, args) && d.width != Star
    ensures d.precision == Precision(Star) ==>
              && args[0].Word?
              && var p := Signed(args[0].bits, 0x1_0000_0000);
                 var e := d.(precision := Precision(Number(if p < 0 then 0 else p)));
                 Fits(e, args[1..]) && DirectiveText(d, args) == DirectiveText(e, args[1..])
    ensures d.precision == Precision(Absent) ==>
              var e := d.(precision := Precision(Number(0)));
              Fits(e, args) && DirectiveText(d, args) == DirectiveText(e, args)
  {
    hide ConversionText, ValueFits, Signed, SizeOf;
    assert args[0..] == args;
    if d.precision == Precision(Star) {
      var p := Signed(args[0].bits, 0x1_0000_0000);
      var e := d.(precision := Precision(Number(if p < 0 then 0 else p)));
      assert ValueArgs(e, args[1..]) == ValueArgs(d, args);
      assert Fits(e, args[1..]);
      assert FlagsWith(e, args[1..]) == FlagsWith(d, args) && WidthOf(e, args[1..]) == WidthOf(d, args);
      assert PrecisionOf(e, args[1..]) == PrecisionOf(d, args);
    } else if d.precision == Precision(Absent) {
      var e := d.(precision := Precision(Number(0)));
      assert ValueArgs(e, args) == ValueArgs(d, args);
      assert FlagsWith(e, args) == FlagsWith(d, args) && WidthOf(e, args) == WidthOf(d, args);
    }
  }

  // --- Instances ---

  /** `%X` and `%x` of 0xAB, and `%#lX` of it. */
  lemma HexInstances()
    ensures Accepts("%X", [Word(0xAB)]) && Formatted("%X", [Word(0xAB)]) == "AB"
    ensures Accepts("%x", [Word(0xAB)]) && Formatted("%x", [Word(0xAB)]) == "ab"
    ensures Accepts("%#lX", [Word(0xAB)]) && Formatted("%#lX", [Word(0xAB)]) == "0xAB"
  {
    hide Accepts, Formatted, Numeral;
    HexAB();
    WrittenInBase("", "", 'X', 0xAB);
    WrittenInBase("", "", 'x', 0xAB);
    WrittenInBase("#", "l", 'X', 0xAB);
    assert FormatText("", 0, -1, "", 'X') == "%X" && FormatText("", 0, -1, "", 'x') == "%x";
    assert FormatText("#", 0, -1, "l", 'X') == "%#lX";
  }

  lemma HexAB()
    ensures Numeral(0xAB, 16, true) == "AB" && Numeral(0xAB, 16, false) == "ab"
  {
    assert 0xAB / 16 == 10 && 0xAB % 16 == 11;
    assert Numeral(10, 16, true) == "A" && Numeral(10, 16, false) == "a";
  }
}
