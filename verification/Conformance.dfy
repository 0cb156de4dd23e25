/** Directives and their arguments as the standard reads them, against what the formatter prints. */
module Conformance {
  import opened Text
  import opened Words
  import opened Numerals
  import opened Directives
  import opened Fields
  import opened Rendering
  import opened Laws
  import opened HashLaws
  import Formats

  // --- The standard's text of a directive (ISO/IEC 9899:2011, 7.21.6.1) ---

  /** A negative `*` precision, which the standard takes as if the precision were left out. */
  predicate OmitsPrecision(d: Directive, args: seq<Arg>)
    requires Fits(d, args)
  {
    d.precision.Precision? && FieldValue(d.precision.field, args[Count(d.width == Star)..]) < 0
  }

  /** The flags as the standard has them: without a precision when that is left out. */
  function IsoFlags(d: Directive, args: seq<Arg>): Flags
    requires Fits(d, args)
  {
    var f := FlagsWith(d, args);
    f.(precision := f.precision && !OmitsPrecision(d, args))
  }

  predicate Marked(conversion: char, f: Flags) {
    f.hash && TakesMark(conversion)
  }

  /** An integer between its spaces. */
  function IsoMiddle(conversion: char, f: Flags, width: nat, prec: nat, v: int): string
    requires !IsSigned(conversion) ==> v >= 0
  {
    if Marked(conversion, f) then IsoMarkedText(conversion, f, width, prec, v)
    else SignOf(conversion, f, v) + Spelled(MinDigits(conversion, f, width, prec, v), DigitsOf(conversion, f, v))
  }

  /** The text of an integer or string directive. */
  function IsoDirective(d: Directive, args: seq<Arg>): string
    requires Fits(d, args) && (IsInteger(d.conversion) || d.conversion == 's')
  {
    var f, width, prec, a := IsoFlags(d, args), WidthOf(d, args), PrecisionOf(d, args), ValueArgs(d, args)[0];
    if d.conversion == 's' then StringText(f, width, prec, a.s)
    else
      var v := IntegerArg(d.conversion, ArgRange(f.size), a.bits);
      Justified(IsoMiddle(d.conversion, f, width, prec, v), width, f)
  }

  // --- When it is what the formatter prints ---

  /** An integer with the precision it was given. */
  predicate GivenFits(conversion: char, f: Flags, width: nat, prec: nat, v: int)
    requires !IsSigned(conversion) ==> v >= 0
  {
    if Marked(conversion, f) then HashFits(conversion, f, width, prec, v)
    else FitsBuffer(conversion, f, width, prec, v) || SpaceForSpace(conversion, f, width, prec, v)
  }

  /** How many characters `#` puts in front of a number. */
  function MarkSize(conversion: char, f: Flags): nat {
    if !Marked(conversion, f) then 0 else if BaseOf(conversion) == 8 then 1 else 2
  }

  /**
   An integer whose precision the standard leaves out, and the formatter takes as zero: it must
   not be zero, which vanishes, nor need the zeros of the `0` flag, which a precision cancels.
   */
  predicate OmittedFits(conversion: char, f: Flags, width: nat, v: int) {
    var n := MarkSize(conversion, f) + |DigitsOf(conversion, f, v)|;
    && v != 0
    && (conversion == 'b' ==> n <= BUFFER_SIZE)
    && (ZeroPads(f) ==> width <= |SignOf(conversion, f, v)| + n)
  }

  /**
   An integer directive prints the standard's text exactly under `GivenFits`, or under
   `OmittedFits` when its precision is a negative argument.
   */
  lemma IntegerByStandard(d: Directive, args: seq<Arg>)
    requires Fits(d, args) && IsInteger(d.conversion) && !d.flags.uppercase
    ensures var f, width := IsoFlags(d, args), WidthOf(d, args);
            var v := IntegerArg(d.conversion, ArgRange(f.size), ValueArgs(d, args)[0].bits);
            DirectiveText(d, args) == IsoDirective(d, args)
            <==> if OmitsPrecision(d, args) then OmittedFits(d.conversion, f, width, v)
                 else GivenFits(d.conversion, f, width, PrecisionOf(d, args), v)
  {
    var c, f, width, prec := d.conversion, FlagsWith(d, args), WidthOf(d, args), PrecisionOf(d, args);
    var bits := ValueArgs(d, args)[0].bits;
    hide ValueArgs, WidthOf, IntegerArg, ArgRange, IntegerText, GivenFits, OmittedFits, IsoMiddle, Justified, IsInteger;
    assert Parsed(f, prec);
    if OmitsPrecision(d, args) {
      assert f == IsoFlags(d, args).(precision := true) && prec == 0;
      OmittedInteger(c, IsoFlags(d, args), width, bits);
    } else {
      assert f == IsoFlags(d, args);
      GivenInteger(c, f, width, prec, bits);
    }
  }

  /** Every directive of a format is one that the theorem above is about: none is upper case before its conversion. */
  lemma {:induction false} ParsedLower(s: string)
    ensures forall d :: Conversion(d) in Parse(s) ==> !d.flags.uppercase
    decreases |s|
  {
    if s != "" {
      ParsedLower(if s[0] != '%' then s[1..] else DirectiveAt(s[1..]).1);
    }
    hide DirectiveAt, FieldAt, PrecisionAt, LengthAt, FlagRun;
  }

  lemma GivenInteger(conversion: char, f: Flags, width: nat, prec: nat, bits: uint64)
    requires IsInteger(conversion) && Parsed(f, prec)
    ensures var v := IntegerArg(conversion, ArgRange(f.size), bits);
            IntegerText(conversion, f, width, prec, bits)
            == Justified(IsoMiddle(conversion, f, width, prec, v), width, f)
            <==> GivenFits(conversion, f, width, prec, v)
  {
    hide IntegerArg, ArgRange, IntegerText, FitsBuffer, SpaceForSpace, HashFits, IsoMarkedText, SignOf, MinDigits,
         DigitsOf, Spelled, Justified;
    if Marked(conversion, f) {
      HashLayout(conversion, f, width, prec, bits);
    } else {
      IntegerConforms(conversion, f, width, prec, bits);
    }
  }

  lemma OmittedInteger(conversion: char, f: Flags, width: nat, bits: uint64)
    requires IsInteger(conversion) && !f.precision && !f.uppercase
    ensures var v := IntegerArg(conversion, ArgRange(f.size), bits);
            IntegerText(conversion, f.(precision := true), width, 0, bits)
            == Justified(IsoMiddle(conversion, f, width, 0, v), width, f)
            <==> OmittedFits(conversion, f, width, v)
  {
    hide IntegerArg, ArgRange, IntegerText, GivenFits, OmittedFits, IsoMiddle, Justified;
    var v := IntegerArg(conversion, ArgRange(f.size), bits);
    GivenInteger(conversion, f.(precision := true), width, 0, bits);
    PrintedSolid(conversion, f.(precision := true), width, bits);
    if v == 0 {
      ZeroVanishes(conversion, f, width, bits);
      ZeroStands(conversion, f, width);
    } else {
      OmittedMiddle(conversion, f, width, v);
    }
  }

  /** What the formatter prints besides spaces fits its buffer. */
  lemma PrintedSolid(conversion: char, f: Flags, width: nat, bits: uint64)
    ensures |NoSpaces(IntegerText(conversion, f, width, 0, bits))| <= BUFFER_SIZE
  {
    hide IntegerArg, ArgRange, BaseOf, StoredDigits, Content, Aligned, InnerWidth, NoSpaces, ConversionFlags;
    var v := IntegerArg(conversion, ArgRange(f.size), bits);
    var base, g := BaseOf(conversion), ConversionFlags(conversion, f);
    var h := if Magnitude(v) == 0 then g.(hash := false) else g;
    var inner := InnerWidth(width, v < 0, h);
    var content := Content(StoredDigits(Magnitude(v), base, h), v < 0, base, 0, inner, h);
    ContentBound(StoredDigits(Magnitude(v), base, h), v < 0, base, 0, inner, h);
    AlignedSolid(content, inner, h);
    NoSpacesLength(content);
  }

  lemma ContentBound(digits: string, negative: bool, base: nat, prec: nat, width: nat, f: Flags)
    requires |digits| <= BUFFER_SIZE
    ensures |Content(digits, negative, base, prec, width, f)| <= BUFFER_SIZE
  {
    assert |Padded(digits, prec, width, f)| <= BUFFER_SIZE;
    hide Padded, Cut;
    CutDrops(Padded(digits, prec, width, f), base, prec, width, f);
  }

  // --- Zero ---

  lemma ZeroVanishes(conversion: char, f: Flags, width: nat, bits: uint64)
    requires !f.precision && IntegerArg(conversion, ArgRange(f.size), bits) == 0
    ensures '0' !in IntegerText(conversion, f.(precision := true), width, 0, bits)
  {
    hide IntegerArg, ArgRange, BaseOf;
    var g := ConversionFlags(conversion, f.(precision := true)).(hash := false);
    var inner := InnerWidth(width, false, g);
    hide InnerWidth;
    assert Padded("", 0, inner, g) == "";
    assert Content("", false, BaseOf(conversion), 0, inner, g) == SignText(false, g) + "";
    hide Content;
    AlignedShape(SignText(false, g) + "", inner, g);
  }

  lemma ZeroStands(conversion: char, f: Flags, width: nat)
    requires IsInteger(conversion) && !f.precision
    ensures '0' in Justified(IsoMiddle(conversion, f, width, 0, 0), width, f)
    ensures !OmittedFits(conversion, f, width, 0)
  {
    assert DigitsOf(conversion, f, 0) == "0";
    hide DigitsOf, BaseOf, MinDigits, SignOf, Prefix;
    assert '0' in IsoMiddle(conversion, f, width, 0, 0);
    hide IsoMiddle;
  }

  // --- Other numbers ---

  /** What stands in front of the zeros and digits. */
  function Lead(conversion: char, f: Flags, v: int): string {
    if Marked(conversion, f) then Prefix(conversion) else SignOf(conversion, f, v)
  }

  /** The zeros between them, without a precision. */
  function ZerosOf(conversion: char, f: Flags, width: nat, v: int): nat {
    var d := |DigitsOf(conversion, f, v)|;
    var least := if ZeroPads(f) then width - |Lead(conversion, f, v)| else 0;
    Max(least - d, if Marked(conversion, f) && BaseOf(conversion) == 8 then 1 else 0)
  }

  lemma MiddleShape(conversion: char, f: Flags, width: nat, v: int)
    requires IsInteger(conversion) && v != 0 && (!IsSigned(conversion) ==> v >= 0)
    ensures var digits := DigitsOf(conversion, f, v);
            && IsoMiddle(conversion, f, width, 0, v)
               == Lead(conversion, f, v) + (Repeat('0', ZerosOf(conversion, f, width, v)) + digits)
            && digits != "" && ' ' !in digits
  {
    NonZeroDigits(conversion, f, v);
    MarkedMinimum(conversion, f, width, v);
    hide DigitsOf, BaseOf, SignOf, Prefix, Repeat, MinDigits;
  }

  lemma NonZeroDigits(conversion: char, f: Flags, v: int)
    requires v != 0
    ensures var digits := DigitsOf(conversion, f, v);
            digits != "" && digits[0] != '0' && ' ' !in digits
  {
    var base, upper := BaseOf(conversion), conversion == 'X';
    NumeralReads(Magnitude(v), base, upper);
    NumeralLeads(Magnitude(v), base, upper);
    NoDigitSpace(Numeral(Magnitude(v), base, upper), base);
    hide Numeral, Value, AllDigits;
  }

  lemma MarkedMinimum(conversion: char, f: Flags, width: nat, v: int)
    requires IsInteger(conversion) && (!IsSigned(conversion) ==> v >= 0)
    ensures MinDigits(conversion, f, width, 0, v) == if ZeroPads(f) then width - |SignOf(conversion, f, v)| else 0
    ensures Marked(conversion, f) ==>
              SignOf(conversion, f, v) == "" && |Prefix(conversion)| == (if BaseOf(conversion) == 8 then 0 else 2)
    ensures BaseOf(conversion) == 8 ==> Prefix(conversion) == ""
  {
  }

  /** The standard's text against the one with a precision of zero. */
  lemma OmittedMiddle(conversion: char, f: Flags, width: nat, v: int)
    requires IsInteger(conversion) && !f.precision && v != 0 && (!IsSigned(conversion) ==> v >= 0)
    requires Magnitude(v) < U64
    ensures var g := f.(precision := true);
            var iso := Justified(IsoMiddle(conversion, f, width, 0, v), width, f);
            var given := Justified(IsoMiddle(conversion, g, width, 0, v), width, g);
            && (GivenFits(conversion, g, width, 0, v) ==> (given == iso <==> OmittedFits(conversion, f, width, v)))
            && (!GivenFits(conversion, g, width, 0, v) ==>
                  !OmittedFits(conversion, f, width, v) && |NoSpaces(iso)| > BUFFER_SIZE)
  {
    var g := f.(precision := true);
    var digits, lead := DigitsOf(conversion, f, v), Lead(conversion, f, v);
    SameParts(conversion, f, width, v);
    GivenWhen(conversion, g, width, v);
    MiddleShape(conversion, f, width, v);
    MiddleShape(conversion, g, width, v);
    OmittedCount(conversion, f, width, v);
    hide GivenFits, OmittedFits, IsoMiddle, Justified, NoSpaces, Lead, DigitsOf, ZerosOf, Repeat, MarkSize, BaseOf;
    var z, z0 := ZerosOf(conversion, f, width, v), ZerosOf(conversion, g, width, v);
    MiddleSolid(lead, z, digits, width, f);
    MiddleSolid(lead, z0, digits, width, g);
    SameJustified(IsoMiddle(conversion, g, width, 0, v), width, f, g);
  }

  lemma SameJustified(text: string, width: nat, f: Flags, g: Flags)
    requires f.left == g.left
    ensures Justified(text, width, f) == Justified(text, width, g)
  {
  }

  /** A precision of zero changes neither the digits nor the lead of a non-zero number. */
  lemma SameParts(conversion: char, f: Flags, width: nat, v: int)
    requires v != 0
    ensures var g := f.(precision := true);
            && DigitsOf(conversion, g, v) == DigitsOf(conversion, f, v)
            && Lead(conversion, g, v) == Lead(conversion, f, v)
            && MarkSize(conversion, g) == MarkSize(conversion, f)
  {
    hide BaseOf, Numeral;
  }

  /** With a precision of zero only a long binary number overfills the buffer. */
  lemma GivenWhen(conversion: char, g: Flags, width: nat, v: int)
    requires IsInteger(conversion) && v != 0 && (!IsSigned(conversion) ==> v >= 0) && Magnitude(v) < U64
    requires g.precision
    ensures GivenFits(conversion, g, width, 0, v)
            <==> (conversion == 'b' ==> MarkSize(conversion, g) + |DigitsOf(conversion, g, v)| <= BUFFER_SIZE)
  {
    FewDigits(conversion, g, v);
    hide DigitsOf;
  }

  lemma FewDigits(conversion: char, f: Flags, v: int)
    requires Magnitude(v) < U64
    ensures conversion != 'b' ==> |DigitsOf(conversion, f, v)| <= 22
  {
    var g := f.(uppercase := conversion == 'X');
    StoredExactly(Magnitude(v), g);
    assert conversion != 'b' ==> BaseOf(conversion) != 2;
    assert DigitsOf(conversion, f, v) == IsoDigits(Magnitude(v), BaseOf(conversion), g);
    hide Value, StoredDigits, Numeral, IsoDigits, DigitsOf, BaseOf;
  }

  lemma OmittedCount(conversion: char, f: Flags, width: nat, v: int)
    requires IsInteger(conversion) && !f.precision && v != 0 && (!IsSigned(conversion) ==> v >= 0)
    ensures var d := |DigitsOf(conversion, f, v)|;
            var z, z0 := ZerosOf(conversion, f, width, v), ZerosOf(conversion, f.(precision := true), width, v);
            && z0 <= z
            && (OmittedFits(conversion, f, width, v)
                <==> z == z0 && (conversion == 'b' ==> MarkSize(conversion, f) + d <= BUFFER_SIZE))
            && (conversion == 'b' ==> |NoSpaces(Lead(conversion, f, v))| + z0 == MarkSize(conversion, f))
  {
    SameParts(conversion, f, width, v);
    NoSpacesId("0b");
    hide DigitsOf, NoSpaces;
    NoSpacesLength("");
  }

  /** A text with a lead, zeros and digits in its field holds them all but for a space that is its lead. */
  lemma MiddleSolid(lead: string, zeros: nat, digits: string, width: nat, f: Flags)
    requires ' ' !in digits
    ensures |NoSpaces(Justified(lead + (Repeat('0', zeros) + digits), width, f))| == |NoSpaces(lead)| + zeros + |digits|
  {
    var shown := Repeat('0', zeros) + digits;
    NoSpacesId(shown);
    NoSpacesAppend(lead, shown);
    JustifiedSolid(lead + shown, width, f);
    hide NoSpaces, Justified;
  }

  /**
   The prefix of `%#X` is in lower case, which the formatter's authors want and the texts above
   take over: nothing that `%X` prints has the standard's capital letter.
   */
  lemma LowerPrefix(f: Flags, width: nat, prec: nat, bits: uint64)
    ensures 'X' !in IntegerText('X', f, width, prec, bits)
  {
    var v := IntegerArg('X', ArgRange(f.size), bits);
    hide IntField, ConversionFlags, BaseOf, IntegerArg, ArgRange;
    NumeralAvoids(Magnitude(v), BaseOf('X'), ConversionFlags('X', f).uppercase, 'X');
    FieldAvoids('X', Magnitude(v), v < 0, BaseOf('X'), prec, width, ConversionFlags('X', f));
  }

  // --- Strings ---

  /**
   A string directive prints the standard's text exactly when its precision is not left out, or
   its string is nothing but spaces, at most as many as the field has.
   */
  lemma StringByStandard(d: Directive, args: seq<Arg>)
    requires Fits(d, args) && d.conversion == 's'
    ensures var s := ValueArgs(d, args)[0].s;
            DirectiveText(d, args) == IsoDirective(d, args)
            <==> (OmitsPrecision(d, args) ==> |s| <= WidthOf(d, args) && forall c <- s :: c == ' ')
  {
    hide ValueArgs, WidthOf, StringText;
    var f, width, prec, s := FlagsWith(d, args), WidthOf(d, args), PrecisionOf(d, args), ValueArgs(d, args)[0].s;
    if OmitsPrecision(d, args) {
      OmittedString(f, width, s);
    } else {
      assert f == IsoFlags(d, args);
    }
  }

  lemma OmittedString(f: Flags, width: nat, s: string)
    requires f.precision
    ensures StringText(f, width, 0, s) == StringText(f.(precision := false), width, 0, s)
            <==> |s| <= width && forall c <- s :: c == ' '
  {
    var g := f.(precision := false);
    var blank := Justified("", width, f);
    assert |blank| == width && forall c <- blank :: c == ' ';
    assert s[..0] == "";
    var text := Justified(s, width, g);
    if |s| <= width {
      forall c | c in s ensures c in text {
      }
      assert |text| == |blank|;
      if forall c <- s :: c == ' ' {
        forall i | 0 <= i < width ensures text[i] == ' ' {
          var k := if g.left then i else i - (width - |s|);
          assert 0 <= k < |s| ==> s[k] in s && text[i] == s[k];
        }
        assert text == blank;
      }
    } else {
      assert |text| == |s|;
    }
  }

  // --- A negative precision ---

  /** The directive `%.*` with a conversion, which takes its precision from an argument. */
  function StarPrecision(conversion: char): Directive {
    Directive(NO_FLAGS, Absent, Precision(Star), NoLength, conversion)
  }

  function MinusOne(): Arg { Word(U32 - 1) }

  lemma StarParsed(conversion: char, s: string)
    requires (conversion == 'd' && s == ".*d") || (conversion == 's' && s == ".*s")
    ensures DirectiveAt(s) == (StarPrecision(conversion), "")
  {
    var d := StarPrecision(conversion);
    hide DirectiveAt;
    assert Spell(d) == s;
    ParsePrint(d, "");
    assert s + "" == s;
  }

  lemma MinusOneOmits(conversion: char, a: Arg)
    requires (conversion == 'd' && a == Word(0)) || (conversion == 's' && a == Str("abc"))
    ensures var d, args := StarPrecision(conversion), [MinusOne(), a];
            && Fits(d, args) && Arity(d) == 2 && OmitsPrecision(d, args) && ValueArgs(d, args) == [a]
            && WidthOf(d, args) == 0 == PrecisionOf(d, args)
            && FlagsWith(d, args) == NO_FLAGS.(precision := true) && IsoFlags(d, args) == NO_FLAGS
  {
    var d, args := StarPrecision(conversion), [MinusOne(), a];
    assert StarValue(MinusOne()) == -1;
    assert ValueArgs(d, args) == [a];
    assert args[0..] == args;
  }

  lemma ZeroTexts()
    ensures IntegerText('d', NO_FLAGS.(precision := true), 0, 0, 0) == ""
    ensures Justified(IsoMiddle('d', NO_FLAGS, 0, 0, 0), 0, NO_FLAGS) == "0"
    ensures FitsBuffer('d', NO_FLAGS.(precision := true), 0, 0, 0)
  {
    var f := NO_FLAGS.(precision := true);
    assert IntegerArg('d', ArgRange(f.size), 0) == 0;
    assert StoredDigits(0, 10, f) == "";
    assert Content("", false, 10, 0, 0, f) == "";
    assert DigitsOf('d', NO_FLAGS, 0) == "0" && DigitsOf('d', f, 0) == "";
    hide IntegerArg, StoredDigits, Content, DigitsOf;
    assert Spelled(0, "0") == "0";
    assert IsoMiddle('d', NO_FLAGS, 0, 0, 0) == "0";
  }

  lemma AbcTexts()
    ensures StringText(NO_FLAGS.(precision := true), 0, 0, "abc") == ""
    ensures StringText(NO_FLAGS, 0, 0, "abc") == "abc"
  {
    assert "abc"[..0] == "";
  }

  /** `%.*d` of -1 and 0 prints nothing, which fits the buffer, where the standard prints `0`. */
  lemma NegativePrecision()
    ensures var d, args := StarPrecision('d'), [MinusOne(), Word(0)];
            && Accepts("%.*d", args) && Formatted("%.*d", args) == ""
            && Fits(d, args) && FitsBuffer('d', FlagsWith(d, args), WidthOf(d, args), PrecisionOf(d, args), 0)
            && IsoDirective(d, args) == "0"
  {
    hide DirectiveAt, Fits, Arity, Accepts, Formatted, OmitsPrecision, MinusOne, ValueArgs, WidthOf, PrecisionOf,
         FlagsWith, IsoFlags, IntegerText, IsoMiddle, FitsBuffer, Justified;
    var d, args := StarPrecision('d'), [MinusOne(), Word(0)];
    MinusOneOmits('d', Word(0));
    ZeroTexts();
    assert IntegerArg('d', ArgRange(NO_FLAGS.size), 0) == 0;
    assert DirectiveText(d, args) == "" && IsoDirective(d, args) == "0";
    hide DirectiveText, IsoDirective, StarPrecision;
    assert "%.*d"[1..] == ".*d";
    StarParsed('d', ".*d");
    Formats.OneDirective("%.*d", d, args);
  }

  /** `%.*s` of -1 and `abc` prints nothing where the standard prints `abc`. */
  lemma NegativeStringPrecision()
    ensures var d, args := StarPrecision('s'), [MinusOne(), Str("abc")];
            && Accepts("%.*s", args) && Formatted("%.*s", args) == ""
            && Fits(d, args) && IsoDirective(d, args) == "abc"
  {
    hide DirectiveAt, Fits, Arity, Accepts, Formatted, OmitsPrecision, MinusOne, ValueArgs, WidthOf, PrecisionOf,
         FlagsWith, IsoFlags, StringText;
    var d, args := StarPrecision('s'), [MinusOne(), Str("abc")];
    MinusOneOmits('s', Str("abc"));
    AbcTexts();
    assert DirectiveText(d, args) == "" && IsoDirective(d, args) == "abc";
    hide DirectiveText, IsoDirective, StarPrecision;
    assert "%.*s"[1..] == ".*s";
    StarParsed('s', ".*s");
    Formats.OneDirective("%.*s", d, args);
  }
}
