/** The `#` flag on directives: reading back, length, and the standard's layout. */
module HashLaws {
  import opened Text
  import opened Words
  import opened Numerals
  import opened Directives
  import opened Fields
  import opened Rendering
  import opened Laws

  /** The conversions that `#` concerns: those that are not decimal. */
  predicate TakesMark(conversion: char) {
    conversion == 'x' || conversion == 'X' || conversion == 'o' || conversion == 'b'
  }

  // --- Reading back ---

  /** Whether `#` takes back a digit of a number of `d` digits: the field is just full. */
  predicate JustFull(d: nat, base: nat, width: nat, f: Flags) {
    !f.precision
    && if ZeroPads(f) then width <= BUFFER_SIZE && (d == width || (base == 16 && d + 1 == width)) else d == width
  }

  /** Whether the digits left of a number of `d` digits leave room for half of a prefix of two characters. */
  predicate HalfPrefix(d: nat, base: nat, prec: nat, width: nat, f: Flags) {
    var shown := ShownDigits(d, prec, width, f.(zeropad := ZeroPads(f)));
    base != 8 && if f.precision || shown != width then shown == BUFFER_SIZE - 1 else base == 2 && shown == BUFFER_SIZE
  }

  /**
   Reading back what a directive with `#` printed fails exactly when a binary number has more
   than 32 digits, or when a non-zero number just fills its field, or has digits that leave room
   in the buffer for half the prefix.
   */
  lemma HashDirective(conversion: char, f: Flags, width: nat, prec: nat, bits: uint64)
    requires TakesMark(conversion) && f.hash && Parsed(f, prec)
    ensures var v := IntegerArg(conversion, ArgRange(f.size), bits);
            var base := BaseOf(conversion);
            var d := |DigitsOf(conversion, f, v)|;
            ReadMarked(IntegerText(conversion, f, width, prec, bits), base) == v
            <==> (base == 2 ==> v < U32)
                 && (v > 0 ==> !JustFull(d, base, width, f) && !HalfPrefix(d, base, prec, width, f))
  {
    var v := IntegerArg(conversion, ArgRange(f.size), bits);
    assert v < U64;
    hide IntegerArg, ArgRange, ReadMarked, IntField, ConversionFlags;
    if v == 0 {
      ZeroMarked(BaseOf(conversion), prec, width, ConversionFlags(conversion, f));
    } else {
      HashText(conversion, f, width, prec, v);
    }
  }

  lemma HashText(conversion: char, f: Flags, width: nat, prec: nat, v: uint64)
    requires TakesMark(conversion) && f.hash && Parsed(f, prec) && v > 0
    ensures var base := BaseOf(conversion);
            var d := |DigitsOf(conversion, f, v)|;
            ReadMarked(IntField(v, false, base, prec, width, ConversionFlags(conversion, f)), base) == v
            <==> (base == 2 ==> v < U32) && !JustFull(d, base, width, f) && !HalfPrefix(d, base, prec, width, f)
  {
    hide ConversionFlags, BaseOf, ReadMarked, IntField, Pow, JustFull, HalfPrefix, Numeral, DigitsOf, ShownDigits,
         CutCount, InnerWidth, IsoDigits;
    var base, g := BaseOf(conversion), ConversionFlags(conversion, f);
    Adjusted(conversion, f, v);
    MarkBases(conversion);
    HashReads(v, base, prec, width, g);
    Bounds(v, base);
    if v < Pow(base, BUFFER_SIZE) {
      NumeralLength(v, base, g.uppercase, BUFFER_SIZE);
      PlainInner(width, g);
      WhenCut(|Numeral(v, base, g.uppercase)|, base, prec, width, f, g);
    }
  }

  /** The flags of a conversion with `#`, and the digits of a non-zero number under them. */
  lemma Adjusted(conversion: char, f: Flags, v: nat)
    requires TakesMark(conversion) && v > 0 && f.hash && !f.uppercase
    ensures var g := ConversionFlags(conversion, f);
            && g.hash && !g.plus && !g.space && g.precision == f.precision && g.left == f.left
            && g.zeropad == (f.zeropad && !f.precision)
            && DigitsOf(conversion, f, v) == Numeral(v, BaseOf(conversion), g.uppercase)
  {
    hide Numeral;
  }

  lemma PlainInner(width: nat, g: Flags)
    requires !g.plus && !g.space
    ensures InnerWidth(width, false, g) == width
  {
  }

  /** When reading back works, by the number of digits shown and the number taken back. */
  lemma HashReads(v: nat, base: nat, prec: nat, width: nat, g: Flags)
    requires base == 2 || base == 8 || base == 16
    requires v > 0 && g.hash
    ensures var d := |Numeral(v, base, g.uppercase)|;
            var inner := InnerWidth(width, false, g);
            var shown := ShownDigits(d, prec, inner, g);
            ReadMarked(IntField(v, false, base, prec, width, g), base) == v
            <==> && v < Pow(base, BUFFER_SIZE)
                 && !(!g.precision && (shown == prec || shown == inner) && shown - d < (if base == 16 then 2 else 1))
                 && (base == 8 || shown - CutCount(shown, base, prec, inner, g) != BUFFER_SIZE - 1)
  {
    hide ReadMarked, IntField, Pow, LosesDigits, CutDigits, StoredDigits, Numeral, ShownDigits, CutCount, InnerWidth;
    HashRoundTrip(v, base, prec, width, g);
    if v < Pow(base, BUFFER_SIZE) {
      NumeralLength(v, base, g.uppercase, BUFFER_SIZE);
      AllStored(v, base, g);
      CutLength(v, base, prec, width, g);
    }
  }

  lemma AllStored(v: nat, base: nat, g: Flags)
    requires 2 <= base <= 16 && v > 0 && |Numeral(v, base, g.uppercase)| <= BUFFER_SIZE
    ensures StoredDigits(v, base, g) == Numeral(v, base, g.uppercase)
  {
    hide Numeral;
  }

  lemma WhenCut(d: nat, base: nat, prec: nat, width: nat, f: Flags, g: Flags)
    requires 1 <= d <= BUFFER_SIZE && Parsed(f, prec)
    requires g.precision == f.precision && g.left == f.left && g.zeropad == (f.zeropad && !f.precision)
    requires base == 2 || base == 8 || base == 16
    ensures var shown := ShownDigits(d, prec, width, g);
            var loses := !g.precision && (shown == prec || shown == width) && shown - d < (if base == 16 then 2 else 1);
            && (loses <==> JustFull(d, base, width, f))
            && (!loses ==> (HalfPrefix(d, base, prec, width, f)
                            <==> base != 8 && shown - CutCount(shown, base, prec, width, g) == BUFFER_SIZE - 1))
  {
  }

  /** A field that `#` empties: `%#2x` of 0xAB. */
  lemma HashTakesDigits()
    ensures IntegerText('x', NO_FLAGS.(hash := true), 2, 0, 0xAB) == "0x"
  {
    assert Numeral(0xAB, 16, false) == "ab" by {
      assert 0xAB / 16 == 10 && 0xAB % 16 == 11;
      assert Numeral(10, 16, false) == "a";
    }
    assert Cut("ab", 16, 0, 2, NO_FLAGS.(hash := true)) == "";
  }

  // --- Pointers ---

  /** Whether a pointer of `d` digits printed with `#` keeps its digits and its prefix whole. */
  predicate PointerReads(d: nat, prec: nat, f: Flags) {
    var inner := if !f.left && (f.plus || f.space) then 15 else 16;
    if f.precision then f.left || prec != BUFFER_SIZE - 1
    else if f.left then d != 16
    else d != inner && d + 1 != inner
  }

  /**
   Reading back a pointer printed with `#`. Without a precision the zeros make every field just
   full, so a pointer with no two zeros to give loses digits; under `-` only one of 16 digits does.
   */
  lemma PointerHash(f: Flags, prec: nat, bits: uint64)
    requires f.hash && (f.precision || prec == 0)
    ensures ReadMarked(PointerText(f, prec, bits), 16) == bits
            <==> bits == 0 || PointerReads(|Numeral(bits, 16, true)|, prec, f)
  {
    var g := f.(zeropad := true, uppercase := true);
    SixteenDigits();
    NumeralLength(bits, 16, true, 16);
    hide IntField, ReadMarked, Numeral, PointerReads;
    if bits == 0 {
      ZeroMarked(16, prec, 16, g);
    } else {
      Bounds(bits, 16);
      HashReads(bits, 16, prec, 16, g);
      hide Pow;
      PointerCut(|Numeral(bits, 16, true)|, prec, f, g);
    }
  }

  lemma PointerCut(d: nat, prec: nat, f: Flags, g: Flags)
    requires 1 <= d <= 16 && (f.precision || prec == 0) && g == f.(zeropad := true, uppercase := true)
    ensures var inner := InnerWidth(16, false, g);
            var shown := ShownDigits(d, prec, inner, g);
            PointerReads(d, prec, f)
            <==> !(!g.precision && (shown == prec || shown == inner) && shown - d < 2)
                 && shown - CutCount(shown, 16, prec, inner, g) != BUFFER_SIZE - 1
  {
  }

  /** A plain `%#p` reads back exactly below 16^14; a kernel address does not. */
  lemma PlainPointerHash(bits: uint64)
    ensures var f := NO_FLAGS.(hash := true);
            && (ReadMarked(PointerText(f, 0, bits), 16) == bits <==> bits < Pow(16, 14))
            && ReadMarked(PointerText(f, 0, 0xFFFF_FFFF_8000_0000), 16) != 0xFFFF_FFFF_8000_0000
  {
    var kernel: uint64 := 0xFFFF_FFFF_8000_0000;
    SixteenDigits();
    assert Pow(16, 14) == 0x100_0000_0000_0000;
    forall p: uint64 | p == bits || p == kernel
      ensures ReadMarked(PointerText(NO_FLAGS.(hash := true), 0, p), 16) == p <==> p < Pow(16, 14)
    {
      hide PointerText, ReadMarked, Numeral, Pow;
      PointerHash(NO_FLAGS.(hash := true), 0, p);
      NumeralLength(p, 16, true, 14);
      NumeralLength(p, 16, true, 16);
    }
    hide PointerText, ReadMarked, Pow;
  }

  // --- The standard's layout ---

  function Prefix(conversion: char): string {
    if BaseOf(conversion) == 16 then "0x" else if BaseOf(conversion) == 2 then "0b" else ""
  }

  /**
   What the standard puts between the spaces of a directive with `#`: octal numbers start with
   a zero, other non-zero numbers with their prefix, which the formatter's authors keep in lower
   case for `X` too, and which takes up places of the `0` flag.
   */
  function IsoMarkedText(conversion: char, f: Flags, width: nat, prec: nat, v: nat): string {
    var digits, least := DigitsOf(conversion, f, v), MinDigits(conversion, f, width, prec, v);
    if BaseOf(conversion) == 8 then
      Spelled(Max(least, if Head(digits) == '0' then 0 else |digits| + 1), digits)
    else if v == 0 then Spelled(least, digits)
    else Prefix(conversion) + Spelled(if ZeroPads(f) then least - 2 else least, digits)
  }

  function IsoMarked(conversion: char, f: Flags, width: nat, prec: nat, v: nat): string {
    Justified(IsoMarkedText(conversion, f, width, prec, v), width, f)
  }

  /** When a non-zero number of `d` digits has the standard's layout under `#`. */
  predicate MarkFits(d: nat, base: nat, width: nat, prec: nat, f: Flags) {
    if base == 8 then
      if f.precision then (if f.left then prec <= d + 1 else prec <= d || prec == BUFFER_SIZE)
      else d != width && (ZeroPads(f) ==> width <= BUFFER_SIZE)
    else if f.precision then d + 2 <= BUFFER_SIZE && (if f.left then prec <= d else prec + 2 <= BUFFER_SIZE)
    else if ZeroPads(f) && d <= width then
      if base == 16 then d + 2 <= width <= BUFFER_SIZE else d + 1 == width < BUFFER_SIZE
    else d != width && d + 2 <= BUFFER_SIZE
  }

  /** The same for any number: zero has no prefix, and lacks its digit as `%#.0o`. */
  predicate HashFits(conversion: char, f: Flags, width: nat, prec: nat, v: nat) {
    var d := |DigitsOf(conversion, f, v)|;
    if v > 0 then MarkFits(d, BaseOf(conversion), width, prec, f)
    else FitsBuffer(conversion, f, width, prec, v) && !(conversion == 'o' && f.precision && prec == 0)
  }

  /** The numbers of digits, zeros and prefix characters behind `MarkFits`. */
  lemma MarkNumbers(d: nat, base: nat, width: nat, prec: nat, f: Flags, g: Flags)
    requires base == 2 || base == 16 || (base == 8 && d <= 22)
    requires d >= 1 && (f.precision || prec == 0)
    requires g.precision == f.precision && g.left == f.left && g.zeropad == (f.zeropad && !f.precision)
    ensures var stored := Min(BUFFER_SIZE, d);
            var shown := ShownDigits(stored, prec, width, g);
            var k := CutCount(shown, base, prec, width, g);
            var length := Min(BUFFER_SIZE, (if base == 8 then 1 else 2) + (shown - k));
            var iso := IsoLength(d, base, width, prec, f);
            && (MarkFits(d, base, width, prec, f) ==>
                  length == iso && d == stored && k <= shown - d && (base != 8 ==> shown - k + 2 <= BUFFER_SIZE))
            && (!MarkFits(d, base, width, prec, f) ==> length != iso || (base == 2 && shown - k == BUFFER_SIZE - 1))
  {
  }

  function IsoLength(d: nat, base: nat, width: nat, prec: nat, f: Flags): nat {
    var least := if ZeroPads(f) then width else if f.precision then prec else 0;
    if base == 8 then Max(d + 1, least)
    else if ZeroPads(f) then Max(d + 2, width)
    else 2 + Max(d, least)
  }

  /** A whole prefix, or none, in front of the digits that are left. */
  lemma SameMarked(digits: string, base: nat, zeros: nat, k: nat, least: nat)
    requires base == 2 || base == 8 || base == 16
    requires k <= zeros && zeros + |digits| <= BUFFER_SIZE
    requires base != 8 ==> zeros - k + |digits| + 2 <= BUFFER_SIZE && least == zeros - k
    requires base == 8 ==> least == zeros - k + if zeros - k + |digits| < BUFFER_SIZE then 1 else 0
    ensures var cut := (Repeat('0', zeros) + digits)[k..];
            Mark(base, |cut|) + cut
            == (if base == 16 then "0x" else if base == 2 then "0b" else "") + (Repeat('0', least) + digits)
  {
    var cut := (Repeat('0', zeros) + digits)[k..];
    assert cut == Repeat('0', zeros - k) + digits;
    if base == 8 {
      assert Mark(base, |cut|) + cut == Repeat('0', least) + digits;
      assert "" + (Repeat('0', least) + digits) == Repeat('0', least) + digits;
    }
  }

  /** A binary number with room for half its prefix starts with the letter. */
  lemma HalfMarked(cut: string)
    requires |cut| == BUFFER_SIZE - 1
    ensures (Mark(2, |cut|) + cut)[0] == 'b'
  {
  }

  /** Fields without spaces inside are the same exactly when their contents are. */
  lemma SameSolid(text: string, iso: string, width: nat, f: Flags, g: Flags)
    requires ' ' !in text && ' ' !in iso && g.left == f.left && (g.zeropad && !g.left ==> width <= |iso|)
    ensures Aligned(text, width, g) == Justified(iso, width, f) <==> text == iso
  {
    AlignedSolid(text, width, g);
    JustifiedSolid(iso, width, f);
    NoSpacesId(text);
    NoSpacesId(iso);
    hide NoSpaces;
    assert Spaces(0) + iso == iso;
  }

  /** A field of a non-zero number with `#` against any text without spaces, by what is between its spaces. */
  lemma MarkedAgainst(v: nat, base: nat, width: nat, prec: nat, f: Flags, g: Flags, iso: string)
    requires base == 2 || base == 8 || base == 16
    requires v > 0 && g.hash && !g.plus && !g.space && g.left == f.left
    requires ' ' !in iso && (g.zeropad && !g.left ==> width <= |iso|)
    ensures var digits := StoredDigits(v, base, g);
            var shown := ShownDigits(|digits|, prec, width, g);
            var cut := (Repeat('0', shown - |digits|) + digits)[CutCount(shown, base, prec, width, g)..];
            IntField(v, false, base, prec, width, g) == Justified(iso, width, f) <==> Mark(base, |cut|) + cut == iso
  {
    hide StoredDigits, Cut, Padded, Content, Aligned, Justified, ShownDigits, CutCount, InnerWidth, Mark, AllDigits,
         Repeat;
    var digits := StoredDigits(v, base, g);
    var cut := Cut(Padded(digits, prec, width, g), base, prec, width, g);
    PlainInner(width, g);
    CutIsDigits(v, base, prec, width, g);
    MarkedShape(digits, base, prec, width, g);
    PaddedShape(digits, prec, width, g);
    CutDrops(Padded(digits, prec, width, g), base, prec, width, g);
    NoSign(Mark(base, |cut|) + cut, g);
    MarkSolid(cut, base);
    SameSolid(Mark(base, |cut|) + cut, iso, width, f, g);
  }

  lemma NoSign(marked: string, g: Flags)
    requires !g.plus && !g.space
    ensures KeptSign(|marked|, false, g) + marked == marked
  {
    assert "" + marked == marked;
  }

  lemma MarkSolid(cut: string, base: nat)
    requires AllDigits(cut, base) && base <= 16
    ensures ' ' !in Mark(base, |cut|) + cut
  {
    NoDigitSpace(cut, base);
  }

  /** What the standard puts between the spaces of a non-zero number under `#`, and its length. */
  lemma IsoMarkedShape(conversion: char, f: Flags, width: nat, prec: nat, v: nat) returns (zeros: nat)
    requires TakesMark(conversion) && v > 0 && (f.precision || prec == 0)
    ensures var base, digits := BaseOf(conversion), DigitsOf(conversion, f, v);
            var iso := IsoMarkedText(conversion, f, width, prec, v);
            && iso == (if base == 16 then "0x" else if base == 2 then "0b" else "") + (Repeat('0', zeros) + digits)
            && |digits| > 0 && |iso| == IsoLength(|digits|, base, width, prec, f)
            && ' ' !in iso && (base != 8 ==> iso[0] == '0') && (ZeroPads(f) ==> width <= |iso|)
  {
    var base, digits := BaseOf(conversion), DigitsOf(conversion, f, v);
    LeadingDigits(conversion, f, v);
    hide DigitsOf, BaseOf;
    var least := MinDigits(conversion, f, width, prec, v);
    var wanted := if base == 8 then Max(least, |digits| + 1) else if ZeroPads(f) then least - 2 else least;
    zeros := Max(wanted - |digits|, 0);
    var text := Repeat('0', zeros) + digits;
    assert "" + text == text;
    hide Repeat;
    assert |text| == zeros + |digits|;
  }

  lemma LeadingDigits(conversion: char, f: Flags, v: nat)
    requires TakesMark(conversion) && v > 0
    ensures var digits := DigitsOf(conversion, f, v);
            |digits| > 0 && digits[0] != '0' && ' ' !in digits
  {
    var base, upper := BaseOf(conversion), conversion == 'X';
    NumeralReads(v, base, upper);
    NumeralLeads(v, base, upper);
    NoDigitSpace(Numeral(v, base, upper), base);
    hide Numeral, Value, AllDigits;
  }

  /** The layout of a non-zero number under `#`. */
  lemma MarkedLayout(conversion: char, f: Flags, width: nat, prec: nat, v: nat)
    requires TakesMark(conversion) && f.hash && Parsed(f, prec) && 0 < v < U64
    ensures IntField(v, false, BaseOf(conversion), prec, width, ConversionFlags(conversion, f))
            == IsoMarked(conversion, f, width, prec, v)
            <==> MarkFits(|DigitsOf(conversion, f, v)|, BaseOf(conversion), width, prec, f)
  {
    hide StoredDigits, DigitsOf, IntField, MarkFits, IsoMarkedText, ConversionFlags, Numeral, Justified, Value, BaseOf,
         ShownDigits, CutCount, Mark, IsoLength, Repeat, ZeroPads;
    var base, g := BaseOf(conversion), ConversionFlags(conversion, f);
    var digits, iso := DigitsOf(conversion, f, v), IsoMarkedText(conversion, f, width, prec, v);
    Adjusted(conversion, f, v);
    MarkBases(conversion);
    StoredMarked(v, base, g);
    var zeros := IsoMarkedShape(conversion, f, width, prec, v);
    PadsWhen(f, g);
    MarkedAgainst(v, base, width, prec, f, g, iso);
    SameIso(StoredDigits(v, base, g), digits, base, width, prec, f, g, iso, zeros);
  }

  lemma PadsWhen(f: Flags, g: Flags)
    requires g.left == f.left && g.zeropad == (f.zeropad && !f.precision)
    ensures ZeroPads(f) == (g.zeropad && !g.left)
  {
  }

  lemma MarkBases(conversion: char)
    requires TakesMark(conversion)
    ensures BaseOf(conversion) == 2 || BaseOf(conversion) == 8 || BaseOf(conversion) == 16
  {
  }

  lemma StoredMarked(v: uint64, base: nat, g: Flags)
    requires v > 0 && (base == 2 || base == 8 || base == 16)
    ensures var digits := Numeral(v, base, g.uppercase);
            && |StoredDigits(v, base, g)| == Min(BUFFER_SIZE, |digits|)
            && (|digits| <= BUFFER_SIZE ==> StoredDigits(v, base, g) == digits)
            && (base == 8 ==> |digits| <= 22)
  {
    StoredOrCut(v, base, g);
    StoredExactly(v, g);
    assert IsoDigits(v, base, g) == Numeral(v, base, g.uppercase);
    hide StoredDigits, IsoDigits, Numeral, Value;
  }

  lemma SameIso(stored: string, digits: string, base: nat, width: nat, prec: nat, f: Flags, g: Flags,
                iso: string, zeros: nat)
    requires base == 2 || base == 16 || (base == 8 && |digits| <= 22)
    requires |digits| > 0 && Parsed(f, prec)
    requires g.precision == f.precision && g.left == f.left && g.zeropad == (f.zeropad && !f.precision)
    requires |stored| == Min(BUFFER_SIZE, |digits|) && (|digits| <= BUFFER_SIZE ==> stored == digits)
    requires iso == (if base == 16 then "0x" else if base == 2 then "0b" else "") + (Repeat('0', zeros) + digits)
    requires |iso| == IsoLength(|digits|, base, width, prec, f)
    ensures var shown := ShownDigits(|stored|, prec, width, g);
            var cut := (Repeat('0', shown - |stored|) + stored)[CutCount(shown, base, prec, width, g)..];
            Mark(base, |cut|) + cut == iso <==> MarkFits(|digits|, base, width, prec, f)
  {
    hide MarkFits, CutCount, ShownDigits, IsoLength, Repeat, Mark;
    MarkNumbers(|digits|, base, width, prec, f, g);
    var shown := ShownDigits(|stored|, prec, width, g);
    var k := CutCount(shown, base, prec, width, g);
    var cut := (Repeat('0', shown - |stored|) + stored)[k..];
    LengthMarked(cut, base);
    if MarkFits(|digits|, base, width, prec, f) {
      SameMarked(digits, base, shown - |digits|, k, zeros);
    } else if |cut| == BUFFER_SIZE - 1 && base == 2 {
      HalfMarked(cut);
    }
  }

  lemma LengthMarked(cut: string, base: nat)
    requires base == 2 || base == 8 || base == 16
    requires |cut| <= BUFFER_SIZE
    ensures |Mark(base, |cut|) + cut| == Min(BUFFER_SIZE, (if base == 8 then 1 else 2) + |cut|)
  {
  }

  /** The layout of zero, which gets no prefix, and under `%#.0o` not even the digit it should have. */
  lemma ZeroLayout(conversion: char, f: Flags, width: nat, prec: nat)
    requires TakesMark(conversion) && Parsed(f, prec) && f.hash
    ensures IntField(0, false, BaseOf(conversion), prec, width, ConversionFlags(conversion, f))
            == IsoMarked(conversion, f, width, prec, 0)
            <==> FitsBuffer(conversion, f, width, prec, 0) && !(conversion == 'o' && f.precision && prec == 0)
  {
    var g := f.(hash := false);
    UnmarkedZero(conversion, f, width, prec);
    ZeroText(conversion, f, width, prec);
    hide IntField, ConversionFlags, FitsBuffer, BaseOf, IsoInteger, IsoMarkedText, Justified;
    ConformsAt(conversion, g, width, prec, 0);
    if conversion == 'o' && f.precision && prec == 0 {
      JustifiedSolid("", width, f);
      JustifiedSolid("0", width, f);
      NoSpacesId("0");
      NoSpacesId("");
      hide NoSpaces;
    }
  }

  lemma UnmarkedZero(conversion: char, f: Flags, width: nat, prec: nat)
    requires TakesMark(conversion)
    ensures var g := f.(hash := false);
            && IntField(0, false, BaseOf(conversion), prec, width, ConversionFlags(conversion, f))
               == IntField(0, false, BaseOf(conversion), prec, width, ConversionFlags(conversion, g))
            && (FitsBuffer(conversion, g, width, prec, 0) <==> FitsBuffer(conversion, f, width, prec, 0))
            && IsoInteger(conversion, g, width, prec, 0) == IsoInteger(conversion, f, width, prec, 0)
            && !SpaceForSpace(conversion, g, width, prec, 0)
  {
    hide FormattedField, StoredDigits, BaseOf, DigitsOf, MinDigits, SignOf, Spelled, Spaces;
    UnmarkedMinimum(conversion, f, width, prec);
    UnmarkedFlags(conversion, f);
    hide ConversionFlags;
  }

  lemma UnmarkedFlags(conversion: char, f: Flags)
    ensures ConversionFlags(conversion, f).(hash := false)
            == ConversionFlags(conversion, f.(hash := false)).(hash := false)
  {
    hide BaseOf;
  }

  lemma UnmarkedMinimum(conversion: char, f: Flags, width: nat, prec: nat)
    requires TakesMark(conversion)
    ensures var g := f.(hash := false);
            && SignOf(conversion, f, 0) == SignOf(conversion, g, 0)
            && DigitsOf(conversion, f, 0) == DigitsOf(conversion, g, 0)
            && MinDigits(conversion, f, width, prec, 0) == MinDigits(conversion, g, width, prec, 0)
  {
    hide Numeral;
  }

  lemma ZeroText(conversion: char, f: Flags, width: nat, prec: nat)
    requires TakesMark(conversion) && Parsed(f, prec)
    ensures if conversion == 'o' && f.precision && prec == 0
            then IsoMarkedText(conversion, f, width, prec, 0) == "0"
                 && IsoInteger(conversion, f, width, prec, 0) == Justified("", width, f)
                 && FitsBuffer(conversion, f, width, prec, 0)
            else IsoInteger(conversion, f, width, prec, 0) == IsoMarked(conversion, f, width, prec, 0)
  {
    var digits := DigitsOf(conversion, f, 0);
    assert digits == if f.precision then "" else "0";
    var least := MinDigits(conversion, f, width, prec, 0);
    assert "" + Spelled(least, digits) == Spelled(least, digits);
    hide Justified, BaseOf, DigitsOf;
  }

  /**
   A directive with `#` prints what the standard prescribes exactly when its number neither just
   fills its field nor overfills the buffer, and precision and zeros do not meet the prefix:
   `HashFits` says it by the number of digits.
   */
  lemma HashLayout(conversion: char, f: Flags, width: nat, prec: nat, bits: uint64)
    requires TakesMark(conversion) && f.hash && Parsed(f, prec)
    ensures var v := IntegerArg(conversion, ArgRange(f.size), bits);
            IntegerText(conversion, f, width, prec, bits) == IsoMarked(conversion, f, width, prec, v)
            <==> HashFits(conversion, f, width, prec, v)
  {
    var v := IntegerArg(conversion, ArgRange(f.size), bits);
    assert v < U64;
    hide IntegerArg, ArgRange, IntField, IsoMarked, ConversionFlags, MarkFits, FitsBuffer, DigitsOf;
    if v == 0 {
      ZeroLayout(conversion, f, width, prec);
    } else {
      MarkedLayout(conversion, f, width, prec, v);
    }
  }

  /** Precision under `#`: `%#.3o` of 8 has a digit more than the standard's. */
  lemma OctalPrecision()
    ensures var f := NO_FLAGS.(hash := true, precision := true);
            && IntegerText('o', f, 0, 3, 8) == "0010"
            && IsoMarked('o', f, 0, 3, 8) == "010"
  {
    var f := NO_FLAGS.(hash := true, precision := true);
    EightOctal();
    var digits := StoredDigits(8, 8, f);
    assert digits == "10";
    assert Padded(digits, 3, 0, f) == "010";
    assert Content(digits, false, 8, 3, 0, f) == "0010";
    hide Content, StoredDigits, Numeral;
    assert Spelled(3, "10") == "010";
    assert Justified("010", 0, f) == "010" && Aligned("0010", 0, f) == "0010";
  }

  lemma EightOctal()
    ensures Numeral(8, 8, false) == "10" && IntegerArg('o', U32, 8) == 8
  {
    assert 8 / 8 == 1 && 8 % 8 == 0;
    assert Numeral(1, 8, false) == "1";
  }
}
