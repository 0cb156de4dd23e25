/**
 The text of a numeric field, in reading order. The formatter builds it back to front in a
 buffer of 32 characters; whatever does not fit is dropped, and the functions here drop it too.
 */
module Fields {
  import opened Text
  import opened Words
  import opened Numerals
  import opened Directives

  const BUFFER_SIZE: nat := 32

  /** The character that goes in front of a number. */
  function SignText(negative: bool, f: Flags): (s: string)
    ensures |s| <= 1
  {
    if negative then "-" else if f.plus then "+" else if f.space then " " else ""
  }

  /** Zeros in front of `text` up to `n` characters, as far as the buffer goes. */
  function ZeroFill(text: string, n: nat): string {
    var k := Min(n, BUFFER_SIZE);
    if |text| < k then Repeat('0', k - |text|) + text else text
  }

  /** `c` in front of `text`, if the buffer has room. */
  function Prefixed(c: char, text: string): string {
    if |text| < BUFFER_SIZE then [c] + text else text
  }

  /** The width left for digits: a zero-padded field reserves one place for its sign. */
  function InnerWidth(width: nat, negative: bool, f: Flags): nat {
    if !f.left && width > 0 && f.zeropad && (negative || f.plus || f.space) then width - 1 else width
  }

  /** The digits with the zeros that precision and zero padding ask for; `width` is the inner one. */
  function Padded(digits: string, prec: nat, width: nat, f: Flags): string {
    if f.left then digits
    else
      var text := ZeroFill(digits, prec);
      if f.zeropad then ZeroFill(text, width) else text
  }

  /** The `#` flag takes back leading characters of a text that already fills its field. */
  function Cut(text: string, base: nat, prec: nat, width: nat, f: Flags): string {
    if f.precision || text == "" || (|text| != prec && |text| != width) then text
    else if base == 16 && |text| > 1 then text[2..]
    else text[1..]
  }

  function Hashed(text: string, base: nat, prec: nat, width: nat, f: Flags): string {
    if !f.hash then text
    else
      var cut := Cut(text, base, prec, width, f);
      var marked := if base == 16 then Prefixed('x', cut) else if base == 2 then Prefixed('b', cut) else cut;
      Prefixed('0', marked)
  }

  /** Everything between the spaces of a field. */
  function Content(digits: string, negative: bool, base: nat, prec: nat, width: nat, f: Flags): string {
    var text := Hashed(Padded(digits, prec, width, f), base, prec, width, f);
    if |text| < BUFFER_SIZE then SignText(negative, f) + text else text
  }

  function Spaces(n: int): string {
    Repeat(' ', Max(n, 0))
  }

  /** `text` in a field of `width` characters, padded with spaces unless zeros did it. */
  function Aligned(text: string, width: nat, f: Flags): string {
    if f.left then text + Spaces(width - |text|)
    else if f.zeropad then text
    else Spaces(width - |text|) + text
  }

  /** `text` in a field of `width`, padded with spaces on the right under `-`, else on the left. */
  function Justified(text: string, width: nat, f: Flags): string {
    if f.left then text + Spaces(width - |text|) else Spaces(width - |text|) + text
  }

  /** The digits the conversion loop leaves in the buffer. */
  function StoredDigits(value: nat, base: nat, f: Flags): (s: string)
    requires 2 <= base <= 16
    ensures |s| <= BUFFER_SIZE
  {
    if f.precision && value == 0 then "" else LastN(Numeral(value, base, f.uppercase), BUFFER_SIZE)
  }

  function FormattedField(digits: string, negative: bool, base: nat, prec: nat, width: nat, f: Flags): string {
    var inner := InnerWidth(width, negative, f);
    Aligned(Content(digits, negative, base, prec, inner, f), inner, f)
  }

  /** The field of an integer of magnitude `value`. */
  function IntField(value: nat, negative: bool, base: nat, prec: nat, width: nat, f: Flags): string
    requires 2 <= base <= 16
  {
    var f := if value == 0 then f.(hash := false) else f;
    FormattedField(StoredDigits(value, base, f), negative, base, prec, width, f)
  }

  // --- The standard's layout, which knows no buffer ---

  function IsoDigits(value: nat, base: nat, f: Flags): string
    requires 2 <= base <= 16
  {
    if f.precision && value == 0 then "" else Numeral(value, base, f.uppercase)
  }

  /** The least number of digits: the precision, or the whole width under the `0` flag. */
  function IsoMinDigits(negative: bool, prec: nat, width: nat, f: Flags): nat {
    if f.zeropad && !f.left then Max(prec, width - |SignText(negative, f)|) else prec
  }

  /** Sign, zeros up to the least number of digits, digits (ISO/IEC 9899:2011, 7.21.6.1). */
  function IsoContent(value: nat, negative: bool, base: nat, prec: nat, width: nat, f: Flags): string
    requires 2 <= base <= 16
  {
    var digits := IsoDigits(value, base, f);
    SignText(negative, f) + Repeat('0', Max(IsoMinDigits(negative, prec, width, f) - |digits|, 0)) + digits
  }

  function IsoField(value: nat, negative: bool, base: nat, prec: nat, width: nat, f: Flags): string
    requires 2 <= base <= 16
  {
    Justified(IsoContent(value, negative, base, prec, width, f), width, f)
  }

  // --- Laws of fields without `#` ---

  /** How many digits a field without `#` shows: those it has, zeros included, up to the buffer. */
  function ShownDigits(d: nat, prec: nat, width: nat, f: Flags): (n: nat)
    ensures d <= BUFFER_SIZE ==> d <= n <= BUFFER_SIZE
  {
    Min(BUFFER_SIZE, Max(d, if f.left then 0 else if f.zeropad then Max(prec, width) else prec))
  }

  /** The sign of a field that shows `n` digits: there is no room for it beside 32. */
  function KeptSign(n: nat, negative: bool, f: Flags): string {
    if n < BUFFER_SIZE then SignText(negative, f) else ""
  }

  lemma PaddedShape(digits: string, prec: nat, width: nat, f: Flags)
    requires |digits| <= BUFFER_SIZE
    ensures Padded(digits, prec, width, f)
            == Repeat('0', ShownDigits(|digits|, prec, width, f) - |digits|) + digits
  {
    var text := ZeroFill(digits, prec);
    assert text == Repeat('0', |text| - |digits|) + digits;
    assert Repeat('0', 0) + digits == digits;
  }

  lemma ContentShape(digits: string, negative: bool, base: nat, prec: nat, width: nat, f: Flags)
    requires !f.hash && |digits| <= BUFFER_SIZE
    ensures var n := ShownDigits(|digits|, prec, width, f);
            Content(digits, negative, base, prec, width, f)
            == KeptSign(n, negative, f) + (Repeat('0', n - |digits|) + digits)
  {
    PaddedShape(digits, prec, width, f);
    var text := Padded(digits, prec, width, f);
    assert "" + text == text;
  }

  /** What a field without `#` is made of: spaces, sign, zeros, digits, spaces. */
  lemma FieldShape(digits: string, negative: bool, base: nat, prec: nat, width: nat, f: Flags)
    requires !f.hash && |digits| <= BUFFER_SIZE
    ensures var n := ShownDigits(|digits|, prec, InnerWidth(width, negative, f), f);
            var content := KeptSign(n, negative, f) + (Repeat('0', n - |digits|) + digits);
            FormattedField(digits, negative, base, prec, width, f)
            == Spaces(if f.left || f.zeropad then 0 else width - |content|)
               + (content + Spaces(if f.left then width - |content| else 0))
  {
    var inner := InnerWidth(width, negative, f);
    ContentShape(digits, negative, base, prec, inner, f);
    AlignedShape(Content(digits, negative, base, prec, inner, f), inner, f);
  }

  lemma AlignedShape(text: string, width: nat, f: Flags)
    ensures Aligned(text, width, f)
            == Spaces(if f.left || f.zeropad then 0 else width - |text|)
               + (text + Spaces(if f.left then width - |text| else 0))
  {
    assert Spaces(0) + (text + Spaces(0)) == text;
    assert Spaces(0) + (text + Spaces(width - |text|)) == text + Spaces(width - |text|);
    assert text + Spaces(0) == text;
  }

  /** How long a field without `#` is, from the number of its digits. */
  lemma ShapeLength(digits: string, negative: bool, base: nat, prec: nat, width: nat, f: Flags)
    requires !f.hash && |digits| <= BUFFER_SIZE
    ensures var wanted := |SignText(negative, f)| + Max(|digits|, if f.left then 0 else prec);
            |FormattedField(digits, negative, base, prec, width, f)|
            == if f.zeropad && !f.left then Min(BUFFER_SIZE, Max(width, wanted))
               else Max(width, Min(BUFFER_SIZE, wanted))
  {
    FieldShape(digits, negative, base, prec, width, f);
  }

  /** The exact length of every integer field without `#`. */
  lemma FieldLength(value: nat, negative: bool, base: nat, prec: nat, width: nat, f: Flags)
    requires 2 <= base <= 16 && !f.hash
    ensures var d := |IsoDigits(value, base, f)|;
            var wanted := |SignText(negative, f)| + Max(d, if f.left then 0 else prec);
            |IntField(value, negative, base, prec, width, f)|
            == if f.zeropad && !f.left then Min(BUFFER_SIZE, Max(width, wanted))
               else Max(width, Min(BUFFER_SIZE, wanted))
  {
    hide StoredDigits, IsoDigits, FormattedField;
    StoredValue(value, base, f);
    assert f.(hash := false) == f;
    ShapeLength(StoredDigits(value, base, f), negative, base, prec, width, f);
  }

  /**
   The field's length is the standard's, precision counted as zero under `-`, exactly when
   the buffer is large enough for it or, without zero padding, the width hides the difference.
   */
  lemma FieldLengthLaw(value: nat, negative: bool, base: nat, prec: nat, width: nat, f: Flags)
    requires 2 <= base <= 16 && !f.hash
    ensures var d := |IsoDigits(value, base, f)|;
            var wanted := |SignText(negative, f)| + Max(d, if f.left then 0 else prec);
            |IntField(value, negative, base, prec, width, f)| == Max(width, wanted)
            <==> if f.zeropad && !f.left then Max(width, wanted) <= BUFFER_SIZE
                 else wanted <= BUFFER_SIZE || wanted <= width
  {
    FieldLength(value, negative, base, prec, width, f);
  }

  /** A space for a sign that the buffer has no room for, where a padding space takes its place. */
  predicate SpaceTakesOver(d: nat, negative: bool, prec: nat, width: nat, f: Flags) {
    !f.left && !f.zeropad && SignText(negative, f) == " " && Max(d, prec) == BUFFER_SIZE && width > BUFFER_SIZE
  }

  /**
   Between its spaces a field without `#` has the standard's text exactly when that text fits
   the buffer and `-` suppresses no precision zeros. The whole field is the standard's exactly
   then, or when a padding space stands where a space for a sign was dropped.
   */
  lemma IsoConformance(value: nat, negative: bool, base: nat, prec: nat, width: nat, f: Flags)
    requires 2 <= base <= 16 && !f.hash
    ensures var iso := IsoContent(value, negative, base, prec, width, f);
            Content(StoredDigits(value, base, f), negative, base, prec, InnerWidth(width, negative, f), f) == iso
            <==> |iso| <= BUFFER_SIZE && (f.left ==> prec <= |IsoDigits(value, base, f)|)
    ensures var d := |IsoDigits(value, base, f)|;
            IntField(value, negative, base, prec, width, f) == IsoField(value, negative, base, prec, width, f)
            <==> (|IsoContent(value, negative, base, prec, width, f)| <= BUFFER_SIZE && (f.left ==> prec <= d))
                 || SpaceTakesOver(d, negative, prec, width, f)
  {
    hide StoredDigits, IsoDigits, IsoContent, Content, Aligned, InnerWidth, Spaces, SpaceTakesOver, SignText;
    assert f.(hash := false) == f;
    ContentConformance(value, negative, base, prec, width, f);
    FieldConformance(value, negative, base, prec, width, f);
    hide BUFFER_SIZE;
  }

  lemma FieldConformance(value: nat, negative: bool, base: nat, prec: nat, width: nat, f: Flags)
    requires 2 <= base <= 16 && !f.hash
    ensures var iso := IsoContent(value, negative, base, prec, width, f);
            var inner := InnerWidth(width, negative, f);
            var content := Content(StoredDigits(value, base, f), negative, base, prec, inner, f);
            Aligned(content, inner, f) == Justified(iso, width, f)
            <==> content == iso || SpaceTakesOver(|IsoDigits(value, base, f)|, negative, prec, width, f)
  {
    hide StoredDigits, IsoDigits, Value, Pow, AllDigits, Aligned, SpaceTakesOver, InnerWidth, IsoMinDigits, ShownDigits,
         SignText, KeptSign, Justified, Repeat, Content;
    var digits, whole := StoredDigits(value, base, f), IsoDigits(value, base, f);
    StoredOrCut(value, base, f);
    StoredValue(value, base, f);
    AllIso(value, base, f);
    ContentShape(digits, negative, base, prec, InnerWidth(width, negative, f), f);
    IsoShape(digits, whole, base, negative, prec, width, f);
  }

  lemma AllIso(value: nat, base: nat, f: Flags)
    requires 2 <= base <= 16
    ensures AllDigits(IsoDigits(value, base, f), base)
  {
    NumeralReads(value, base, f.uppercase);
    hide Numeral, Value;
  }

  lemma IsoShape(digits: string, whole: string, base: nat, negative: bool, prec: nat, width: nat, f: Flags)
    requires AllDigits(digits, base) && AllDigits(whole, base) && 1 <= base <= 16
    requires |digits| == Min(BUFFER_SIZE, |whole|) && (|whole| <= BUFFER_SIZE ==> digits == whole)
    ensures var inner := InnerWidth(width, negative, f);
            var n := ShownDigits(|digits|, prec, inner, f);
            var content := KeptSign(n, negative, f) + (Repeat('0', n - |digits|) + digits);
            var least := Max(IsoMinDigits(negative, prec, width, f) - |whole|, 0);
            var iso := SignText(negative, f) + Repeat('0', least) + whole;
            Aligned(content, inner, f) == Justified(iso, width, f)
            <==> content == iso || SpaceTakesOver(|whole|, negative, prec, width, f)
  {
    hide InnerWidth, ShownDigits, SignText, Aligned, Justified, KeptSign, AllDigits, IsoMinDigits, Repeat;
    var n := ShownDigits(|digits|, prec, InnerWidth(width, negative, f), f);
    var least := Max(IsoMinDigits(negative, prec, width, f) - |whole|, 0);
    Regroup(SignText(negative, f), Repeat('0', least), whole);
    ZerosDigits(n - |digits|, digits, base);
    ZerosDigits(least, whole, base);
    FullShown(|digits|, |whole|, negative, prec, width, f);
    var shown, all := Repeat('0', n - |digits|) + digits, Repeat('0', least) + whole;
    assert |shown| == n && |all| == least + |whole|;
    SameField(shown, all, base, negative, width, f);
  }

  /** When the field shows the standard's 32 digits and no padding zeros are asked for. */
  lemma FullShown(d: nat, whole: nat, negative: bool, prec: nat, width: nat, f: Flags)
    requires d == Min(BUFFER_SIZE, whole)
    ensures var n := ShownDigits(d, prec, InnerWidth(width, negative, f), f);
            var least := Max(IsoMinDigits(negative, prec, width, f) - whole, 0);
            && (f.zeropad && !f.left ==> width <= |SignText(negative, f)| + least + whole)
            && (!f.left && !f.zeropad ==> (n == BUFFER_SIZE && n == least + whole <==> Max(whole, prec) == BUFFER_SIZE))
            && (!f.left && !f.zeropad && n == BUFFER_SIZE == least + whole ==> d == whole && n - d == least)
  {
  }

  lemma ZerosDigits(n: nat, digits: string, base: nat)
    requires base >= 1 && AllDigits(digits, base)
    ensures AllDigits(Repeat('0', n) + digits, base)
  {
  }

  /** A field that shows `shown` against a field of the digits `whole`, which no buffer cuts. */
  lemma SameField(shown: string, whole: string, base: nat, negative: bool, width: nat, f: Flags)
    requires AllDigits(shown, base) && AllDigits(whole, base) && base <= 16 && |shown| <= BUFFER_SIZE
    requires f.zeropad && !f.left ==> width <= |SignText(negative, f) + whole|
    ensures var content, iso := KeptSign(|shown|, negative, f) + shown, SignText(negative, f) + whole;
            Aligned(content, InnerWidth(width, negative, f), f) == Justified(iso, width, f)
            <==> content == iso
                 || (!f.left && !f.zeropad && SignText(negative, f) == " " && shown == whole
                     && |shown| == BUFFER_SIZE && width > BUFFER_SIZE)
  {
    hide InnerWidth, Aligned, Justified, SignText;
    var sign := SignText(negative, f);
    var iso := sign + whole;
    SignKinds(negative, f);
    NoDigitSpace(shown, base);
    NoDigitSpace(whole, base);
    JustifiedSolid(iso, width, f);
    SignedSolid(sign, whole);
    AlignedSolid(KeptSign(|shown|, negative, f) + shown, InnerWidth(width, negative, f), f);
    SignedSolid(KeptSign(|shown|, negative, f), shown);
    if |shown| < BUFFER_SIZE || sign == "" {
      AlignedIso(iso, negative, width, f);
    } else {
      assert "" + shown == shown;
      FirstNotSign(shown, sign, whole, base);
      if sign == " " && shown == whole {
        SpaceDropped(shown, base, negative, width, f);
      }
    }
    hide KeptSign, NoSpaces;
  }

  lemma SignKinds(negative: bool, f: Flags)
    ensures SignText(negative, f) in {"", "-", "+", " "}
  {
  }

  lemma NoDigitSpace(s: string, base: nat)
    requires AllDigits(s, base) && base <= 16
    ensures ' ' !in s
  {
    DigitsAvoid(' ', s, base);
  }

  lemma FirstNotSign(shown: string, sign: string, whole: string, base: nat)
    requires AllDigits(shown, base) && base <= 16 && shown != "" && sign in {"-", "+", " "}
    ensures shown != sign + whole
  {
    assert IsDigitIn(shown[0], base);
  }

  lemma SignedSolid(sign: string, digits: string)
    requires ' ' !in digits && sign in {"", "-", "+", " "}
    ensures NoSpaces(sign + digits) == if sign == " " then digits else sign + digits
  {
    NoSpacesAppend(sign, digits);
    NoSpacesId(digits);
    if sign == " " {
      NoSpacesBlank(1);
      assert Repeat(' ', 1) == " ";
      assert "" + digits == digits;
    } else {
      NoSpacesId(sign);
    }
  }

  lemma JustifiedSolid(text: string, width: nat, f: Flags)
    ensures NoSpaces(Justified(text, width, f)) == NoSpaces(text)
  {
    NoSpacesAround(0, text, Max(width - |text|, 0));
    NoSpacesAround(Max(width - |text|, 0), text, 0);
    hide NoSpaces;
    assert Repeat(' ', 0) + (text + Spaces(width - |text|)) == text + Spaces(width - |text|);
    assert Spaces(width - |text|) + (text + Repeat(' ', 0)) == Spaces(width - |text|) + text;
  }

  lemma AlignedSolid(text: string, width: nat, f: Flags)
    ensures NoSpaces(Aligned(text, width, f)) == NoSpaces(text)
  {
    JustifiedSolid(text, width, f);
    hide NoSpaces;
  }

  lemma SpaceDropped(digits: string, base: nat, negative: bool, width: nat, f: Flags)
    requires AllDigits(digits, base) && base <= 16 && |digits| == BUFFER_SIZE && SignText(negative, f) == " "
    requires f.zeropad && !f.left ==> width <= |" " + digits|
    ensures Aligned(digits, InnerWidth(width, negative, f), f) == Justified(" " + digits, width, f)
            <==> !f.left && !f.zeropad && width > BUFFER_SIZE
  {
    var iso := " " + digits;
    hide SignText;
    if f.left {
      assert IsDigitIn(digits[0], base);
      assert Justified(iso, width, f)[0] == ' ';
    } else if f.zeropad {
      assert |Justified(iso, width, f)| > BUFFER_SIZE;
    } else if width > BUFFER_SIZE {
      assert Spaces(width - BUFFER_SIZE) + digits == Spaces(width - BUFFER_SIZE - 1) + iso;
    } else {
      assert |Justified(iso, width, f)| > BUFFER_SIZE;
    }
  }

  lemma ContentConformance(value: nat, negative: bool, base: nat, prec: nat, width: nat, f: Flags)
    requires 2 <= base <= 16 && !f.hash
    ensures var iso := IsoContent(value, negative, base, prec, width, f);
            && (Content(StoredDigits(value, base, f), negative, base, prec, InnerWidth(width, negative, f), f) == iso
                <==> |iso| <= BUFFER_SIZE && (f.left ==> prec <= |IsoDigits(value, base, f)|))
            && (f.zeropad && !f.left ==> width <= |iso|)
  {
    hide StoredDigits, IsoDigits, Content, Padded, InnerWidth, ShownDigits, KeptSign, Repeat, IsoMinDigits;
    var digits, whole := StoredDigits(value, base, f), IsoDigits(value, base, f);
    StoredOrCut(value, base, f);
    ContentShape(digits, negative, base, prec, InnerWidth(width, negative, f), f);
    ShownIso(|whole|, negative, prec, width, f);
    SameText(digits, whole, negative, base, prec, width, f);
  }

  lemma SameText(digits: string, whole: string, negative: bool, base: nat, prec: nat, width: nat, f: Flags)
    requires |digits| == Min(BUFFER_SIZE, |whole|) && (|whole| <= BUFFER_SIZE ==> digits == whole)
    ensures var n := ShownDigits(|digits|, prec, InnerWidth(width, negative, f), f);
            var least := Max(IsoMinDigits(negative, prec, width, f) - |whole|, 0);
            var iso := SignText(negative, f) + Repeat('0', least) + whole;
            && (KeptSign(n, negative, f) + (Repeat('0', n - |digits|) + digits) == iso
                <==> |iso| <= BUFFER_SIZE && (f.left ==> prec <= |whole|))
            && (f.zeropad && !f.left ==> width <= |iso|)
  {
    hide InnerWidth, ShownDigits, KeptSign, SignText;
    ShownIso(|whole|, negative, prec, width, f);
    var least := Max(IsoMinDigits(negative, prec, width, f) - |whole|, 0);
    Regroup(SignText(negative, f), Repeat('0', least), whole);
    hide Repeat;
    var n := ShownDigits(|digits|, prec, InnerWidth(width, negative, f), f);
    assert |KeptSign(n, negative, f) + (Repeat('0', n - |digits|) + digits)| == n + |KeptSign(n, negative, f)|;
  }

  lemma StoredOrCut(value: nat, base: nat, f: Flags)
    requires 2 <= base <= 16
    ensures var d := |IsoDigits(value, base, f)|;
            && |StoredDigits(value, base, f)| == Min(BUFFER_SIZE, d)
            && (d <= BUFFER_SIZE ==> StoredDigits(value, base, f) == IsoDigits(value, base, f))
  {
    StoredValue(value, base, f);
    hide Numeral, Pow;
  }

  /** The digits shown against the digits the standard wants, in numbers only. */
  lemma ShownIso(d: nat, negative: bool, prec: nat, width: nat, f: Flags)
    ensures var s := |SignText(negative, f)|;
            var m := Max(d, IsoMinDigits(negative, prec, width, f));
            var n := ShownDigits(Min(BUFFER_SIZE, d), prec, InnerWidth(width, negative, f), f);
            && (n + |KeptSign(n, negative, f)| == s + m <==> s + m <= BUFFER_SIZE && (f.left ==> prec <= d))
            && (s + m <= BUFFER_SIZE && (f.left ==> prec <= d)
                ==> n == m && KeptSign(n, negative, f) == SignText(negative, f))
  {
  }

  lemma AlignedIso(text: string, negative: bool, width: nat, f: Flags)
    requires f.zeropad && !f.left ==> width <= |text|
    ensures Aligned(text, InnerWidth(width, negative, f), f)
            == Justified(text, width, f)
  {
    assert Spaces(0) + text == text;
  }

  // --- The characters of a field ---

  /** A field of an integer has the digits of its number, zeros, signs, spaces and the letters of its prefix. */
  lemma FieldAvoids(c: char, value: nat, negative: bool, base: nat, prec: nat, width: nat, f: Flags)
    requires 2 <= base <= 16 && c !in Numeral(value, base, f.uppercase)
    requires c != '0' && c != '+' && c != '-' && c != ' '
    requires (base == 16 ==> c != 'x') && (base == 2 ==> c != 'b')
    ensures c !in IntField(value, negative, base, prec, width, f)
  {
    hide Content, Aligned, InnerWidth, Numeral;
    var g := if value == 0 then f.(hash := false) else f;
    var digits := StoredDigits(value, base, g);
    var inner := InnerWidth(width, negative, g);
    ContentAvoids(c, digits, negative, base, prec, inner, g);
    AlignedAvoids(c, Content(digits, negative, base, prec, inner, g), inner, g);
  }

  lemma DigitsAvoid(c: char, digits: string, base: nat)
    requires AllDigits(digits, base) && base <= 16 && DigitValue(c) == 16
    ensures c !in digits
  {
    forall x | x in digits ensures x != c {
      var i :| 0 <= i < |digits| && digits[i] == x;
      assert IsDigitIn(digits[i], base);
    }
  }

  lemma ContentAvoids(c: char, digits: string, negative: bool, base: nat, prec: nat, width: nat, f: Flags)
    requires c !in digits && c != '0' && c != '+' && c != '-' && c != ' '
    requires (base == 16 ==> c != 'x') && (base == 2 ==> c != 'b')
    ensures c !in Content(digits, negative, base, prec, width, f)
  {
    assert c !in Padded(digits, prec, width, f);
    assert c !in Cut(Padded(digits, prec, width, f), base, prec, width, f);
    hide Padded, Cut;
  }

  lemma AlignedAvoids(c: char, text: string, width: nat, f: Flags)
    requires c !in text && c != ' '
    ensures c !in Aligned(text, width, f)
  {
  }

  // --- Reading a field back ---

  function SkipSpaces(s: string): string {
    if s != "" && s[0] == ' ' then SkipSpaces(s[1..]) else s
  }

  function DigitsIn(s: string, base: nat): string {
    if s != "" && IsDigitIn(s[0], base) then [s[0]] + DigitsIn(s[1..], base) else ""
  }

  /** The number in a field: spaces, an optional sign, digits up to the first other character. */
  function ReadInteger(s: string, base: nat): int {
    var t := SkipSpaces(s);
    if Head(t) == '-' then 0 - Value(DigitsIn(t[1..], base), base)
    else if Head(t) == '+' then Value(DigitsIn(t[1..], base), base)
    else Value(DigitsIn(t, base), base)
  }

  lemma {:induction false} SkipSpacesAppend(n: nat, s: string)
    ensures SkipSpaces(Repeat(' ', n) + s) == SkipSpaces(s)
  {
    if n == 0 {
      assert Repeat(' ', n) + s == s;
    } else {
      assert (Repeat(' ', n) + s)[1..] == Repeat(' ', n - 1) + s;
      SkipSpacesAppend(n - 1, s);
    }
  }

  lemma {:induction false} DigitsInAppend(t: string, n: nat, base: nat)
    requires AllDigits(t, base) && base <= 16
    ensures DigitsIn(t + Repeat(' ', n), base) == t
  {
    if t != "" {
      assert (t + Repeat(' ', n))[1..] == t[1..] + Repeat(' ', n);
      assert IsDigitIn(t[0], base);
      forall i | 0 <= i < |t[1..]| ensures IsDigitIn(t[1..][i], base) {
        assert IsDigitIn(t[1 + i], base);
      }
      DigitsInAppend(t[1..], n, base);
    }
  }

  lemma ReadShape(before: nat, sign: string, digits: string, after: nat, base: nat)
    requires 2 <= base <= 16 && AllDigits(digits, base)
    requires sign == "" || sign == "-" || sign == "+" || sign == " "
    ensures ReadInteger(Repeat(' ', before) + (sign + (digits + Repeat(' ', after))), base)
            == if sign == "-" then 0 - Value(digits, base) else Value(digits, base)
  {
    var t := digits + Repeat(' ', after);
    SkipSpacesAppend(before, sign + t);
    DigitsInAppend(digits, after, base);
    if sign == "-" || sign == "+" {
      assert (sign + t)[1..] == t;
    } else {
      if sign == " " {
        assert (sign + t)[1..] == t;
      } else {
        assert sign + t == t;
      }
      if digits == "" {
        assert t == Repeat(' ', after) + "";
        SkipSpacesAppend(after, "");
      } else {
        assert IsDigitIn(digits[0], base);
        assert SkipSpaces(t) == t;
      }
    }
  }

  /**
   Reading a field without `#` gives the number back exactly when the number has at most 32
   digits in its base and the zeros leave room for a minus sign.
   */
  lemma IntegerRoundTrip(value: nat, negative: bool, base: nat, prec: nat, width: nat, f: Flags)
    requires 2 <= base <= 16 && !f.hash
    requires negative ==> value > 0
    ensures var number := if negative then 0 - value else value;
            var minDigits := if f.left then 0 else IsoMinDigits(negative, prec, width, f);
            ReadInteger(IntField(value, negative, base, prec, width, f), base) == number
            <==> value < Pow(base, BUFFER_SIZE)
                 && (negative ==> value < Pow(base, BUFFER_SIZE - 1) && minDigits < BUFFER_SIZE)
  {
    hide StoredDigits, IsoDigits, FormattedField, InnerWidth, ShownDigits, ReadInteger, Value, Pow, Numeral;
    assert f.(hash := false) == f;
    var n := ShownDigits(|StoredDigits(value, base, f)|, prec, InnerWidth(width, negative, f), f);
    ReadField(value, negative, base, prec, width, f);
    if negative {
      KeptMinus(value, negative, base, prec, width, f);
    }
    ModWithin(value, Pow(base, BUFFER_SIZE));
    PowMonotone(base, BUFFER_SIZE - 1, BUFFER_SIZE);
  }

  /** What reading a field without `#` gives: the stored digits, and the sign if it was kept. */
  lemma ReadField(value: nat, negative: bool, base: nat, prec: nat, width: nat, f: Flags)
    requires 2 <= base <= 16 && !f.hash
    ensures var digits := StoredDigits(value, base, f);
            var n := ShownDigits(|digits|, prec, InnerWidth(width, negative, f), f);
            var read := value % Pow(base, BUFFER_SIZE);
            ReadInteger(FormattedField(digits, negative, base, prec, width, f), base)
            == if negative && n < BUFFER_SIZE then 0 - read else read
  {
    hide StoredDigits, FormattedField, InnerWidth, ShownDigits, ReadInteger, Value, Pow;
    var digits := StoredDigits(value, base, f);
    FieldShape(digits, negative, base, prec, width, f);
    var n := ShownDigits(|digits|, prec, InnerWidth(width, negative, f), f);
    var sign := KeptSign(n, negative, f);
    var shown := Repeat('0', n - |digits|) + digits;
    var content := sign + shown;
    var before := Max(if f.left || f.zeropad then 0 else width - |content|, 0);
    var after := Max(if f.left then width - |content| else 0, 0);
    StoredValue(value, base, f);
    LeadingZeros(n - |digits|, digits, base);
    assert AllDigits(shown, base);
    ReadShape(before, sign, shown, after, base);
    assert content + Repeat(' ', after) == sign + (shown + Repeat(' ', after));
  }

  /** There is room for a minus sign when neither the digits nor the zeros fill the buffer. */
  lemma KeptMinus(value: nat, negative: bool, base: nat, prec: nat, width: nat, f: Flags)
    requires 2 <= base <= 16 && negative && value > 0
    ensures ShownDigits(|StoredDigits(value, base, f)|, prec, InnerWidth(width, negative, f), f) < BUFFER_SIZE
            <==> value < Pow(base, BUFFER_SIZE - 1)
                 && (if f.left then 0 else IsoMinDigits(negative, prec, width, f)) < BUFFER_SIZE
  {
    StoredValue(value, base, f);
    NumeralLength(value, base, f.uppercase, BUFFER_SIZE - 1);
    hide StoredDigits, Pow, Numeral;
  }

  lemma ModWithin(v: nat, m: nat)
    requires m > 0
    ensures v % m == v <==> v < m
    ensures v % m <= v
  {
    if v < m { ModUnique(v, 0, m, v); }
  }

  /** The conversion loop keeps the number modulo `base` to the 32nd. */
  lemma StoredValue(value: nat, base: nat, f: Flags)
    requires 2 <= base <= 16
    ensures Value(StoredDigits(value, base, f), base) == value % Pow(base, BUFFER_SIZE)
    ensures AllDigits(StoredDigits(value, base, f), base)
    ensures |StoredDigits(value, base, f)| == Min(BUFFER_SIZE, |IsoDigits(value, base, f)|)
  {
    LastDigits(value, base, f.uppercase, BUFFER_SIZE);
    ModWithin(value, Pow(base, BUFFER_SIZE));
  }

  // --- The `#` flag ---

  /** The digits and zeros of a field, as the `#` flag leaves them. */
  function CutDigits(value: nat, negative: bool, base: nat, prec: nat, width: nat, f: Flags): string
    requires 2 <= base <= 16
  {
    var inner := InnerWidth(width, negative, f);
    Cut(Padded(StoredDigits(value, base, f), prec, inner, f), base, prec, inner, f)
  }

  /** Whether the `#` flag takes back a digit: the text fills its field and has too few zeros. */
  predicate LosesDigits(value: nat, negative: bool, base: nat, prec: nat, width: nat, f: Flags)
    requires 2 <= base <= 16
  {
    var inner := InnerWidth(width, negative, f);
    var d := |StoredDigits(value, base, f)|;
    var shown := ShownDigits(d, prec, inner, f);
    !f.precision && (shown == prec || shown == inner) && shown - d < (if base == 16 then 2 else 1)
  }

  /** Under `#` the digits shown still stand for the number exactly when none is taken back. */
  lemma HashSurvival(value: nat, negative: bool, base: nat, prec: nat, width: nat, f: Flags)
    requires 2 <= base <= 16 && value > 0
    ensures Value(CutDigits(value, negative, base, prec, width, f), base) == value
            <==> value < Pow(base, BUFFER_SIZE) && !LosesDigits(value, negative, base, prec, width, f)
  {
    var digits := StoredDigits(value, base, f);
    var inner := InnerWidth(width, negative, f);
    var zeros := ShownDigits(|digits|, prec, inner, f) - |digits|;
    StoredLeads(value, base, f);
    hide StoredDigits, Numeral, Pow, Value, Padded, InnerWidth, ShownDigits, Cut;
    PaddedShape(digits, prec, inner, f);
    CutValue(digits, zeros, base, prec, inner, f);
  }

  lemma StoredLeads(value: nat, base: nat, f: Flags)
    requires 2 <= base <= 16 && value > 0
    ensures var digits := StoredDigits(value, base, f);
            && AllDigits(digits, base) && 0 < |digits| <= BUFFER_SIZE
            && (value < Pow(base, BUFFER_SIZE) ==> Value(digits, base) == value && digits[0] != '0')
  {
    StoredValue(value, base, f);
    NumeralLength(value, base, f.uppercase, BUFFER_SIZE);
    ModWithin(value, Pow(base, BUFFER_SIZE));
    NumeralLeads(value, base, f.uppercase);
    hide Numeral, Pow, Value;
  }

  /** How many characters `#` takes back from a text of `zeros` zeros and some digits. */
  function CutCount(length: nat, base: nat, prec: nat, width: nat, f: Flags): (k: nat)
    ensures k <= length && k <= 2
  {
    if f.precision || length == 0 || (length != prec && length != width) then 0
    else if base == 16 && length > 1 then 2
    else 1
  }

  lemma CutValue(digits: string, zeros: nat, base: nat, prec: nat, width: nat, f: Flags)
    requires 2 <= base <= 16 && AllDigits(digits, base) && digits != "" && zeros + |digits| <= BUFFER_SIZE
    ensures var text := Repeat('0', zeros) + digits;
            var loses := !f.precision && (|text| == prec || |text| == width) && zeros < (if base == 16 then 2 else 1);
            && Value(Cut(text, base, prec, width, f), base) < Pow(base, BUFFER_SIZE)
            && (!loses ==> Value(Cut(text, base, prec, width, f), base) == Value(digits, base))
            && (loses && digits[0] != '0' ==> Value(Cut(text, base, prec, width, f), base) < Value(digits, base))
  {
    var text := Repeat('0', zeros) + digits;
    var k := CutCount(|text|, base, prec, width, f);
    CutDrops(text, base, prec, width, f);
    hide Cut;
    DropValue(digits, zeros, base, k);
  }

  /** Dropping leading characters keeps the value while they are zeros, and lowers it after. */
  lemma DropValue(digits: string, zeros: nat, base: nat, k: nat)
    requires 2 <= base <= 16 && AllDigits(digits, base) && digits != ""
    requires k <= zeros + |digits| <= BUFFER_SIZE
    ensures var cut := (Repeat('0', zeros) + digits)[k..];
            && Value(cut, base) < Pow(base, BUFFER_SIZE)
            && (k <= zeros ==> Value(cut, base) == Value(digits, base))
            && (k > zeros && digits[0] != '0' ==> Value(cut, base) < Value(digits, base))
  {
    hide Value, Pow;
    var cut := (Repeat('0', zeros) + digits)[k..];
    assert AllDigits(cut, base);
    ValueBound(cut, base);
    PowMonotone(base, |cut|, BUFFER_SIZE);
    if k <= zeros {
      assert cut == Repeat('0', zeros - k) + digits;
      LeadingZeros(zeros - k, digits, base);
    } else if digits[0] != '0' {
      var hi, lo := digits[..k - zeros], digits[k - zeros..];
      assert cut == lo && digits == hi + lo;
      ValueSplit(hi, lo, base);
      LeadingDigit(hi, base);
      PowMonotone(base, 0, |lo|);
      Grows(Value(hi, base), Pow(base, |lo|), Value(lo, base));
    }
  }

  lemma Grows(a: nat, p: nat, b: nat)
    requires a >= 1 && p >= 1
    ensures b < a * p + b
  {
    assert a * p >= 1 * p;
  }

  lemma {:induction false} LeadingDigit(s: string, base: nat)
    requires s != "" && 2 <= base <= 16 && AllDigits(s, base) && s[0] != '0'
    ensures Value(s, base) >= 1
  {
    hide Value;
    var s', c := s[..|s| - 1], s[|s| - 1];
    assert s == s' + [c];
    SnocGrows(s', c, base);
    assert IsDigitIn(s[0], base);
    if s' != "" {
      LeadingDigit(s', base);
    }
  }

  lemma SnocGrows(s: string, c: char, base: nat)
    requires base >= 1
    ensures Value(s + [c], base) >= Value(s, base)
    ensures Value(s + [c], base) >= DigitValue(c)
  {
    hide Value;
    ValueSnoc(s, c, base);
    Horner(Value(s, base), base, DigitValue(c));
  }

  lemma Horner(v: nat, base: nat, d: nat)
    requires base >= 1
    ensures v * base + d >= v
    ensures v * base + d >= d
  {
  }

  /** The prefix of a base, as far as the buffer has room for it beside `n` digits. */
  function Mark(base: nat, n: nat): string {
    if base == 8 || base == 10 then (if n < BUFFER_SIZE then "0" else "")
    else if n >= BUFFER_SIZE then ""
    else
      var letter := if base == 16 then "x" else "b";
      if n + 1 < BUFFER_SIZE then "0" + letter else letter
  }

  /** The number in a field printed under `#`: spaces, an optional `+`, an optional `0x` or `0b`, digits. */
  function ReadMarked(s: string, base: nat): nat {
    var t := SkipSpaces(s);
    ReadPrefixed(if Head(t) == '+' then t[1..] else t, base)
  }

  function ReadPrefixed(t: string, base: nat): nat {
    if base != 8 && |t| >= 2 && t[0] == '0' && t[1] == (if base == 16 then 'x' else 'b')
    then Value(DigitsIn(t[2..], base), base)
    else Value(DigitsIn(t, base), base)
  }

  /**
   Reading back a non-zero number printed under `#` succeeds exactly when it has at most 32
   digits, no digit was taken back, and there was room for all of the prefix or none of it.
   */
  lemma HashRoundTrip(value: nat, base: nat, prec: nat, width: nat, f: Flags)
    requires base == 2 || base == 8 || base == 16
    requires value > 0 && f.hash
    ensures var cut := CutDigits(value, false, base, prec, width, f);
            ReadMarked(IntField(value, false, base, prec, width, f), base) == value
            <==> && value < Pow(base, BUFFER_SIZE)
                 && !LosesDigits(value, false, base, prec, width, f)
                 && (base == 8 || |cut| != BUFFER_SIZE - 1)
  {
    var cut := CutDigits(value, false, base, prec, width, f);
    HashSurvival(value, false, base, prec, width, f);
    CutIsDigits(value, base, prec, width, f);
    hide LosesDigits, CutDigits, IntField, Pow, ReadMarked, Mark, SignText, Value, KeptSign, Repeat, AllDigits;
    KeptKinds(|Mark(base, |cut|) + cut|, f);
    var before, after := MarkedField(value, base, prec, width, f);
    ReadMark(cut, base, KeptSign(|Mark(base, |cut|) + cut|, false, f), before, after);
  }

  lemma KeptKinds(n: nat, f: Flags)
    ensures KeptSign(n, false, f) in {"", "+", " "}
  {
  }

  /** What a field of a non-zero number with `#` is made of: spaces, sign, prefix, digits, spaces. */
  lemma MarkedField(value: nat, base: nat, prec: nat, width: nat, f: Flags) returns (before: nat, after: nat)
    requires base == 2 || base == 8 || base == 16
    requires value > 0 && f.hash
    ensures var cut := CutDigits(value, false, base, prec, width, f);
            var marked := Mark(base, |cut|) + cut;
            var sign := KeptSign(|marked|, false, f);
            IntField(value, false, base, prec, width, f) == Repeat(' ', before) + (sign + (marked + Repeat(' ', after)))
  {
    var cut := CutDigits(value, false, base, prec, width, f);
    var inner := InnerWidth(width, false, f);
    MarkedShape(StoredDigits(value, base, f), base, prec, inner, f);
    hide Cut, StoredDigits, Content, Padded, Aligned, InnerWidth, Mark, KeptSign, Repeat;
    var marked := Mark(base, |cut|) + cut;
    before, after := AlignedAround(KeptSign(|marked|, false, f), marked, inner, f);
  }

  lemma AlignedAround(sign: string, text: string, width: nat, f: Flags) returns (before: nat, after: nat)
    ensures Aligned(sign + text, width, f) == Repeat(' ', before) + (sign + (text + Repeat(' ', after)))
  {
    AlignedShape(sign + text, width, f);
    var length := |sign + text|;
    before := Max(if f.left || f.zeropad then 0 else width - length, 0);
    after := Max(if f.left then width - length else 0, 0);
    hide Aligned, Repeat;
    Regroup(sign, text, Repeat(' ', after));
  }

  lemma CutIsDigits(value: nat, base: nat, prec: nat, width: nat, f: Flags)
    requires 2 <= base <= 16
    ensures AllDigits(CutDigits(value, false, base, prec, width, f), base)
    ensures |CutDigits(value, false, base, prec, width, f)| <= BUFFER_SIZE
  {
    var inner := InnerWidth(width, false, f);
    var digits := StoredDigits(value, base, f);
    StoredValue(value, base, f);
    hide StoredDigits, Padded, InnerWidth, ShownDigits, Cut;
    PaddedShape(digits, prec, inner, f);
    var padded := Padded(digits, prec, inner, f);
    assert AllDigits(padded, base);
    CutDrops(padded, base, prec, inner, f);
  }

  lemma CutDrops(text: string, base: nat, prec: nat, width: nat, f: Flags)
    ensures var k := CutCount(|text|, base, prec, width, f);
            Cut(text, base, prec, width, f) == text[k..]
  {
  }

  /** How many digits `#` leaves, and whether it took back more than zeros. */
  lemma CutLength(value: nat, base: nat, prec: nat, width: nat, f: Flags)
    requires 2 <= base <= 16
    ensures var d := |StoredDigits(value, base, f)|;
            var inner := InnerWidth(width, false, f);
            var shown := ShownDigits(d, prec, inner, f);
            && |CutDigits(value, false, base, prec, width, f)| == shown - CutCount(shown, base, prec, inner, f)
            && (LosesDigits(value, false, base, prec, width, f) <==>
                !f.precision && (shown == prec || shown == inner) && shown - d < (if base == 16 then 2 else 1))
  {
    var digits := StoredDigits(value, base, f);
    var inner := InnerWidth(width, false, f);
    hide StoredDigits, ShownDigits, Padded, Cut, InnerWidth;
    PaddedShape(digits, prec, inner, f);
    CutDrops(Padded(digits, prec, inner, f), base, prec, inner, f);
  }

  /** The exact length of a field of a non-zero number with `#`. */
  lemma HashLength(value: nat, base: nat, prec: nat, width: nat, f: Flags)
    requires base == 2 || base == 8 || base == 16
    requires value > 0 && f.hash
    ensures var inner := InnerWidth(width, false, f);
            var shown := ShownDigits(Min(BUFFER_SIZE, |IsoDigits(value, base, f)|), prec, inner, f);
            var left := shown - CutCount(shown, base, prec, inner, f);
            var length := Min(BUFFER_SIZE, |SignText(false, f)| + (if base == 8 then 1 else 2) + left);
            |IntField(value, false, base, prec, width, f)|
            == if f.zeropad && !f.left then length else Max(inner, length)
  {
    hide Cut, Padded, StoredDigits, IsoDigits, Content, InnerWidth, Mark, KeptSign, ShownDigits, CutCount, SignText,
         Pow, Value, AllDigits, Spaces;
    var cut := CutDigits(value, false, base, prec, width, f);
    StoredValue(value, base, f);
    CutLength(value, base, prec, width, f);
    MarkedShape(StoredDigits(value, base, f), base, prec, InnerWidth(width, false, f), f);
    MarkLength(cut, base, f);
    var marked := Mark(base, |cut|) + cut;
    AlignedLength(KeptSign(|marked|, false, f) + marked, InnerWidth(width, false, f), f);
    hide Aligned;
  }

  lemma AlignedLength(text: string, width: nat, f: Flags)
    ensures |Aligned(text, width, f)| == if f.zeropad && !f.left then |text| else Max(width, |text|)
  {
  }

  lemma MarkLength(cut: string, base: nat, f: Flags)
    requires base == 2 || base == 8 || base == 16
    requires |cut| <= BUFFER_SIZE
    ensures var marked := Mark(base, |cut|) + cut;
            |KeptSign(|marked|, false, f) + marked|
            == Min(BUFFER_SIZE, |SignText(false, f)| + (if base == 8 then 1 else 2) + |cut|)
  {
  }

  lemma MarkedShape(digits: string, base: nat, prec: nat, width: nat, f: Flags)
    requires base == 2 || base == 8 || base == 16
    requires f.hash && |digits| <= BUFFER_SIZE
    ensures var cut := Cut(Padded(digits, prec, width, f), base, prec, width, f);
            var marked := Mark(base, |cut|) + cut;
            Content(digits, false, base, prec, width, f) == KeptSign(|marked|, false, f) + marked
  {
    var cut := Cut(Padded(digits, prec, width, f), base, prec, width, f);
    PrefixedMark(cut, base);
    hide Cut, Padded, Prefixed, Mark, SignText;
    assert "" + (Mark(base, |cut|) + cut) == Mark(base, |cut|) + cut;
  }

  lemma PrefixedMark(cut: string, base: nat)
    requires base == 2 || base == 8 || base == 16
    ensures Prefixed('0', if base == 16 then Prefixed('x', cut) else if base == 2 then Prefixed('b', cut) else cut)
            == Mark(base, |cut|) + cut
  {
    if |cut| >= BUFFER_SIZE {
      assert "" + cut == cut;
    } else if base == 16 {
      assert ['0'] + (['x'] + cut) == "0x" + cut;
    } else if base == 2 {
      assert ['0'] + (['b'] + cut) == "0b" + cut;
    }
  }

  lemma ReadMark(digits: string, base: nat, sign: string, before: nat, after: nat)
    requires base == 2 || base == 8 || base == 16
    requires AllDigits(digits, base) && |digits| <= BUFFER_SIZE && sign in {"", "+", " "}
    ensures var marked := Mark(base, |digits|) + digits;
            ReadMarked(Repeat(' ', before) + (sign + (marked + Repeat(' ', after))), base)
            == if base != 8 && |digits| == BUFFER_SIZE - 1 then 0 else Value(digits, base)
  {
    var t := Mark(base, |digits|) + digits + Repeat(' ', after);
    SkipSpacesAppend(before, sign + t);
    MarkFirst(digits, base, after);
    SignSkipped(sign, t);
    hide SkipSpaces, Value;
    if base == 8 {
      ReadOctal(digits, after);
    } else {
      ReadLetter(digits, base, after);
    }
    hide DigitsIn, Mark;
  }

  lemma MarkFirst(digits: string, base: nat, after: nat)
    requires base == 2 || base == 8 || base == 16
    requires AllDigits(digits, base) && |digits| <= BUFFER_SIZE
    ensures var t := Mark(base, |digits|) + digits + Repeat(' ', after);
            t != "" && t[0] != ' ' && t[0] != '+'
  {
    if digits == "" {
      assert Mark(base, 0) + digits + Repeat(' ', after) == Mark(base, 0) + Repeat(' ', after);
    } else {
      assert IsDigitIn(digits[0], base);
    }
  }

  lemma SignSkipped(sign: string, t: string)
    requires t != "" && t[0] != ' ' && t[0] != '+' && sign in {"", "+", " "}
    ensures var u := SkipSpaces(sign + t);
            (if Head(u) == '+' then u[1..] else u) == t
  {
    if sign == "" {
      assert sign + t == t;
    } else {
      assert (sign + t)[1..] == t;
    }
  }

  lemma ReadOctal(digits: string, after: nat)
    requires AllDigits(digits, 8) && |digits| <= BUFFER_SIZE
    ensures Value(DigitsIn(Mark(8, |digits|) + digits + Repeat(' ', after), 8), 8) == Value(digits, 8)
  {
    hide Value, DigitsIn, DigitValue;
    if |digits| < BUFFER_SIZE {
      var t := Repeat('0', 1) + digits;
      assert Mark(8, |digits|) + digits == t;
      ZeroIsDigit(digits);
      DigitsInAppend(t, after, 8);
      LeadingZeros(1, digits, 8);
    } else {
      assert Mark(8, |digits|) + digits == digits;
      DigitsInAppend(digits, after, 8);
    }
  }

  lemma ZeroIsDigit(digits: string)
    requires AllDigits(digits, 8)
    ensures AllDigits(Repeat('0', 1) + digits, 8)
  {
  }

  lemma ReadLetter(digits: string, base: nat, after: nat)
    requires base == 2 || base == 16
    requires AllDigits(digits, base) && |digits| <= BUFFER_SIZE
    ensures var t := Mark(base, |digits|) + digits + Repeat(' ', after);
            var letter := if base == 16 then 'x' else 'b';
            && |t| >= 2
            && (t[0] == '0' && t[1] == letter <==> |digits| + 2 <= BUFFER_SIZE)
            && (|digits| + 2 <= BUFFER_SIZE ==> DigitsIn(t[2..], base) == digits)
            && (|digits| + 1 == BUFFER_SIZE ==> Value(DigitsIn(t, base), base) == 0)
            && (|digits| == BUFFER_SIZE ==> DigitsIn(t, base) == digits)
  {
    var t := Mark(base, |digits|) + digits + Repeat(' ', after);
    DigitsInAppend(digits, after, base);
    if |digits| == BUFFER_SIZE {
      assert t == digits + Repeat(' ', after);
      assert IsDigitIn(digits[1], base);
    } else if |digits| == BUFFER_SIZE - 1 {
      assert DigitsIn(t, base) == "";
    } else {
      assert t[2..] == digits + Repeat(' ', after);
    }
  }

  /** A zero printed under `#`, which it then does not get, reads back. */
  lemma ZeroMarked(base: nat, prec: nat, width: nat, f: Flags)
    requires base == 2 || base == 8 || base == 16
    ensures ReadMarked(IntField(0, false, base, prec, width, f), base) == 0
  {
    var g := f.(hash := false);
    var digits := StoredDigits(0, base, g);
    StoredValue(0, base, g);
    ModWithin(0, Pow(base, BUFFER_SIZE));
    hide StoredDigits, FormattedField, InnerWidth, SignText, ReadMarked, Value, Pow, Repeat;
    PlainMarked(digits, base, prec, width, g);
  }

  lemma PlainMarked(digits: string, base: nat, prec: nat, width: nat, f: Flags)
    requires base == 2 || base == 8 || base == 16
    requires !f.hash && |digits| <= BUFFER_SIZE && AllDigits(digits, base)
    ensures ReadMarked(FormattedField(digits, false, base, prec, width, f), base) == Value(digits, base)
  {
    hide AllDigits, Repeat, InnerWidth, ShownDigits, ReadMarked, Value, Aligned, Content, KeptSign;
    var inner := InnerWidth(width, false, f);
    ContentShape(digits, false, base, prec, inner, f);
    var n := ShownDigits(|digits|, prec, inner, f);
    KeptKinds(n, f);
    LeadingZeros(n - |digits|, digits, base);
    ZerosDigits(n - |digits|, digits, base);
    var sign, shown := KeptSign(n, false, f), Repeat('0', n - |digits|) + digits;
    var before, after := AlignedAround(sign, shown, inner, f);
    ReadUnmarked(shown, base, sign, before, after);
  }

  lemma ReadUnmarked(digits: string, base: nat, sign: string, before: nat, after: nat)
    requires base == 2 || base == 8 || base == 16
    requires AllDigits(digits, base) && sign in {"", "+", " "}
    ensures ReadMarked(Repeat(' ', before) + (sign + (digits + Repeat(' ', after))), base) == Value(digits, base)
  {
    var t := digits + Repeat(' ', after);
    SkipSpacesAppend(before, sign + t);
    DigitsInAppend(digits, after, base);
    hide Value;
    if digits == "" {
      assert t == Repeat(' ', after);
      SkipSpacesAppend(after, "");
      assert Repeat(' ', after) + "" == Repeat(' ', after);
      if sign == "+" {
        assert (sign + t)[1..] == t;
      } else if sign == " " {
        assert (sign + t)[1..] == t;
      } else {
        assert sign + t == t;
      }
    } else {
      assert IsDigitIn(digits[0], base);
      SignSkipped(sign, t);
      if |digits| > 1 {
        assert IsDigitIn(digits[1], base);
      }
      hide SkipSpaces;
    }
  }
}
