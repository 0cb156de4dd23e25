/**
 The directive syntax of the formatter, `%[flags][width][.precision][length]conversion`,
 as a total parser on strings. A text that stops inside a directive gives a directive whose
 conversion is the terminator.
 */
module Directives {
  import opened Text
  import opened Words
  import opened Numerals

  /** The flag word of a directive, one field for each of its bits. */
  datatype Flags = Flags(
    zeropad: bool, left: bool, plus: bool, space: bool, hash: bool, uppercase: bool, precision: bool, size: Size)

  /** The bits of the flag word that the length field sets. */
  datatype Size = Size(chr: bool, short: bool, long: bool, longLong: bool)

  const NO_SIZE := Size(false, false, false, false)
  const NO_FLAGS := Flags(false, false, false, false, false, false, false, NO_SIZE)

  /** A numeric field: left out, written in the format, or taken from the arguments. */
  datatype Field = Absent | Number(n: uint32) | Star

  datatype Precision = NoPrecision | Precision(field: Field)

  datatype Length = NoLength | L | LL | H | HH | T | J | Z

  datatype Directive = Directive(
    flags: Flags, width: Field, precision: Precision, length: Length, conversion: char)

  datatype Piece = Literal(c: char) | Conversion(d: Directive)

  // --- Flags ---

  predicate IsFlag(c: char) {
    c == '0' || c == '-' || c == '+' || c == ' ' || c == '#'
  }

  function SetFlag(f: Flags, c: char): Flags {
    match c
    case '0' => f.(zeropad := true)
    case '-' => f.(left := true)
    case '+' => f.(plus := true)
    case ' ' => f.(space := true)
    case '#' => f.(hash := true)
    case _ => f
  }

  /** The flags that a run of flag characters stands for: its set of characters. */
  function FlagsOf(run: string): Flags {
    NO_FLAGS.(zeropad := '0' in run, left := '-' in run, plus := '+' in run,
              space := ' ' in run, hash := '#' in run)
  }

  /** The number of characters at the start of `s` that are flags. */
  function FlagRun(s: string): (n: nat)
    ensures n <= |s|
  {
    if s != "" && IsFlag(s[0]) then 1 + FlagRun(s[1..]) else 0
  }

  // --- Numbers ---

  /** The number of decimal digits at the start of `s`. */
  function DigitRun(s: string): (n: nat)
    ensures n <= |s|
  {
    if s != "" && IsDigit(s[0]) then 1 + DigitRun(s[1..]) else 0
  }

  /** A number at the start of `s`: the maximal run of digits, read modulo 2^32. */
  function NumberAt(s: string): (r: (uint32, string))
    ensures |r.1| <= |s|
  {
    var n := DigitRun(s);
    (Value(s[..n], 10) % U32, s[n..])
  }

  function FieldAt(s: string): (r: (Field, string))
    ensures |r.1| <= |s|
  {
    if IsDigit(Head(s)) then var (n, rest) := NumberAt(s); (Number(n), rest)
    else if Head(s) == '*' then (Star, s[1..])
    else (Absent, s)
  }

  function PrecisionAt(s: string): (r: (Precision, string))
    ensures |r.1| <= |s|
  {
    if Head(s) == '.' then var (f, rest) := FieldAt(s[1..]); (Precision(f), rest)
    else (NoPrecision, s)
  }

  function LengthAt(s: string): (r: (Length, string))
    ensures |r.1| <= |s|
  {
    match Head(s)
    case 'l' => if Head(s[1..]) == 'l' then (LL, s[2..]) else (L, s[1..])
    case 'h' => if Head(s[1..]) == 'h' then (HH, s[2..]) else (H, s[1..])
    case 't' => (T, s[1..])
    case 'j' => (J, s[1..])
    case 'z' => (Z, s[1..])
    case _ => (NoLength, s)
  }

  /** The directive that follows a percent sign, and the text after it. */
  function DirectiveAt(s: string): (r: (Directive, string))
    ensures |r.1| <= |s|
  {
    var n := FlagRun(s);
    var (width, s2) := FieldAt(s[n..]);
    var (precision, s3) := PrecisionAt(s2);
    var (length, s4) := LengthAt(s3);
    (Directive(FlagsOf(s[..n]), width, precision, length, Head(s4)), Tail(s4))
  }

  /** A format as the sequence of its literal characters and directives. */
  function Parse(s: string): seq<Piece>
    decreases |s|
  {
    if s == "" then []
    else if s[0] != '%' then [Literal(s[0])] + Parse(s[1..])
    else
      var (d, rest) := DirectiveAt(s[1..]);
      [Conversion(d)] + Parse(rest)
  }

  /** A format none of whose directives is cut off by the terminator. */
  predicate WellFormed(s: string) {
    forall p <- Parse(s) :: p.Conversion? ==> p.d.conversion != '\0'
  }

  // --- Printing a directive ---

  /** The canonical spelling of a directive, without its percent sign. */
  function Spell(d: Directive): string {
    SpellFlags(d.flags) + SpellField(d.width) + SpellPrecision(d.precision) + SpellLength(d.length) + [d.conversion]
  }

  function SpellFlags(f: Flags): string {
    SpellFlag('0', f.zeropad) + SpellFlag('-', f.left) + SpellFlag('+', f.plus) + SpellFlag(' ', f.space)
    + SpellFlag('#', f.hash)
  }

  function SpellFlag(c: char, on: bool): string {
    if on then [c] else ""
  }

  function SpellField(f: Field): string {
    match f
    case Absent => ""
    case Number(n) => Numeral(n, 10, false)
    case Star => "*"
  }

  function SpellPrecision(p: Precision): string {
    match p
    case NoPrecision => ""
    case Precision(f) => "." + SpellField(f)
  }

  function SpellLength(l: Length): string {
    match l
    case NoLength => "" case L => "l" case LL => "ll" case H => "h" case HH => "hh"
    case T => "t" case J => "j" case Z => "z"
  }

  /** A directive with only syntax flags, no width of zero and a conversion no field can claim. */
  predicate Canonical(d: Directive) {
    && !d.flags.uppercase && !d.flags.precision && d.flags.size == NO_SIZE
    && d.width != Number(0)
    && d.conversion !in "\0-+ #*.lhtjz"
    && !IsDigit(d.conversion)
  }

  lemma {:induction false} FlagRunAppend(run: string, s: string)
    requires forall c <- run :: IsFlag(c)
    requires !IsFlag(Head(s))
    ensures FlagRun(run + s) == |run|
  {
    if run != "" {
      assert (run + s)[1..] == run[1..] + s;
      FlagRunAppend(run[1..], s);
    } else {
      assert run + s == s;
    }
  }

  lemma {:induction false} DigitRunAppend(run: string, s: string)
    requires AllDigits(run, 10)
    requires !IsDigit(Head(s))
    ensures DigitRun(run + s) == |run|
  {
    if run != "" {
      assert (run + s)[1..] == run[1..] + s;
      assert IsDigitIn(run[0], 10);
      forall i | 0 <= i < |run[1..]| ensures IsDigitIn(run[1..][i], 10) {
        assert IsDigitIn(run[1 + i], 10);
      }
      DigitRunAppend(run[1..], s);
    } else {
      assert run + s == s;
    }
  }

  /** Reading a printed number gives the number back and stops just after it. */
  lemma NumberRoundTrip(n: uint32, s: string)
    requires !IsDigit(Head(s))
    ensures NumberAt(Numeral(n, 10, false) + s) == (n, s)
  {
    var t := Numeral(n, 10, false);
    NumeralReads(n, 10, false);
    hide Numeral, Value, DigitRun;
    DigitRunAppend(t, s);
    assert (t + s)[..|t|] == t && (t + s)[|t|..] == s;
    Below(n);
  }

  lemma Below(n: uint32)
    ensures n % U32 == n
  {
  }

  lemma FieldRoundTrip(f: Field, s: string)
    requires !IsDigit(Head(s)) && Head(s) != '*'
    ensures FieldAt(SpellField(f) + s) == (f, s)
  {
    match f
    case Absent => assert SpellField(f) + s == s;
    case Star => assert (SpellField(f) + s)[1..] == s;
    case Number(n) =>
      NumberRoundTrip(n, s);
      NumeralReads(n, 10, false);
      var t := Numeral(n, 10, false);
      assert IsDigitIn(t[0], 10);
      assert Head(t + s) == t[0];
  }

  lemma PrecisionRoundTrip(p: Precision, s: string)
    requires Head(s) !in ".*" && !IsDigit(Head(s))
    ensures PrecisionAt(SpellPrecision(p) + s) == (p, s)
  {
    match p
    case NoPrecision => assert SpellPrecision(p) + s == s;
    case Precision(f) =>
      assert (SpellPrecision(p) + s)[1..] == SpellField(f) + s;
      FieldRoundTrip(f, s);
  }

  lemma LengthRoundTrip(l: Length, s: string)
    requires Head(s) !in "lhtjz"
    ensures LengthAt(SpellLength(l) + s) == (l, s)
  {
    var t := SpellLength(l) + s;
    assert t[|SpellLength(l)|..] == s;
    assert s != "" ==> Head(s) == s[0];
    assert l == NoLength ==> t == s;
    assert l != NoLength ==> t[0] == SpellLength(l)[0];
  }

  lemma LengthHead(l: Length, s: string)
    ensures Head(SpellLength(l) + s) == if l == NoLength then Head(s) else SpellLength(l)[0]
    ensures l != NoLength ==> SpellLength(l)[0] in "lhtjz"
  {
    assert l == NoLength ==> SpellLength(l) + s == s;
  }

  lemma PrecisionHead(p: Precision, s: string)
    ensures Head(SpellPrecision(p) + s) == if p == NoPrecision then Head(s) else '.'
  {
    assert p == NoPrecision ==> SpellPrecision(p) + s == s;
  }

  /** A canonical width field cannot be taken for a flag. */
  lemma FieldHead(f: Field, s: string)
    requires f != Number(0) && !IsFlag(Head(s))
    ensures !IsFlag(Head(SpellField(f) + s))
  {
    match f
    case Absent => assert SpellField(f) + s == s;
    case Star =>
    case Number(n) =>
      NumeralReads(n, 10, false);
      NumeralLeads(n, 10, false);
      var t := Numeral(n, 10, false);
      assert IsDigitIn(t[0], 10);
      assert Head(t + s) == t[0];
  }

  lemma CanonicalHead(d: Directive)
    requires Canonical(d)
    ensures d.width != Number(0)
    ensures d.conversion !in ".*" && d.conversion !in "lhtjz" && d.conversion != '*'
    ensures !IsDigit(d.conversion) && !IsFlag(d.conversion)
  {
  }

  /** The three numeric and length fields, each read back from the text the next one starts. */
  lemma FieldsRoundTrip(d: Directive, s4: string, s3: string, s2: string, s1: string)
    requires Canonical(d) && s4 != "" && s4[0] == d.conversion
    requires s3 == SpellLength(d.length) + s4
    requires s2 == SpellPrecision(d.precision) + s3
    requires s1 == SpellField(d.width) + s2
    ensures LengthAt(s3) == (d.length, s4)
    ensures PrecisionAt(s2) == (d.precision, s3)
    ensures FieldAt(s1) == (d.width, s2)
    ensures !IsFlag(Head(s1))
  {
    hide FieldAt, PrecisionAt, LengthAt, SpellField, SpellPrecision, SpellLength, Canonical;
    CanonicalHead(d);
    LengthHead(d.length, s4);
    PrecisionHead(d.precision, s3);
    LengthRoundTrip(d.length, s4);
    PrecisionRoundTrip(d.precision, s3);
    FieldRoundTrip(d.width, s2);
    FieldHead(d.width, s2);
  }

  lemma Regroup6(a: string, b: string, c: string, d: string, e: string, f: string)
    ensures a + b + c + d + e + f == a + (b + (c + (d + (e + f))))
  {
  }

  lemma FlagsSpellFlags(f: Flags)
    ensures forall c <- SpellFlags(f) :: IsFlag(c)
  {
  }

  /** The flag characters that are spelled are those that are set. */
  lemma SpelledFlags(f: Flags, c: char)
    ensures c in SpellFlags(f) <==>
              (c == '0' && f.zeropad) || (c == '-' && f.left) || (c == '+' && f.plus) || (c == ' ' && f.space)
              || (c == '#' && f.hash)
  {
    var a, b, d := SpellFlag('0', f.zeropad), SpellFlag('-', f.left), SpellFlag('+', f.plus);
    var e, g := SpellFlag(' ', f.space), SpellFlag('#', f.hash);
    InAppend(c, a + b + d + e, g);
    InAppend(c, a + b + d, e);
    InAppend(c, a + b, d);
    InAppend(c, a, b);
  }

  lemma InAppend(c: char, s: string, t: string)
    ensures c in s + t <==> c in s || c in t
  {
  }

  /** Each flag character sets its flag: spelling the flags and reading them gives them back. */
  lemma FlagsReadBack(f: Flags)
    requires !f.uppercase && !f.precision && f.size == NO_SIZE
    ensures FlagsOf(SpellFlags(f)) == f
  {
    SpelledFlags(f, '0');
    SpelledFlags(f, '-');
    SpelledFlags(f, '+');
    SpelledFlags(f, ' ');
    SpelledFlags(f, '#');
    hide SpellFlags;
  }

  /** The parser undoes the printer on every canonical directive, whatever text follows. */
  lemma ParsePrint(d: Directive, rest: string)
    requires Canonical(d)
    ensures DirectiveAt(Spell(d) + rest) == (d, rest)
  {
    var s4 := [d.conversion] + rest;
    var s3 := SpellLength(d.length) + s4;
    var s2 := SpellPrecision(d.precision) + s3;
    var s1 := SpellField(d.width) + s2;
    var run := SpellFlags(d.flags);
    FlagsReadBack(d.flags);
    FieldsRoundTrip(d, s4, s3, s2, s1);
    hide FieldAt, PrecisionAt, LengthAt, SpellFlags, SpellField, SpellPrecision, SpellLength, FlagsOf;
    assert forall c <- run :: IsFlag(c) by { FlagsSpellFlags(d.flags); }
    FlagRunAppend(run, s1);
    assert (run + s1)[..|run|] == run && (run + s1)[|run|..] == s1;
    assert DirectiveAt(run + s1) == (d, rest);
    Regroup6(run, SpellField(d.width), SpellPrecision(d.precision), SpellLength(d.length), [d.conversion], rest);
  }

  /** Only the set of flag characters matters, not their order or how often each is given. */
  lemma FlagOrder(run1: string, run2: string, s: string)
    requires forall c <- run1 :: IsFlag(c)
    requires forall c <- run2 :: IsFlag(c)
    requires !IsFlag(Head(s))
    ensures (forall c :: c in run1 <==> c in run2) <==> DirectiveAt(run1 + s).0.flags == DirectiveAt(run2 + s).0.flags
    ensures DirectiveAt(run1 + s) == (DirectiveAt(s).0.(flags := FlagsOf(run1)), DirectiveAt(s).1)
  {
    FlagRunAppend(run1, s);
    FlagRunAppend(run2, s);
    FlagRunAppend("", s);
    assert (run1 + s)[..|run1|] == run1 && (run1 + s)[|run1|..] == s;
    assert (run2 + s)[..|run2|] == run2 && (run2 + s)[|run2|..] == s;
    assert "" + s == s && s[0..] == s;
  }

  /** One character more in a run of flags sets one flag more. */
  lemma FlagsSnoc(run: string, c: char)
    ensures FlagsOf(run + [c]) == SetFlag(FlagsOf(run), c)
  {
  }
}
