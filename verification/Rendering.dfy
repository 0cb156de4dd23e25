/** What a format means: the text each piece stands for, given the arguments. */
module Rendering {
  import opened Text
  import opened Words
  import opened Numerals
  import opened Directives
  import opened Fields

  /** A variadic argument: the 64-bit slot of an integer or pointer, or a NUL-free string. */
  datatype Arg = Word(bits: uint64) | Str(s: string)

  predicate IsSigned(conversion: char) {
    conversion == 'd' || conversion == 'i'
  }

  predicate IsInteger(conversion: char) {
    IsSigned(conversion) || conversion == 'u' || conversion == 'x' || conversion == 'X'
    || conversion == 'o' || conversion == 'b'
  }

  predicate TakesArgument(conversion: char) {
    IsInteger(conversion) || conversion == 'c' || conversion == 's' || conversion == 'p'
  }

  function BaseOf(conversion: char): (base: nat)
    ensures base == 2 || base == 8 || base == 10 || base == 16
  {
    if conversion == 'x' || conversion == 'X' then 16
    else if conversion == 'o' then 8
    else if conversion == 'b' then 2
    else 10
  }

  function Count(b: bool): nat { if b then 1 else 0 }

  /** How many arguments a directive takes: for its width, its precision and its value, in this order. */
  function Arity(d: Directive): nat {
    Count(d.width == Star) + Count(d.precision == Precision(Star)) + Count(TakesArgument(d.conversion))
  }

  // --- The fields of a directive, with its `*` fields filled in ---

  function SizeOf(l: Length): Size {
    match l
    case NoLength => NO_SIZE
    case LL => NO_SIZE.(long := true, longLong := true)
    case H => NO_SIZE.(short := true)
    case HH => NO_SIZE.(short := true, chr := true)
    case _ => NO_SIZE.(long := true)
  }

  function StarValue(a: Arg): int {
    if a.Word? then Signed(a.bits, U32) else 0
  }

  /** The value of a numeric field whose `*` stands for the first argument. */
  function FieldValue(f: Field, args: seq<Arg>): int
    requires f == Star ==> args != []
  {
    match f
    case Absent => 0
    case Number(n) => n
    case Star => StarValue(args[0])
  }

  function WidthOf(d: Directive, args: seq<Arg>): nat
    requires Fits(d, args)
  {
    Magnitude(FieldValue(d.width, args))
  }

  /** A negative `*` precision counts as zero. */
  function PrecisionOf(d: Directive, args: seq<Arg>): nat
    requires Fits(d, args)
  {
    match d.precision
    case NoPrecision => 0
    case Precision(f) => Max(FieldValue(f, args[Count(d.width == Star)..]), 0)
  }

  /** The flag word before the conversion: a negative `*` width adds `-`. */
  function FlagsWith(d: Directive, args: seq<Arg>): Flags
    requires Fits(d, args)
  {
    var left := d.flags.left || FieldValue(d.width, args) < 0;
    d.flags.(left := left, precision := d.precision != NoPrecision, size := SizeOf(d.length))
  }

  function Magnitude(v: int): nat { if v < 0 then 0 - v else v }

  // --- Conversions ---

  /** How many values the length modifier leaves an integer argument. */
  function ArgRange(size: Size): (m: int)
    ensures m in {U8, U16, U32, U64}
  {
    if size.longLong || size.long then U64 else if size.chr then U8 else if size.short then U16 else U32
  }

  /** The integer a conversion prints: the argument cut to its length modifier. */
  function IntegerArg(conversion: char, range: int, bits: uint64): (v: int)
    requires range in {U8, U16, U32, U64}
    ensures IsSigned(conversion) ==> -range <= 2 * v < range
    ensures !IsSigned(conversion) ==> 0 <= v < range
  {
    if IsSigned(conversion) then Signed(bits, range) else bits % range
  }

  /** The flags that apply to a conversion: no `#` in decimal, signs only for `d` and `i`, no `0` with a precision. */
  function ConversionFlags(conversion: char, f: Flags): Flags {
    f.(hash := f.hash && BaseOf(conversion) != 10,
       uppercase := f.uppercase || conversion == 'X',
       plus := f.plus && IsSigned(conversion),
       space := f.space && IsSigned(conversion),
       zeropad := f.zeropad && !f.precision)
  }

  function IntegerText(conversion: char, f: Flags, width: nat, prec: nat, bits: uint64): string {
    var v := IntegerArg(conversion, ArgRange(f.size), bits);
    IntField(Magnitude(v), v < 0, BaseOf(conversion), prec, width, ConversionFlags(conversion, f))
  }

  function PointerText(f: Flags, prec: nat, bits: uint64): string {
    IntField(bits, false, 16, prec, 16, f.(zeropad := true, uppercase := true))
  }

  function CharText(f: Flags, width: nat, bits: uint64): string {
    Justified([(bits % U8) as char], width, f)
  }

  function StringText(f: Flags, width: nat, prec: nat, s: string): string {
    Justified(if f.precision then s[..Min(|s|, prec)] else s, width, f)
  }

  function ConversionText(conversion: char, f: Flags, width: nat, prec: nat, args: seq<Arg>): string
    requires ValueFits(conversion, ArgRange(f.size), args)
  {
    if IsInteger(conversion) then IntegerText(conversion, f, width, prec, args[0].bits)
    else if conversion == 'c' then CharText(f, width, args[0].bits)
    else if conversion == 's' then StringText(f, width, prec, args[0].s)
    else if conversion == 'p' then PointerText(f, prec, args[0].bits)
    else [conversion]
  }

  /**
   The first argument suits the conversion; a string ends at its first NUL. The least int and the least long cannot be
   negated, which the conversion does to print them.
   */
  predicate ValueFits(conversion: char, range: int, args: seq<Arg>)
    requires range in {U8, U16, U32, U64}
  {
    if conversion == 's' then args != [] && args[0].Str? && '\0' !in args[0].s
    else if TakesArgument(conversion) then
      args != [] && args[0].Word?
      && (IsSigned(conversion) && range >= U32 ==> -range < 2 * Signed(args[0].bits, range))
    else true
  }

  /** A `*` width or precision is an int; a width is negated when negative. */
  predicate StarFits(a: Arg) {
    a.Word? && -(U32 / 2) < Signed(a.bits, U32)
  }

  /** The arguments suit the directive. */
  predicate Fits(d: Directive, args: seq<Arg>) {
    && |args| >= Arity(d)
    && (d.width == Star ==> StarFits(args[0]))
    && (d.precision == Precision(Star) ==> args[Count(d.width == Star)].Word?)
    && ValueFits(d.conversion, ArgRange(SizeOf(d.length)), ValueArgs(d, args))
  }

  /** The arguments from a directive's value on. */
  function ValueArgs(d: Directive, args: seq<Arg>): seq<Arg>
    requires |args| >= Arity(d)
  {
    args[Count(d.width == Star) + Count(d.precision == Precision(Star))..]
  }

  /** The text of one directive. */
  function DirectiveText(d: Directive, args: seq<Arg>): string
    requires Fits(d, args)
  {
    ConversionText(d.conversion, FlagsWith(d, args), WidthOf(d, args), PrecisionOf(d, args),
                   ValueArgs(d, args))
  }

  // --- Whole formats ---

  function PieceArity(p: Piece): nat {
    if p.Conversion? then Arity(p.d) else 0
  }

  predicate PieceFits(p: Piece, args: seq<Arg>) {
    p.Conversion? ==> Fits(p.d, args)
  }

  function PieceText(p: Piece, args: seq<Arg>): string
    requires PieceFits(p, args)
  {
    match p
    case Literal(c) => [c]
    case Conversion(d) => DirectiveText(d, args)
  }

  /** Every directive finds suitable arguments after those of the pieces before it. */
  predicate Matches(ps: seq<Piece>, args: seq<Arg>) {
    ps == [] || (PieceFits(ps[0], args) && PieceArity(ps[0]) <= |args| && Matches(ps[1..], args[PieceArity(ps[0])..]))
  }

  /** The texts of the pieces in order, each on the arguments the earlier ones left. */
  function Render(ps: seq<Piece>, args: seq<Arg>): string
    requires Matches(ps, args)
  {
    if ps == [] then "" else PieceText(ps[0], args) + Render(ps[1..], args[PieceArity(ps[0])..])
  }

  /** A format the engine accepts: no directive cut off, and suitable arguments. */
  predicate Accepts(format: string, args: seq<Arg>) {
    WellFormed(format) && Matches(Parse(format), args)
  }

  function Formatted(format: string, args: seq<Arg>): string
    requires Accepts(format, args)
  {
    Render(Parse(format), args)
  }
}
