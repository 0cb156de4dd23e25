/** The kernel's own messages, and what the formatter makes of them. */
module Messages {
  import opened Text
  import opened Words
  import opened Numerals
  import opened Directives
  import opened Fields
  import opened Rendering
  import opened Console
  import Formats
  import Laws
  import HashLaws
  import Logging

  function PicRemappedFormat(): string { PicHead() + ("%d" + (PicMiddle() + ("%d" + "\n"))) }

  function PicHead(): string { "PIC remapped: PIC1 -> " }

  function PicMiddle(): string { " | PIC2 -> " }

  function NoHandlerFormat(): string { "IRQ " + ("%d" + NoHandlerTail()) }

  function NoHandlerTail(): string { " received but has no handler\n" }

  function IdtHead(): string { "IDT" + HeadTail() }

  function GdtHead(): string { "GDT" + HeadTail() }

  function HeadTail(): string { " successfully installed: " }

  function InstalledFormat(head: string): string { head + ("%#lX" + (" " + ("%#lX" + "\n"))) }

  function Decimal(n: nat): string {
    Numeral(n, 10, false)
  }

  function PicRemapped(master: nat, slave: nat): string {
    PicHead() + (Decimal(master) + (PicMiddle() + (Decimal(slave) + "\n")))
  }

  function NoHandler(vector: nat): string {
    "IRQ " + (Decimal(vector) + NoHandlerTail())
  }

  /** `0x` and upper-case digits; zero has no prefix. */
  function Hex(n: nat): string {
    if n == 0 then "0" else "0x" + Numeral(n, 16, true)
  }

  function TableInstalled(head: string, base: nat, size: nat): string {
    head + (Hex(base) + (" " + (Hex(size) + "\n")))
  }

  lemma LiteralFirst(c: char, s: string, args: seq<Arg>)
    requires c != '%' && Accepts(s, args)
    ensures Accepts([c] + s, args) && Formatted([c] + s, args) == [c] + Formatted(s, args)
  {
    hide DirectiveAt, Fits, DirectiveText;
    assert ([c] + s)[1..] == s;
    assert Parse([c] + s) == [Literal(c)] + Parse(s);
    assert Parse([c] + s)[1..] == Parse(s);
    assert args[0..] == args;
  }

  /** Text without a percent sign stands for itself. */
  lemma {:induction false} LiteralThen(text: string, rest: string, args: seq<Arg>)
    requires '%' !in text && Accepts(rest, args)
    ensures Accepts(text + rest, args) && Formatted(text + rest, args) == text + Formatted(rest, args)
  {
    hide Accepts, Formatted;
    if text == "" {
      assert text + rest == rest;
      assert "" + Formatted(rest, args) == Formatted(rest, args);
    } else {
      assert [text[0]] + (text[1..] + rest) == text + rest;
      LiteralThen(text[1..], rest, args);
      LiteralFirst(text[0], text[1..] + rest, args);
      assert [text[0]] + (text[1..] + Formatted(rest, args)) == text + Formatted(rest, args);
    }
  }

  /** A directive of one argument stands for its text, whatever follows. */
  lemma DirectiveThen(d: Directive, a: Arg, rest: string, args: seq<Arg>)
    requires Canonical(d) && Arity(d) == 1 && Fits(d, [a] + args) && Accepts(rest, args)
    ensures Accepts("%" + Spell(d) + rest, [a] + args)
    ensures Formatted("%" + Spell(d) + rest, [a] + args) == DirectiveText(d, [a] + args) + Formatted(rest, args)
  {
    hide DirectiveAt, Fits, DirectiveText, Canonical, Spell, Arity, Accepts, Formatted;
    var s := "%" + Spell(d) + rest;
    Formats.CanonicalConversion(d);
    ParsePrint(d, rest);
    assert s[0] == '%' && s[1..] == Spell(d) + rest;
    DirectiveFirst(s, d, rest, a, args);
  }

  lemma DirectiveFirst(s: string, d: Directive, rest: string, a: Arg, args: seq<Arg>)
    requires s != "" && s[0] == '%' && DirectiveAt(s[1..]) == (d, rest) && d.conversion != '\0'
    requires Arity(d) == 1 && Fits(d, [a] + args) && Accepts(rest, args)
    ensures Accepts(s, [a] + args)
    ensures Formatted(s, [a] + args) == DirectiveText(d, [a] + args) + Formatted(rest, args)
  {
    var all := [a] + args;
    hide DirectiveAt, Fits, DirectiveText, Arity;
    assert Parse(s) == [Conversion(d)] + Parse(rest);
    assert Parse(s)[1..] == Parse(rest);
    assert all[1..] == args;
  }

  function PlainD(): Directive { Directive(NO_FLAGS, Absent, NoPrecision, NoLength, 'd') }

  function LongHex(): Directive { Directive(NO_FLAGS.(hash := true), Absent, NoPrecision, L, 'X') }

  lemma Spellings()
    ensures "%" + Spell(PlainD()) == "%d" && Canonical(PlainD()) && Arity(PlainD()) == 1
    ensures "%" + Spell(LongHex()) == "%#lX" && Canonical(LongHex()) && Arity(LongHex()) == 1
  {
  }

  /** `%d` stands for the decimal numeral of its argument. */
  lemma DecimalThen(n: nat, rest: string, args: seq<Arg>)
    requires n < U32 / 2 && Accepts(rest, args)
    ensures Accepts("%d" + rest, [Word(n)] + args)
    ensures Formatted("%d" + rest, [Word(n)] + args) == Decimal(n) + Formatted(rest, args)
  {
    Spellings();
    PlainDecimal(PlainD(), n, [Word(n)] + args);
    hide Accepts, Formatted, Fits, DirectiveText, Spell, Canonical, Arity, Decimal, PlainD;
    DirectiveThen(PlainD(), Word(n), rest, args);
  }

  /** `%#lX` stands for the upper-case hexadecimal numeral of its argument, after `0x` unless it is zero. */
  lemma HexThen(n: uint64, rest: string, args: seq<Arg>)
    requires Accepts(rest, args)
    ensures Accepts("%#lX" + rest, [Word(n)] + args)
    ensures Formatted("%#lX" + rest, [Word(n)] + args) == Hex(n) + Formatted(rest, args)
  {
    Spellings();
    PlainHex(n, [Word(n)] + args);
    hide Accepts, Formatted, Fits, DirectiveText, Spell, Canonical, Arity, Hex, LongHex;
    DirectiveThen(LongHex(), Word(n), rest, args);
  }

  lemma PlainHex(n: uint64, args: seq<Arg>)
    requires args != [] && args[0] == Word(n)
    ensures Fits(LongHex(), args) && DirectiveText(LongHex(), args) == Hex(n)
  {
    var f := NO_FLAGS.(hash := true, size := NO_SIZE.(long := true));
    assert ValueArgs(LongHex(), args) == args;
    assert FlagsWith(LongHex(), args) == f;
    assert IntegerArg('X', ArgRange(f.size), n) == n;
    hide IntegerText, IntegerArg;
    HashLaws.HashLayout('X', f, 0, 0, n);
    HexLayout(f, n);
    hide HashLaws.IsoMarked, HashLaws.HashFits;
  }

  lemma HexLayout(f: Flags, n: uint64)
    requires f == NO_FLAGS.(hash := true, size := NO_SIZE.(long := true))
    ensures HashLaws.HashFits('X', f, 0, 0, n)
    ensures HashLaws.IsoMarked('X', f, 0, 0, n) == Hex(n)
  {
    Laws.SixteenDigits();
    NumeralLength(n, 16, true, 16);
    var digits := Laws.DigitsOf('X', f, n);
    assert digits == Numeral(n, 16, true);
    assert n == 0 ==> digits == "0";
    hide Numeral, Pow, Laws.DigitsOf;
    assert Laws.Spelled(0, digits) == digits;
    assert HashLaws.IsoMarkedText('X', f, 0, 0, n) == Hex(n);
    assert Justified(Hex(n), 0, f) == Hex(n);
  }

  lemma PlainDecimal(d: Directive, n: nat, args: seq<Arg>)
    requires d == PlainD() && n < U32 / 2 && args != [] && args[0] == Word(n)
    ensures Fits(d, args) && Arity(d) == 1 && DirectiveText(d, args) == Decimal(n)
  {
    SmallSigned(n);
    hide Signed, ConversionText, Numeral;
    assert ValueArgs(d, args) == args;
    assert Fits(d, args);
    assert FlagsWith(d, args) == NO_FLAGS;
    PlainText(n, args);
  }

  lemma SmallSigned(n: nat)
    requires n < U32 / 2
    ensures Signed(n, U32) == n
  {
  }

  lemma PlainText(n: nat, args: seq<Arg>)
    requires n < U32 / 2 && args != [] && args[0] == Word(n)
    requires ValueFits('d', ArgRange(NO_SIZE), args)
    ensures ConversionText('d', NO_FLAGS, 0, 0, args) == Decimal(n)
  {
    SmallSigned(n);
    Laws.IntegerConforms('d', NO_FLAGS, 0, 0, n);
    Laws.StoredExactly(n, NO_FLAGS);
    hide Numeral, IntegerText, StoredDigits, Signed;
    assert Laws.IsoInteger('d', NO_FLAGS, 0, 0, n) == Decimal(n);
    assert |IsoDigits(n, 10, NO_FLAGS)| <= 22;
  }

  lemma EmptyFormat()
    ensures Accepts("", []) && Formatted("", []) == ""
  {
  }

  /** A message with one number. */
  lemma OneNumber(before: string, n: nat, after: string)
    requires '%' !in before && '%' !in after && n < 256
    ensures Accepts(before + ("%d" + after), [Word(n)])
    ensures Formatted(before + ("%d" + after), [Word(n)]) == before + (Decimal(n) + after)
  {
    hide Accepts, Formatted, Decimal;
    EmptyFormat();
    LiteralThen(after, "", []);
    assert after + "" == after;
    DecimalThen(n, after, []);
    assert [Word(n)] + [] == [Word(n)];
    LiteralThen(before, "%d" + after, [Word(n)]);
  }

  /** A message with two numbers. */
  lemma TwoNumbers(before: string, m: nat, between: string, n: nat, after: string)
    requires '%' !in before && '%' !in between && '%' !in after && m < 256 && n < 256
    ensures Accepts(before + ("%d" + (between + ("%d" + after))), [Word(m), Word(n)])
    ensures Formatted(before + ("%d" + (between + ("%d" + after))), [Word(m), Word(n)])
            == before + (Decimal(m) + (between + (Decimal(n) + after)))
  {
    hide Accepts, Formatted, Decimal;
    OneNumber(between, n, after);
    var rest := between + ("%d" + after);
    DecimalThen(m, rest, [Word(n)]);
    assert [Word(m)] + [Word(n)] == [Word(m), Word(n)];
    LiteralThen(before, "%d" + rest, [Word(m), Word(n)]);
  }

  /** A NUL-free message is printable, and no sink drops any of it. */
  lemma PlainMessage(format: string, args: seq<Arg>, before: string, text: string, after: string)
    requires '\0' !in format && Accepts(format, args)
    requires Formatted(format, args) == before + (text + after) && |before| + |text| + |after| < 1000
    requires '\0' !in before && '\0' !in text && '\0' !in after
    ensures Logging.Printable(format, args)
    ensures NonNul(before + (text + after)) == before + (text + after)
  {
    hide Accepts, Formatted;
    NonNulId(before + (text + after));
  }

  /** The message of an interrupt without a handler. */
  lemma NoHandlerText(vector: nat)
    requires vector < 256
    ensures Logging.Printable(NoHandlerFormat(), [Word(vector)])
    ensures Formatted(NoHandlerFormat(), [Word(vector)]) == NoHandler(vector)
    ensures NonNul(NoHandler(vector)) == NoHandler(vector)
  {
    hide Accepts, Formatted, Decimal, NonNul, Logging.Printable, NoHandlerFormat, NoHandlerTail;
    NoHandlerParts();
    OneNumber("IRQ ", vector, NoHandlerTail());
    ShortDecimal(vector);
    PlainMessage(NoHandlerFormat(), [Word(vector)], "IRQ ", Decimal(vector), NoHandlerTail());
  }

  lemma NoHandlerParts()
    ensures NoHandlerFormat() == "IRQ " + ("%d" + NoHandlerTail())
    ensures '%' !in NoHandlerTail() && '\0' !in NoHandlerTail() && |NoHandlerTail()| < 50
    ensures '\0' !in NoHandlerFormat()
  {
    NoHandlerTailPlain();
    hide NoHandlerTail;
  }

  lemma NoHandlerTailPlain()
    ensures '%' !in NoHandlerTail() && '\0' !in NoHandlerTail() && |NoHandlerTail()| < 50
  {
  }

  /** The message that reports the controllers' vectors. */
  lemma PicRemappedText(master: nat, slave: nat)
    requires master < 256 && slave < 256
    ensures Logging.Printable(PicRemappedFormat(), [Word(master), Word(slave)])
    ensures Formatted(PicRemappedFormat(), [Word(master), Word(slave)]) == PicRemapped(master, slave)
    ensures NonNul(PicRemapped(master, slave)) == PicRemapped(master, slave)
  {
    hide Accepts, Formatted, Decimal, NonNul, Logging.Printable, PicHead, PicMiddle;
    PicParts();
    TwoNumbers(PicHead(), master, PicMiddle(), slave, "\n");
    ShortDecimal(master);
    ShortDecimal(slave);
    PlainMessage(PicRemappedFormat(), [Word(master), Word(slave)], PicHead(), Decimal(master),
                 PicMiddle() + (Decimal(slave) + "\n"));
  }

  lemma PicParts()
    ensures '%' !in PicHead() && '\0' !in PicHead() && |PicHead()| < 50
    ensures '%' !in PicMiddle() && '\0' !in PicMiddle() && |PicMiddle()| < 50
  {
  }

  /** The messages that report the descriptor tables. */
  lemma TableInstalledText(head: string, base: uint64, size: uint64)
    requires head == IdtHead() || head == GdtHead()
    ensures Logging.Printable(InstalledFormat(head), [Word(base), Word(size)])
    ensures Formatted(InstalledFormat(head), [Word(base), Word(size)]) == TableInstalled(head, base, size)
    ensures NonNul(TableInstalled(head, base, size)) == TableInstalled(head, base, size)
  {
    PlainHeads();
    hide Accepts, Formatted, Hex, NonNul, Logging.Printable, IdtHead, GdtHead;
    TwoHex(head, base, " ", size, "\n");
    ShortHex(base);
    ShortHex(size);
    PlainMessage(InstalledFormat(head), [Word(base), Word(size)], head, Hex(base), " " + (Hex(size) + "\n"));
  }

  lemma PlainHeads()
    ensures '%' !in IdtHead() && '\0' !in IdtHead() && |IdtHead()| < 50
    ensures '%' !in GdtHead() && '\0' !in GdtHead() && |GdtHead()| < 50
  {
    PlainTail();
    hide HeadTail;
    InPlain("IDT", HeadTail());
    InPlain("GDT", HeadTail());
  }

  lemma InPlain(name: string, tail: string)
    requires '%' !in name && '\0' !in name && '%' !in tail && '\0' !in tail
    ensures '%' !in name + tail && '\0' !in name + tail
  {
  }

  lemma PlainTail()
    ensures '%' !in HeadTail() && '\0' !in HeadTail() && |HeadTail()| < 30
  {
  }

  lemma TwoHex(before: string, m: uint64, between: string, n: uint64, after: string)
    requires '%' !in before && '%' !in between && '%' !in after
    ensures Accepts(before + ("%#lX" + (between + ("%#lX" + after))), [Word(m), Word(n)])
    ensures Formatted(before + ("%#lX" + (between + ("%#lX" + after))), [Word(m), Word(n)])
            == before + (Hex(m) + (between + (Hex(n) + after)))
  {
    hide Accepts, Formatted, Hex;
    EmptyFormat();
    LiteralThen(after, "", []);
    assert after + "" == after;
    HexThen(n, after, []);
    assert [Word(n)] + [] == [Word(n)];
    LiteralThen(between, "%#lX" + after, [Word(n)]);
    HexThen(m, between + ("%#lX" + after), [Word(n)]);
    assert [Word(m)] + [Word(n)] == [Word(m), Word(n)];
    LiteralThen(before, "%#lX" + (between + ("%#lX" + after)), [Word(m), Word(n)]);
  }

  lemma ShortHex(n: uint64)
    ensures |Hex(n)| <= 18 && '\0' !in Hex(n)
  {
    Laws.SixteenDigits();
    NumeralReads(n, 16, true);
    NumeralLength(n, 16, true, 16);
    hide Numeral, Pow, Value;
    DigitsAvoid('\0', Numeral(n, 16, true), 16);
  }

  /** The messages of the boot sequence and of a spurious interrupt, spelled out. */
  lemma SpelledOut()
    ensures NoHandler(39) == "IRQ " + ("39" + " received but has no handler\n")
    ensures PicRemapped(32, 40) == "PIC remapped: PIC1 -> " + ("32" + (" | PIC2 -> " + ("40" + "\n")))
    ensures TableInstalled(IdtHead(), 0xAB, 0xFFF)
            == "IDT" + " successfully installed: " + ("0xAB" + (" " + ("0xFFF" + "\n")))
    ensures TableInstalled(GdtHead(), 0xAB, 0x37)
            == "GDT" + " successfully installed: " + ("0xAB" + (" " + ("0x37" + "\n")))
  {
    SomeNumerals();
    hide Decimal, Hex;
  }

  lemma SomeNumerals()
    ensures Decimal(39) == "39" && Decimal(32) == "32" && Decimal(40) == "40"
    ensures Hex(0xAB) == "0xAB" && Hex(0x37) == "0x37" && Hex(0xFFF) == "0xFFF"
  {
    TwoDigits(3, 9, 10);
    TwoDigits(3, 2, 10);
    TwoDigits(4, 0, 10);
    TwoDigits(3, 7, 16);
    TwoDigits(10, 11, 16);
    TwoDigits(15, 15, 16);
    assert 0xFFF / 16 == 0xFF && 0xFFF % 16 == 15;
    assert Numeral(0xFFF, 16, true) == Numeral(0xFF, 16, true) + [DigitChar(15, true)];
  }

  lemma TwoDigits(d: nat, e: nat, base: nat)
    requires 2 <= base <= 16 && 0 < d < base && e < base
    ensures forall upper: bool :: Numeral(d * base + e, base, upper) == [DigitChar(d, upper), DigitChar(e, upper)]
  {
    Quotient(d, e, base);
    forall upper: bool ensures Numeral(d * base + e, base, upper) == [DigitChar(d, upper), DigitChar(e, upper)] {
      assert Numeral(d, base, upper) == [DigitChar(d, upper)];
    }
  }

  lemma Quotient(d: nat, e: nat, base: nat)
    requires 2 <= base && 0 < d < base && e < base
    ensures (d * base + e) / base == d && (d * base + e) % base == e && d * base + e >= base
  {
    ModUnique(d * base + e, d, base, e);
    DivMod(d * base + e, base);
    var q := (d * base + e) / base;
    assert (q - d) * base == 0;
    assert d * base >= 1 * base;
  }

  lemma ShortDecimal(n: nat)
    requires n < 256
    ensures |Decimal(n)| <= 3 && '\0' !in Decimal(n)
  {
    NumeralReads(n, 10, false);
    NumeralLength(n, 10, false, 3);
    assert Pow(10, 3) == 1000;
    hide Numeral;
    DigitsAvoid('\0', Decimal(n), 10);
  }
}
