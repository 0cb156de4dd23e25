/**
 NUL characters in printed text: the console and the caller's function do not get them, but
 the length that printing returns counts them.
 */
module Nuls {
  import opened Text
  import opened Words
  import opened Numerals
  import opened Directives
  import opened Fields
  import opened Rendering
  import opened Console
  import Formats

  /** Whether a piece is a `%c` whose argument is zero modulo 256. */
  predicate PieceSendsNul(p: Piece, args: seq<Arg>)
    requires PieceFits(p, args)
  {
    p.Conversion? && p.d.conversion == 'c' && ValueArgs(p.d, args)[0].bits % U8 == 0
  }

  /** Whether some `%c` of a format gets such an argument. */
  predicate SendsNul(ps: seq<Piece>, args: seq<Arg>)
    requires Matches(ps, args)
  {
    ps != [] && (PieceSendsNul(ps[0], args) || SendsNul(ps[1..], args[PieceArity(ps[0])..]))
  }

  lemma JustifiedNul(text: string, width: nat, f: Flags)
    ensures '\0' in Justified(text, width, f) <==> '\0' in text
  {
  }

  /** A directive sends a NUL exactly when it is `%c` and its argument is zero modulo 256. */
  lemma DirectiveNul(d: Directive, args: seq<Arg>)
    requires Fits(d, args) && d.conversion != '\0'
    ensures '\0' in DirectiveText(d, args) <==> PieceSendsNul(Conversion(d), args)
  {
    hide ValueArgs, WidthOf, PrecisionOf, ConversionText, ValueFits;
    ConversionNul(d.conversion, FlagsWith(d, args), WidthOf(d, args), PrecisionOf(d, args), ValueArgs(d, args));
  }

  lemma ConversionNul(conversion: char, f: Flags, width: nat, prec: nat, args: seq<Arg>)
    requires ValueFits(conversion, ArgRange(f.size), args) && conversion != '\0'
    ensures '\0' in ConversionText(conversion, f, width, prec, args)
            <==> conversion == 'c' && args[0].bits % U8 == 0
  {
    hide IntegerArg, ArgRange, IntField, ConversionFlags, BaseOf, Justified;
    if IsInteger(conversion) {
      var v := IntegerArg(conversion, ArgRange(f.size), args[0].bits);
      NumeralAvoids(Magnitude(v), BaseOf(conversion), ConversionFlags(conversion, f).uppercase, '\0');
      FieldAvoids('\0', Magnitude(v), v < 0, BaseOf(conversion), prec, width, ConversionFlags(conversion, f));
    } else if conversion == 'c' {
      JustifiedNul([(args[0].bits % U8) as char], width, f);
    } else if conversion == 's' {
      var s := args[0].s;
      JustifiedNul(if f.precision then s[..Min(|s|, prec)] else s, width, f);
    } else if conversion == 'p' {
      NumeralAvoids(args[0].bits, 16, true, '\0');
      FieldAvoids('\0', args[0].bits, false, 16, prec, 16, f.(zeropad := true, uppercase := true));
    }
  }

  /** A literal piece of a C string is not its terminator. */
  lemma {:induction false} LiteralsWithoutNul(s: string)
    requires '\0' !in s
    ensures forall c :: Literal(c) in Parse(s) ==> c != '\0'
    decreases |s|
  {
    hide DirectiveAt;
    if s != "" {
      if s[0] != '%' {
        LiteralsWithoutNul(s[1..]);
      } else {
        Formats.CutOff(s[1..]);
        LiteralsWithoutNul(DirectiveAt(s[1..]).1);
      }
    }
  }

  lemma {:induction false} RenderNul(ps: seq<Piece>, args: seq<Arg>)
    requires Matches(ps, args)
    requires forall p <- ps :: if p.Literal? then p.c != '\0' else p.d.conversion != '\0'
    ensures '\0' in Render(ps, args) <==> SendsNul(ps, args)
  {
    hide PieceFits, PieceArity, PieceText, PieceSendsNul;
    if ps != [] {
      PieceNul(ps[0], args);
      RenderNul(ps[1..], args[PieceArity(ps[0])..]);
    }
  }

  lemma PieceNul(p: Piece, args: seq<Arg>)
    requires PieceFits(p, args) && if p.Literal? then p.c != '\0' else p.d.conversion != '\0'
    ensures '\0' in PieceText(p, args) <==> PieceSendsNul(p, args)
  {
    hide DirectiveText, Fits;
    if p.Conversion? {
      DirectiveNul(p.d, args);
    }
  }

  /** The text of a format has a NUL exactly when some `%c` gets an argument that is zero modulo 256. */
  lemma FormattedNul(format: string, args: seq<Arg>)
    requires '\0' !in format && Accepts(format, args)
    ensures '\0' in Formatted(format, args) <==> SendsNul(Parse(format), args)
  {
    hide Parse, Matches, Render, SendsNul;
    LiteralsWithoutNul(format);
    var ps := Parse(format);
    forall p <- ps ensures if p.Literal? then p.c != '\0' else p.d.conversion != '\0' {
      if p.Literal? {
        assert Literal(p.c) in ps;
      }
    }
    RenderNul(ps, args);
  }

  /** What the dropping sinks get is as long as the length returned exactly without such a `%c`. */
  lemma DroppedNuls(format: string, args: seq<Arg>)
    requires '\0' !in format && Accepts(format, args)
    ensures |NonNul(Formatted(format, args))| == |Formatted(format, args)| <==> !SendsNul(Parse(format), args)
  {
    hide Accepts, Formatted, SendsNul;
    FormattedNul(format, args);
    NonNulLength(Formatted(format, args));
    CountOfNone('\0', Formatted(format, args));
  }

  /** On the serial line, newlines expanded, the whole length arrives exactly if NULs make up for line feeds. */
  lemma SerialLength(text: string)
    ensures |CrLf(NonNul(text))| == |text| - CountOf('\0', text) + CountOf('\n', text)
    ensures |CrLf(NonNul(text))| == |text| <==> CountOf('\0', text) == CountOf('\n', text)
  {
    NonNulLength(text);
    CrLfLength(NonNul(text));
  }

  /** `%c` of zero: one character is returned, none arrives. */
  lemma CharZero()
    ensures Accepts("%c", [Word(0)]) && Formatted("%c", [Word(0)]) == "\0"
    ensures NonNul(Formatted("%c", [Word(0)])) == ""
  {
    hide Accepts, Formatted, DirectiveAt, DirectiveText, Fits, Arity;
    var d := Directive(NO_FLAGS, Absent, NoPrecision, NoLength, 'c');
    CharParsed(d);
    CharRendered(d);
    Formats.OneDirective("%c", d, [Word(0)]);
  }

  lemma CharParsed(d: Directive)
    requires d == Directive(NO_FLAGS, Absent, NoPrecision, NoLength, 'c')
    ensures DirectiveAt("%c"[1..]) == (d, "")
  {
    hide DirectiveAt;
    assert "c" + "" == "c" == "%c"[1..];
    assert Spell(d) == "c";
    ParsePrint(d, "");
  }

  lemma CharRendered(d: Directive)
    requires d == Directive(NO_FLAGS, Absent, NoPrecision, NoLength, 'c')
    ensures Fits(d, [Word(0)]) && Arity(d) == 1 && DirectiveText(d, [Word(0)]) == "\0"
  {
    hide Justified;
    assert ValueArgs(d, [Word(0)]) == [Word(0)];
    assert FlagsWith(d, [Word(0)]) == NO_FLAGS && WidthOf(d, [Word(0)]) == 0;
    PlainNul();
  }

  lemma PlainNul()
    ensures CharText(NO_FLAGS, 0, 0) == "\0"
  {
    assert Justified("\0", 0, NO_FLAGS) == "\0";
  }
}
