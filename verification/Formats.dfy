/** Whole formats: how they compose, how they are spelled, and where they can go wrong. */
module Formats {
  import opened Text
  import opened Words
  import opened Numerals
  import opened Directives
  import opened Rendering

  // --- Composition ---

  function TotalArity(ps: seq<Piece>): nat {
    if ps == [] then 0 else PieceArity(ps[0]) + TotalArity(ps[1..])
  }

  /** A format rendered in two parts: the second takes up the arguments where the first stopped. */
  lemma {:induction false} RenderAppend(p: seq<Piece>, q: seq<Piece>, args: seq<Arg>)
    requires Matches(p, args)
    ensures TotalArity(p) <= |args|
    ensures Matches(p + q, args) <==> Matches(q, args[TotalArity(p)..])
    ensures Matches(p + q, args) ==> Render(p + q, args) == Render(p, args) + Render(q, args[TotalArity(p)..])
  {
    hide PieceFits, PieceText, PieceArity;
    if p == [] {
      assert p + q == q;
      assert args[0..] == args;
      if Matches(q, args) {
        assert "" + Render(q, args) == Render(q, args);
      }
    } else {
      assert (p + q)[1..] == p[1..] + q && (p + q)[0] == p[0];
      var rest := args[PieceArity(p[0])..];
      RenderAppend(p[1..], q, rest);
      assert rest[TotalArity(p[1..])..] == args[TotalArity(p)..];
    }
  }

  /** A section of a directive that ends inside `s`, or in front of a percent sign, ends there whatever follows. */
  predicate Ends(rest: string, t: string) {
    rest != "" || Head(t) == '%'
  }

  lemma {:induction false} FlagRunBefore(s: string, t: string)
    requires Ends(s[FlagRun(s)..], t)
    ensures FlagRun(s + t) == FlagRun(s)
  {
    if s == "" {
      assert s + t == t;
    } else if IsFlag(s[0]) {
      assert (s + t)[1..] == s[1..] + t;
      FlagRunBefore(s[1..], t);
    }
  }

  lemma {:induction false} DigitRunBefore(s: string, t: string)
    requires Ends(s[DigitRun(s)..], t)
    ensures DigitRun(s + t) == DigitRun(s)
  {
    if s == "" {
      assert s + t == t;
    } else if IsDigit(s[0]) {
      assert (s + t)[1..] == s[1..] + t;
      DigitRunBefore(s[1..], t);
    }
  }

  lemma FieldBefore(s: string, t: string)
    requires Ends(FieldAt(s).1, t)
    ensures FieldAt(s + t) == (FieldAt(s).0, FieldAt(s).1 + t)
  {
    if s == "" {
      assert s + t == t;
    } else if IsDigit(s[0]) {
      DigitRunBefore(s, t);
      var n := DigitRun(s);
      hide DigitRun, Value;
      assert (s + t)[..n] == s[..n] && (s + t)[n..] == s[n..] + t;
    } else if s[0] == '*' {
      assert (s + t)[1..] == s[1..] + t;
    }
  }

  lemma PrecisionBefore(s: string, t: string)
    requires Ends(PrecisionAt(s).1, t)
    ensures PrecisionAt(s + t) == (PrecisionAt(s).0, PrecisionAt(s).1 + t)
  {
    hide FieldAt;
    if s == "" {
      assert s + t == t;
    } else if s[0] == '.' {
      assert (s + t)[1..] == s[1..] + t;
      FieldBefore(s[1..], t);
    }
  }

  lemma LengthBefore(s: string, t: string)
    requires Ends(LengthAt(s).1, t)
    ensures LengthAt(s + t) == (LengthAt(s).0, LengthAt(s).1 + t)
  {
    if s == "" {
      assert s + t == t;
    } else {
      assert (s + t)[1..] == s[1..] + t;
      if s[1..] == "" {
        assert (s + t)[1..] == t;
      } else {
        assert (s + t)[2..] == s[2..] + t;
      }
    }
  }

  /** Nothing of an empty text is left over, so what a section leaves over it also had. */
  lemma SectionsOfNothing()
    ensures FlagRun("") == 0 && FieldAt("").1 == "" && PrecisionAt("").1 == "" && LengthAt("").1 == ""
  {
  }

  /** The sections of a directive before its conversion, whatever follows. */
  lemma SectionsBefore(s: string, t: string)
    requires var s4 := LengthAt(PrecisionAt(FieldAt(s[FlagRun(s)..]).1).1).1;
             Ends(s4, t)
    ensures var n := FlagRun(s);
            && FlagRun(s + t) == n && (s + t)[..n] == s[..n] && (s + t)[n..] == s[n..] + t
            && FieldAt(s[n..] + t) == (FieldAt(s[n..]).0, FieldAt(s[n..]).1 + t)
            && PrecisionAt(FieldAt(s[n..]).1 + t)
               == (PrecisionAt(FieldAt(s[n..]).1).0, PrecisionAt(FieldAt(s[n..]).1).1 + t)
            && LengthAt(PrecisionAt(FieldAt(s[n..]).1).1 + t)
               == (LengthAt(PrecisionAt(FieldAt(s[n..]).1).1).0, LengthAt(PrecisionAt(FieldAt(s[n..]).1).1).1 + t)
  {
    SectionsOfNothing();
    hide FlagRun, FieldAt, PrecisionAt, LengthAt;
    var n := FlagRun(s);
    var s1 := s[n..];
    var s2 := FieldAt(s1).1;
    var s3 := PrecisionAt(s2).1;
    LengthBefore(s3, t);
    PrecisionBefore(s2, t);
    FieldBefore(s1, t);
    FlagRunBefore(s, t);
    assert (s + t)[..n] == s[..n] && (s + t)[n..] == s[n..] + t;
  }

  /** A directive with its conversion is read the same whatever follows it. */
  lemma DirectiveBefore(s: string, t: string)
    requires DirectiveAt(s).0.conversion != '\0'
    ensures DirectiveAt(s + t) == (DirectiveAt(s).0, DirectiveAt(s).1 + t)
  {
    hide FlagRun, FieldAt, PrecisionAt, LengthAt, FlagsOf;
    var s4 := LengthAt(PrecisionAt(FieldAt(s[FlagRun(s)..]).1).1).1;
    assert s4 != "";
    SectionsBefore(s, t);
    assert (s4 + t)[1..] == s4[1..] + t;
  }

  /** A directive that is cut off takes a percent sign that follows for its conversion. */
  lemma CutOffBefore(s: string)
    requires '\0' !in s && DirectiveAt(s).0.conversion == '\0'
    ensures DirectiveAt(s + "%").0.conversion == '%' && DirectiveAt(s + "%").1 == "" == DirectiveAt(s).1
  {
    CutOff(s);
    LeftOver(s);
    hide FlagRun, FieldAt, PrecisionAt, LengthAt, FlagsOf;
    SectionsBefore(s, "%");
    assert "" + "%" == "%";
  }

  lemma LeftOver(s: string)
    requires '\0' !in s && DirectiveAt(s).0.conversion == '\0'
    ensures LengthAt(PrecisionAt(FieldAt(s[FlagRun(s)..]).1).1).1 == ""
  {
    var s1 := s[FlagRun(s)..];
    FieldSuffix(s1);
    PrecisionSuffix(FieldAt(s1).1);
    LengthSuffix(PrecisionAt(FieldAt(s1).1).1);
    hide FlagRun, FieldAt, PrecisionAt, LengthAt, FlagsOf;
  }

  /** A well-formed format is parsed the same whatever follows it. */
  lemma {:induction false} ParseAppend(s: string, t: string)
    requires WellFormed(s)
    ensures Parse(s + t) == Parse(s) + Parse(t)
    decreases |s|
  {
    hide DirectiveAt;
    if s == "" {
      assert s + t == t;
    } else if s[0] != '%' {
      assert (s + t)[1..] == s[1..] + t;
      assert Parse(s) == [Literal(s[0])] + Parse(s[1..]);
      WellFormedRest(s);
      ParseAppend(s[1..], t);
    } else {
      assert (s + t)[1..] == s[1..] + t;
      var (d, rest) := DirectiveAt(s[1..]);
      assert Parse(s) == [Conversion(d)] + Parse(rest);
      WellFormedRest(s);
      DirectiveBefore(s[1..], t);
      ParseAppend(rest, t);
    }
  }

  lemma WellFormedRest(s: string)
    requires s != "" && WellFormed(s)
    ensures s[0] != '%' ==> WellFormed(s[1..])
    ensures s[0] == '%' ==> DirectiveAt(s[1..]).0.conversion != '\0' && WellFormed(DirectiveAt(s[1..]).1)
  {
    hide DirectiveAt;
    if s[0] != '%' {
      assert Parse(s) == [Literal(s[0])] + Parse(s[1..]);
    } else {
      var (d, rest) := DirectiveAt(s[1..]);
      assert Parse(s) == [Conversion(d)] + Parse(rest);
      assert Conversion(d) in Parse(s);
    }
  }

  /** A format whose last directive is cut off swallows a percent sign that follows. */
  lemma {:induction false} CutOffSwallows(s: string)
    requires '\0' !in s && !WellFormed(s)
    ensures |Parse(s + "%")| == |Parse(s)|
    decreases |s|
  {
    hide DirectiveAt;
    assert (s + "%")[1..] == s[1..] + "%";
    if s[0] != '%' {
      assert Parse(s) == [Literal(s[0])] + Parse(s[1..]);
      CutOffSwallows(s[1..]);
    } else {
      var (d, rest) := DirectiveAt(s[1..]);
      assert Parse(s) == [Conversion(d)] + Parse(rest);
      CutOff(s[1..]);
      if d.conversion == '\0' {
        CutOffBefore(s[1..]);
      } else {
        DirectiveBefore(s[1..], "%");
        CutOffSwallows(rest);
      }
    }
  }

  /** The formats that parse the same whatever follows are the well-formed ones. */
  lemma ParseComposes(s: string)
    requires '\0' !in s
    ensures (forall t :: Parse(s + t) == Parse(s) + Parse(t)) <==> WellFormed(s)
  {
    if WellFormed(s) {
      forall t ensures Parse(s + t) == Parse(s) + Parse(t) {
        ParseAppend(s, t);
      }
    } else {
      CutOffSwallows(s);
      PercentAlone();
      hide Parse;
      assert |Parse(s + "%")| != |Parse(s) + Parse("%")|;
    }
  }

  lemma PercentAlone()
    ensures |Parse("%")| == 1
  {
    SectionsOfNothing();
    assert "%"[1..] == "";
    hide FlagRun, FieldAt, PrecisionAt, LengthAt, FlagsOf;
  }

  /**
   Formats compose: a format that the engine accepts can be followed by any other, which takes up
   the arguments where the first stopped, and the texts are put together.
   */
  lemma FormattedAppend(s: string, t: string, args: seq<Arg>)
    requires Accepts(s, args)
    ensures var n := TotalArity(Parse(s));
            && n <= |args|
            && (Accepts(s + t, args) <==> Accepts(t, args[n..]))
            && (Accepts(t, args[n..]) ==> Formatted(s + t, args) == Formatted(s, args) + Formatted(t, args[n..]))
  {
    hide Parse, Matches, Render, TotalArity;
    ParseAppend(s, t);
    RenderAppend(Parse(s), Parse(t), args);
    assert WellFormed(s + t) <==> WellFormed(t) by {
      assert forall p <- Parse(t) :: p in Parse(s + t);
    }
  }

  /** A format that is one directive. */
  lemma OneDirective(s: string, d: Directive, args: seq<Arg>)
    requires s != "" && s[0] == '%' && DirectiveAt(s[1..]) == (d, "") && d.conversion != '\0'
    requires Fits(d, args) && Arity(d) == |args|
    ensures Accepts(s, args) && Formatted(s, args) == DirectiveText(d, args)
  {
    hide DirectiveAt, DirectiveText, Fits, Arity;
    assert Parse("") == [];
    var ps := Parse(s);
    assert ps == [Conversion(d)] && ps[1..] == [];
    assert Matches(ps[1..], args[|args|..]);
    assert Render(ps, args) == DirectiveText(d, args) + Render(ps[1..], args[|args|..]);
  }

  // --- Spelling, and directives that are cut off ---

  function SpellAll(ps: seq<Piece>): string {
    if ps == [] then ""
    else (match ps[0] case Literal(c) => [c] case Conversion(d) => "%" + Spell(d)) + SpellAll(ps[1..])
  }

  predicate CanonicalPiece(p: Piece) {
    match p
    case Literal(c) => c != '%'
    case Conversion(d) => Canonical(d)
  }

  /** Parsing undoes spelling on whole formats. */
  lemma {:induction false} ParseSpellAll(ps: seq<Piece>)
    requires forall p <- ps :: CanonicalPiece(p)
    ensures Parse(SpellAll(ps)) == ps && WellFormed(SpellAll(ps))
  {
    if ps != [] {
      assert CanonicalPiece(ps[0]);
      ParseSpellAll(ps[1..]);
      ParseFirst(ps[0], SpellAll(ps[1..]));
      if ps[0].Conversion? {
        CanonicalConversion(ps[0].d);
      }
      hide Parse, Spell, Canonical;
      assert ps == [ps[0]] + ps[1..];
    }
  }

  lemma ParseFirst(p: Piece, rest: string)
    requires CanonicalPiece(p)
    ensures Parse((match p case Literal(c) => [c] case Conversion(d) => "%" + Spell(d)) + rest) == [p] + Parse(rest)
  {
    hide Spell, Canonical, DirectiveAt;
    match p
    case Literal(c) =>
      assert ([c] + rest)[1..] == rest;
    case Conversion(d) =>
      assert ("%" + Spell(d) + rest)[1..] == Spell(d) + rest;
      ParsePrint(d, rest);
  }

  lemma CanonicalConversion(d: Directive)
    requires Canonical(d)
    ensures d.conversion != '\0'
  {
  }

  /** Only the last directive of a C string can be cut off by the terminator. */
  lemma {:induction false} OnlyLastCutOff(s: string, i: nat)
    requires '\0' !in s && i < |Parse(s)| - 1
    ensures Parse(s)[i].Conversion? ==> Parse(s)[i].d.conversion != '\0'
    decreases |s|
  {
    hide DirectiveAt;
    if s[0] != '%' {
      if i > 0 {
        OnlyLastCutOff(s[1..], i - 1);
      }
    } else {
      var (d, rest) := DirectiveAt(s[1..]);
      CutOff(s[1..]);
      if i > 0 {
        OnlyLastCutOff(rest, i - 1);
      }
    }
  }

  /** A C string is a well-formed format exactly when its last piece is not cut off. */
  lemma WellFormedByLast(s: string)
    requires '\0' !in s
    ensures WellFormed(s) <==>
              var ps := Parse(s);
              ps == [] || ps[|ps| - 1].Literal? || ps[|ps| - 1].d.conversion != '\0'
  {
    hide Parse;
    var ps := Parse(s);
    forall i | 0 <= i < |ps| - 1 ensures ps[i].Conversion? ==> ps[i].d.conversion != '\0' {
      OnlyLastCutOff(s, i);
    }
    if ps != [] {
      assert ps[|ps| - 1] in ps;
    }
  }

  /** A directive is cut off only when its fields use up the text; the rest is a part of it. */
  lemma CutOff(s: string)
    requires '\0' !in s
    ensures var (d, rest) := DirectiveAt(s);
            && '\0' !in rest
            && (d.conversion == '\0' ==> rest == "")
  {
    var s1 := s[FlagRun(s)..];
    FieldSuffix(s1);
    var s2 := FieldAt(s1).1;
    PrecisionSuffix(s2);
    var s3 := PrecisionAt(s2).1;
    LengthSuffix(s3);
    hide FlagRun, FieldAt, PrecisionAt, LengthAt, FlagsOf;
  }

  lemma FieldSuffix(s: string)
    requires '\0' !in s
    ensures '\0' !in FieldAt(s).1
  {
    hide DigitRun, Value;
  }

  lemma PrecisionSuffix(s: string)
    requires '\0' !in s
    ensures '\0' !in PrecisionAt(s).1
  {
    if Head(s) == '.' { FieldSuffix(s[1..]); }
    hide FieldAt;
  }

  lemma LengthSuffix(s: string)
    requires '\0' !in s
    ensures '\0' !in LengthAt(s).1
  {
  }
}
