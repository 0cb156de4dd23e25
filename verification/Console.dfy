/** The kernel's two character outputs, the terminal and the serial line, and their routing. */
module Console {
  import opened Text

  /** The serial line's newline convention: a carriage return before every line feed. */
  function CrLf(s: string): string {
    if s == "" then ""
    else CrLf(s[..|s| - 1]) + (if s[|s| - 1] == '\n' then "\r\n" else [s[|s| - 1]])
  }

  /** Reads a serial stream back: each line feed takes the character before it along. */
  function UnCrLf(s: string): string {
    if s == "" then ""
    else if s[|s| - 1] == '\n' && |s| > 1 then UnCrLf(s[..|s| - 2]) + "\n"
    else UnCrLf(s[..|s| - 1]) + [s[|s| - 1]]
  }

  lemma CrLfSnoc(s: string, c: char)
    ensures CrLf(s + [c]) == CrLf(s) + (if c == '\n' then "\r\n" else [c])
  {
    assert (s + [c])[..|s|] == s;
  }

  lemma CrLfAppend(s: string, c: char)
    ensures CrLf(s + [c]) == CrLf(s) + CrLf([c])
  {
    CrLfSnoc(s, c);
    CrLfSnoc("", c);
    assert "" + [c] == [c];
  }

  lemma NonNulSnoc(s: string, c: char)
    ensures NonNul(s + [c]) == NonNul(s) + (if c == '\0' then "" else [c])
  {
    assert (s + [c])[..|s|] == s;
  }

  /** What one more character adds to the streams that drop NULs. */
  lemma SentAppend(s: string, c: char)
    ensures var sent := if c == '\0' then "" else [c];
            && NonNul(s + [c]) == NonNul(s) + sent
            && CrLf(NonNul(s + [c])) == CrLf(NonNul(s)) + CrLf(sent)
  {
    NonNulSnoc(s, c);
    CrLfAppend(NonNul(s), c);
    assert NonNul(s) + "" == NonNul(s);
    assert CrLf(NonNul(s)) + "" == CrLf(NonNul(s));
  }

  lemma {:induction false} NonNulId(s: string)
    requires '\0' !in s
    ensures NonNul(s) == s
  {
    if s != "" { NonNulId(s[..|s| - 1]); }
  }

  /** The expansion goes character by character: a line feed becomes two characters, others stay. */
  lemma {:induction false} CrLfMeans(s: string, t: string)
    ensures CrLf(s + t) == CrLf(s) + CrLf(t)
    ensures CrLf("\n") == "\r\n" && forall c: char | c != '\n' :: CrLf([c]) == [c]
  {
    CrLfSnoc("", '\n');
    assert "" + "\n" == "\n";
    forall c: char | c != '\n' ensures CrLf([c]) == [c] {
      CrLfSnoc("", c);
      assert "" + [c] == [c];
    }
    if t == "" {
      assert s + t == s;
      assert CrLf(s) + "" == CrLf(s);
    } else {
      var t', c := t[..|t| - 1], t[|t| - 1];
      assert t == t' + [c] && s + t == s + t' + [c];
      CrLfMeans(s, t');
      CrLfSnoc(s + t', c);
      CrLfSnoc(t', c);
      hide CrLf;
      Regroup(CrLf(s), CrLf(t'), if c == '\n' then "\r\n" else [c]);
    }
  }

  /** Dropping NULs goes character by character too. */
  lemma {:induction false} NonNulMeans(s: string, t: string)
    ensures NonNul(s + t) == NonNul(s) + NonNul(t)
    ensures NonNul("\0") == "" && forall c: char | c != '\0' :: NonNul([c]) == [c]
  {
    NonNulSnoc("", '\0');
    assert "" + "\0" == "\0";
    forall c: char | c != '\0' ensures NonNul([c]) == [c] {
      NonNulSnoc("", c);
      assert "" + [c] == [c];
    }
    if t == "" {
      assert s + t == s;
      assert NonNul(s) + "" == NonNul(s);
    } else {
      var t', c := t[..|t| - 1], t[|t| - 1];
      assert t == t' + [c] && s + t == s + t' + [c];
      NonNulMeans(s, t');
      NonNulSnoc(s + t', c);
      NonNulSnoc(t', c);
      hide NonNul;
      Regroup(NonNul(s), NonNul(t'), if c == '\0' then "" else [c]);
    }
  }

  /** The serial line gets one character more for every line feed. */
  lemma {:induction false} CrLfLength(s: string)
    ensures |CrLf(s)| == |s| + CountOf('\n', s)
  {
    if s != "" { CrLfLength(s[..|s| - 1]); }
  }

  lemma {:induction false} CrLfRoundTrip(s: string)
    ensures UnCrLf(CrLf(s)) == s
  {
    if s != "" {
      var s', c := s[..|s| - 1], s[|s| - 1];
      CrLfRoundTrip(s');
      var t := CrLf(s);
      if c == '\n' {
        assert t[..|t| - 2] == CrLf(s');
      } else {
        assert t[..|t| - 1] == CrLf(s');
      }
    }
  }

  /** No two texts look the same on the serial line. */
  lemma CrLfInjective(s: string, t: string)
    ensures CrLf(s) == CrLf(t) <==> s == t
  {
    CrLfRoundTrip(s);
    CrLfRoundTrip(t);
  }

  lemma NothingPrinted(text: string)
    ensures text[..0] == "" && CrLf(text[..0]) == ""
  {
  }

  /** One more character of `text` on either stream. */
  lemma OneMorePrinted(before: string, text: string, i: nat)
    requires i < |text|
    ensures before + text[..i] + [text[i]] == before + text[..i + 1]
    ensures before + CrLf(text[..i]) + CrLf([text[i]]) == before + CrLf(text[..i + 1])
  {
    CrLfAppend(text[..i], text[i]);
    assert text[..i + 1] == text[..i] + [text[i]];
    hide CrLf;
  }

  /** A C string argument, which may be a null pointer. */
  datatype CString = Null | Chars(text: string)

  class Console {
    var useSerial: bool
    var serial: string
    var terminal: string

    constructor ()
      ensures !useSerial && serial == "" && terminal == ""
    {
      useSerial, serial, terminal := false, "", "";
    }

    method Send(c: char)
      modifies this`serial
      ensures serial == old(serial) + [c]
    {
      serial := serial + [c];
    }

    /** A character for the serial line. */
    method Dputc(c: char)
      modifies this`serial
      ensures serial == old(serial) + CrLf([c])
    {
      CrLfSnoc("", c);
      assert "" + [c] == [c];
      if c == '\n' {
        Send('\r');
      }
      Send(c);
    }

    /** A character for the terminal. */
    method Kputc(c: char)
      modifies this`terminal
      ensures terminal == old(terminal) + [c]
    {
      terminal := terminal + [c];
    }

    /** The output function that the routing flag selects. */
    method PutChar(c: char)
      modifies this`serial, this`terminal
      ensures serial == old(serial) + (if useSerial then CrLf([c]) else "")
      ensures terminal == old(terminal) + (if useSerial then "" else [c])
    {
      if useSerial {
        Dputc(c);
      } else {
        Kputc(c);
      }
    }

    /** Writes a string, if there is one. */
    method Kprint(s: CString) returns (ret: int)
      modifies this`serial, this`terminal
      ensures ret == if s.Chars? then 1 else 0
      ensures terminal == old(terminal) + (if s.Chars? && !useSerial then s.text else "")
      ensures serial == old(serial) + (if s.Chars? && useSerial then CrLf(s.text) else "")
    {
      if s.Null? {
        return 0;
      }
      var text := s.text;
      var i := 0;
      NothingPrinted(text);
      hide CrLf;
      while i < |text|
        invariant 0 <= i <= |text|
        invariant terminal == old(terminal) + (if useSerial then "" else text[..i])
        invariant serial == old(serial) + (if useSerial then CrLf(text[..i]) else "")
      {
        OneMorePrinted(if useSerial then old(serial) else old(terminal), text, i);
        PutChar(text[i]);
        i := i + 1;
      }
      assert text[..i] == text;
      ret := 1;
    }

    /** Writes a string and a newline, if there is one. */
    method Kputs(s: CString) returns (ret: int)
      modifies this`serial, this`terminal
      ensures ret == if s.Chars? then 1 else 0
      ensures terminal == old(terminal) + (if s.Chars? && !useSerial then s.text + "\n" else "")
      ensures serial == old(serial) + (if s.Chars? && useSerial then CrLf(s.text + "\n") else "")
    {
      if s.Null? {
        return 0;
      }
      ret := Kprint(s);
      CrLfAppend(s.text, '\n');
      PutChar('\n');
    }

    /** Writes a string to the serial line whatever the routing was, and leaves routing to the terminal. */
    method Dprint(s: CString) returns (ret: int)
      modifies this
      ensures ret == (if s.Chars? then 1 else 0) && !useSerial
      ensures terminal == old(terminal)
      ensures serial == old(serial) + (if s.Chars? then CrLf(s.text) else "")
    {
      useSerial := true;
      ret := Kprint(s);
      useSerial := false;
    }

    method Dputs(s: CString) returns (ret: int)
      modifies this
      ensures ret == (if s.Chars? then 1 else 0) && !useSerial
      ensures terminal == old(terminal)
      ensures serial == old(serial) + (if s.Chars? then CrLf(s.text + "\n") else "")
    {
      useSerial := true;
      ret := Kputs(s);
      useSerial := false;
    }
  }
}
