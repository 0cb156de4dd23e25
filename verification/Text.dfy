/** Strings as the formatter builds them: repeated characters, reversal, suffixes. */
module Text {

  function Min(a: int, b: int): int { if a < b then a else b }

  function Max(a: int, b: int): int { if a < b then b else a }

  /** `n` copies of `c`. */
  function Repeat(c: char, n: nat): (s: string)
    ensures |s| == n
  {
    seq(n, _ => c)
  }

  lemma RepeatFront(c: char, n: nat, s: string)
    ensures Repeat(c, 0) + s == s
    ensures [c] + (Repeat(c, n) + s) == Repeat(c, n + 1) + s
    ensures s + Repeat(c, n) + [c] == s + Repeat(c, n + 1)
  {
  }

  /** `s` back to front. */
  function Reverse(s: string): (r: string)
    ensures |r| == |s|
  {
    seq(|s|, i requires 0 <= i < |s| => s[|s| - 1 - i])
  }

  /** The last `n` characters of `s`, or all of it when it is shorter. */
  function LastN(s: string, n: nat): string {
    if |s| <= n then s else s[|s| - n..]
  }

  /** The character a C string pointer sees: the terminator once the text is used up. */
  function Head(s: string): char {
    if s == "" then '\0' else s[0]
  }

  function Tail(s: string): string {
    if s == "" then "" else s[1..]
  }

  predicate IsDigit(c: char) {
    '0' <= c <= '9'
  }

  /** `s` without its NUL characters, which the character sinks drop. */
  function NonNul(s: string): string {
    if s == "" then ""
    else NonNul(s[..|s| - 1]) + (if s[|s| - 1] == '\0' then "" else [s[|s| - 1]])
  }

  /** How often `c` occurs in `s`. */
  function CountOf(c: char, s: string): nat {
    if s == "" then 0 else CountOf(c, s[..|s| - 1]) + if s[|s| - 1] == c then 1 else 0
  }

  lemma {:induction false} CountOfNone(c: char, s: string)
    ensures CountOf(c, s) == 0 <==> c !in s
  {
    if s != "" {
      var s', last := s[..|s| - 1], s[|s| - 1];
      CountOfNone(c, s');
      assert s == s' + [last];
    }
  }

  /** Each NUL costs a text one character, and no other character is lost. */
  lemma {:induction false} NonNulLength(s: string)
    ensures |NonNul(s)| == |s| - CountOf('\0', s)
    ensures CountOf('\n', NonNul(s)) == CountOf('\n', s)
  {
    if s != "" {
      var s', c := s[..|s| - 1], s[|s| - 1];
      NonNulLength(s');
      var kept := NonNul(s);
      assert c == '\0' ==> kept == NonNul(s');
      assert c != '\0' ==> kept[..|kept| - 1] == NonNul(s') && kept[|kept| - 1] == c;
    }
  }

  /** `s` without its spaces: the padding of a field goes, what it holds stays. */
  function NoSpaces(s: string): string {
    if s == "" then "" else (if s[0] == ' ' then "" else [s[0]]) + NoSpaces(s[1..])
  }

  lemma {:induction false} NoSpacesAppend(s: string, t: string)
    ensures NoSpaces(s + t) == NoSpaces(s) + NoSpaces(t)
  {
    if s == "" {
      assert s + t == t;
    } else {
      assert (s + t)[1..] == s[1..] + t;
      NoSpacesAppend(s[1..], t);
    }
  }

  lemma {:induction false} NoSpacesBlank(n: nat)
    ensures NoSpaces(Repeat(' ', n)) == ""
  {
    if n > 0 {
      assert Repeat(' ', n)[1..] == Repeat(' ', n - 1);
      NoSpacesBlank(n - 1);
    }
  }

  lemma {:induction false} NoSpacesId(s: string)
    requires ' ' !in s
    ensures NoSpaces(s) == s
  {
    if s != "" { NoSpacesId(s[1..]); }
  }

  lemma {:induction false} NoSpacesLength(s: string)
    ensures |NoSpaces(s)| <= |s|
  {
    if s != "" { NoSpacesLength(s[1..]); }
  }

  /** Spaces around a text do not change what it holds. */
  lemma NoSpacesAround(before: nat, s: string, after: nat)
    ensures NoSpaces(Repeat(' ', before) + (s + Repeat(' ', after))) == NoSpaces(s)
  {
    NoSpacesAppend(Repeat(' ', before), s + Repeat(' ', after));
    NoSpacesAppend(s, Repeat(' ', after));
    NoSpacesBlank(before);
    NoSpacesBlank(after);
    hide NoSpaces, Repeat;
  }

  lemma Regroup(a: string, b: string, c: string)
    ensures a + (b + c) == (a + b) + c
  {
  }
}
