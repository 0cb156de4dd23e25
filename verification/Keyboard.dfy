/** The PS/2 keyboard driver: a two-bit case state driven by a stream of scancodes. */
module Keyboard {
  import opened Text
  import opened Console

  type Scancode = x: int | 0 <= x < 0x100

  const LEFT_SHIFT_PRESSED: Scancode := 0x2A
  const LEFT_SHIFT_RELEASED: Scancode := 0xAA
  const CAPS_LOCK_PRESSED: Scancode := 0x3A
  const BACKSPACE: Scancode := 0x0E
  const TAB: Scancode := 0x0F
  const NEWLINE: Scancode := 0x1C

  /** The key maps, each in two halves: codes 0 to 29, and 30 to 57. */
  const KMAP_LOWER: seq<char> := LOWER_TOP + LOWER_BOTTOM

  const LOWER_TOP: seq<char> := [
    '\0', '\0', '&', '\0', '"', '\'', '(', '-', '\0', '_', '\0', '\0',
    ')', '=', '\U{0008}', '\t', 'a', 'z', 'e', 'r', 't', 'y', 'u', 'i',
    'o', 'p', '^', '$', '\0', '\0']

  const LOWER_BOTTOM: seq<char> := [
    'q', 's', 'd', 'f', 'g', 'h',
    'j', 'k', 'l', 'm', '\0', '`', '\0', '*', 'w', 'x', 'c', 'v',
    'b', 'n', ',', ';', ':', '!', '\0', '\0', '\0', ' ']

  const KMAP_UPPER: seq<char> := UPPER_TOP + UPPER_BOTTOM

  const UPPER_TOP: seq<char> := [
    '\0', '\0', '1', '2', '3', '4', '5', '6', '7', '8', '9', '0',
    '\0', '+', '\U{0008}', '\t', 'A', 'Z', 'E', 'R', 'T', 'Y', 'U', 'I',
    'O', 'P', '\0', '}', '\0', '\0']

  const UPPER_BOTTOM: seq<char> := [
    'Q', 'S', 'D', 'F', 'G', 'H',
    'J', 'K', 'L', 'M', '%', '~', '\0', '\\', 'W', 'X', 'C', 'V',
    'B', 'N', '?', '.', '/', '\0', '\0', '\0', '\0', ' ']

  // --- What a history of scancodes means ---

  /** Whether the left shift key is down: its latest event was a press. */
  predicate ShiftDown(codes: seq<Scancode>) {
    if codes == [] then false
    else
      var last := codes[|codes| - 1];
      last == LEFT_SHIFT_PRESSED || (last != LEFT_SHIFT_RELEASED && ShiftDown(codes[..|codes| - 1]))
  }

  function CapsPresses(codes: seq<Scancode>): nat {
    |set i | 0 <= i < |codes| && codes[i] == CAPS_LOCK_PRESSED|
  }

  predicate CapsOn(codes: seq<Scancode>) {
    CapsPresses(codes) % 2 == 1
  }

  /** What a key writes, in upper or lower case. */
  function Typed(code: Scancode, upper: bool): string {
    if code == LEFT_SHIFT_PRESSED || code == LEFT_SHIFT_RELEASED || code == CAPS_LOCK_PRESSED then ""
    else if code == BACKSPACE then "\U{0008} \U{0008}"
    else if code == TAB then "\t"
    else if code == NEWLINE then "\n"
    else if code < 58 then [if upper then KMAP_UPPER[code] else KMAP_LOWER[code]]
    else ""
  }

  /** What a history writes: each key in the case that the keys before it left. */
  function Screen(codes: seq<Scancode>): string {
    if codes == [] then ""
    else
      var before := codes[..|codes| - 1];
      Screen(before) + Typed(codes[|codes| - 1], ShiftDown(before) || CapsOn(before))
  }

  /** The case state that a history leaves: bit 0 is the shift key, bit 1 the caps lock. */
  function KeyState(codes: seq<Scancode>): bv8 {
    (if ShiftDown(codes) then 1 else 0) | (if CapsOn(codes) then 2 else 0)
  }

  // --- The driver ---

  /** The case state after one more scancode. */
  function NextState(keyUp: bv8, code: Scancode): bv8 {
    if code == LEFT_SHIFT_PRESSED then keyUp | 1
    else if code == LEFT_SHIFT_RELEASED then keyUp & 2
    else if code == CAPS_LOCK_PRESSED then keyUp ^ 2
    else keyUp
  }

  class Controller {
    var keyUp: bv8

    constructor ()
      ensures keyUp == 0
    {
      keyUp := 0;
    }

    /** The interrupt handler; `code` is what the keyboard's data port reads. */
    method IrqHandler(console: Console, code: Scancode)
      modifies this, console
      ensures keyUp == NextState(old(keyUp), code) && console.useSerial == old(console.useSerial)
      ensures var typed, routed := Typed(code, old(keyUp) != 0), code == BACKSPACE && console.useSerial;
              && console.terminal == old(console.terminal) + (if routed then "" else typed)
              && console.serial == old(console.serial) + (if routed then CrLf(typed) else "")
    {
      if code == LEFT_SHIFT_PRESSED {
        keyUp := keyUp | 1;
        return;
      } else if code == LEFT_SHIFT_RELEASED {
        keyUp := keyUp & 2;
        return;
      } else if code == CAPS_LOCK_PRESSED {
        keyUp := keyUp ^ 2;
        return;
      } else if code == BACKSPACE {
        var _ := console.Kprint(Chars("\U{0008} \U{0008}"));
        return;
      } else if code == TAB {
        console.Kputc('\t');
        return;
      } else if code == NEWLINE {
        console.Kputc('\n');
        return;
      }
      if code < 58 {
        var kmap := if keyUp != 0 then KMAP_UPPER else KMAP_LOWER;
        console.Kputc(kmap[code]);
      }
    }
  }

  lemma CapsSnoc(codes: seq<Scancode>, code: Scancode)
    ensures CapsPresses(codes + [code]) == CapsPresses(codes) + (if code == CAPS_LOCK_PRESSED then 1 else 0)
  {
    var before := set i | 0 <= i < |codes| && codes[i] == CAPS_LOCK_PRESSED;
    var after := set i | 0 <= i < |codes + [code]| && (codes + [code])[i] == CAPS_LOCK_PRESSED;
    if code == CAPS_LOCK_PRESSED {
      assert after == before + {|codes|};
    } else {
      assert after == before;
    }
  }

  /** The driver's state after any history is that history's, and so is what it writes next. */
  lemma KeyboardHistory(codes: seq<Scancode>, code: Scancode)
    ensures NextState(KeyState(codes), code) == KeyState(codes + [code])
    ensures KeyState(codes) <= 3
    ensures Screen(codes + [code]) == Screen(codes) + Typed(code, KeyState(codes) != 0)
  {
    CapsSnoc(codes, code);
    assert (codes + [code])[..|codes|] == codes;
    hide CapsPresses;
  }

  // --- The keys by their codes ---

  /** Left shift is 0x2A, released 0xAA, caps lock 0x3A. No other code changes the case; they write nothing. */
  lemma CaseKeys(codes: seq<Scancode>, code: Scancode)
    ensures ShiftDown(codes + [code]) == if code == 0x2A then true else if code == 0xAA then false else ShiftDown(codes)
    ensures CapsOn(codes + [code]) == if code == 0x3A then !CapsOn(codes) else CapsOn(codes)
    ensures code == 0x2A || code == 0xAA || code == 0x3A ==> Screen(codes + [code]) == Screen(codes)
    ensures !ShiftDown([]) && !CapsOn([])
  {
    CapsSnoc(codes, code);
    assert (codes + [code])[..|codes|] == codes;
    hide CapsPresses;
    KeyboardHistory(codes, code);
    assert Screen(codes) + "" == Screen(codes);
    NoCaps();
  }

  lemma NoCaps()
    ensures CapsPresses([]) == 0
  {
    var none: seq<Scancode> := [];
    assert (set i | 0 <= i < |none| && none[i] == CAPS_LOCK_PRESSED) == {};
  }

  /** The letter of a key, in lower case, or a NUL: the three rows of a French keyboard. */
  function Letter(code: Scancode): char {
    if 16 <= code <= 25 then "azertyuiop"[code - 16]
    else if 30 <= code <= 39 then "qsdfghjklm"[code - 30]
    else if 44 <= code <= 49 then "wxcvbn"[code - 44]
    else '\0'
  }

  /** A letter key writes its letter, as a capital exactly when shift is down or caps lock is on. */
  lemma LetterKeys(codes: seq<Scancode>, code: Scancode)
    requires 16 <= code <= 25 || 30 <= code <= 39 || 44 <= code <= 49
    ensures 'a' <= Letter(code) <= 'z'
    ensures var capital := 'A' + (Letter(code) - 'a');
            && 'A' <= capital <= 'Z'
            && Screen(codes + [code])
               == Screen(codes) + [if ShiftDown(codes) || CapsOn(codes) then capital else Letter(code)]
  {
    assert (codes + [code])[..|codes|] == codes;
    LetterMaps(code);
    hide ShiftDown, CapsOn, Letter;
  }

  lemma LowerRows(k: nat)
    ensures k < 10 ==> KMAP_LOWER[16 + k] == "azertyuiop"[k]
    ensures k < 10 ==> KMAP_LOWER[30 + k] == "qsdfghjklm"[k]
    ensures k < 6 ==> KMAP_LOWER[44 + k] == "wxcvbn"[k]
  {
  }

  lemma UpperRows(k: nat)
    ensures k < 10 ==> KMAP_UPPER[16 + k] == "AZERTYUIOP"[k]
    ensures k < 10 ==> KMAP_UPPER[30 + k] == "QSDFGHJKLM"[k]
    ensures k < 6 ==> KMAP_UPPER[44 + k] == "WXCVBN"[k]
  {
  }

  lemma Capitals(k: nat)
    ensures k < 10 ==> "AZERTYUIOP"[k] == 'A' + ("azertyuiop"[k] - 'a') && 'a' <= "azertyuiop"[k] <= 'z'
    ensures k < 10 ==> "QSDFGHJKLM"[k] == 'A' + ("qsdfghjklm"[k] - 'a') && 'a' <= "qsdfghjklm"[k] <= 'z'
    ensures k < 6 ==> "WXCVBN"[k] == 'A' + ("wxcvbn"[k] - 'a') && 'a' <= "wxcvbn"[k] <= 'z'
  {
  }

  lemma MapSizes()
    ensures |KMAP_LOWER| == 58 && |KMAP_UPPER| == 58
  {
  }

  lemma LetterMaps(code: Scancode)
    requires 16 <= code <= 25 || 30 <= code <= 39 || 44 <= code <= 49
    ensures 'a' <= Letter(code) <= 'z'
    ensures Typed(code, false) == [Letter(code)] && Typed(code, true) == ['A' + (Letter(code) - 'a')]
  {
    hide KMAP_LOWER, KMAP_UPPER, Typed;
    MapSizes();
    TypedByMap(code);
    if code <= 25 {
      LowerRows(code - 16);
      UpperRows(code - 16);
      Capitals(code - 16);
    } else if code <= 39 {
      LowerRows(code - 30);
      UpperRows(code - 30);
      Capitals(code - 30);
    } else {
      LowerRows(code - 44);
      UpperRows(code - 44);
      Capitals(code - 44);
    }
  }

  /** Backspace is 0x0E, tab 0x0F, newline 0x1C, space 0x39, in either case; above 0x3A nothing is written. */
  lemma ControlKeys(codes: seq<Scancode>, code: Scancode)
    ensures var more := Screen(codes + [code]);
            && (code == 0x0E ==> more == Screen(codes) + "\U{0008} \U{0008}")
            && (code == 0x0F ==> more == Screen(codes) + "\t")
            && (code == 0x1C ==> more == Screen(codes) + "\n")
            && (code == 0x39 ==> more == Screen(codes) + " ")
            && (code > 0x3A ==> more == Screen(codes))
  {
    assert (codes + [code])[..|codes|] == codes;
    assert Screen(codes) + "" == Screen(codes);
    hide ShiftDown, CapsOn;
  }

  /** What the other keys write: digits are in upper case, and a key without a character writes a NUL. */
  function Symbol(code: Scancode, upper: bool): char {
    if 2 <= code <= 13 then (if upper then "1234567890\0+" else "&\0\"'(-\0_\0\0)=")[code - 2]
    else if 26 <= code <= 27 then (if upper then "\0}" else "^$")[code - 26]
    else if 40 <= code <= 41 then (if upper then "%~" else "\0`")[code - 40]
    else if code == 43 then if upper then '\\' else '*'
    else if 50 <= code <= 53 then (if upper then "?./\0" else ",;:!")[code - 50]
    else '\0'
  }

  /** Every key but letters, case keys and those with a fixed character. */
  lemma SymbolKeys(codes: seq<Scancode>, code: Scancode)
    requires code <= 56 && Letter(code) == '\0' && code != 0x0E && code != 0x0F && code != 0x1C && code != 0x2A
    ensures Screen(codes + [code]) == Screen(codes) + [Symbol(code, ShiftDown(codes) || CapsOn(codes))]
  {
    assert (codes + [code])[..|codes|] == codes;
    SymbolMaps(code);
    hide ShiftDown, CapsOn, Symbol, Typed;
  }

  lemma SymbolMaps(code: Scancode)
    requires code <= 56 && Letter(code) == '\0' && code != 0x0E && code != 0x0F && code != 0x1C && code != 0x2A
    ensures Typed(code, false) == [Symbol(code, false)] && Typed(code, true) == [Symbol(code, true)]
  {
    hide KMAP_LOWER, KMAP_UPPER, Typed, Letter;
    MapSizes();
    NoLetter(code);
    TypedByMap(code);
    if 2 <= code <= 13 {
      DigitRows(code - 2);
    } else {
      PunctuationRows();
      BlankKeys();
    }
  }

  lemma NoLetter(code: Scancode)
    requires Letter(code) == '\0'
    ensures !(16 <= code <= 25 || 30 <= code <= 39 || 44 <= code <= 49)
  {
    if 16 <= code <= 25 {
      Capitals(code - 16);
    } else if 30 <= code <= 39 {
      Capitals(code - 30);
    } else if 44 <= code <= 49 {
      Capitals(code - 44);
    }
  }

  /** The keys below 58 that the driver looks up in a map. */
  lemma TypedByMap(code: Scancode)
    requires code < 58 && code != 0x0E && code != 0x0F && code != 0x1C && code != 0x2A
    ensures |KMAP_LOWER| == 58 && Typed(code, false) == [KMAP_LOWER[code]]
    ensures |KMAP_UPPER| == 58 && Typed(code, true) == [KMAP_UPPER[code]]
  {
    MapSizes();
    hide KMAP_LOWER, KMAP_UPPER;
  }

  lemma DigitRows(k: nat)
    requires k < 12
    ensures KMAP_LOWER[2 + k] == "&\0\"'(-\0_\0\0)="[k]
    ensures KMAP_UPPER[2 + k] == "1234567890\0+"[k]
  {
  }

  lemma PunctuationRows()
    ensures KMAP_LOWER[26] == '^' && KMAP_LOWER[27] == '$' && KMAP_LOWER[40] == '\0' && KMAP_LOWER[41] == '`'
    ensures KMAP_LOWER[43] == '*' && KMAP_LOWER[50] == ',' && KMAP_LOWER[51] == ';'
    ensures KMAP_LOWER[52] == ':' && KMAP_LOWER[53] == '!'
    ensures KMAP_UPPER[26] == '\0' && KMAP_UPPER[27] == '}' && KMAP_UPPER[40] == '%' && KMAP_UPPER[41] == '~'
    ensures KMAP_UPPER[43] == '\\' && KMAP_UPPER[50] == '?' && KMAP_UPPER[51] == '.'
    ensures KMAP_UPPER[52] == '/' && KMAP_UPPER[53] == '\0'
  {
  }

  lemma BlankKeys()
    ensures KMAP_LOWER[0] == KMAP_LOWER[1] == KMAP_LOWER[29] == '\0'
    ensures KMAP_LOWER[54] == KMAP_LOWER[55] == KMAP_LOWER[56] == '\0'
    ensures KMAP_UPPER[0] == KMAP_UPPER[1] == KMAP_UPPER[29] == '\0'
    ensures KMAP_UPPER[54] == KMAP_UPPER[55] == KMAP_UPPER[56] == '\0'
  {
  }
}
