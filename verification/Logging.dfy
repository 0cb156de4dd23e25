/** The printf family: one formatter, four kinds of sink. */
module Logging {
  import opened Text
  import opened Directives
  import opened Rendering
  import opened Console
  import opened Sinks
  import Nuls
  import Printf

  /** What the family accepts: a C string, suitable arguments, and a text an int can count. */
  predicate Printable(format: string, args: seq<Arg>) {
    '\0' !in format && Accepts(format, args) && |Formatted(format, args)| < 0x8000_0000
  }

  /**
   Stores at most `count - 1` characters of the text, ends them with a NUL, leaves the rest of
   the buffer alone, and returns the length of the whole text. `buffer` may be null.
   */
  method Vsnprintf(buffer: array?<char>, count: nat, format: string, args: seq<Arg>) returns (ret: int)
    requires Printable(format, args) && count <= SIZE_MAX
    requires buffer != null ==> count <= buffer.Length || |Formatted(format, args)| < buffer.Length
    modifies if buffer == null then {} else {buffer}
    ensures ret == |Formatted(format, args)|
    ensures buffer != null && count == 0 ==> buffer[..] == old(buffer[..])
    ensures buffer != null && count > 0 ==>
              var text := Formatted(format, args);
              var n := Min(|text|, count - 1);
              && n < buffer.Length
              && buffer[..n] == text[..n]
              && buffer[n] == '\0'
              && buffer[n + 1..] == old(buffer[n + 1..])
  {
    hide Accepts, Formatted;
    var sink := new Sink.ToBuffer(buffer, count, |Formatted(format, args)|);
    ret := Printf.Vsnprintf(sink, format, args);
    if buffer != null && count > 0 {
      var text := Formatted(format, args);
      var n := Min(|text|, count - 1);
      assert buffer[..] == text[..n] + ['\0'] + old(buffer[..])[n + 1..];
      assert buffer[..n] == buffer[..][..n] && buffer[n] == buffer[..][n] && buffer[n + 1..] == buffer[..][n + 1..];
    }
  }

  /** Stores the whole text and its NUL, in a buffer that must be large enough; a null one only has it counted. */
  method Sprintf(buffer: array?<char>, format: string, args: seq<Arg>) returns (ret: int)
    requires Printable(format, args)
    requires buffer != null ==> |Formatted(format, args)| < buffer.Length
    modifies if buffer == null then {} else {buffer}
    ensures ret == |Formatted(format, args)|
    ensures buffer != null ==>
              && buffer[..ret] == Formatted(format, args)
              && buffer[ret] == '\0' && buffer[ret + 1..] == old(buffer[ret + 1..])
  {
    hide Accepts, Formatted;
    ret := Vsnprintf(buffer, SIZE_MAX, format, args);
  }

  /** Calls the caller's function on every character of the text but the NULs. */
  method Fctprintf(format: string, args: seq<Arg>) returns (ret: int, calls: string)
    requires Printable(format, args)
    ensures ret == |Formatted(format, args)|
    ensures calls == NonNul(Formatted(format, args))
    ensures |calls| == ret <==> !Nuls.SendsNul(Parse(format), args)
  {
    Nuls.DroppedNuls(format, args);
    hide Formatted, Nuls.SendsNul;
    var sink := new Sink.ToFunction(|Formatted(format, args)|);
    ret := Printf.Vsnprintf(sink, format, args);
    calls := sink.calls;
  }

  /**
   Prints where the console's routing flag says. The length returned is that of what arrives
   there, before the expansion of newlines, exactly when no `%c` sends a NUL; with them expanded
   on the serial line, exactly when there are as many NULs as line feeds.
   */
  method Vprintf(console: Console, format: string, args: seq<Arg>) returns (ret: int)
    requires Printable(format, args)
    modifies console
    ensures ret == |Formatted(format, args)|
    ensures console.useSerial == old(console.useSerial)
    ensures console.serial
            == old(console.serial) + (if console.useSerial then CrLf(NonNul(Formatted(format, args))) else "")
    ensures console.terminal
            == old(console.terminal) + (if console.useSerial then "" else NonNul(Formatted(format, args)))
    ensures !console.useSerial ==>
              (|console.terminal| - |old(console.terminal)| == ret <==> !Nuls.SendsNul(Parse(format), args))
    ensures console.useSerial ==>
              (|UnCrLf(console.serial[|old(console.serial)|..])| == ret <==> !Nuls.SendsNul(Parse(format), args))
    ensures var text := Formatted(format, args);
            console.useSerial ==>
              (|console.serial| - |old(console.serial)| == ret <==> CountOf('\0', text) == CountOf('\n', text))
  {
    Nuls.DroppedNuls(format, args);
    Nuls.SerialLength(Formatted(format, args));
    hide Formatted, Nuls.SendsNul;
    var sink := new Sink.ToConsole(console, |Formatted(format, args)|);
    ret := Printf.Vsnprintf(sink, format, args);
    hide CrLf, UnCrLf;
    ghost var sent := NonNul(Formatted(format, args));
    CrLfRoundTrip(sent);
    assert console.useSerial ==> console.serial[|old(console.serial)|..] == CrLf(sent);
  }

  /** Prints where the console's routing flag says; the flag is not this function's to set. */
  method Kprintf(console: Console, format: string, args: seq<Arg>) returns (ret: int)
    requires Printable(format, args)
    modifies console
    ensures ret == |Formatted(format, args)| && console.useSerial == old(console.useSerial)
    ensures console.serial
            == old(console.serial) + (if console.useSerial then CrLf(NonNul(Formatted(format, args))) else "")
    ensures console.terminal
            == old(console.terminal) + (if console.useSerial then "" else NonNul(Formatted(format, args)))
  {
    hide Accepts, Formatted;
    ret := Vprintf(console, format, args);
  }

  /** Prints to the serial line and leaves the routing on the terminal. */
  method Dprintf(console: Console, format: string, args: seq<Arg>) returns (ret: int)
    requires Printable(format, args)
    modifies console
    ensures ret == |Formatted(format, args)| && !console.useSerial
    ensures console.serial == old(console.serial) + CrLf(NonNul(Formatted(format, args)))
    ensures console.terminal == old(console.terminal)
  {
    hide Accepts, Formatted;
    console.useSerial := true;
    ret := Vprintf(console, format, args);
    console.useSerial := false;
  }
}
