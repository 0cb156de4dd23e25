/**
 Where the formatter sends its characters: a caller's buffer, nowhere, the console, or a
 caller's function.
 */
module Sinks {
  import opened Text
  import opened Console

  datatype OutFunction = OutBuffer | OutNull | OutChar | OutFct

  /** The cells of a buffer after the characters `s` were sent to it with limit `maxlen`. */
  function Stored(cells: seq<char>, s: string, maxlen: nat): seq<char>
    requires Min(|s|, maxlen) <= |cells|
  {
    s[..Min(|s|, maxlen)] + cells[Min(|s|, maxlen)..]
  }

  /** The cells of a buffer after a whole text and its terminator; nothing is stored without room. */
  function Terminated(cells: seq<char>, s: string, maxlen: nat): seq<char>
    requires maxlen <= |cells| || |s| < |cells|
  {
    if maxlen == 0 then cells
    else
      var n := Min(|s|, maxlen - 1);
      s[..n] + ['\0'] + cells[n + 1..]
  }

  /** Putting the terminator after the stored characters, or over the last of them. */
  lemma TerminatorStored(cells: seq<char>, s: string, maxlen: nat)
    requires maxlen <= |cells| || |s| < |cells|
    ensures maxlen == 0 ==> Stored(cells, s, maxlen) == Terminated(cells, s, maxlen)
    ensures var n := Min(|s|, maxlen - 1);
            maxlen > 0 ==> 0 <= n < |cells| && |Stored(cells, s, maxlen)| == |cells|
                           && Stored(cells, s, maxlen)[n := '\0'] == Terminated(cells, s, maxlen)
  {
  }

  const SIZE_MAX: nat := 0xFFFF_FFFF_FFFF_FFFF

  class Sink {
    const out: OutFunction
    const buffer: array?<char>
    const maxlen: nat
    const console: Console?
    var calls: string            // what the caller's function was called with

    ghost var trace: string      // every character handed to the sink so far
    ghost const budget: nat      // how many may be handed to it
    ghost const cells: seq<char> // the buffer, the serial line and the terminal at the start
    ghost const serial: string
    ghost const terminal: string
    ghost const useSerial: bool

    ghost function Footprint(): set<object> {
      {this} + (if buffer == null then {} else {buffer}) + (if console == null then {} else {console})
    }

    /** The buffer is as large as the caller said, or as the text needs. */
    ghost predicate RoomFor(n: nat) {
      out == OutBuffer ==> buffer != null && (maxlen <= buffer.Length || n < buffer.Length)
    }

    /** What the caller can see is what the characters handed over so far amount to. */
    ghost predicate Valid()
      reads Footprint()
    {
      && |trace| <= budget < 0x8000_0000
      && RoomFor(budget)
      && (out == OutBuffer ==>
            |cells| == buffer.Length && buffer[..] == Stored(cells, trace, maxlen))
      && (out == OutFct ==> calls == NonNul(trace))
      && (out == OutChar ==>
            && console != null
            && console.useSerial == useSerial
            && console.serial == serial + (if useSerial then CrLf(NonNul(trace)) else "")
            && console.terminal == terminal + (if useSerial then "" else NonNul(trace)))
    }

    /** A sink for a buffer; without one the characters go nowhere. */
    constructor ToBuffer(buffer: array?<char>, maxlen: nat, ghost budget: nat)
      requires budget < 0x8000_0000
      requires buffer != null ==> maxlen <= buffer.Length || budget < buffer.Length
      ensures Valid() && trace == "" && this.budget == budget
      ensures this.buffer == buffer && this.maxlen == maxlen && console == null
      ensures out == if buffer == null then OutNull else OutBuffer
      ensures buffer != null ==> cells == buffer[..]
    {
      out := if buffer == null then OutNull else OutBuffer;
      this.buffer, this.maxlen, console, calls := buffer, maxlen, null, "";
      trace, this.budget, cells := "", budget, if buffer == null then [] else buffer[..];
      serial, terminal, useSerial := "", "", false;
    }

    /** A sink for the console, routed by the console's flag. */
    constructor ToConsole(console: Console, ghost budget: nat)
      requires budget < 0x8000_0000
      ensures Valid() && trace == "" && this.budget == budget
      ensures out == OutChar && buffer == null && this.console == console && maxlen == SIZE_MAX
      ensures serial == console.serial && terminal == console.terminal && useSerial == console.useSerial
    {
      out, buffer, maxlen, this.console, calls := OutChar, null, SIZE_MAX, console, "";
      trace, this.budget, cells := "", budget, [];
      serial, terminal, useSerial := console.serial, console.terminal, console.useSerial;
    }

    /** A sink that calls the caller's function. */
    constructor ToFunction(ghost budget: nat)
      requires budget < 0x8000_0000
      ensures Valid() && trace == "" && this.budget == budget
      ensures out == OutFct && buffer == null && console == null && maxlen == SIZE_MAX
    {
      out, buffer, maxlen, console, calls := OutFct, null, SIZE_MAX, null, "";
      trace, this.budget, cells := "", budget, [];
      serial, terminal, useSerial := "", "", false;
    }

    /** The four output functions. */
    method Put(c: char, idx: nat)
      requires out == OutBuffer ==> buffer != null && (idx < maxlen ==> idx < buffer.Length)
      requires out == OutChar ==> console != null
      modifies Footprint()
      ensures trace == old(trace)
      ensures out == OutBuffer ==>
                buffer[..] == if idx < maxlen then old(buffer[..])[idx := c] else old(buffer[..])
      ensures out == OutFct ==> calls == old(calls) + (if c == '\0' then "" else [c])
      ensures c == '\0' && out != OutBuffer ==>
                calls == old(calls) && (console != null ==>
                  console.serial == old(console.serial) && console.terminal == old(console.terminal)
                  && console.useSerial == old(console.useSerial))
      ensures out == OutChar ==>
                var sent := if c == '\0' then "" else [c];
                && console.useSerial == old(console.useSerial)
                && console.serial == old(console.serial) + (if console.useSerial then CrLf(sent) else "")
                && console.terminal == old(console.terminal) + (if console.useSerial then "" else sent)
    {
      match out
      case OutBuffer =>
        if idx < maxlen {
          buffer[idx] := c;
        }
      case OutNull =>
      case OutChar =>
        if c != '\0' {
          console.PutChar(c);
        }
      case OutFct =>
        if c != '\0' {
          calls := calls + [c];
        }
    }

    /** The next character of the text; `idx` is the number of characters before it. */
    method Out(c: char, idx: nat)
      requires Valid() && idx == |trace| < budget
      modifies Footprint()
      ensures Valid() && trace == old(trace) + [c]
    {
      hide CrLf, NonNul;
      SentAppend(trace, c);
      Put(c, idx);
      trace := trace + [c];
      match out
      case OutBuffer => assert buffer[..] == Stored(cells, trace, maxlen);
      case OutChar =>
        if useSerial {
          assert console.serial == serial + CrLf(NonNul(trace));
        } else {
          assert console.terminal == terminal + NonNul(trace);
        }
      case _ =>
    }

    /** The terminator, at the end of the text or in the last cell of the buffer. */
    method Finish(idx: nat)
      requires Valid() && idx == |trace| && maxlen <= SIZE_MAX
      modifies Footprint()
      ensures trace == old(trace)
      ensures out == OutBuffer ==>
                (maxlen <= |cells| || |trace| < |cells|) && buffer[..] == Terminated(cells, trace, maxlen)
      ensures out != OutBuffer ==> Valid()
    {
      hide CrLf, NonNul;
      if out == OutBuffer {
        TerminatorStored(cells, trace, maxlen);
      }
      hide Stored, Terminated;
      Put('\0', if idx < maxlen then idx else (maxlen - 1) % (SIZE_MAX + 1));
    }
  }
}
