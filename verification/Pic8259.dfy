/**
 Two cascaded 8259A interrupt controllers, as far as the kernel drives them: the initialization
 sequence ICW1 to ICW4, the mask register, the in-service register and the end of interrupt
 (Intel 8259A datasheet, "Initialization Command Words", "Operation Command Words").
 */
module Pic8259 {

  datatype Phase = Ready | AwaitIcw2 | AwaitIcw3 | AwaitIcw4

  datatype Chip = Chip(
    phase: Phase,
    imr: bv8,     // interrupt mask register
    isr: bv8,     // in-service register
    base: bv8,    // ICW2: the vector of line 0
    icw1: bv8,
    wiring: bv8,  // ICW3
    mode: bv8)    // ICW4

  datatype Chips = Chips(master: Chip, slave: Chip)

  function Bit(line: bv8): bv8
    requires line < 8
  {
    1 << line
  }

  /** A write with A0 = 0: ICW1 when bit 4 is set, else OCW2 when bit 3 is clear. */
  function Command(c: Chip, v: bv8): Chip {
    if v & 0x10 != 0 then
      c.(phase := AwaitIcw2, imr := 0, icw1 := v, mode := if v & 1 == 0 then 0 else c.mode)
    else if v & 0x18 == 0 && v & 0xE0 == 0x20 then c.(isr := EndHighest(c.isr))
    else c
  }

  /** A write with A0 = 1: the next initialization word, or OCW1 once the chip is ready. */
  function Data(c: Chip, v: bv8): Chip {
    match c.phase
    case Ready => c.(imr := v)
    case AwaitIcw2 =>
      c.(base := v & 0xF8,
         phase := if c.icw1 & 2 == 0 then AwaitIcw3 else if c.icw1 & 1 != 0 then AwaitIcw4 else Ready)
    case AwaitIcw3 => c.(wiring := v, phase := if c.icw1 & 1 != 0 then AwaitIcw4 else Ready)
    case AwaitIcw4 => c.(mode := v, phase := Ready)
  }

  /** The non-specific end of interrupt clears the in-service bit of highest priority, the lowest line. */
  function EndHighest(isr: bv8): bv8 {
    if isr == 0 then 0 else isr & (isr - 1)
  }

  lemma EndHighestLine(isr: bv8, line: bv8, other: bv8)
    requires line < 8 && other < 8
    requires isr & Bit(line) != 0 && (forall l: bv8 :: l < line ==> isr & Bit(l) == 0)
    ensures EndHighest(isr) & Bit(other) != 0 <==> other != line && isr & Bit(other) != 0
  {
    if line > 0 { assert isr & Bit(0) == 0; }
    if line > 1 { assert isr & Bit(1) == 0; }
    if line > 2 { assert isr & Bit(2) == 0; }
    if line > 3 { assert isr & Bit(3) == 0; }
    if line > 4 { assert isr & Bit(4) == 0; }
    if line > 5 { assert isr & Bit(5) == 0; }
    if line > 6 { assert isr & Bit(6) == 0; }
  }

  /** No line of the same or a higher priority is masked in front of, or already in service before, `line`. */
  predicate Admits(c: Chip, line: bv8)
    requires line < 8
  {
    c.phase == Ready && c.imr & Bit(line) == 0 && c.isr & ((Bit(line) << 1) - 1) == 0
  }

  /** The acknowledged line enters service unless the chip ends interrupts by itself. */
  function Serve(c: Chip, line: bv8): Chip
    requires line < 8
  {
    if c.mode & 2 != 0 then c else c.(isr := c.isr | Bit(line))
  }

  // --- The pair ---

  const CASCADE: bv8 := 2

  /** An interrupt the processor acknowledges; a spurious one is a line that dropped in the meantime. */
  datatype Request = MasterLine(line: bv8) | SlaveLine(line: bv8) | MasterSpurious | SlaveSpurious

  predicate Deliverable(k: Chips, r: Request) {
    match r
    case MasterLine(line) => line < 8 && line != CASCADE && Admits(k.master, line)
    case SlaveLine(line) => line < 8 && Admits(k.master, CASCADE) && Admits(k.slave, line)
    case MasterSpurious => k.master.phase == Ready
    case SlaveSpurious => Admits(k.master, CASCADE) && k.slave.phase == Ready
  }

  /** The chips after the acknowledge cycle. A spurious interrupt of the slave still occupies the cascade line. */
  function Acknowledged(k: Chips, r: Request): Chips
    requires Deliverable(k, r)
  {
    match r
    case MasterLine(line) => k.(master := Serve(k.master, line))
    case SlaveLine(line) => Chips(Serve(k.master, CASCADE), Serve(k.slave, line))
    case MasterSpurious => k
    case SlaveSpurious => k.(master := Serve(k.master, CASCADE))
  }

  /** The vector put on the bus: the chip's base and the line, which is 7 when spurious. */
  function VectorOf(k: Chips, r: Request): (v: bv8)
    requires Deliverable(k, r)
  {
    match r
    case MasterLine(line) => k.master.base | line
    case SlaveLine(line) => k.slave.base | line
    case MasterSpurious => k.master.base | 7
    case SlaveSpurious => k.slave.base | 7
  }

  /** The master answers at 0x20 and 0x21, the slave at 0xA0 and 0xA1; A0 is the lowest bit of the address. */
  function Write(k: Chips, port: bv16, v: bv8): Chips {
    if port == 0x20 then k.(master := Command(k.master, v))
    else if port == 0x21 then k.(master := Data(k.master, v))
    else if port == 0xA0 then k.(slave := Command(k.slave, v))
    else if port == 0xA1 then k.(slave := Data(k.slave, v))
    else k
  }

  /** Each chip is told where the slave is connected: the master by a bit for the line, the slave by its number. */
  predicate Wired(k: Chips) {
    k.master.wiring == Bit(CASCADE) && k.slave.wiring & 7 == CASCADE
  }

  /** A chip puts its vectors on the bus as an 8086 expects them, and waits for the end of each interrupt. */
  predicate Ends8086(c: Chip) {
    c.mode & 0x01 != 0 && c.mode & 0x02 == 0 && c.mode & 0x10 == 0
  }

  /** The I/O ports of the machine. */
  class Ports {
    var chips: Chips

    constructor (chips: Chips)
      ensures this.chips == chips
    {
      this.chips := chips;
    }

    method Outb(port: bv16, v: bv8)
      modifies this
      ensures chips == Write(old(chips), port, v)
    {
      chips := Write(chips, port, v);
    }

    /** The data ports read the mask registers. */
    method Inb(port: bv16) returns (v: bv8)
      requires port == 0x21 || port == 0xA1
      ensures v == if port == 0x21 then chips.master.imr else chips.slave.imr
    {
      v := if port == 0x21 then chips.master.imr else chips.slave.imr;
    }

    /** A write to an unused port, to give the chips time. */
    method Wait()
      modifies this
      ensures chips == old(chips)
    {
      Outb(0x80, 0);
    }

    /** The processor's acknowledge cycle. */
    method Acknowledge(r: Request) returns (vector: bv8)
      requires Deliverable(chips, r)
      modifies this
      ensures chips == Acknowledged(old(chips), r) && vector == VectorOf(old(chips), r)
    {
      vector := VectorOf(chips, r);
      chips := Acknowledged(chips, r);
    }
  }
}
