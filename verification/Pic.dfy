/** The kernel's interrupt controller driver. */
module Pic {
  import opened Pic8259
  import opened Rendering
  import opened Console
  import Logging
  import Messages

  const MPIC_COMMAND: bv16 := 0x20
  const SPIC_COMMAND: bv16 := 0xA0
  const MPIC_DATA: bv16 := 0x21
  const SPIC_DATA: bv16 := 0xA1

  const INIT: bv8 := 0x10
  const ICW4: bv8 := 0x01
  const EOI: bv8 := 0x20

  // --- What the driver's operations mean ---

  /** Line 0 to 7 is the master's, 8 to 15 the slave's. */
  predicate Masked(k: Chips, line: bv8)
    requires line < 16
  {
    if line < 8 then k.master.imr & Bit(line) != 0 else k.slave.imr & Bit(line - 8) != 0
  }

  /** The same chips but for their mask registers. */
  predicate SameButMasks(j: Chips, k: Chips) {
    j == Chips(k.master.(imr := j.master.imr), k.slave.(imr := j.slave.imr))
  }

  /** A chip initialized for vectors from `offset` on in 8086 mode, with its mask and its service kept. */
  function Remapped(c: Chip, offset: bv8, wiring: bv8): Chip {
    c.(phase := Ready, base := offset & 0xF8, icw1 := INIT | ICW4, wiring := wiring, mode := 0x01)
  }

  function RemappedPair(k: Chips, mpicOffset: bv8, spicOffset: bv8): Chips {
    Chips(Remapped(k.master, mpicOffset, 0x4), Remapped(k.slave, spicOffset, 0x2))
  }

  /** A remapped pair is wired up, speaks as an 8086 expects, and ends no interrupt by itself. */
  lemma RemapWired(k: Chips, mpicOffset: bv8, spicOffset: bv8)
    ensures var j := RemappedPair(k, mpicOffset, spicOffset);
            Wired(j) && Ends8086(j.master) && Ends8086(j.slave)
  {
  }

  /**
   It delivers every line that is not masked, with the vector of its chip's offset and its
   number, and the line stays in service.
   */
  lemma RemapDelivers(k: Chips, mpicOffset: bv8, spicOffset: bv8, line: bv8)
    requires k.master.imr == 0 && k.slave.imr == 0 && k.master.isr == 0 && k.slave.isr == 0 && line < 8
    ensures var j, r := RemappedPair(k, mpicOffset, spicOffset), MasterLine(line);
            line != 2 ==>
              && Deliverable(j, r) && VectorOf(j, r) == (mpicOffset & 0xF8) + line
              && Acknowledged(j, r).master.isr == 1 << line && Acknowledged(j, r).slave.isr == 0
    ensures var j, r := RemappedPair(k, mpicOffset, spicOffset), SlaveLine(line);
            && Deliverable(j, r) && VectorOf(j, r) == (spicOffset & 0xF8) + line
            && Acknowledged(j, r).slave.isr == 1 << line && Acknowledged(j, r).master.isr == 1 << 2
  {
    OrIsPlus(mpicOffset, line);
    OrIsPlus(spicOffset, line);
    FreeLine(line);
    FreeLine(2);
    hide Bit;
  }

  lemma OrIsPlus(offset: bv8, line: bv8)
    requires line < 8
    ensures (offset & 0xF8) | line == (offset & 0xF8) + line
  {
  }

  lemma FreeLine(line: bv8)
    requires line < 8
    ensures 0 & Bit(line) == 0 && 0 & ((Bit(line) << 1) - 1) == 0 && 0 | Bit(line) == Bit(line) == 1 << line
  {
  }

  predicate IsReady(k: Chips) {
    k.master.phase == Ready && k.slave.phase == Ready
  }

  /** Lines from 16 on exist on neither chip: their bit falls off the byte written. */
  function WithMask(k: Chips, irq: bv8, on: bool): Chips {
    if irq < 8 then k.(master := k.master.(imr := Flip(k.master.imr, irq, on)))
    else if irq < 16 then k.(slave := k.slave.(imr := Flip(k.slave.imr, irq - 8, on)))
    else k
  }

  function Flip(imr: bv8, line: bv8, on: bool): bv8
    requires line < 8
  {
    if on then imr | Bit(line) else imr & !Bit(line)
  }

  /** Masking or unmasking a line changes that line and nothing else. */
  lemma MaskLine(k: Chips, irq: bv8, on: bool, line: bv8)
    requires line < 16
    ensures Masked(WithMask(k, irq, on), line) <==> if line == irq then on else Masked(k, line)
    ensures SameButMasks(WithMask(k, irq, on), k)
  {
  }

  /** An int cut to the byte that a port takes. */
  function LowByte(word: bv32): bv8 {
    (word & 0xFF) as bv8
  }

  /** What the mask operations compute as an int, as the byte they write. */
  lemma MaskByte(imr: bv8, line: bv8)
    requires line < 32
    ensures LowByte((imr as bv32) | (1 << line)) == if line < 8 then imr | Bit(line) else imr
    ensures LowByte((imr as bv32) & !(1 << line)) == if line < 8 then imr & !Bit(line) else imr
  {
  }

  /** The end of interrupt for a vector: both chips from vector 8 on, else the master alone. */
  function Ended(k: Chips, irqNo: bv8): Chips {
    Chips(k.master.(isr := EndHighest(k.master.isr)),
          if irqNo >= 8 then k.slave.(isr := EndHighest(k.slave.isr)) else k.slave)
  }

  /** The end of interrupt leaves the slave alone exactly below number 8, or when the slave serves nothing. */
  lemma SlaveUntouched(k: Chips, irqNo: bv8)
    ensures Ended(k, irqNo).slave == k.slave <==> irqNo < 8 || k.slave.isr == 0
    ensures (forall j :: Ended(j, irqNo).slave == j.slave) <==> irqNo < 8
  {
    var busy := k.(slave := k.slave.(isr := 1));
    assert Ended(busy, irqNo).slave == busy.slave <==> irqNo < 8;
  }

  // --- The operations ---

  method Disable(ports: Ports)
    requires IsReady(ports.chips)
    modifies ports
    ensures SameButMasks(ports.chips, old(ports.chips))
    ensures forall line: bv8 | line < 16 :: Masked(ports.chips, line)
  {
    ports.Outb(MPIC_DATA, 0xFF);
    ports.Outb(SPIC_DATA, 0xFF);
  }

  /** The shift is one of an int, so a line number below 40 is in range on either chip. */
  method SetIrqMask(ports: Ports, irq: bv8)
    requires irq < 40 && IsReady(ports.chips)
    modifies ports
    ensures ports.chips == WithMask(old(ports.chips), irq, true)
  {
    var dataPort, line := MPIC_DATA, irq;
    if line >= 8 {
      dataPort := SPIC_DATA;
      line := line - 8;
    }
    var imr := ports.Inb(dataPort);
    MaskByte(imr, line);
    hide LowByte, Bit;
    ports.Outb(dataPort, LowByte((imr as bv32) | (1 << line)));
  }

  method ClearIrqMask(ports: Ports, irq: bv8)
    requires irq < 40 && IsReady(ports.chips)
    modifies ports
    ensures ports.chips == WithMask(old(ports.chips), irq, false)
  {
    var dataPort, line := MPIC_DATA, irq;
    if line >= 8 {
      dataPort := SPIC_DATA;
      line := line - 8;
    }
    var imr := ports.Inb(dataPort);
    MaskByte(imr, line);
    hide LowByte, Bit;
    ports.Outb(dataPort, LowByte((imr as bv32) & !(1 << line)));
  }

  /** Initializes one chip, from whatever state it is in. */
  method RemapPic(ports: Ports, commandPort: bv16, dataPort: bv16, picOffset: bv8)
    requires (commandPort == MPIC_COMMAND && dataPort == MPIC_DATA)
             || (commandPort == SPIC_COMMAND && dataPort == SPIC_DATA)
    modifies ports
    ensures ports.chips == if commandPort == MPIC_COMMAND
                           then old(ports.chips).(master := Remapped(old(ports.chips).master, picOffset, 0x4))
                           else old(ports.chips).(slave := Remapped(old(ports.chips).slave, picOffset, 0x2))
  {
    var imr := ports.Inb(dataPort);
    var icw3: bv8 := if commandPort == MPIC_COMMAND then 0x4 else 0x2;
    ports.Outb(commandPort, INIT | ICW4);
    ports.Wait();
    ports.Outb(dataPort, picOffset);
    ports.Wait();
    ports.Outb(dataPort, icw3);
    ports.Wait();
    ports.Outb(dataPort, 0x1);
    ports.Wait();
    ports.Outb(dataPort, imr);
  }

  method SendEoi(ports: Ports, irqNo: bv8)
    modifies ports
    ensures ports.chips == Ended(old(ports.chips), irqNo)
  {
    if irqNo >= 8 {
      ports.Outb(SPIC_COMMAND, EOI);
    }
    ports.Outb(MPIC_COMMAND, EOI);
  }

  /** Initializes both chips and reports their vectors on the serial line. */
  method Remap(ports: Ports, console: Console, mpicOffset: bv8, spicOffset: bv8)
    modifies ports, console
    ensures ports.chips == RemappedPair(old(ports.chips), mpicOffset, spicOffset)
    ensures console.terminal == old(console.terminal) && !console.useSerial
    ensures console.serial == old(console.serial) + CrLf(Messages.PicRemapped(mpicOffset as nat, spicOffset as nat))
  {
    RemapPic(ports, MPIC_COMMAND, MPIC_DATA, mpicOffset);
    RemapPic(ports, SPIC_COMMAND, SPIC_DATA, spicOffset);
    ReportRemap(console, mpicOffset as nat, spicOffset as nat);
  }

  method ReportRemap(console: Console, mpicOffset: nat, spicOffset: nat)
    requires mpicOffset < 256 && spicOffset < 256
    modifies console
    ensures console.terminal == old(console.terminal) && !console.useSerial
    ensures console.serial == old(console.serial) + CrLf(Messages.PicRemapped(mpicOffset, spicOffset))
  {
    hide CrLf, Messages.PicRemapped, Messages.PicRemappedFormat, Accepts, Formatted, Logging.Printable;
    Messages.PicRemappedText(mpicOffset, spicOffset);
    var _ := Logging.Dprintf(console, Messages.PicRemappedFormat(), [Word(mpicOffset), Word(spicOffset)]);
  }
}
