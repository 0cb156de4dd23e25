/** The kernel as one machine: booting it, and interrupts from the controller to the handler and back. */
module Kernel {
  import opened Words
  import opened Pic8259
  import opened Console
  import opened Keyboard
  import opened Descriptors
  import opened Gdt
  import opened Idt
  import opened Entry
  import opened Interrupts
  import Messages
  import Pic

  /** Where the stubs are: the table of vector 32 on lists their addresses, and each is its vector's program. */
  ghost predicate StubsAt(stubs: seq<bv64>, address: int -> bv64, code: bv64 -> seq<Instr>) {
    && |stubs| > STUB_COUNT
    && (forall i | 0 <= i < STUB_COUNT :: stubs[i] == address(EXCEPTION_COUNT + i))
    && forall v | EXCEPTION_COUNT <= v < 255 :: code(address(v)) == IrqPrologue(v)
  }

  /** Every gate from vector 32 to 254 leads to its own vector's program, in a segment of 64-bit code. */
  ghost predicate Gated(table: seq<Gate>, segments: seq<Segment>, code: bv64 -> seq<Instr>) {
    && |table| == 256
    && forall v | EXCEPTION_COUNT <= v < 255 ::
         && LeadsTo(table[v], Target(table[v])) && code(Target(table[v])) == IrqPrologue(v)
         && SelectsCode(segments, table[v].selector)
  }

  /** What the kernel needs to take interrupts, and keeps: segments, gates, handlers, routing, interrupts on. */
  ghost predicate Ready(gdt: Gdt, idt: Idt, cpu: Cpu, handlers: array<Handler>, console: Console,
                        code: bv64 -> seq<Instr>)
    reads gdt, gdt.table, idt, idt.table, cpu, handlers, console
  {
    && Gated(idt.table[..], gdt.table[..], code) && idt.register.size == 0xFFF
    && Installed(handlers[..]) && !console.useSerial && BitSet(cpu.state.rflags, IF)
  }

  /** The selector of the kernel's gates is that of the table's 64-bit code. */
  lemma GatesSelect(segments: seq<Segment>)
    requires IsKernelTable(segments)
    ensures SelectsCode(segments, KERNEL_CS)
  {
    SelectorNumber();
  }

  lemma SelectorNumber()
    ensures KERNEL_CS as int == 40
  {
  }

  /**
   The boot sequence after the banner, from a machine that masked every line: tables,
   controllers, the keyboard's line, interrupts on. The slots are those of the tables' sizes.
   */
  method Boot(gdt: Gdt, idt: Idt, cpu: Cpu, handlers: array<Handler>, ports: Ports, console: Console,
              exceptions: seq<bv64>, stubs: seq<bv64>, gdtSlot: uint64, idtSlot: uint64,
              ghost address: int -> bv64, ghost code: bv64 -> seq<Instr>)
    requires !gdt.installed && gdt.table.Length == 7
    requires !idt.installed && idt.table.Length == 256 && handlers.Length == HANDLER_COUNT
    requires |exceptions| == EXCEPTION_COUNT && StubsAt(stubs, address, code)
    requires gdtSlot % U32 == 0x37 && idtSlot % U32 == 0xFFF
    requires ports.chips.master.isr == 0 && ports.chips.slave.isr == 0
    requires forall line: bv8 | line < 16 :: Pic.Masked(ports.chips, line)
    modifies gdt, gdt.table, idt, idt.table, cpu, handlers, ports, console
    ensures Ready(gdt, idt, cpu, handlers, console, code) && Booted(ports.chips)
    ensures cpu.state == old(cpu.state).(rflags := cpu.state.rflags)
    ensures console.terminal == old(console.terminal)
    ensures console.serial == old(console.serial) + BootLog(gdt.address, gdtSlot, idt.address, idtSlot)
  {
    hide CrLf, Messages.PicRemapped, Messages.TableInstalled, Messages.IdtHead, Messages.GdtHead, Target, IrqPrologue,
         BitSet, Installed, Pic.RemappedPair, IsKernelTable, SelectsCode;
    gdt.Install(console, gdtSlot);
    GatesSelect(gdt.table[..]);
    idt.Install(exceptions, stubs, handlers, console, idtSlot);
    OwnStubs(idt.table[..], stubs, address);
    Pic.Remap(ports, console, 32, 40);
    OneUnmasked(old(ports.chips), ports.chips);
    Pic.ClearIrqMask(ports, 1);
    cpu.EnableInterrupts();
    var _ := console.Dputs(Chars("Interrupts enabled"));
    assert "Interrupts enabled" + "\n" == "Interrupts enabled\n";
    InOrder(old(console.serial), gdt.address, gdtSlot, idt.address, idtSlot);
  }

  lemma InOrder(before: string, gdt: nat, gdtSize: nat, idt: nat, idtSize: nat)
    ensures before + CrLf(Messages.TableInstalled(Messages.GdtHead(), gdt, gdtSize))
            + CrLf("ISR successfully installed\n")
            + CrLf(Messages.TableInstalled(Messages.IdtHead(), idt, idtSize))
            + CrLf(Messages.PicRemapped(32, 40)) + CrLf("Interrupts enabled\n")
            == before + BootLog(gdt, gdtSize, idt, idtSize)
  {
    hide CrLf, Messages.PicRemapped, Messages.TableInstalled, Messages.IdtHead, Messages.GdtHead;
  }

  function BootLog(gdt: nat, gdtSize: nat, idt: nat, idtSize: nat): string {
    CrLf(Messages.TableInstalled(Messages.GdtHead(), gdt, gdtSize)) + CrLf("ISR successfully installed\n")
    + CrLf(Messages.TableInstalled(Messages.IdtHead(), idt, idtSize))
    + CrLf(Messages.PicRemapped(32, 40)) + CrLf("Interrupts enabled\n")
  }

  lemma OneUnmasked(before: Chips, k: Chips)
    requires before.master.isr == 0 && before.slave.isr == 0
    requires forall line: bv8 | line < 16 :: Pic.Masked(before, line)
    requires k == Pic.RemappedPair(before, 32, 40)
    ensures Pic.IsReady(k) && Booted(Pic.WithMask(k, 1, false))
  {
    forall line: bv8 | line < 16 ensures Pic.Masked(Pic.WithMask(k, 1, false), line) <==> line != 1 {
      assert Pic.Masked(before, line);
      Pic.MaskLine(k, 1, false, line);
    }
  }

  /**
   One interrupt from the acknowledge cycle to the interrupted program: the vector selects the
   gate, the gate's program builds the frame, the dispatcher takes the vector from the frame, and
   the code after it restores what was interrupted. `effect` is what the compiled handler does to
   the processor.
   */
  method Interrupt(gdt: Gdt, idt: Idt, cpu: Cpu, handlers: array<Handler>, ports: Ports, console: Console,
                   keyboard: Controller, r: Request, scancode: Scancode, code: bv64 -> seq<Instr>,
                   effect: State -> State)
    requires Ready(gdt, idt, cpu, handlers, console, code)
    requires Deliverable(ports.chips, r) && 32 <= VectorOf(ports.chips, r) < 255
    requires forall s :: FrameKept(s, effect(s))
    modifies cpu, ports, console, keyboard
    ensures Ready(gdt, idt, cpu, handlers, console, code)
    ensures Resumed(cpu.state, old(cpu.state))
    ensures WorldOf(ports, console, keyboard) == Serviced(old(WorldOf(ports, console, keyboard)), r, scancode)
  {
    hide HandledWhile, Serviced, Pic.Ended, Acknowledged, Deliverable, VectorOf, Target, IrqPrologue, Exec, Delivered,
         FrameAt, FrameHolds, FrameKept, Resumed, BitSet, Get, Installed;
    ghost var interrupted, world := cpu.state, WorldOf(ports, console, keyboard);
    var vector := ports.Acknowledge(r);
    VectorBytes(vector);
    VectorByte(vector);
    var gate := idt.table[vector as nat];
    assert gate == idt.table[..][vector as nat];
    LeadsThrough(gate, Target(gate));
    cpu.EnterIrq(vector as int, gate, code(Target(gate)));
    ghost var called := cpu.state;
    var intNo := FrameAt(cpu.state.mem, Get(cpu.state, RDI)).intNo;
    NumberInFrame(called, interrupted, vector as int);
    IrqInterruptHandler(handlers, ports, console, keyboard, intNo, scancode);
    cpu.CallHandler(effect);
    cpu.ReturnIrq(interrupted, called, vector as int);
    FlagsBack(cpu.state, interrupted);
    ServicedBy(world, r, scancode);
  }

  /** The handlers do not look at the controllers, so their acknowledge cycle can come first. */
  lemma ServicedBy(w: World, r: Request, scancode: Scancode)
    requires Deliverable(w.chips, r)
    ensures var vector := VectorOf(w.chips, r);
            var acknowledged := w.(chips := Acknowledged(w.chips, r));
            Handled(acknowledged, vector as nat, scancode).(chips := Pic.Ended(acknowledged.chips, vector))
            == Serviced(w, r, scancode)
  {
    hide Deliverable, VectorOf, Acknowledged, Pic.Ended, CrLf, Messages.NoHandler, Typed, NextState;
  }

  lemma NumberInFrame(called: State, s: State, vector: int)
    requires FrameHolds(called, s, vector)
    ensures FrameAt(called.mem, Get(called, RDI)).intNo == vector
  {
    hide FrameAt;
  }

  lemma FlagsBack(t: State, s: State)
    requires Resumed(t, s)
    ensures BitSet(t.rflags, IF) == BitSet(s.rflags, IF)
  {
  }

  /** The kernel's last loop: each interrupt that arrives is served, and the loop goes on. */
  method Wait(gdt: Gdt, idt: Idt, cpu: Cpu, handlers: array<Handler>, ports: Ports, console: Console,
              keyboard: Controller, events: seq<Event>, code: bv64 -> seq<Instr>, effect: State -> State)
    requires Ready(gdt, idt, cpu, handlers, console, code)
    requires OnlyIrqs(events) && Runs(WorldOf(ports, console, keyboard), events)
    requires forall s :: FrameKept(s, effect(s))
    modifies cpu, ports, console, keyboard
    ensures Ready(gdt, idt, cpu, handlers, console, code)
    ensures Resumed(cpu.state, old(cpu.state))
    ensures WorldOf(ports, console, keyboard) == Run(old(WorldOf(ports, console, keyboard)), events)
  {
    hide Serviced, Deliverable, VectorOf, FrameKept, Ready;
    var i := 0;
    assert events[0..] == events;
    while i < |events|
      invariant 0 <= i <= |events|
      invariant Ready(gdt, idt, cpu, handlers, console, code) && Resumed(cpu.state, old(cpu.state))
      invariant Runs(WorldOf(ports, console, keyboard), events[i..])
      invariant Run(WorldOf(ports, console, keyboard), events[i..])
                == Run(old(WorldOf(ports, console, keyboard)), events)
    {
      var e := events[i];
      assert e in events && events[i..][0] == e && events[i..][1..] == events[i + 1..];
      Interrupt(gdt, idt, cpu, handlers, ports, console, keyboard, e.r, e.code, code, effect);
      i := i + 1;
    }
  }

  /**
   The kernel from boot on: after any sequence of interrupts that can arrive the controllers are
   as boot left them, the terminal shows what the scancodes type, and the serial line holds the
   boot log and a report for each spurious interrupt.
   */
  method Start(gdt: Gdt, idt: Idt, cpu: Cpu, handlers: array<Handler>, ports: Ports, console: Console,
               keyboard: Controller, exceptions: seq<bv64>, stubs: seq<bv64>, gdtSlot: uint64, idtSlot: uint64,
               ghost address: int -> bv64, code: bv64 -> seq<Instr>, effect: State -> State, events: seq<Event>)
    requires !gdt.installed && gdt.table.Length == 7
    requires !idt.installed && idt.table.Length == 256 && handlers.Length == HANDLER_COUNT
    requires |exceptions| == EXCEPTION_COUNT && StubsAt(stubs, address, code)
    requires gdtSlot % U32 == 0x37 && idtSlot % U32 == 0xFFF
    requires ports.chips.master.isr == 0 && ports.chips.slave.isr == 0
    requires forall line: bv8 | line < 16 :: Pic.Masked(ports.chips, line)
    requires forall s :: FrameKept(s, effect(s))
    requires keyboard.keyUp == 0 && AfterBoot(events)
    modifies gdt, gdt.table, idt, idt.table, cpu, handlers, ports, console, keyboard
    ensures Ready(gdt, idt, cpu, handlers, console, code) && Booted(ports.chips)
    ensures keyboard.keyUp == KeyState(KeyCodes(events))
    ensures console.terminal == old(console.terminal) + Screen(KeyCodes(events))
    ensures console.serial
            == old(console.serial) + BootLog(gdt.address, gdtSlot, idt.address, idtSlot) + SpuriousReports(events)
  {
    hide BootLog, Ready, StubsAt, FrameKept, Booted, AfterBoot, KeyCodes, SpuriousReports, Pic.Masked;
    Boot(gdt, idt, cpu, handlers, ports, console, exceptions, stubs, gdtSlot, idtSlot, address, code);
    ghost var w := WorldOf(ports, console, keyboard);
    EventsAfterBoot(w, events);
    NothingTyped(w, KeyCodes(events));
    BootRun(w, events, [], w.terminal);
    hide Run, Runs, KeyState, Screen, OnlyIrqs;
    Wait(gdt, idt, cpu, handlers, ports, console, keyboard, events, code, effect);
  }

  lemma NothingTyped(w: World, codes: seq<Scancode>)
    ensures KeyState([]) == 0 && w.terminal + Screen([]) == w.terminal
    ensures [] + codes == codes
  {
  }
}
