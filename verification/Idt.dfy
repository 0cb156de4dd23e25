/** The interrupt descriptor table: gates in place, addresses split over three fields. */
module Idt {
  import opened Words
  import opened Rendering
  import opened Console
  import opened Descriptors
  import Interrupts
  import Logging
  import Messages

  const ENTRY_COUNT: nat := 0x100
  const EXCEPTION_COUNT: nat := 32
  const STUB_COUNT: nat := 223
  const KERNEL_CS: bv16 := 0x28

  /** The source's type of its gates: present, of ring 0, `intr32`. */
  const INTERRUPT_GATE: bv8 := 0x8E

  function KernelGate(isr: bv64, flags: bv8): (g: Gate)
    ensures Target(g) == isr && g.flags == flags && g.selector == KERNEL_CS && g.ist == 0 && g.zero == 0
  {
    Gate((isr & 0xFFFF) as bv16, KERNEL_CS, 0, flags,
         ((isr >> 16) & 0xFFFF) as bv16, ((isr >> 32) & 0xFFFF_FFFF) as bv32, 0)
  }

  /** The gate leads to an address, in the kernel's code segment, for ring 0 only, with interrupts off. */
  predicate LeadsTo(g: Gate, address: bv64) {
    && Target(g) == address && g.selector == KERNEL_CS && g.ist == 0
    && g.flags & 0x80 != 0 && g.flags & 0x60 == 0 && g.flags & 0x1F == 0x0E
  }

  lemma LeadsThrough(g: Gate, address: bv64)
    requires LeadsTo(g, address)
    ensures Opens(g) && Disables(g)
  {
    hide Target;
  }

  /** The size of a gate in bytes. */
  const GATE_SIZE: nat := 16

  class Idt {
    const table: array<Gate>
    const address: uint64
    var register: TableRegister
    var installed: bool

    constructor (address: uint64)
      ensures table.Length == ENTRY_COUNT && fresh(table) && !installed && this.address == address
    {
      table := new Gate[ENTRY_COUNT](_ => Gate(0, 0, 0, 0, 0, 0, 0));
      this.address := address;
      register := TableRegister(0, 0);
      installed := false;
    }

    /** Fills one gate, field by field; a vector outside the table is ignored. */
    method MakeEntry(vector: nat, isr: bv64, flags: bv8)
      requires table.Length == ENTRY_COUNT
      modifies table
      ensures table[..] == if vector < ENTRY_COUNT then old(table[..])[vector := KernelGate(isr, flags)]
                           else old(table[..])
    {
      if vector >= ENTRY_COUNT {
        return;
      }
      var gate := table[vector];
      gate := gate.(flags := flags, selector := KERNEL_CS, ist := 0, zero := 0);
      gate := gate.(offset1 := (isr & 0xFFFF) as bv16,
                    offset2 := ((isr >> 16) & 0xFFFF) as bv16,
                    offset3 := ((isr >> 32) & 0xFFFF_FFFF) as bv32);
      table[vector] := gate;
    }

    /**
     Sets up the handler table, fills this one from the two stub tables, loads its register and
     reports it: once. `stubs` is the memory from the second stub table on: the loop reads one
     word more than the 223 that table has. The report reads a long where it is given the size as
     an int, so it takes `sizeSlot`, the whole slot whose lower half that int is.
     */
    method Install(exceptions: seq<bv64>, stubs: seq<bv64>, handlers: array<Interrupts.Handler>, console: Console,
                   sizeSlot: uint64)
      requires sizeSlot % U32 == GATE_SIZE * ENTRY_COUNT - 1
      requires table.Length == ENTRY_COUNT && handlers.Length == Interrupts.HANDLER_COUNT
      requires |exceptions| == EXCEPTION_COUNT && |stubs| > STUB_COUNT
      modifies this`register, this`installed, table, handlers, console
      ensures installed && console.terminal == old(console.terminal)
      ensures old(installed) ==>
                && table[..] == old(table[..]) && register == old(register) && handlers[..] == old(handlers[..])
                && console.serial == old(console.serial) && console.useSerial == old(console.useSerial)
      ensures !old(installed) ==>
                && (forall v | 0 <= v < EXCEPTION_COUNT :: LeadsTo(table[v], exceptions[v]))
                && (forall v | EXCEPTION_COUNT <= v < ENTRY_COUNT :: LeadsTo(table[v], stubs[v - EXCEPTION_COUNT]))
      ensures !old(installed) ==>
                && register == TableRegister(16 * 256 - 1, address)
                && Interrupts.Installed(handlers[..]) && !console.useSerial
                && console.serial == old(console.serial) + CrLf("ISR successfully installed\n")
                                     + CrLf(Messages.TableInstalled(Messages.IdtHead(), address, sizeSlot))
    {
      if installed {
        return;
      }
      hide KernelGate, Target, CrLf, Interrupts.Installed, Messages.TableInstalled, Messages.IdtHead;
      Interrupts.Install(handlers, console);
      FillTable(exceptions, stubs);
      register := TableRegister(GATE_SIZE * ENTRY_COUNT - 1, address);
      installed := true;
      Messages.TableInstalledText(Messages.IdtHead(), address, sizeSlot);
      var args := [Word(address), Word(sizeSlot)];
      var _ := Logging.Dprintf(console, Messages.InstalledFormat(Messages.IdtHead()), args);
    }

    /** The two loops over the stub tables. */
    method FillTable(exceptions: seq<bv64>, stubs: seq<bv64>)
      requires table.Length == ENTRY_COUNT
      requires |exceptions| == EXCEPTION_COUNT && |stubs| > STUB_COUNT
      modifies table
      ensures forall v | 0 <= v < EXCEPTION_COUNT :: LeadsTo(table[v], exceptions[v])
      ensures forall v | EXCEPTION_COUNT <= v < ENTRY_COUNT :: LeadsTo(table[v], stubs[v - EXCEPTION_COUNT])
    {
      var vector := 0;
      while vector < EXCEPTION_COUNT
        invariant 0 <= vector <= EXCEPTION_COUNT
        invariant forall v | 0 <= v < vector :: table[..][v] == KernelGate(exceptions[v], INTERRUPT_GATE)
      {
        MakeEntry(vector, exceptions[vector], INTERRUPT_GATE);
        vector := vector + 1;
      }
      while vector < ENTRY_COUNT
        invariant EXCEPTION_COUNT <= vector <= ENTRY_COUNT
        invariant forall v | 0 <= v < EXCEPTION_COUNT :: table[..][v] == KernelGate(exceptions[v], INTERRUPT_GATE)
        invariant forall v | EXCEPTION_COUNT <= v < vector ::
                    table[..][v] == KernelGate(stubs[v - EXCEPTION_COUNT], INTERRUPT_GATE)
      {
        MakeEntry(vector, stubs[vector - EXCEPTION_COUNT], INTERRUPT_GATE);
        vector := vector + 1;
      }
      hide KernelGate, Target;
      assert forall v | 0 <= v < ENTRY_COUNT :: table[v] == table[..][v];
    }
  }

  /**
   When the stub table lists the stubs of vectors 32 on, every vector up to 254 reaches its own
   stub; vector 255 does so only if the word after the table happens to be its stub's address.
   */
  lemma OwnStubs(table: seq<Gate>, stubs: seq<bv64>, address: int -> bv64)
    requires |table| == ENTRY_COUNT && |stubs| > STUB_COUNT
    requires forall v | EXCEPTION_COUNT <= v < ENTRY_COUNT :: LeadsTo(table[v], stubs[v - EXCEPTION_COUNT])
    requires forall i | 0 <= i < STUB_COUNT :: stubs[i] == address(EXCEPTION_COUNT + i)
    ensures forall v | EXCEPTION_COUNT <= v < 255 :: Target(table[v]) == address(v)
    ensures Target(table[255]) == address(255) <==> stubs[STUB_COUNT] == address(255)
  {
    hide Target;
    forall v | EXCEPTION_COUNT <= v < 255 ensures Target(table[v]) == address(v) {
      assert LeadsTo(table[v], stubs[v - EXCEPTION_COUNT]);
      assert stubs[v - EXCEPTION_COUNT] == address(EXCEPTION_COUNT + (v - EXCEPTION_COUNT));
    }
    assert LeadsTo(table[255], stubs[STUB_COUNT]);
  }

  /** Splitting an address over a gate's fields loses nothing: distinct handlers have distinct gates. */
  lemma GatesDistinct(a: bv64, b: bv64, flags: bv8)
    ensures KernelGate(a, flags) == KernelGate(b, flags) <==> a == b
  {
    hide Target;
  }
}
