/** The global descriptor table: the segments that the kernel runs in. */
module Gdt {
  import opened Words
  import opened Rendering
  import opened Console
  import opened Descriptors
  import Logging
  import Messages

  const ENTRY_COUNT: nat := 7
  const SEGMENT_SIZE: nat := 8

  const SEG_PRESENT: bv8 := 0x80
  const SEG_TYPE: bv8 := 0x10
  const SEG_EXEC: bv8 := 0x08
  const SEG_READ: bv8 := 0x02
  const SEG_WRITE: bv8 := 0x02

  /** The table of the stivale2 specification: null, then code and data of 16, 32 and 64 bits. */
  predicate IsKernelTable(table: seq<Segment>) {
    && |table| == 7 && table[0] == Segment(0, 0, 0, 0, 0, 0)
    && (forall i | 0 <= i < 7 :: AtZero(table[i]))
    && IsCode(table[1]) && IsData(table[2]) && Is16(table[1]) && Is16(table[2])
    && IsCode(table[3]) && IsData(table[4]) && IsFlat32(table[3]) && IsFlat32(table[4])
    && IsCode(table[5]) && IsData(table[6]) && IsLong(table[5])
  }

  class Gdt {
    const table: array<Segment>
    const address: uint64
    var register: TableRegister
    var installed: bool

    constructor (address: uint64)
      ensures table.Length == ENTRY_COUNT && fresh(table) && !installed && this.address == address
    {
      table := new Segment[ENTRY_COUNT](_ => Segment(0, 0, 0, 0, 0, 0));
      this.address := address;
      register := TableRegister(0, 0);
      installed := false;
    }

    /** Fills one entry; an index outside the table is ignored. */
    method MakeEntry(index: nat, access: bv8, flags: bv8, limit: bv16)
      requires table.Length == ENTRY_COUNT
      modifies table
      ensures table[..] == if index < ENTRY_COUNT then old(table[..])[index := Segment(limit, 0, 0, access, flags, 0)]
                           else old(table[..])
    {
      if index >= table.Length {
        return;
      }
      var entry := table[index];
      entry := entry.(base1 := 0, base2 := 0, base3 := 0);
      entry := entry.(limit := limit, access := access, flags := flags);
      table[index] := entry;
    }

    /** Fills the table, loads its register and reports it: once. The report takes the size as a whole slot. */
    method Install(console: Console, sizeSlot: uint64)
      requires table.Length == ENTRY_COUNT && sizeSlot % U32 == SEGMENT_SIZE * ENTRY_COUNT - 1
      modifies this`register, this`installed, table, console
      ensures installed && console.terminal == old(console.terminal)
      ensures old(installed) ==>
                && table[..] == old(table[..]) && register == old(register)
                && console.serial == old(console.serial) && console.useSerial == old(console.useSerial)
      ensures !old(installed) ==>
                && IsKernelTable(table[..]) && register == TableRegister(8 * 7 - 1, address) && !console.useSerial
                && console.serial
                   == old(console.serial) + CrLf(Messages.TableInstalled(Messages.GdtHead(), address, sizeSlot))
    {
      if installed {
        return;
      }
      hide CrLf, Messages.TableInstalled, Messages.GdtHead, IsKernelTable;
      FillTable();
      register := TableRegister(SEGMENT_SIZE * ENTRY_COUNT - 1, address);
      Messages.TableInstalledText(Messages.GdtHead(), address, sizeSlot);
      var args := [Word(address), Word(sizeSlot)];
      var _ := Logging.Dprintf(console, Messages.InstalledFormat(Messages.GdtHead()), args);
      installed := true;
    }

    /** The entries of the table. */
    method FillTable()
      requires table.Length == ENTRY_COUNT
      modifies table
      ensures IsKernelTable(table[..])
    {
      var codeAccess := SEG_PRESENT | SEG_TYPE | SEG_EXEC | SEG_READ;
      var dataAccess := SEG_PRESENT | SEG_TYPE | SEG_WRITE;
      MakeEntry(0, 0, 0, 0);
      MakeEntry(1, codeAccess, 0x00, 0xFFFF);
      MakeEntry(2, dataAccess, 0x00, 0xFFFF);
      MakeEntry(3, codeAccess, 0xCF, 0xFFFF);
      MakeEntry(4, dataAccess, 0xCF, 0xFFFF);
      MakeEntry(5, codeAccess, 0x20, 0);
      MakeEntry(6, dataAccess, 0x00, 0);
    }
  }
}
