/**
 The descriptors of an x86-64 processor: gates and segments, and what their bits mean
 (Intel SDM volume 3A, sections 3.4.5, 3.5.2 and 6.14.1).
 */
module Descriptors {
  import opened Words

  /** The processor's table register: the offset of the last byte of a table, and its address. */
  datatype TableRegister = TableRegister(size: nat, baseAddr: uint64)

  // --- Gates ---

  datatype Gate = Gate(offset1: bv16, selector: bv16, ist: bv8, flags: bv8, offset2: bv16, offset3: bv32, zero: bv32)

  /** Where the processor jumps through a gate. */
  function Target(g: Gate): bv64 {
    (g.offset1 as bv64) | ((g.offset2 as bv64) << 16) | ((g.offset3 as bv64) << 32)
  }

  /** A gate that interrupts go through on the current stack: present, of a 64-bit type, without a stack of its own. */
  predicate Opens(g: Gate) {
    && g.flags & 0x80 != 0
    && (g.flags & 0x1F == 0x0E || g.flags & 0x1F == 0x0F)
    && g.ist & 7 == 0
  }

  /** An interrupt gate clears the interrupt flag, a trap gate leaves it. */
  predicate Disables(g: Gate) {
    g.flags & 0x0F == 0x0E
  }

  // --- Segments ---

  datatype Segment = Segment(limit: bv16, base1: bv16, base2: bv8, access: bv8, flags: bv8, base3: bv8)

  /** A present segment of ring 0 that can be executed. */
  predicate IsCode(s: Segment) {
    s.access & 0x80 != 0 && s.access & 0x60 == 0 && s.access & 0x10 != 0 && s.access & 0x08 != 0
  }

  /** A present segment of ring 0 that can be written. */
  predicate IsData(s: Segment) {
    s.access & 0x80 != 0 && s.access & 0x60 == 0 && s.access & 0x10 != 0 && s.access & 0x08 == 0 && s.access & 0x02 != 0
  }

  /** 64-bit code. */
  predicate IsLong(s: Segment) {
    s.flags & 0x20 != 0 && s.flags & 0x40 == 0
  }

  /** A segment of 32 bits that covers the first 4 GiB. */
  predicate IsFlat32(s: Segment) {
    s.flags & 0x40 != 0 && s.flags & 0x80 != 0 && s.flags & 0x20 == 0 && s.flags & 0x0F == 0x0F && s.limit == 0xFFFF
  }

  /** A segment of 16 bits that covers the first 64 KiB. */
  predicate Is16(s: Segment) {
    s.flags & 0x60 == 0 && s.flags & 0x80 == 0 && s.flags & 0x0F == 0 && s.limit == 0xFFFF
  }

  predicate AtZero(s: Segment) {
    s.base1 == 0 && s.base2 == 0 && s.base3 == 0
  }

  /** A selector of ring 0 for a segment of the table with 64-bit code, which a gate must have. */
  predicate SelectsCode(table: seq<Segment>, selector: bv16) {
    var n := selector as int;
    n % 8 == 0 && n / 8 < |table| && IsCode(table[n / 8]) && IsLong(table[n / 8])
  }
}
