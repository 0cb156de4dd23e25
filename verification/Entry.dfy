/**
 The interrupt entry code as programs of a small stack machine, run between the processor's
 interrupt delivery and its return (Intel SDM volume 3A, sections 6.12 and 6.14).
 */
module Entry {
  import opened Descriptors

  datatype Reg = RAX | RBX | RCX | RDX | RBP | RDI | RSI | R8 | R9 | R10 | R11 | R12 | R13 | R14 | R15

  datatype Instr =
    | Push(r: Reg)
    | PushImm(n: int)
    | Pop(r: Reg)
    | Cld
    | MovRdiRsp
    | AddRsp(n: int)
    | Iretq

  /** The processor: registers, and memory by the address of each 8-byte word. */
  datatype State = State(
    regs: map<Reg, int>, rsp: int, mem: map<int, int>, rip: int, cs: int, rflags: int, ss: int)

  function Read(mem: map<int, int>, a: int): int {
    if a in mem then mem[a] else 0
  }

  function Get(s: State, r: Reg): int {
    if r in s.regs then s.regs[r] else 0
  }

  function PushWord(s: State, w: int): State {
    s.(rsp := s.rsp - 8, mem := s.mem[s.rsp - 8 := w])
  }

  function Top(s: State, k: int): int {
    Read(s.mem, s.rsp + 8 * k)
  }

  /** Clears bit `bit` (a power of two) of a word. */
  function ClearBit(w: int, bit: int): int
    requires bit > 0
  {
    if BitSet(w, bit) then w - bit else w
  }

  predicate BitSet(w: int, bit: int)
    requires bit > 0
  {
    (w / bit) % 2 == 1
  }

  const IF: int := 0x200
  const DF: int := 0x400

  function Step(s: State, i: Instr): State {
    match i
    case Push(r) => PushWord(s, Get(s, r))
    case PushImm(n) => PushWord(s, n)
    case Pop(r) => s.(regs := s.regs[r := Top(s, 0)], rsp := s.rsp + 8)
    case Cld => s.(rflags := ClearBit(s.rflags, DF))
    case MovRdiRsp => s.(regs := s.regs[RDI := s.rsp])
    case AddRsp(n) => s.(rsp := s.rsp + n)
    case Iretq => s.(rip := Top(s, 0), cs := Top(s, 1), rflags := Top(s, 2), rsp := Top(s, 3), ss := Top(s, 4))
  }

  function Exec(code: seq<Instr>, s: State): State {
    if code == [] then s else Exec(code[1..], Step(s, code[0]))
  }

  class Cpu {
    var state: State

    constructor (state: State)
      ensures this.state == state
    {
      this.state := state;
    }

    /** Runs a program. */
    method Run(code: seq<Instr>)
      modifies this
      ensures state == Exec(code, old(state))
    {
      var i := 0;
      while i < |code|
        invariant 0 <= i <= |code|
        invariant Exec(code[i..], state) == Exec(code, old(state))
      {
        assert code[i..][1..] == code[i + 1..];
        state := Step(state, code[i]);
        i := i + 1;
      }
    }

    /** Interrupt delivery through a gate: align, save, disable interrupts if it is of that type, jump. */
    method Deliver(g: Gate)
      requires Opens(g)
      modifies this
      ensures state == Delivered(old(state), g)
    {
      state := Delivered(state, g);
    }

    /** The interrupt flag, which `sti` sets. */
    method EnableInterrupts()
      modifies this
      ensures BitSet(state.rflags, IF)
      ensures state == old(state).(rflags := state.rflags)
      ensures ClearBit(state.rflags, IF) == ClearBit(old(state.rflags), IF)
    {
      IfFlag(state.rflags);
      hide ClearBit, BitSet;
      if !BitSet(state.rflags, IF) {
        state := state.(rflags := state.rflags + IF);
      }
    }

    /** An IRQ from its delivery to the call of the handler, which finds what it needs in a frame. */
    method EnterIrq(ghost vector: int, g: Gate, program: seq<Instr>)
      requires program == IrqPrologue(vector) && Opens(g) && Disables(g)
      modifies this
      ensures FrameHolds(state, old(state), vector)
    {
      Deliver(g);
      Run(program);
      IrqEntry(old(state), vector, g);
    }

    /** The handler: it may do anything but move the stack pointer or change the frame. */
    method CallHandler(effect: State -> State)
      requires FrameKept(state, effect(state))
      modifies this
      ensures FrameKept(old(state), state)
    {
      state := effect(state);
    }

    /** From the handler's return to the interrupted code, which finds its registers as they were. */
    method ReturnIrq(ghost interrupted: State, ghost called: State, ghost vector: int)
      requires FrameHolds(called, interrupted, vector) && FrameKept(called, state)
      modifies this
      ensures Resumed(state, interrupted) && state.mem == old(state.mem)
    {
      IrqReturn(interrupted, called, vector, state);
      Run(CommonEpilogue());
    }
  }

  lemma IfFlag(w: int)
    ensures !BitSet(w, IF) ==> BitSet(w + IF, IF) && ClearBit(w + IF, IF) == ClearBit(w, IF)
  {
    assert (w + IF) / IF == w / IF + 1;
  }

  /**
   What the handler of an IRQ is called with, when the interrupted state was `s`. Bit 9 of the
   flags is for interrupts, bit 10 for the direction.
   */
  ghost predicate FrameHolds(called: State, s: State, vector: int) {
    var frame := FrameAt(called.mem, Get(called, RDI));
    && called.rsp % 16 == 0 && Get(called, RDI) == called.rsp
    && (called.rflags / 0x200) % 2 == 0 && (called.rflags / 0x400) % 2 == 0
    && (forall r :: r in frame.gprs && frame.gprs[r] == Get(s, r))
    && frame.intNo == vector && frame.errCode == 0
    && frame.rip == s.rip && frame.cs == s.cs && frame.rflags == s.rflags && frame.rsp == s.rsp && frame.ss == s.ss
  }

  /** The interrupted program goes on as if nothing had happened. */
  ghost predicate Resumed(t: State, s: State) {
    && (forall r :: Get(t, r) == Get(s, r))
    && t.rsp == s.rsp && t.rip == s.rip && t.cs == s.cs && t.rflags == s.rflags && t.ss == s.ss
  }

  /** Delivery through a gate, on the current stack (section 6.14.2). */
  function Delivered(s: State, g: Gate): State
    requires Opens(g)
  {
    var a := s.(rsp := s.rsp - s.rsp % 16);
    var f := PushWord(PushWord(PushWord(PushWord(PushWord(a, s.ss), s.rsp), s.rflags), s.cs), s.rip);
    f.(rip := Target(g) as int, cs := g.selector as int,
       rflags := if Disables(g) then ClearBit(s.rflags, IF) else s.rflags)
  }

  // --- The programs ---

  function Pusha64(): (rs: seq<Reg>)
    ensures |rs| == 15
  {
    [RAX, RBX, RCX, RDX, RBP, RDI, RSI, R8, R9, R10, R11, R12, R13, R14, R15]
  }

  function Popa64(): (rs: seq<Reg>)
    ensures |rs| == 15
  {
    [R15, R14, R13, R12, R11, R10, R9, R8, RSI, RDI, RBP, RDX, RCX, RBX, RAX]
  }

  function Pushes(rs: seq<Reg>): seq<Instr> {
    if rs == [] then [] else [Push(rs[0])] + Pushes(rs[1..])
  }

  function Pops(rs: seq<Reg>): seq<Instr> {
    if rs == [] then [] else [Pop(rs[0])] + Pops(rs[1..])
  }

  /** From a stub's first instruction to the handler call: the stub of `vector`, then the common code. */
  function IrqPrologue(vector: int): seq<Instr> {
    [PushImm(vector), PushImm(0)] + CommonPrologue()
  }

  function CommonPrologue(): seq<Instr> {
    [Cld] + Pushes(Pusha64()) + [MovRdiRsp]
  }

  /** From the handler's return to the interrupted code. */
  function CommonEpilogue(): seq<Instr> {
    Pops(Popa64()) + [AddRsp(16), Iretq]
  }

  /** The stub of an exception: the processor already pushed an error code, or the stub pushes 0 for it. */
  function ExceptionPrologue(vector: int, hasCode: bool): seq<Instr> {
    (if hasCode then [PushImm(vector)] else [PushImm(0), PushImm(vector)]) + CommonPrologue()
  }

  // --- The frame the handler sees ---

  const FRAME_WORDS: nat := 22

  /** The register saved in each of the frame's first fifteen words. */
  function Gprs(): (rs: seq<Reg>)
    ensures |rs| == 15
  {
    [R15, R14, R13, R12, R11, R10, R9, R8, RSI, RDI, RBP, RDX, RCX, RBX, RAX]
  }

  datatype Frame = Frame(
    gprs: map<Reg, int>, errCode: int, intNo: int, rip: int, cs: int, rflags: int, rsp: int, ss: int)

  /** The interrupt frame at an address: its fields in memory order. */
  function FrameAt(mem: map<int, int>, a: int): Frame {
    Frame(map i | 0 <= i < 15 :: Gprs()[i] := Read(mem, a + 8 * i),
          Read(mem, a + 8 * 15), Read(mem, a + 8 * 16), Read(mem, a + 8 * 17), Read(mem, a + 8 * 18),
          Read(mem, a + 8 * 19), Read(mem, a + 8 * 20), Read(mem, a + 8 * 21))
  }

  /** The place of a register in the frame. */
  function IndexOf(r: Reg): (i: nat)
    ensures i < 15
  {
    match r
    case R15 => 0 case R14 => 1 case R13 => 2 case R12 => 3 case R11 => 4 case R10 => 5 case R9 => 6 case R8 => 7
    case RSI => 8 case RDI => 9 case RBP => 10 case RDX => 11 case RCX => 12 case RBX => 13 case RAX => 14
  }

  /** What a returning handler leaves alone: its stack pointer and the frame. */
  predicate FrameKept(before: State, after: State) {
    && after.rsp == before.rsp
    && forall k | 0 <= k < FRAME_WORDS :: Top(after, k) == Top(before, k)
  }

  // --- Proofs ---

  predicate Distinct(rs: seq<Reg>) {
    forall i, j | 0 <= i < j < |rs| :: rs[i] != rs[j]
  }

  lemma {:induction false} ExecAppend(p: seq<Instr>, q: seq<Instr>, s: State)
    ensures Exec(p + q, s) == Exec(q, Exec(p, s))
  {
    if p == [] {
      assert p + q == q;
    } else {
      assert (p + q)[1..] == p[1..] + q;
      ExecAppend(p[1..], q, Step(s, p[0]));
    }
  }

  /** A run of pushes stores the registers downwards and changes nothing else. */
  lemma {:induction false} ExecPushes(rs: seq<Reg>, s: State)
    ensures var t := Exec(Pushes(rs), s);
            && t == s.(rsp := s.rsp - 8 * |rs|, mem := t.mem)
            && (forall i | 0 <= i < |rs| :: Read(t.mem, s.rsp - 8 * (i + 1)) == Get(s, rs[i]))
            && (forall a | a >= s.rsp :: Read(t.mem, a) == Read(s.mem, a))
  {
    if rs != [] {
      var u := Step(s, Push(rs[0]));
      assert Pushes(rs)[1..] == Pushes(rs[1..]);
      ExecPushes(rs[1..], u);
      var t := Exec(Pushes(rs[1..]), u);
      forall i | 0 <= i < |rs| ensures Read(t.mem, s.rsp - 8 * (i + 1)) == Get(s, rs[i]) {
        if i > 0 {
          assert Read(t.mem, u.rsp - 8 * ((i - 1) + 1)) == Get(u, rs[1..][i - 1]);
        }
      }
    }
  }

  /** A run of pops of distinct registers loads them upwards and changes nothing else. */
  lemma {:induction false} ExecPops(rs: seq<Reg>, s: State)
    requires Distinct(rs)
    ensures var t := Exec(Pops(rs), s);
            && t == s.(rsp := s.rsp + 8 * |rs|, regs := t.regs)
            && (forall i | 0 <= i < |rs| :: Get(t, rs[i]) == Top(s, i))
            && (forall r | r !in rs :: Get(t, r) == Get(s, r))
  {
    if rs != [] {
      var u := Step(s, Pop(rs[0]));
      assert Pops(rs)[1..] == Pops(rs[1..]);
      ExecPops(rs[1..], u);
      var t := Exec(Pops(rs[1..]), u);
      forall i | 0 <= i < |rs| ensures Get(t, rs[i]) == Top(s, i) {
        if i > 0 {
          assert Get(t, rs[1..][i - 1]) == Top(u, i - 1);
        } else {
          assert rs[0] !in rs[1..];
        }
      }
    }
  }

  lemma ExecCons(i: Instr, rest: seq<Instr>, s: State)
    ensures Exec([i] + rest, s) == Exec(rest, Step(s, i))
    ensures Exec([i], s) == Step(s, i)
  {
    assert ([i] + rest)[1..] == rest;
    assert [i][1..] == [];
  }

  /** The three lists of registers: saved in one order, restored and laid out in the other. */
  lemma Orders(r: Reg)
    ensures Pusha64()[14 - IndexOf(r)] == r && Popa64()[IndexOf(r)] == r && Gprs()[IndexOf(r)] == r
  {
  }

  /** Each list holds every register at the place of its own. */
  lemma PlaceOf(i: nat)
    requires i < 15
    ensures IndexOf(Popa64()[i]) == i && IndexOf(Gprs()[i]) == i
  {
  }

  lemma PopsDistinct()
    ensures Distinct(Popa64())
  {
    hide Popa64, Gprs, IndexOf;
    forall i, j | 0 <= i < j < 15 ensures Popa64()[i] != Popa64()[j] {
      PlaceOf(i);
      PlaceOf(j);
    }
  }

  lemma FieldsDistinct()
    ensures Distinct(Gprs())
  {
    hide Popa64, Gprs, IndexOf;
    forall i, j | 0 <= i < j < 15 ensures Gprs()[i] != Gprs()[j] {
      PlaceOf(i);
      PlaceOf(j);
    }
  }

  /** The common prologue saves every register and passes the frame. */
  lemma CommonSaves(s: State)
    ensures var t := Exec(CommonPrologue(), s);
            && t.rsp == s.rsp - 8 * 15 && Get(t, RDI) == t.rsp && t.rflags == ClearBit(s.rflags, DF)
            && (forall r :: Top(t, IndexOf(r)) == Get(s, r))
            && (forall k | k >= 15 :: Top(t, k) == Top(s, k - 15))
  {
    hide Pusha64, Exec, Pushes;
    var s1 := Step(s, Cld);
    var code := Pushes(Pusha64());
    assert CommonPrologue() == [Cld] + (code + [MovRdiRsp]);
    ExecCons(Cld, code + [MovRdiRsp], s);
    ExecAppend(code, [MovRdiRsp], s1);
    ExecPushes(Pusha64(), s1);
    var u := Exec(code, s1);
    ExecCons(MovRdiRsp, [], u);
    var t := Step(u, MovRdiRsp);
    hide CommonPrologue;
    forall r ensures Top(t, IndexOf(r)) == Get(s, r) {
      Orders(r);
      var i := 14 - IndexOf(r);
      hide IndexOf;
      assert Read(u.mem, s1.rsp - 8 * (i + 1)) == Get(s1, Pusha64()[i]);
    }
    forall k | k >= 15 ensures Top(t, k) == Top(s, k - 15) {
      assert Read(u.mem, t.rsp + 8 * k) == Read(s1.mem, t.rsp + 8 * k);
    }
  }

  /** The epilogue undoes whatever prologue built the frame, if the handler kept it. */
  lemma CommonRestores(s: State)
    ensures var t := Exec(CommonEpilogue(), s);
            && (forall r :: Get(t, r) == Top(s, IndexOf(r)))
            && t.rip == Top(s, 17) && t.cs == Top(s, 18) && t.rflags == Top(s, 19)
            && t.rsp == Top(s, 20) && t.ss == Top(s, 21) && t.mem == s.mem
  {
    hide Popa64, Exec, Pops, Distinct, Top, Get, IndexOf;
    var code, tail := Pops(Popa64()), [AddRsp(16), Iretq];
    assert CommonEpilogue() == code + tail;
    hide CommonEpilogue;
    ExecAppend(code, tail, s);
    PopsDistinct();
    ExecPops(Popa64(), s);
    var u := Exec(code, s);
    Returns(s, u);
    forall r ensures Get(u, r) == Top(s, IndexOf(r)) {
      Orders(r);
      assert Get(u, Popa64()[IndexOf(r)]) == Top(s, IndexOf(r));
    }
  }

  lemma Returns(s: State, u: State)
    requires u == s.(rsp := s.rsp + 8 * 15, regs := u.regs)
    ensures var t := Exec([AddRsp(16), Iretq], u);
            && t.regs == u.regs && t.mem == s.mem && (forall r :: Get(t, r) == Get(u, r))
            && t.rip == Top(s, 17) && t.cs == Top(s, 18) && t.rflags == Top(s, 19)
            && t.rsp == Top(s, 20) && t.ss == Top(s, 21)
  {
    hide Exec;
    var v := Step(u, AddRsp(16));
    ExecCons(AddRsp(16), [Iretq], u);
    ExecCons(Iretq, [], v);
    assert [AddRsp(16), Iretq] == [AddRsp(16)] + [Iretq];
  }

  /** The words an interrupt gate saves, from the stack pointer up, on an aligned stack. */
  lemma DeliverySaves(s: State, g: Gate)
    requires Opens(g)
    ensures var t := Delivered(s, g);
            && Top(t, 0) == s.rip && Top(t, 1) == s.cs && Top(t, 2) == s.rflags
            && Top(t, 3) == s.rsp && Top(t, 4) == s.ss
            && t.regs == s.regs && t.rsp % 16 == 8 && t.rsp <= s.rsp - 40
            && t.rflags == (if Disables(g) then ClearBit(s.rflags, IF) else s.rflags)
            && (forall a | a >= s.rsp :: Read(t.mem, a) == Read(s.mem, a))
  {
  }

  lemma BothClear(w: int)
    ensures var v := ClearBit(ClearBit(w, IF), DF);
            (v / 0x200) % 2 == 0 && (v / 0x400) % 2 == 0
    ensures (ClearBit(w, DF) / 0x200) % 2 == (w / 0x200) % 2 && (ClearBit(w, DF) / 0x400) % 2 == 0
  {
    ClearIf(w);
    ClearDf(w);
    ClearDf(ClearBit(w, IF));
    hide ClearBit;
  }

  lemma ClearIf(w: int)
    ensures (ClearBit(w, IF) / 0x200) % 2 == 0
  {
    OneLess(w, 0x200);
    EvenBelow(w / 0x200);
  }

  lemma ClearDf(w: int)
    ensures (ClearBit(w, DF) / 0x200) % 2 == (w / 0x200) % 2 && (ClearBit(w, DF) / 0x400) % 2 == 0
  {
    OneLess(w, 0x200);
    OneLess(w - 0x200, 0x200);
    OneLess(w, 0x400);
    EvenBelow(w / 0x400);
    EvenBelow(w / 0x200);
    EvenBelow(w / 0x200 - 1);
  }

  lemma OneLess(w: int, bit: int)
    requires bit == 0x200 || bit == 0x400
    ensures (w - bit) / bit == w / bit - 1
  {
  }

  lemma EvenBelow(q: int)
    ensures q % 2 == 1 <==> (q - 1) % 2 == 0
  {
  }

  /** What the handler of an IRQ stub is called with, word by word. */
  lemma IrqSaves(s: State, vector: int, g: Gate)
    requires Opens(g)
    ensures var called := Exec(IrqPrologue(vector), Delivered(s, g));
            && called.rsp % 16 == 0 && Get(called, RDI) == called.rsp
            && called.rflags == ClearBit(if Disables(g) then ClearBit(s.rflags, IF) else s.rflags, DF)
            && (forall r :: Top(called, IndexOf(r)) == Get(s, r))
            && Top(called, 15) == 0 && Top(called, 16) == vector
            && Top(called, 17) == s.rip && Top(called, 18) == s.cs && Top(called, 19) == s.rflags
            && Top(called, 20) == s.rsp && Top(called, 21) == s.ss
  {
    hide Delivered, Exec, CommonPrologue, IndexOf, ClearBit, Opens, Disables, Top, Get, Read;
    var d := Delivered(s, g);
    DeliverySaves(s, g);
    var stub := [PushImm(vector), PushImm(0)];
    TwoPushes(d, vector, 0);
    var u := Exec(stub, d);
    ExecAppend(stub, CommonPrologue(), d);
    CommonSaves(u);
    var called := Exec(CommonPrologue(), u);
    assert called == Exec(IrqPrologue(vector), d);
    hide IrqPrologue;
    Carried(d, u, called);
    SameRegs(u, s);
  }

  lemma SameRegs(t: State, s: State)
    requires t.regs == s.regs
    ensures forall r :: Get(t, r) == Get(s, r)
  {
  }

  /**
   The handler of an IRQ is called with interrupts off, the direction flag clear and the stack
   aligned to 16, and gets the address of a frame that holds every interrupted register in its
   own field and the vector in `int_no`.
   */
  lemma IrqEntry(s: State, vector: int, g: Gate)
    requires Opens(g) && Disables(g)
    ensures FrameHolds(Exec(IrqPrologue(vector), Delivered(s, g)), s, vector)
  {
    hide Exec, Delivered, IrqPrologue, IndexOf, Top, ClearBit, Opens, Disables;
    var called := Exec(IrqPrologue(vector), Delivered(s, g));
    IrqSaves(s, vector, g);
    BothClear(s.rflags);
    FrameRegs(called);
    FrameWords(called);
  }

  /** It is the type of the gate that turns interrupts off: otherwise they stay as they were. */
  lemma GateDisables(s: State, vector: int, g: Gate)
    requires Opens(g)
    ensures var called := Exec(IrqPrologue(vector), Delivered(s, g));
            (called.rflags / 0x200) % 2 == 0 <==> g.flags & 0x0F == 0x0E || (s.rflags / 0x200) % 2 == 0
  {
    hide Exec, Delivered, IrqPrologue, IndexOf, Top, ClearBit, Opens;
    IrqSaves(s, vector, g);
    BothClear(s.rflags);
  }

  /** When the handler returns with that frame intact, the interrupted state is back. */
  lemma IrqReturn(s: State, called: State, vector: int, after: State)
    requires FrameHolds(called, s, vector) && FrameKept(called, after)
    ensures var back := Exec(CommonEpilogue(), after);
            Resumed(back, s) && back.mem == after.mem
  {
    hide Exec, CommonEpilogue, IndexOf, Top, BitSet;
    FrameRegs(called);
    FrameWords(called);
    CommonRestores(after);
    forall r ensures Top(after, IndexOf(r)) == Get(s, r) {
      IndexBound(r);
    }
  }

  /** The whole way through an IRQ stub. */
  lemma IrqRoundTrip(s: State, vector: int, g: Gate, after: State)
    requires Opens(g) && Disables(g)
    ensures var called := Exec(IrqPrologue(vector), Delivered(s, g));
            && FrameHolds(called, s, vector)
            && (FrameKept(called, after) ==> Resumed(Exec(CommonEpilogue(), after), s))
  {
    hide Exec, Delivered, IrqPrologue, CommonEpilogue, FrameHolds, FrameKept, Resumed;
    var called := Exec(IrqPrologue(vector), Delivered(s, g));
    IrqEntry(s, vector, g);
    if FrameKept(called, after) {
      IrqReturn(s, called, vector, after);
    }
  }

  lemma IndexBound(r: Reg)
    ensures IndexOf(r) < FRAME_WORDS
  {
  }

  lemma FrameWords(s: State)
    ensures var frame := FrameAt(s.mem, s.rsp);
            && frame.errCode == Top(s, 15) && frame.intNo == Top(s, 16)
            && frame.rip == Top(s, 17) && frame.cs == Top(s, 18)
            && frame.rflags == Top(s, 19) && frame.rsp == Top(s, 20) && frame.ss == Top(s, 21)
  {
  }

  /** A frame's register fields are the words that the pushes filled. */
  lemma FrameRegs(s: State)
    ensures var gprs := FrameAt(s.mem, s.rsp).gprs;
            forall r :: r in gprs && gprs[r] == Top(s, IndexOf(r))
  {
    FieldsDistinct();
    hide Gprs;
    forall r ensures r in FrameAt(s.mem, s.rsp).gprs && FrameAt(s.mem, s.rsp).gprs[r] == Top(s, IndexOf(r)) {
      Orders(r);
      hide IndexOf;
      assert Gprs()[IndexOf(r)] == r;
    }
  }

  lemma TwoPushes(d: State, m: int, n: int)
    ensures var u := Exec([PushImm(m), PushImm(n)], d);
            && u.rsp == d.rsp - 16 && u.regs == d.regs && u.rflags == d.rflags
            && Top(u, 0) == n && Top(u, 1) == m
            && (forall k | k >= 2 :: Top(u, k) == Top(d, k - 2))
  {
    hide Exec;
    assert [PushImm(m), PushImm(n)] == [PushImm(m)] + [PushImm(n)];
    ExecCons(PushImm(m), [PushImm(n)], d);
    ExecCons(PushImm(n), [], Step(d, PushImm(m)));
  }

  /** The words above the saved registers are those the delivery saved. */
  lemma Carried(d: State, u: State, called: State)
    requires forall k | k >= 15 :: Top(called, k) == Top(u, k - 15)
    requires forall k | k >= 2 :: Top(u, k) == Top(d, k - 2)
    ensures Top(called, 15) == Top(u, 0) && Top(called, 16) == Top(u, 1)
    ensures Top(called, 17) == Top(d, 0) && Top(called, 18) == Top(d, 1) && Top(called, 19) == Top(d, 2)
    ensures Top(called, 20) == Top(d, 3) && Top(called, 21) == Top(d, 4)
  {
    hide Top;
    forall k | 0 <= k ensures Top(called, k + 17) == Top(d, k) {
      assert Top(u, k + 2) == Top(d, k + 2 - 2);
      assert Top(called, k + 17) == Top(u, k + 17 - 15);
    }
    assert Top(called, 0 + 17) == Top(d, 0) && Top(called, 1 + 17) == Top(d, 1) && Top(called, 2 + 17) == Top(d, 2);
    assert Top(called, 3 + 17) == Top(d, 3) && Top(called, 4 + 17) == Top(d, 4);
    assert Top(called, 0 + 15) == Top(u, 0) && Top(called, 1 + 15) == Top(u, 1);
  }

  /**
   The exception stubs push the two words the other way round: their handler finds the vector
   in `err_code` and the error code in `int_no`, so `int_no` is the vector only when the error
   code happens to equal it.
   */
  lemma ExceptionFrame(s: State, vector: int, hasCode: bool, code: int, g: Gate)
    requires Opens(g)
    ensures var delivered := Delivered(s, g);
            var entered := if hasCode then PushWord(delivered, code) else delivered;
            var called := Exec(ExceptionPrologue(vector, hasCode), entered);
            var frame := FrameAt(called.mem, Get(called, RDI));
            var errorCode := if hasCode then code else 0;
            && frame.errCode == vector
            && frame.intNo == errorCode
            && (frame.intNo == vector <==> errorCode == vector)
  {
    hide Exec, Delivered, CommonPrologue, Top, Get, IndexOf;
    var d := Delivered(s, g);
    var errorCode := if hasCode then code else 0;
    var entered := if hasCode then PushWord(d, code) else d;
    var stub := if hasCode then [PushImm(vector)] else [PushImm(0), PushImm(vector)];
    TwoPushes(d, errorCode, vector);
    assert [PushImm(errorCode), PushImm(vector)] == [PushImm(errorCode)] + [PushImm(vector)];
    ExecCons(PushImm(errorCode), [PushImm(vector)], d);
    var u := Exec([PushImm(errorCode), PushImm(vector)], d);
    assert Exec(stub, entered) == u;
    ExecAppend(stub, CommonPrologue(), entered);
    CommonSaves(u);
    var called := Exec(CommonPrologue(), u);
    assert Top(called, 15) == Top(u, 15 - 15) && Top(called, 16) == Top(u, 16 - 15);
    FrameWords(called);
  }
}
