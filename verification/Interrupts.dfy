/** Interrupt dispatch, and what whole runs of the machine do. */
module Interrupts {
  import opened Pic8259
  import opened Text
  import opened Console
  import opened Keyboard
  import opened Rendering
  import Pic
  import Logging
  import Messages

  datatype Handler = Unhandled | KeyboardHandler

  const HANDLER_COUNT: nat := 255
  const KEYBOARD_VECTOR: nat := 33

  predicate Installed(handlers: seq<Handler>) {
    |handlers| == 255
    && forall v | 0 <= v < 255 :: handlers[v] == if v == 33 then KeyboardHandler else Unhandled
  }

  /** Clears the handler table and enters the keyboard's handler. */
  method Install(handlers: array<Handler>, console: Console)
    requires handlers.Length == HANDLER_COUNT
    modifies handlers, console
    ensures Installed(handlers[..])
    ensures console.serial == old(console.serial) + CrLf("ISR successfully installed\n")
    ensures console.terminal == old(console.terminal) && !console.useSerial
  {
    var v := 0;
    while v < handlers.Length
      invariant 0 <= v <= handlers.Length
      invariant forall i | 0 <= i < v :: handlers[i] == Unhandled
      invariant console.serial == old(console.serial) && console.terminal == old(console.terminal)
    {
      handlers[v] := Unhandled;
      v := v + 1;
    }
    handlers[KEYBOARD_VECTOR] := KeyboardHandler;
    hide CrLf;
    var _ := console.Dputs(Chars("ISR successfully installed"));
    assert "ISR successfully installed" + "\n" == "ISR successfully installed\n";
  }

  // --- The machine as the interrupt path sees it ---

  datatype World = World(chips: Chips, keyUp: bv8, terminal: string, serial: string)

  ghost function WorldOf(ports: Ports, console: Console, keyboard: Controller): World
    reads ports, console, keyboard
  {
    World(ports.chips, keyboard.keyUp, console.terminal, console.serial)
  }

  /**
   What the handler of vector `vector` does; `code` is what the keyboard would read. Only a
   backspace follows the console's routing.
   */
  function HandledWhile(useSerial: bool, w: World, vector: nat, code: Scancode): World {
    if vector == KEYBOARD_VECTOR then
      var typed, v := Typed(code, w.keyUp != 0), w.(keyUp := NextState(w.keyUp, code));
      if useSerial && code == BACKSPACE then v.(serial := v.serial + CrLf(typed))
      else v.(terminal := v.terminal + typed)
    else w.(serial := w.serial + CrLf(Messages.NoHandler(vector)))
  }

  /** The same while the console is routed to the terminal. */
  function Handled(w: World, vector: nat, code: Scancode): World {
    HandledWhile(false, w, vector, code)
  }

  /** One interrupt, from the acknowledge cycle to the end of interrupt. */
  function Serviced(w: World, r: Request, code: Scancode): World
    requires Deliverable(w.chips, r)
  {
    var vector := VectorOf(w.chips, r);
    Handled(w, vector as nat, code).(chips := Pic.Ended(Acknowledged(w.chips, r), vector))
  }

  /** The dispatcher: the vector's handler, or a message, which routes to the terminal; then the end of interrupt. */
  method IrqInterruptHandler(handlers: array<Handler>, ports: Ports, console: Console, keyboard: Controller,
                             intNo: nat, code: Scancode)
    requires Installed(handlers[..]) && 32 <= intNo < HANDLER_COUNT
    modifies ports, console, keyboard
    ensures console.useSerial == (old(console.useSerial) && intNo == KEYBOARD_VECTOR)
    ensures WorldOf(ports, console, keyboard)
            == HandledWhile(old(console.useSerial), old(WorldOf(ports, console, keyboard)), intNo, code)
               .(chips := Pic.Ended(old(ports.chips), intNo as bv8))
  {
    hide CrLf, Messages.NoHandler, Pic.Ended;
    if handlers[..][intNo] == KeyboardHandler {
      keyboard.IrqHandler(console, code);
    } else {
      Messages.NoHandlerText(intNo);
      var _ := Logging.Dprintf(console, Messages.NoHandlerFormat(), [Word(intNo)]);
    }
    Pic.SendEoi(ports, intNo as bv8);
  }

  /** A vector as the byte on the bus and as the number in the frame. */
  lemma VectorBytes(v: bv8)
    ensures 0 <= v as int < 256
    ensures 32 <= v < 255 <==> 32 <= v as int < 255
    ensures v >= 8 <==> v as int >= 8
  {
  }

  lemma VectorByte(v: bv8)
    ensures (v as int) as bv8 == v
  {
  }

  // --- Single interrupts ---

  /** Both chips ready and nothing in service. */
  predicate Idle(k: Chips) {
    Pic.IsReady(k) && k.master.isr == 0 && k.slave.isr == 0
  }

  /**
   From an idle state, one serviced interrupt leaves both chips idle unless it was a slave line
   whose vector is below 8: only then does the kernel not end the interrupt on the slave.
   */
  lemma ServiceEnds(k: Chips, r: Request)
    requires Idle(k) && Deliverable(k, r)
    ensures Idle(Pic.Ended(Acknowledged(k, r), VectorOf(k, r)))
            <==> !(r.SlaveLine? && VectorOf(k, r) < 8 && k.slave.mode & 2 == 0)
    ensures Pic.SameButMasks(Pic.Ended(Acknowledged(k, r), VectorOf(k, r)), k)
            || (r.SlaveLine? && VectorOf(k, r) < 8 && k.slave.mode & 2 == 0)
    ensures forall line: bv8 | line < 16 ::
              Pic.Masked(Pic.Ended(Acknowledged(k, r), VectorOf(k, r)), line) == Pic.Masked(k, line)
  {
    if r.MasterLine? {
      OneLine(r.line);
    } else if r.SlaveLine? {
      OneLine(r.line);
      OneLine(CASCADE);
    } else {
      OneLine(CASCADE);
    }
  }

  lemma OneLine(line: bv8)
    requires line < 8
    ensures EndHighest(0 | Bit(line)) == 0 && 0 | Bit(line) != 0
  {
  }

  /** A master interrupt's end leaves the slave alone exactly if its vector is below 8 or the slave serves nothing. */
  lemma MasterEnds(k: Chips, line: bv8)
    requires Deliverable(k, MasterLine(line))
    ensures var r := MasterLine(line);
            Pic.Ended(Acknowledged(k, r), VectorOf(k, r)).slave == k.slave
            <==> VectorOf(k, r) < 8 || k.slave.isr == 0
  {
    Pic.SlaveUntouched(k, VectorOf(k, MasterLine(line)));
  }

  /**
   With the kernel's offsets the keyboard's interrupt can arrive while line 0 of the slave is in
   service, and its end of interrupt then ends that one too.
   */
  lemma KeyboardEndsSlave()
    ensures var master := Chip(Ready, 0, Bit(CASCADE), 32, 0x11, 4, 1);
            var k := Chips(master, Chip(Ready, 0, Bit(0), 40, 0x11, 2, 1));
            var r := MasterLine(1);
            && Deliverable(k, r) && VectorOf(k, r) as nat == KEYBOARD_VECTOR
            && k.slave.isr == Bit(0)
            && Pic.Ended(Acknowledged(k, r), VectorOf(k, r)).slave.isr == 0
  {
  }

  /** With the kernel's offsets every vector lies in 32 to 47, indexes the handlers, and is ended on both chips. */
  lemma KernelVectors(k: Chips, r: Request)
    requires k.master.base == 32 && k.slave.base == 40 && Deliverable(k, r)
    ensures 32 <= VectorOf(k, r) as nat <= 47 < HANDLER_COUNT
    ensures VectorOf(k, r) >= 8
    ensures VectorOf(k, r) as nat == KEYBOARD_VECTOR <==> r == MasterLine(1)
  {
    VectorBytes(VectorOf(k, r));
  }

  // --- Runs ---

  datatype Event =
    | Irq(r: Request, code: Scancode)
    | Mask(irq: bv8)
    | Unmask(irq: bv8)
    | Remap(mpicOffset: bv8, spicOffset: bv8)

  predicate Enabled(w: World, e: Event) {
    match e
    case Irq(r, _) => Deliverable(w.chips, r) && 32 <= VectorOf(w.chips, r) < 255
    case Mask(irq) => irq < 40
    case Unmask(irq) => irq < 40
    case Remap(_, _) => true
  }

  function After(w: World, e: Event): World
    requires Enabled(w, e)
  {
    match e
    case Irq(r, code) => Serviced(w, r, code)
    case Mask(irq) => w.(chips := Pic.WithMask(w.chips, irq, true))
    case Unmask(irq) => w.(chips := Pic.WithMask(w.chips, irq, false))
    case Remap(m, s) =>
      w.(chips := Pic.RemappedPair(w.chips, m, s), serial := w.serial + CrLf(Messages.PicRemapped(m as nat, s as nat)))
  }

  predicate Runs(w: World, es: seq<Event>)
    decreases |es|
  {
    es == [] || (Enabled(w, es[0]) && Runs(After(w, es[0]), es[1..]))
  }

  function Run(w: World, es: seq<Event>): World
    requires Runs(w, es)
    decreases |es|
  {
    if es == [] then w else Run(After(w, es[0]), es[1..])
  }

  /** The set of masked lines after a sequence of events. */
  function MaskedSet(s: set<bv8>, es: seq<Event>): set<bv8>
    decreases |es|
  {
    if es == [] then s
    else MaskedSet(MaskEffect(s, es[0]), es[1..])
  }

  /** The vector bases after a sequence of events: those of the last remap. */
  function Bases(b: (bv8, bv8), es: seq<Event>): (bv8, bv8)
    decreases |es|
  {
    if es == [] then b
    else Bases(if es[0].Remap? then (es[0].mpicOffset & 0xF8, es[0].spicOffset & 0xF8) else b, es[1..])
  }

  /** An interrupt with the keyboard's vector. */
  predicate ForKeyboard(w: World, e: Event)
    requires Enabled(w, e)
  {
    e.Irq? && VectorOf(w.chips, e.r) as int == KEYBOARD_VECTOR
  }

  /** The scancodes that the keyboard's handler read. */
  function Codes(w: World, es: seq<Event>): seq<Scancode>
    requires Runs(w, es)
    decreases |es|
  {
    if es == [] then []
    else
      (if ForKeyboard(w, es[0]) then [es[0].code] else [])
      + Codes(After(w, es[0]), es[1..])
  }

  ghost predicate MasksAre(k: Chips, s: set<bv8>) {
    forall line: bv8 | line < 16 :: Pic.Masked(k, line) <==> line in s
  }

  /** What one event does to the controllers. */
  predicate Stepped(k: Chips, j: Chips, e: Event) {
    && Pic.IsReady(j)
    && (j.master.base, j.slave.base)
       == (if e.Remap? then (e.mpicOffset & 0xF8, e.spicOffset & 0xF8) else (k.master.base, k.slave.base))
    && (Idle(k) ==> Idle(j))
  }

  function MaskEffect(s: set<bv8>, e: Event): set<bv8> {
    match e
    case Mask(irq) => s + {irq}
    case Unmask(irq) => s - {irq}
    case _ => s
  }

  lemma StepInvariant(w: World, e: Event, s: set<bv8>)
    requires Idle(w.chips) && Enabled(w, e) && MasksAre(w.chips, s)
    ensures Stepped(w.chips, After(w, e).chips, e)
    ensures MasksAre(After(w, e).chips, MaskEffect(s, e))
  {
    hide CrLf, Messages.NoHandler, Messages.PicRemapped, Serviced, Deliverable, VectorOf, Pic.WithMask, Pic.Masked,
         Pic.RemappedPair, MasksAre;
    match e
    case Irq(r, code) => IrqStep(w, r, code, s);
    case Mask(irq) => FlipMask(w.chips, irq, true, s);
    case Unmask(irq) => FlipMask(w.chips, irq, false, s);
    case Remap(m, n) => KeepMasks(w.chips, m, n, s);
  }

  lemma IrqStep(w: World, r: Request, code: Scancode, s: set<bv8>)
    requires Idle(w.chips) && Enabled(w, Irq(r, code)) && MasksAre(w.chips, s)
    ensures var k := Serviced(w, r, code).chips;
            Idle(k) && MasksAre(k, s) && k.master.base == w.chips.master.base && k.slave.base == w.chips.slave.base
  {
    ServiceEnds(w.chips, r);
    hide VectorOf, Pic.Ended, Acknowledged, Deliverable, Pic.Masked, Handled;
  }

  lemma FlipMask(k: Chips, irq: bv8, on: bool, s: set<bv8>)
    requires Idle(k) && MasksAre(k, s)
    ensures Idle(Pic.WithMask(k, irq, on))
    ensures MasksAre(Pic.WithMask(k, irq, on), if on then s + {irq} else s - {irq})
    ensures Pic.SameButMasks(Pic.WithMask(k, irq, on), k)
  {
    forall line: bv8 | line < 16
      ensures Pic.Masked(Pic.WithMask(k, irq, on), line) <==> if line == irq then on else line in s
    {
      assert Pic.Masked(k, line) <==> line in s;
      Pic.MaskLine(k, irq, on, line);
    }
    hide Pic.Masked;
  }

  lemma KeepMasks(k: Chips, m: bv8, n: bv8, s: set<bv8>)
    requires MasksAre(k, s)
    ensures var j := Pic.RemappedPair(k, m, n);
            && MasksAre(j, s) && Pic.IsReady(j) && (j.master.base, j.slave.base) == (m & 0xF8, n & 0xF8)
            && (Idle(k) ==> Idle(j))
  {
    forall line: bv8 | line < 16 ensures Pic.Masked(Pic.RemappedPair(k, m, n), line) <==> line in s {
      assert Pic.Masked(k, line) <==> line in s;
    }
  }

  /**
   Over every run of interrupts, mask changes and remaps that starts idle: nothing is ever left
   in service, the mask registers are the set of lines masked and not unmasked since, and the
   vector bases are those of the last remap.
   */
  lemma {:induction false} RunInvariant(w: World, es: seq<Event>, s: set<bv8>)
    requires Idle(w.chips) && MasksAre(w.chips, s) && Runs(w, es)
    ensures var k := Run(w, es).chips;
            && Idle(k)
            && MasksAre(k, MaskedSet(s, es))
            && (k.master.base, k.slave.base) == Bases((w.chips.master.base, w.chips.slave.base), es)
    decreases |es|
  {
    if es != [] {
      StepInvariant(w, es[0], s);
      hide After, MasksAre, Enabled, MaskEffect;
      RunInvariant(After(w, es[0]), es[1..], MaskEffect(s, es[0]));
    }
  }

  /** Over every run the keyboard's state and the terminal are those of the scancodes it was given. */
  lemma {:induction false} RunKeyboard(w: World, es: seq<Event>, history: seq<Scancode>, before: string)
    requires Runs(w, es)
    requires w.keyUp == KeyState(history) && w.terminal == before + Screen(history)
    ensures var all := history + Codes(w, es);
            Run(w, es).keyUp == KeyState(all) <= 3 && Run(w, es).terminal == before + Screen(all)
    decreases |es|
  {
    hide KeyState, Screen, Typed, NextState, After, Enabled, ForKeyboard;
    if es == [] {
      assert history + [] == history;
      KeyboardHistory(history, 0);
    } else {
      var w', rest := After(w, es[0]), es[1..];
      KeyboardStep(w, es[0]);
      if ForKeyboard(w, es[0]) {
        KeyIsIrq(w, es[0]);
        var code := es[0].code;
        KeyboardHistory(history, code);
        Regroup(before, Screen(history), Typed(code, w.keyUp != 0));
        RunKeyboard(w', rest, history + [code], before);
        assert history + ([code] + Codes(w', rest)) == history + [code] + Codes(w', rest);
      } else {
        RunKeyboard(w', rest, history, before);
        assert [] + Codes(w', rest) == Codes(w', rest);
      }
    }
  }

  lemma KeyIsIrq(w: World, e: Event)
    requires Enabled(w, e) && ForKeyboard(w, e)
    ensures e.Irq?
  {
    hide VectorOf, Deliverable;
  }

  /** Only an interrupt with the keyboard's vector concerns the keyboard and the terminal. */
  lemma KeyboardStep(w: World, e: Event)
    requires Enabled(w, e)
    ensures var v := After(w, e);
            if ForKeyboard(w, e)
            then v.keyUp == NextState(w.keyUp, e.code) && v.terminal == w.terminal + Typed(e.code, w.keyUp != 0)
            else v.keyUp == w.keyUp && v.terminal == w.terminal
  {
    hide CrLf, Messages.NoHandler, Messages.PicRemapped, NextState, Typed, Deliverable, VectorOf, Acknowledged,
         Pic.Ended, Pic.WithMask, Pic.RemappedPair;
  }

  // --- The booted kernel ---

  /** The controllers as the kernel leaves them: its offsets, and only the keyboard's line unmasked. */
  ghost predicate Booted(k: Chips) {
    Idle(k) && k.master.base == 32 && k.slave.base == 40
    && forall line: bv8 | line < 16 :: Pic.Masked(k, line) <==> line != 1
  }

  predicate OnlyIrqs(es: seq<Event>) {
    forall e <- es :: e.Irq?
  }

  /** The scancodes of the events that are not spurious. */
  function KeyCodes(es: seq<Event>): seq<Scancode> {
    if es == [] then []
    else (if es[0].Irq? && es[0].r == MasterLine(1) then [es[0].code] else []) + KeyCodes(es[1..])
  }

  /** What a spurious interrupt of the master sends to the serial line. */
  function Report(e: Event): string {
    if e.Irq? && e.r == MasterSpurious then CrLf(Messages.NoHandler(39)) else ""
  }

  function SpuriousReports(es: seq<Event>): string {
    if es == [] then ""
    else Report(es[0]) + SpuriousReports(es[1..])
  }

  /** After boot only the keyboard can interrupt, apart from spurious interrupts of the master. */
  lemma BootRequests(k: Chips, r: Request)
    requires Booted(k) && Deliverable(k, r)
    ensures r == MasterLine(1) || r == MasterSpurious
    ensures VectorOf(k, r) == if r == MasterLine(1) then 33 else 39
    ensures Pic.Ended(Acknowledged(k, r), VectorOf(k, r)) == k
  {
    assert Pic.Masked(k, 2);
    if r.MasterLine? {
      assert Pic.Masked(k, r.line) <==> r.line != 1;
    }
    ServiceEnds(k, r);
  }

  /** The requests that boot leaves deliverable. */
  predicate AfterBoot(es: seq<Event>) {
    forall e <- es :: e.Irq? && (e.r == MasterLine(1) || e.r == MasterSpurious)
  }

  /** They can arrive in any order and number, and nothing else can. */
  lemma {:induction false} EventsAfterBoot(w: World, es: seq<Event>)
    requires Booted(w.chips)
    ensures OnlyIrqs(es) && Runs(w, es) <==> AfterBoot(es)
    decreases |es|
  {
    hide Booted, After, Enabled;
    if es != [] {
      assert es == [es[0]] + es[1..];
      if es[0].Irq? {
        EnabledAfterBoot(w, es[0]);
        if Enabled(w, es[0]) {
          BootStep(w, es[0]);
          EventsAfterBoot(After(w, es[0]), es[1..]);
        }
      }
    }
  }

  lemma EnabledAfterBoot(w: World, e: Event)
    requires Booted(w.chips) && e.Irq?
    ensures Enabled(w, e) <==> e.r == MasterLine(1) || e.r == MasterSpurious
  {
    assert !Pic.Masked(w.chips, 1);
    if Deliverable(w.chips, e.r) {
      BootRequests(w.chips, e.r);
    }
  }

  /**
   Every sequence of interrupts after boot leaves the controllers as boot left them, writes on
   the terminal what its scancodes type, and reports each spurious interrupt on the serial line.
   */
  lemma {:induction false} BootRun(w: World, es: seq<Event>, history: seq<Scancode>, before: string)
    requires Booted(w.chips) && OnlyIrqs(es) && Runs(w, es)
    requires w.keyUp == KeyState(history) && w.terminal == before + Screen(history)
    ensures var v := Run(w, es);
            && v.chips == w.chips
            && v.keyUp == KeyState(history + KeyCodes(es))
            && v.terminal == before + Screen(history + KeyCodes(es))
            && v.serial == w.serial + SpuriousReports(es)
  {
    RunKeyboard(w, es, history, before);
    BootTrace(w, es);
  }

  lemma {:induction false} BootTrace(w: World, es: seq<Event>)
    requires Booted(w.chips) && OnlyIrqs(es) && Runs(w, es)
    ensures Run(w, es).chips == w.chips && Codes(w, es) == KeyCodes(es)
    ensures Run(w, es).serial == w.serial + SpuriousReports(es)
    decreases |es|
  {
    if es == [] {
      assert w.serial + "" == w.serial;
    } else {
      hide Booted, After, Enabled, ForKeyboard, Report;
      var r, rest := es[0].r, es[1..];
      assert forall e <- rest :: e in es;
      BootStep(w, es[0]);
      BootTrace(After(w, es[0]), rest);
      Regroup(w.serial, Report(es[0]), SpuriousReports(rest));
    }
  }

  lemma BootStep(w: World, e: Event)
    requires Booted(w.chips) && Enabled(w, e) && e.Irq?
    ensures var v := After(w, e);
            && v.chips == w.chips
            && (ForKeyboard(w, e) <==> e.r == MasterLine(1))
            && v.serial == w.serial + Report(e)
  {
    BootRequests(w.chips, e.r);
    hide CrLf, Messages.NoHandler, Typed, NextState, Booted, VectorOf, Acknowledged, Deliverable, Pic.Ended;
    assert w.serial + "" == w.serial;
  }
}
