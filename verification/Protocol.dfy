// The interrupt controller and the CPU as one protocol (sim/PIC.h, sim/cppmodel/SoftwareCPU.h,
// handle_irq of sim/cppmodel/Emulate.cpp): lines are raised, masked and ended by EOI while the
// CPU steps, and the two share the CPU's one slot for a pending request.
module Protocol {
  import opened Words
  import opened Flags
  import opened Machine
  import opened Stepping
  import opened Pic

  // served holds the acknowledged lines that are still in service, the latest last.
  datatype System = System(cpu: State, pic: PicState, served: seq<nat>)

  datatype Write = CommandWrite(v: byte) | DataWrite(v: byte)

  // A step of the CPU, whose instruction may write to the controller: a byte OUT once, a word OUT
  // to the command port and then to the data port, a repeated OUTS any number of times.
  datatype Action = Raise(line: nat) | RaiseNmiLine | CpuStep(insn: Insn, writes: seq<Write>)

  function Written(p: PicState, w: Write): PicState {
    match w
    case CommandWrite(v) => Command(p, v)
    case DataWrite(v) => Data(p, v)
  }

  function Keep(served: seq<nat>, isr: set<nat>): seq<nat> {
    if served == [] then []
    else Keep(served[..|served| - 1], isr) + (if served[|served| - 1] in isr then [served[|served| - 1]] else [])
  }

  function WrittenTo(y: System, w: Write): System {
    var pic := Written(y.pic, w);
    y.(pic := pic, served := Keep(y.served, pic.isr))
  }

  function AllWritten(y: System, ws: seq<Write>): System
    decreases |ws|
  {
    if ws == [] then y else AllWritten(WrittenTo(y, ws[0]), ws[1..])
  }

  // The base may change only while no request is pending, and never to 0.
  predicate WriteAllowed(y: System, w: Write) {
    match w
    case CommandWrite(v) => CommandAllowed(v)
    case DataWrite(v) =>
      && (y.pic.mode == Icw4 ==> v == 1)
      && (y.pic.mode == Icw2 ==> v >= 8 && (y.cpu.pendingIrq == 0 || v / 8 * 8 == y.pic.base))
  }

  predicate WritesAllowed(y: System, ws: seq<Write>)
    decreases |ws|
  {
    ws == [] || (WriteAllowed(y, ws[0]) && WritesAllowed(WrittenTo(y, ws[0]), ws[1..]))
  }

  ghost predicate Allowed(y: System, a: Action) {
    match a
    case Raise(line) => line < LINES
    case RaiseNmiLine => true
    case CpuStep(insn, ws) => insn.Valid() && WritesAllowed(y, ws)
  }

  predicate InRange(p: PicState, vector: byte) {
    p.base <= vector < p.base + LINES
  }

  // What one act of a step does to the controller. An acknowledgement outside the eight vectors
  // would shift by a count that C++ leaves undefined; AckCoherent rules it out.
  function ActOnPic(y: System, act: Act, ws: seq<Write>): System {
    match act
    case Ran(_) => AllWritten(y, ws)
    case IrqEntry(n) =>
      if !InRange(y.pic, n) then y
      else y.(pic := Acknowledged(y.pic, n), served := y.served + [n - y.pic.base])
    case _ => y
  }

  ghost predicate Pending(irq: byte, p: PicState) {
    irq != 0 ==> First(p.irr, 0) < First(p.isr, 0) && irq == p.base + First(p.irr, 0)
  }

  ghost predicate Stacked(served: seq<nat>, isr: set<nat>) {
    && (forall i, j :: 0 <= i < j < |served| ==> served[j] < served[i])
    && (forall x :: x in served <==> x in isr)
  }

  // A request is pending only for the highest requested line, which is above all in service;
  // the lines in service form a stack of strictly rising priority.
  ghost predicate Coherent(y: System) {
    && y.pic.Valid() && y.pic.base >= 8
    && Pending(y.cpu.pendingIrq, y.pic)
    && Stacked(y.served, y.pic.isr)
  }

  // ---- Lines in service ----

  lemma FirstUnique(s: set<nat>, k: nat)
    requires k <= LINES && (k < LINES ==> k in s) && forall j :: 0 <= j < k ==> j !in s
    ensures First(s, 0) == k
  {
  }

  // The last of the stack is the highest line in service.
  lemma TopIsFirst(served: seq<nat>, isr: set<nat>)
    requires Stacked(served, isr) && forall x :: x in isr ==> x < LINES
    ensures First(isr, 0) == if served == [] then LINES else served[|served| - 1]
  {
    if served == [] {
      assert forall x :: x !in isr;
      FirstUnique(isr, LINES);
    } else {
      var top := served[|served| - 1];
      assert top in isr;
      forall j | 0 <= j < top ensures j !in isr {
        if j in isr {
          var m :| 0 <= m < |served| && served[m] == j;
        }
      }
      FirstUnique(isr, top);
    }
  }

  lemma {:induction false} KeepIn(served: seq<nat>, isr: set<nat>)
    ensures forall x :: x in Keep(served, isr) <==> x in served && x in isr
  {
    if served != [] {
      var n := |served| - 1;
      KeepIn(served[..n], isr);
      assert served == served[..n] + [served[n]];
    }
  }

  lemma {:induction false} KeepAll(served: seq<nat>, isr: set<nat>)
    requires forall x :: x in served ==> x in isr
    ensures Keep(served, isr) == served
  {
    if served != [] {
      var n := |served| - 1;
      assert served == served[..n] + [served[n]];
      KeepAll(served[..n], isr);
    }
  }

  ghost predicate Falling(s: seq<nat>) {
    forall i, j :: 0 <= i < j < |s| ==> s[j] < s[i]
  }

  lemma {:induction false} KeepFalls(served: seq<nat>, isr: set<nat>)
    requires Falling(served)
    ensures Falling(Keep(served, isr))
  {
    if served != [] {
      var n := |served| - 1;
      KeepFalls(served[..n], isr);
      KeepIn(served[..n], isr);
      var kept := Keep(served[..n], isr);
      forall i | 0 <= i < |kept| ensures served[n] < kept[i] {
        assert kept[i] in served[..n];
      }
    }
  }

  // A write may only take lines out of service, and only an EOI does.
  lemma WriteKeepsStack(served: seq<nat>, isr: set<nat>, isr': set<nat>)
    requires Stacked(served, isr) && isr' <= isr
    ensures Stacked(Keep(served, isr'), isr')
  {
    KeepFalls(served, isr');
    KeepIn(served, isr');
  }

  lemma CommandShrinks(p: PicState, w: Write)
    ensures Written(p, w).isr <= p.isr && Written(p, w).irr == p.irr
  {
  }

  lemma FewerFirst(s: set<nat>, t: set<nat>)
    requires t <= s
    ensures First(s, 0) <= First(t, 0)
  {
  }

  // The acts of a step happen to the controller one by one.
  function ActsOnPic(y: System, acts: seq<Act>, ws: seq<Write>): System
    decreases |acts|
  {
    if acts == [] then y else ActsOnPic(ActOnPic(y, acts[0], ws), acts[1..], ws)
  }

  function Acted(y: System, a: Action): System
    requires Allowed(y, a)
  {
    match a
    case Raise(line) =>
      var (pic, signal) := Raised(y.pic, line);
      y.(pic := pic, cpu := if signal.Some? then y.cpu.(pendingIrq := signal.value) else y.cpu)
    case RaiseNmiLine => y.(cpu := y.cpu.(nmiPending := true))
    case CpuStep(insn, ws) =>
      var (cpu, acts) := Step(y.cpu, insn);
      ActsOnPic(y, acts, ws).(cpu := cpu)
  }

  // ---- Every action keeps the invariant ----

  lemma RaiseCoherent(y: System, line: nat)
    requires Coherent(y) && line < LINES
    ensures Coherent(Acted(y, Raise(line)))
  {
    if line !in y.pic.mask {
      var q := y.pic.(irr := y.pic.irr + {line});
      FewerFirst(q.irr, y.pic.irr);
      if y.cpu.pendingIrq != 0 {
        var i := First(y.pic.irr, 0);
        FirstUnique(q.irr, if line < i then line else i);
      }
    }
  }

  lemma WriteCoherent(y: System, w: Write)
    requires Coherent(y) && WriteAllowed(y, w)
    ensures Coherent(WrittenTo(y, w))
  {
    hide First, Keep, Stacked, Bit;
    var q := Written(y.pic, w);
    CommandShrinks(y.pic, w);
    WriteKeepsStack(y.served, y.pic.isr, q.isr);
    FewerFirst(y.pic.isr, q.isr);
    if w.DataWrite? { assert w.v / 8 * 8 % 8 == 0; }
  }

  lemma {:induction false} WritesCoherent(y: System, ws: seq<Write>)
    requires Coherent(y) && WritesAllowed(y, ws)
    ensures Coherent(AllWritten(y, ws)) && AllWritten(y, ws).cpu == y.cpu
    decreases |ws|
  {
    hide Coherent, WriteAllowed;
    if ws != [] {
      WriteCoherent(y, ws[0]);
      WritesCoherent(WrittenTo(y, ws[0]), ws[1..]);
    }
  }

  // The line acknowledged is requested, above all in service, and becomes the top of the stack.
  lemma AckCoherent(y: System, n: byte)
    requires Coherent(y) && n == y.cpu.pendingIrq != 0
    ensures InRange(y.pic, n)
    ensures var z := ActOnPic(y, IrqEntry(n), []);
            var line := n - y.pic.base;
            && line in y.pic.irr && line == First(y.pic.irr, 0)
            && (forall x :: x in y.served ==> line < x)
            && z.served == y.served + [line] && z.pic.isr == y.pic.isr + {line}
            && Coherent(z.(cpu := z.cpu.(pendingIrq := 0)))
  {
    var line := First(y.pic.irr, 0);
    TopIsFirst(y.served, y.pic.isr);
    forall x | x in y.served ensures line < x {
      var m :| 0 <= m < |y.served| && y.served[m] == x;
    }
  }

  // ---- Steps and runs ----

  ghost predicate Quiet(acts: seq<Act>) {
    forall a :: a in acts ==> a.NmiEntry? || a.TrapEntry?
  }

  // Entries that take the pending request irq at most once, leaving irq' pending.
  ghost predicate Takes(irq: byte, acts: seq<Act>, irq': byte) {
    || (Quiet(acts) && irq' == irq)
    || (acts != [] && acts[0] == IrqEntry(irq) && irq != 0 && irq' == 0 && Quiet(acts[1..]))
  }

  lemma ServeTakes(s: State)
    ensures NmiReady(s) || IrqReady(s) ==> Takes(s.pendingIrq, Serve(s).1, Serve(s).0.pendingIrq)
    ensures Quiet(TrapActs(s))
  {
    hide Interrupt;
    if NmiReady(s) || IrqReady(s) {
      var t := if NmiReady(s) then s.(nmiPending := false) else s.(pendingIrq := 0);
      var vector := if NmiReady(s) then VEC_NMI else 4 * s.pendingIrq;
      EntryMasks(t, vector);
      EntryMasks(Interrupt(t, vector, t.regs.ip), VEC_SINGLE_STEP);
    }
  }

  lemma StepTakes(s: State, insn: Insn)
    requires insn.Valid()
    ensures var (t, acts) := Step(s, insn);
            && acts != []
            && if acts[0].Ran? then acts[0] == Ran(insn) && Takes(s.pendingIrq, acts[1..], t.pendingIrq)
               else Takes(s.pendingIrq, acts, t.pendingIrq)
  {
    hide Interrupt;
    var s0 := s.(tfWasSet := s.flags.tf);
    var s1 := if NmiReady(s0) || IrqReady(s0) then s0 else Executed(s0, insn);
    ServeTakes(s1);
    EntryMasks(s1, VEC_SINGLE_STEP);
  }

  lemma {:induction false} QuietActs(y: System, acts: seq<Act>, ws: seq<Write>)
    requires Quiet(acts)
    ensures ActsOnPic(y, acts, ws) == y
    decreases |acts|
  {
    if acts != [] {
      assert ActOnPic(y, acts[0], ws) == y by { assert acts[0] in acts; }
      QuietActs(y, acts[1..], ws);
    }
  }

  lemma EntriesCoherent(y: System, acts: seq<Act>, ws: seq<Write>, t: State)
    requires Coherent(y) && Takes(y.cpu.pendingIrq, acts, t.pendingIrq)
    ensures Coherent(ActsOnPic(y, acts, ws).(cpu := t))
  {
    if Quiet(acts) && t.pendingIrq == y.cpu.pendingIrq {
      QuietActs(y, acts, ws);
    } else {
      AckCoherent(y, y.cpu.pendingIrq);
      QuietActs(ActOnPic(y, acts[0], ws), acts[1..], ws);
    }
  }

  lemma StepCoherent(y: System, insn: Insn, ws: seq<Write>)
    requires Coherent(y) && Allowed(y, CpuStep(insn, ws))
    ensures Coherent(Acted(y, CpuStep(insn, ws)))
  {
    hide Step;
    StepTakes(y.cpu, insn);
    var (t, acts) := Step(y.cpu, insn);
    if acts[0].Ran? {
      WritesCoherent(y, ws);
      EntriesCoherent(ActOnPic(y, acts[0], ws), acts[1..], ws, t);
    } else {
      EntriesCoherent(y, acts, ws, t);
    }
  }

  ghost predicate AllowedRun(y: System, run: seq<Action>)
    decreases |run|
  {
    run == [] || (Allowed(y, run[0]) && AllowedRun(Acted(y, run[0]), run[1..]))
  }

  ghost function Run(y: System, run: seq<Action>): System
    requires AllowedRun(y, run)
    decreases |run|
  {
    if run == [] then y else Run(Acted(y, run[0]), run[1..])
  }

  lemma NmiCoherent(y: System)
    requires Coherent(y)
    ensures Coherent(Acted(y, RaiseNmiLine))
  {
  }

  lemma {:induction false} RunCoherent(y: System, run: seq<Action>)
    requires Coherent(y) && AllowedRun(y, run)
    ensures Coherent(Run(y, run))
    decreases |run|
  {
    hide Acted, Coherent;
    if run != [] {
      match run[0] {
        case Raise(line) => RaiseCoherent(y, line);
        case RaiseNmiLine => NmiCoherent(y);
        case CpuStep(insn, ws) => StepCoherent(y, insn, ws);
      }
      RunCoherent(Acted(y, run[0]), run[1..]);
    }
  }

  // A machine after reset and after the BIOS has set the vector base.
  lemma StartCoherent(cpu: State, base: Base)
    requires cpu.pendingIrq == 0 && base >= 8
    ensures Coherent(System(cpu, PicState({}, {}, {}, base, Idle, true), []))
  {
  }

  // ---- What the invariant gives ----

  // The system when the entries of a step begin: after the write of its instruction, if it ran.
  function AtEntry(y: System, acts: seq<Act>, ws: seq<Write>): System {
    if acts != [] && acts[0].Ran? then ActOnPic(y, acts[0], ws) else y
  }

  lemma EntriesAck(y: System, acts: seq<Act>, ws: seq<Write>, t: State, n: byte)
    requires Coherent(y) && Takes(y.cpu.pendingIrq, acts, t.pendingIrq) && IrqEntry(n) in acts
    ensures n == y.cpu.pendingIrq != 0
    ensures ActsOnPic(y, acts, ws) == ActOnPic(y, IrqEntry(n), [])
    ensures InRange(y.pic, n)
    ensures var line, z := n - y.pic.base, ActOnPic(y, IrqEntry(n), []);
            && line == First(y.pic.irr, 0) < LINES
            && (forall x :: x in y.served ==> line < x)
            && z.served == y.served + [line] && z.pic.irr == y.pic.irr - {line}
  {
    assert !Quiet(acts);
    assert acts[0] == IrqEntry(n) by { assert acts == [acts[0]] + acts[1..]; }
    AckCoherent(y, n);
    QuietActs(ActOnPic(y, acts[0], ws), acts[1..], ws);
  }

  // Every acknowledgement of a step is of the highest requested line, which is above all lines
  // in service and becomes the top of their stack.
  lemma AcksRise(y: System, insn: Insn, ws: seq<Write>, n: byte)
    requires Coherent(y) && Allowed(y, CpuStep(insn, ws)) && IrqEntry(n) in Step(y.cpu, insn).1
    ensures var at, z := AtEntry(y, Step(y.cpu, insn).1, ws), Acted(y, CpuStep(insn, ws));
            && InRange(at.pic, n)
            && var line := n - at.pic.base;
               && line == First(at.pic.irr, 0) < LINES
               && (forall x :: x in at.served ==> line < x)
               && z.served == at.served + [line] && z.pic.irr == at.pic.irr - {line}
  {
    hide Step, Coherent;
    StepTakes(y.cpu, insn);
    var (t, acts) := Step(y.cpu, insn);
    var at := AtEntry(y, acts, ws);
    if acts[0].Ran? {
      WritesCoherent(y, ws);
      assert IrqEntry(n) in acts[1..];
      EntriesAck(at, acts[1..], ws, t, n);
    } else {
      EntriesAck(at, acts, ws, t, n);
    }
  }

  lemma OneWrite(y: System, w: Write)
    ensures AllWritten(y, [w]) == WrittenTo(y, w)
  {
    assert [w][1..] == [];
  }

  // ---- The mask over runs ----

  ghost predicate MaskUntouched(ws: seq<Write>) {
    forall w :: w in ws ==> w.CommandWrite?
  }

  lemma {:induction false} CommandsKeepMask(y: System, ws: seq<Write>)
    requires MaskUntouched(ws)
    ensures AllWritten(y, ws).pic.mask == y.pic.mask
    decreases |ws|
  {
    if ws != [] {
      assert ws[0] in ws;
      CommandsKeepMask(WrittenTo(y, ws[0]), ws[1..]);
    }
  }

  lemma {:induction false} ActsKeepMask(y: System, acts: seq<Act>, ws: seq<Write>)
    requires MaskUntouched(ws)
    ensures ActsOnPic(y, acts, ws).pic.mask == y.pic.mask
    decreases |acts|
  {
    hide AllWritten;
    if acts != [] {
      CommandsKeepMask(y, ws);
      ActsKeepMask(ActOnPic(y, acts[0], ws), acts[1..], ws);
    }
  }

  lemma {:induction false} MaskStands(y: System, run: seq<Action>)
    requires AllowedRun(y, run) && forall a :: a in run && a.CpuStep? ==> MaskUntouched(a.writes)
    ensures Run(y, run).pic.mask == y.pic.mask
    decreases |run|
  {
    hide Step, ActsOnPic;
    if run != [] {
      assert run[0] in run;
      if run[0].CpuStep? { ActsKeepMask(y, Step(y.cpu, run[0].insn).1, run[0].writes); }
      MaskStands(Acted(y, run[0]), run[1..]);
    }
  }

  // A mask write v governs every run without another data write: a raise of line i leaves the
  // system alone when bit i of v is one, and makes it request when the bit is zero.
  lemma MaskGoverns(y: System, v: byte, run: seq<Action>, i: nat)
    requires y.pic.mode == Idle && i < 8 && AllowedRun(WrittenTo(y, DataWrite(v)), run)
    requires forall a :: a in run && a.CpuStep? ==> MaskUntouched(a.writes)
    ensures var z := Run(WrittenTo(y, DataWrite(v)), run);
            if v / [1, 2, 4, 8, 16, 32, 64, 128][i] % 2 == 1 then Acted(z, Raise(i)) == z
            else Acted(z, Raise(i)).pic == z.pic.(irr := z.pic.irr + {i})
  {
    hide Lines, Run, AllowedRun, Keep;
    MaskStands(WrittenTo(y, DataWrite(v)), run);
    LinesWritten(v, i);
  }

  // Non-specific EOI retires the line acknowledged last of those still in service.
  lemma EoiRetiresLatest(y: System, insn: Insn, v: byte)
    requires Coherent(y) && NonSpecificEoi(v)
    ensures ActOnPic(y, Ran(insn), [CommandWrite(v)]).served
         == if y.served == [] then [] else y.served[..|y.served| - 1]
  {
    OneWrite(y, CommandWrite(v));
    TopIsFirst(y.served, y.pic.isr);
    if y.served != [] {
      var n := |y.served| - 1;
      var isr := y.pic.isr - {y.served[n]};
      forall x | x in y.served[..n] ensures x in isr {
        var m :| 0 <= m < n && y.served[m] == x;
      }
      KeepAll(y.served[..n], isr);
    }
  }

  // Specific EOI retires the line it names and no other, in any position of the stack.
  lemma SpecificEoiRetires(y: System, insn: Insn, v: byte)
    requires Coherent(y) && SpecificEoi(v)
    ensures var z := ActOnPic(y, Ran(insn), [CommandWrite(v)]);
            && Falling(z.served)
            && forall x :: x in z.served <==> x in y.served && x != v % 8
  {
    OneWrite(y, CommandWrite(v));
    var isr := y.pic.isr - {v % 8};
    KeepFalls(y.served, isr);
    KeepIn(y.served, isr);
  }

  // Whether line i is requested once line is raised, and no line above it.
  ghost predicate Highest(p: PicState, line: nat, i: nat) {
    (i == line || i in p.irr) && i <= line && forall j :: 0 <= j < i ==> j !in p.irr
  }

  // A raised line is masked, or a line in service is at or above the highest request i.
  ghost predicate Blocked(p: PicState, line: nat, i: nat) {
    line in p.mask || exists j :: j in p.isr && j <= i
  }

  // Raising a line puts a request in the CPU's slot if and only if it is not blocked and the
  // highest request is not line 0 of base 0. A blocked one leaves the slot as it was; line 0 of
  // base 0 clears it.
  lemma RaiseReachesIff(y: System, line: nat, i: nat)
    requires y.pic.Valid() && line < LINES && Highest(y.pic, line, i)
    ensures var signal := Raised(y.pic, line).1;
            signal.Some? && signal.value != 0 <==> !Blocked(y.pic, line, i) && (y.pic.base != 0 || i != 0)
    ensures Acted(y, Raise(line)).cpu.pendingIrq
         == if Blocked(y.pic, line, i) then y.cpu.pendingIrq else y.pic.base + i
  {
    FirstUnique(y.pic.irr + {line}, i);
    var k := First(y.pic.isr, 0);
    assert (exists j :: j in y.pic.isr && j <= i) <==> k <= i;
  }

  // A signalled request is taken for none exactly when it is line 0 of base 0.
  lemma RequestLostIff(p: PicState, line: nat)
    requires line < LINES && Raised(p, line).1.Some?
    ensures Raised(p, line).1.value == 0 <==> p.base == 0 && 0 in p.irr + {line}
  {
    if 0 in p.irr + {line} { FirstUnique(p.irr + {line}, 0); }
  }

  // With base 0 and vector 3 pending, raising line 0 clears the slot: both requests are lost.
  lemma LineZeroWipes(y: System)
    requires y.pic == PicState({3}, {}, {}, 0, Idle, true) && y.cpu.pendingIrq == 3
    ensures Acted(y, Raise(0)).cpu.pendingIrq == 0
  {
    FirstUnique({3} + {0}, 0);
    FirstUnique({}, LINES);
  }

  lemma EoiByte()
    ensures !IsIcw1(0x20) && IsOcw2(0x20)
  {
    assert Pow2(4) == 16 && Pow2(3) == 8;
  }

  // A line raised again during its own service waits: the EOI does not signal it.
  lemma RaisedInService(y: System, insn: Insn)
    requires y.pic == PicState({}, {0}, {}, 8, Idle, true) && y.cpu.pendingIrq == 0
    ensures var z := ActOnPic(Acted(y, Raise(0)), Ran(insn), [CommandWrite(0x20)]);
            z.pic.irr == {0} && z.pic.isr == {} && z.cpu.pendingIrq == 0
  {
    FirstUnique({0}, 0);
    assert {} + {0} == {0} && {0} - {0} == {};
    EoiByte();
    OneWrite(Acted(y, Raise(0)), CommandWrite(0x20));
  }

  // An ICW2 below 8 sets base 0; the request of line 0 then stays in IRR and never reaches the CPU.
  lemma LineZeroLost(y: System, v: byte)
    requires v < 8 && y.pic == PicState({}, {}, {}, 8, Icw2, true)
    ensures var z := Acted(y.(pic := Data(y.pic, v)), Raise(0));
            0 in z.pic.irr && z.cpu.pendingIrq == 0 && !IrqReady(z.cpu)
  {
    FirstUnique({0}, 0);
    FirstUnique({}, LINES);
    assert {} + {0} == {0};
  }

  // A base that changes while a request is pending makes the acknowledgement miss its line.
  lemma RebaseMisses(y: System, base: Base)
    requires Coherent(y) && y.cpu.pendingIrq != 0
    ensures InRange(y.pic.(base := base), y.cpu.pendingIrq) <==> base == y.pic.base
  {
  }

  // Vector 8 is pending for line 0 of base 8; an ICW2 of 16 puts it out of range.
  lemma LineZeroMissed(p: PicState)
    requires p.base == 8 && p.mode == Icw2
    ensures InRange(p, 8) && !InRange(Data(p, 16), 8)
  {
  }
}
