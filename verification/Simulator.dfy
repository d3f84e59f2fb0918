// The CPU and the interrupt controller as they are wired together (sim/cppmodel/SoftwareCPU.h,
// sim/PIC.h, sim/common/CPU.h): raise_irq goes from the controller to the CPU, the acknowledge
// callback from the CPU to the controller.
module Simulator {
  import opened Words
  import opened Machine
  import opened Stepping
  import opened Pic
  import opened Protocol
  import opened Cpu

  class SoftwareCpu {
    const cpu: Emulator
    const pic: Controller
    ghost var served: seq<nat>

    ghost predicate Valid() {
      cpu.Valid()
    }

    // The controller starts with the vector base it is given; in the source that is ICW2's.
    constructor (memory: Mem, base: Base)
      requires base >= 8
      ensures Valid() && fresh(cpu) && fresh(cpu.mem) && fresh(pic) && Coherent(View())
    {
      cpu := new Emulator(memory);
      pic := new Controller(base);
      served := [];
      new;
      StartCoherent(cpu.St(), base);
    }

    // The system with c as the state of the CPU.
    ghost function With(c: State): System
      reads this, pic
    {
      System(c, pic.View(), served)
    }

    ghost function View(): System
      requires Valid()
      reads this, cpu, cpu.mem, pic
    {
      With(cpu.St())
    }

    method RaiseIrq(line: nat)
      requires Valid() && Coherent(View()) && line < LINES
      modifies cpu`pendingIrq, pic`irr
      ensures View() == Acted(old(View()), Raise(line)) && Coherent(View())
    {
      RaiseCoherent(View(), line);
      var signal := pic.RaiseIrq(line);
      if signal.Some? { cpu.RaiseIrq(signal.value); }
    }

    // A write of an instruction that ran in a step from state c.
    method WritePort(w: Write, ghost c: State)
      requires Coherent(With(c)) && WriteAllowed(With(c), w)
      modifies this`served, pic
      ensures With(c) == WrittenTo(old(With(c)), w) && Coherent(With(c))
    {
      WriteCoherent(With(c), w);
      match w {
        case CommandWrite(v) => pic.WriteCommand(v);
        case DataWrite(v) => pic.WriteData(v);
      }
      served := Keep(served, pic.isr);
    }

    method WritePorts(ws: seq<Write>, ghost c: State)
      requires Coherent(With(c)) && WritesAllowed(With(c), ws)
      modifies this`served, pic
      ensures With(c) == AllWritten(old(With(c)), ws) && Coherent(With(c))
    {
      hide Coherent, WriteAllowed, WrittenTo;
      assert ws[0..] == ws;
      for i := 0 to |ws|
        invariant Coherent(With(c)) && WritesAllowed(With(c), ws[i..])
        invariant AllWritten(With(c), ws[i..]) == AllWritten(old(With(c)), ws)
      {
        assert ws[i..][1..] == ws[i + 1..];
        WritePort(ws[i], c);
      }
    }

    method AckInt(vector: byte, ghost c: State)
      requires InRange(pic.View(), vector)
      modifies this`served, pic
      ensures With(c) == ActOnPic(old(With(c)), IrqEntry(vector), [])
    {
      pic.IntaHandler(vector);
      served := served + [vector - pic.base];
    }

    // What a step from c to t does to the controller: the writes of its instruction, then the
    // callback. The CPU reads nothing of the controller in between.
    method Signals(acts: seq<Act>, ws: seq<Write>, ghost insn: Insn, ghost c: State, ghost t: State)
      requires Coherent(With(c)) && acts != [] && WritesAllowed(With(c), ws)
      requires if acts[0].Ran? then acts[0] == Ran(insn) && Takes(c.pendingIrq, acts[1..], t.pendingIrq)
               else Takes(c.pendingIrq, acts, t.pendingIrq)
      modifies this`served, pic
      ensures With(c) == ActsOnPic(old(With(c)), acts, ws)
      ensures Coherent(With(t))
    {
      hide Coherent, WritesAllowed, AllWritten;
      var entries := acts;
      if acts[0].Ran? {
        WritePorts(ws, c);
        entries := acts[1..];
      }
      ghost var y := With(c);
      EntriesCoherent(y, entries, ws, t);
      if entries != [] && entries[0].IrqEntry? {
        EntriesAck(y, entries, ws, t, entries[0].vector);
        AckInt(entries[0].vector, c);
      } else {
        QuietActs(y, entries, ws);
      }
    }

    method StepWithIo(insn: Insn, ws: seq<Write>)
      requires Valid() && Coherent(View()) && Allowed(View(), CpuStep(insn, ws)) && StepFits(cpu.St(), insn)
      modifies this`served, cpu, cpu.mem, pic
      ensures View() == Acted(old(View()), CpuStep(insn, ws)) && Coherent(View())
    {
      hide Step, StepFits, Coherent, WritesAllowed;
      ghost var c := cpu.St();
      StepTakes(c, insn);
      var acts := cpu.TakeStep(insn);
      Signals(acts, ws, insn, c, cpu.St());
    }
  }
}
