// One call of step (sim/cppmodel/Emulate.cpp) and runs of it: arbitration between NMI, IRQ and
// the single-step trap, and the interrupt shadow of STI, MOV sr and POP sr.
module Stepping {
  import opened Words
  import opened Flags
  import opened Machine

  datatype SegReg = Es | Cs | Ss | Ds

  // What an instruction does. All but the three that set the shadow are Other, with any new
  // registers (IP included), flags and memory.
  datatype Insn =
    | Sti(length: nat)
    | MovSr(sr: SegReg, v: word, length: nat)
    | PopSr(sr: SegReg, length: nat)
    | Other(regs: Regs, flags: Flags, mem: Mem)
  {
    ghost predicate Valid() {
      Other? || length < 16
    }

    predicate SetsShadow() {
      !Other?
    }
  }

  // What a step does, in order: an instruction, and entries of interrupt handlers.
  datatype Act = Ran(insn: Insn) | NmiEntry | IrqEntry(vector: byte) | TrapEntry

  function SetSeg(r: Regs, sr: SegReg, v: word): Regs {
    match sr
    case Es => r.(es := v)
    case Cs => r.(cs := v)
    case Ss => r.(ss := v)
    case Ds => r.(ds := v)
  }

  function Advance(r: Regs, length: nat): Regs
    requires length < 16
  {
    r.(ip := Wrap16(r.ip + length))
  }

  // The shadow ends when an instruction starts, and starts anew when that instruction sets it.
  function Executed(s: State, insn: Insn): State
    requires insn.Valid()
  {
    var s1 := s.(extIntInhibit := insn.SetsShadow());
    match insn
    case Sti(length) => s1.(flags := s1.flags.(ief := true), regs := Advance(s1.regs, length))
    case MovSr(sr, v, length) => s1.(regs := Advance(SetSeg(s1.regs, sr, v), length))
    case PopSr(sr, length) =>
      var regs := SetSeg(s1.regs, sr, StackWord(s1, s1.regs.sp));
      s1.(regs := Advance(regs.(sp := Wrap16(regs.sp + 2)), length))
    case Other(regs, flags, mem) => s1.(regs := regs, flags := flags, mem := mem)
  }

  predicate NmiReady(s: State) {
    s.nmiPending && !s.extIntInhibit
  }

  predicate IrqReady(s: State) {
    s.pendingIrq != 0 && !s.extIntInhibit && s.flags.ief
  }

  function TrapActs(s: State): seq<Act> {
    if s.tfWasSet && !s.extIntInhibit then [TrapEntry] else []
  }

  // The NMI if it can be taken, else the IRQ if it can.
  function Serve(s: State): (State, seq<Act>)
    requires NmiReady(s) || IrqReady(s)
  {
    if NmiReady(s) then (HandleNmi(s), [NmiEntry] + TrapActs(s))
    else (HandleIrq(s), [IrqEntry(s.pendingIrq)] + TrapActs(s))
  }

  function Step(s: State, insn: Insn): (State, seq<Act>)
    requires insn.Valid()
  {
    var s0 := s.(tfWasSet := s.flags.tf);
    if NmiReady(s0) || IrqReady(s0) then Serve(s0)
    else
      var s1 := Executed(s0, insn);
      var (s2, acts) := if NmiReady(s1) || IrqReady(s1) then Serve(s1) else (SingleStep(s1), TrapActs(s1));
      (s2, [Ran(insn)] + acts)
  }

  // ---- One step ----

  // Nothing that could be served is left pending.
  ghost predicate Settled(s: State) {
    && (s.nmiPending ==> s.extIntInhibit)
    && (s.pendingIrq != 0 ==> s.extIntInhibit || !s.flags.ief)
  }

  lemma EntryMasks(s: State, vector: nat)
    requires vector <= 1020
    ensures var t := Interrupt(s, vector, s.regs.ip);
            && t.flags == s.flags.(ief := false, tf := false)
            && t.nmiPending == s.nmiPending && t.pendingIrq == s.pendingIrq
            && t.extIntInhibit == s.extIntInhibit && t.tfWasSet == s.tfWasSet
  {
  }

  lemma ServeSettles(s: State)
    requires NmiReady(s) || IrqReady(s)
    ensures Settled(Serve(s).0)
    ensures !Serve(s).0.extIntInhibit && !Serve(s).0.flags.ief && !Serve(s).0.flags.tf
  {
    var t := if NmiReady(s) then s.(nmiPending := false) else s.(pendingIrq := 0);
    var vector := if NmiReady(s) then VEC_NMI else 4 * s.pendingIrq;
    EntryMasks(t, vector);
    EntryMasks(Interrupt(t, vector, t.regs.ip), VEC_SINGLE_STEP);
  }

  lemma StepSettles(s: State, insn: Insn)
    requires insn.Valid()
    ensures Settled(Step(s, insn).0)
  {
    var s0 := s.(tfWasSet := s.flags.tf);
    if NmiReady(s0) || IrqReady(s0) {
      ServeSettles(s0);
    } else {
      var s1 := Executed(s0, insn);
      if NmiReady(s1) || IrqReady(s1) {
        ServeSettles(s1);
      } else {
        EntryMasks(s1, VEC_SINGLE_STEP);
      }
    }
  }

  // A step takes the single-step trap exactly when TF is set before it and either a request is
  // served before any instruction or the instruction sets no shadow; always last and at most
  // once. The trap follows no instruction at all exactly when TF is set and a request is ready.
  lemma TrapIffTraced(s: State, insn: Insn)
    requires insn.Valid()
    ensures var acts := Step(s, insn).1;
            && (TrapEntry in acts <==> s.flags.tf && (NmiReady(s) || IrqReady(s) || !insn.SetsShadow()))
            && (TrapEntry in acts && Ran(insn) !in acts <==> s.flags.tf && (NmiReady(s) || IrqReady(s)))
            && forall k :: 0 <= k < |acts| && acts[k] == TrapEntry ==> k == |acts| - 1
  {
    hide Interrupt;
    var s0 := s.(tfWasSet := s.flags.tf);
    var s1 := if NmiReady(s0) || IrqReady(s0) then s0 else Executed(s0, insn);
    if NmiReady(s1) || IrqReady(s1) {
      ServeSettles(s1);
    } else {
      EntryMasks(s1, VEC_SINGLE_STEP);
    }
  }

  // An NMI pending under TF: the step enters two handlers and runs nothing.
  lemma TrapWithoutInstruction(s: State, insn: Insn)
    requires insn.Valid() && s.flags.tf && s.nmiPending && !s.extIntInhibit
    ensures Step(s, insn).1 == [NmiEntry, TrapEntry]
  {
    hide Interrupt;
  }

  // In a shadow the next step runs its instruction first, whatever is pending; unless that
  // instruction sets the shadow again, what is pending is then served in the same step.
  lemma ShadowLastsOneInstruction(s: State, insn: Insn)
    requires insn.Valid() && s.extIntInhibit
    ensures var (t, acts) := Step(s, insn);
            var run := Executed(s.(tfWasSet := s.flags.tf), insn);
            && acts[0] == Ran(insn)
            && (insn.SetsShadow() ==> acts == [Ran(insn)] && t == run)
            && (!insn.SetsShadow() ==>
                  && (s.nmiPending ==> acts[..2] == [Ran(insn), NmiEntry])
                  && (!s.nmiPending && s.pendingIrq != 0 && run.flags.ief ==>
                        acts[..2] == [Ran(insn), IrqEntry(s.pendingIrq)]))
  {
    hide Interrupt;
  }

  // STI sets IF, and MOV sr and POP sr write the register they name, POP sr from the word at SP
  // of the old stack segment; IP moves behind the instruction and the shadow starts.
  lemma ShadowInstructions(s: State, v: word, length: nat)
    requires length < 16
    ensures var t, ip := s.(extIntInhibit := true), (s.regs.ip + length) % 0x1_0000;
            && Executed(s, Sti(length)) == t.(flags := s.flags.(ief := true), regs := s.regs.(ip := ip))
            && Executed(s, MovSr(Es, v, length)) == t.(regs := s.regs.(es := v, ip := ip))
            && Executed(s, MovSr(Cs, v, length)) == t.(regs := s.regs.(cs := v, ip := ip))
            && Executed(s, MovSr(Ss, v, length)) == t.(regs := s.regs.(ss := v, ip := ip))
            && Executed(s, MovSr(Ds, v, length)) == t.(regs := s.regs.(ds := v, ip := ip))
            && (StackWord(s, s.regs.sp) == v ==>
                  var sp := (s.regs.sp + 2) % 0x1_0000;
                  && Executed(s, PopSr(Es, length)) == t.(regs := s.regs.(es := v, sp := sp, ip := ip))
                  && Executed(s, PopSr(Cs, length)) == t.(regs := s.regs.(cs := v, sp := sp, ip := ip))
                  && Executed(s, PopSr(Ss, length)) == t.(regs := s.regs.(ss := v, sp := sp, ip := ip))
                  && Executed(s, PopSr(Ds, length)) == t.(regs := s.regs.(ds := v, sp := sp, ip := ip)))
  {
    hide Wrap16, ReadWord, PhysAddr;
    Wrap16Reduces(s.regs.ip + length);
    Wrap16Reduces(s.regs.sp + 2);
  }

  // A request pending while IF is clear waits for STI and for the instruction behind it.
  lemma StiServesBehindNext(s: State, length: nat, insn: Insn)
    requires length < 16 && insn.Other? && insn.flags.ief
    requires s.pendingIrq != 0 && !s.nmiPending && !s.flags.ief && !s.extIntInhibit
    ensures var (t, acts) := Step(s, Sti(length));
            var next := Step(t, insn).1;
            acts == [Ran(Sti(length))] && |next| >= 2 && next[..2] == [Ran(insn), IrqEntry(s.pendingIrq)]
  {
    hide Interrupt;
  }

  // ---- Runs ----

  datatype Event = RaiseNmi | RaiseIrq(vector: byte) | DoStep(insn: Insn)

  function Happened(s: State, e: Event): (State, seq<Act>)
    requires e.DoStep? ==> e.insn.Valid()
  {
    match e
    case RaiseNmi => (s.(nmiPending := true), [])
    case RaiseIrq(n) => (s.(pendingIrq := n), [])
    case DoStep(insn) => Step(s, insn)
  }

  ghost predicate ValidRun(run: seq<Event>) {
    forall k :: 0 <= k < |run| && run[k].DoStep? ==> run[k].insn.Valid()
  }

  function Trace(s: State, run: seq<Event>): (State, seq<Act>)
    requires ValidRun(run)
    decreases |run|
  {
    if run == [] then (s, [])
    else
      var (s1, acts) := Happened(s, run[0]);
      var (s2, rest) := Trace(s1, run[1..]);
      (s2, acts + rest)
  }

  // No entry follows an instruction that sets the shadow: the next act is an instruction.
  ghost predicate Shadowed(inhibit: bool, acts: seq<Act>) {
    && (inhibit && acts != [] ==> acts[0].Ran?)
    && forall k {:trigger acts[k]} ::
         0 <= k && k + 1 < |acts| && acts[k].Ran? && acts[k].insn.SetsShadow() ==> acts[k + 1].Ran?
  }

  // The shadow that stands after acts.
  predicate ShadowAfter(inhibit: bool, acts: seq<Act>) {
    if acts == [] then inhibit
    else acts[|acts| - 1].Ran? && acts[|acts| - 1].insn.SetsShadow()
  }

  lemma StepShadowed(s: State, insn: Insn)
    requires insn.Valid()
    ensures var (t, acts) := Step(s, insn);
            acts != [] && Shadowed(s.extIntInhibit, acts) && ShadowAfter(s.extIntInhibit, acts) == t.extIntInhibit
  {
    hide Interrupt;
    var s0 := s.(tfWasSet := s.flags.tf);
    var s1 := if NmiReady(s0) || IrqReady(s0) then s0 else Executed(s0, insn);
    if NmiReady(s1) || IrqReady(s1) {
      ServeSettles(s1);
    } else {
      EntryMasks(s1, VEC_SINGLE_STEP);
    }
  }

  lemma ShadowedAppend(inhibit: bool, acts: seq<Act>, rest: seq<Act>)
    requires Shadowed(inhibit, acts) && Shadowed(ShadowAfter(inhibit, acts), rest)
    ensures Shadowed(inhibit, acts + rest)
  {
    var all := acts + rest;
    forall k {:trigger all[k]} | 0 <= k && k + 1 < |all| && all[k].Ran? && all[k].insn.SetsShadow()
      ensures all[k + 1].Ran?
    {
      if k + 1 < |acts| { assert all[k] == acts[k] && all[k + 1] == acts[k + 1]; }
      else if k < |acts| { assert all[k] == acts[|acts| - 1] && all[k + 1] == rest[0]; }
      else { assert all[k] == rest[k - |acts|] && all[k + 1] == rest[k - |acts| + 1]; }
    }
  }

  // Over every run, whatever is raised and when: no interrupt or trap comes directly behind STI,
  // MOV sr or POP sr.
  lemma {:induction false} ShadowHolds(s: State, run: seq<Event>)
    requires ValidRun(run)
    ensures Shadowed(s.extIntInhibit, Trace(s, run).1)
    decreases |run|
  {
    hide Step;
    if run != [] {
      var (s1, acts) := Happened(s, run[0]);
      if run[0].DoStep? { StepShadowed(s, run[0].insn); }
      ShadowHolds(s1, run[1..]);
      ShadowedAppend(s.extIntInhibit, acts, Trace(s1, run[1..]).1);
    }
  }

  // Over every run that ends with a step: what is still pending is held off by the shadow or,
  // for an IRQ, by IF.
  lemma {:induction false} RunSettles(s: State, run: seq<Event>)
    requires ValidRun(run) && run != [] && run[|run| - 1].DoStep?
    ensures Settled(Trace(s, run).0)
    decreases |run|
  {
    hide Step;
    if |run| == 1 {
      StepSettles(s, run[0].insn);
      assert run[1..] == [];
    } else {
      RunSettles(Happened(s, run[0]).0, run[1..]);
    }
  }

  // Every NMI entry answers a request of its own: with the request still pending, the entries
  // of a run never outnumber the requests.
  function NmiEntries(acts: seq<Act>): nat {
    if acts == [] then 0 else BoolToInt(acts[0].NmiEntry?) + NmiEntries(acts[1..])
  }

  function NmiRaises(run: seq<Event>): nat {
    if run == [] then 0 else BoolToInt(run[0].RaiseNmi?) + NmiRaises(run[1..])
  }

  lemma NmiEntriesAppend(a: seq<Act>, b: seq<Act>)
    ensures NmiEntries(a + b) == NmiEntries(a) + NmiEntries(b)
  {
    if a == [] {
      assert a + b == b;
    } else {
      assert (a + b)[1..] == a[1..] + b;
      NmiEntriesAppend(a[1..], b);
    }
  }

  lemma ServeTakesNmi(s: State)
    ensures NmiReady(s) || IrqReady(s) ==>
              NmiEntries(Serve(s).1) + BoolToInt(Serve(s).0.nmiPending) == BoolToInt(s.nmiPending)
    ensures NmiEntries(TrapActs(s)) == 0
  {
    if NmiReady(s) || IrqReady(s) {
      ServeSettles(s);
      var first := if NmiReady(s) then NmiEntry else IrqEntry(s.pendingIrq);
      NmiEntriesAppend([first], TrapActs(s));
    }
  }

  lemma StepTakesNmiOnce(s: State, insn: Insn)
    requires insn.Valid()
    ensures var (t, acts) := Step(s, insn);
            NmiEntries(acts) + BoolToInt(t.nmiPending) == BoolToInt(s.nmiPending)
  {
    hide Interrupt, SetSeg, Advance, StackWord, Wrap16;
    var s0 := s.(tfWasSet := s.flags.tf);
    var early := NmiReady(s0) || IrqReady(s0);
    var s1 := if early then s0 else Executed(s0, insn);
    ServeTakesNmi(s1);
    var acts := if NmiReady(s1) || IrqReady(s1) then Serve(s1).1 else TrapActs(s1);
    NmiEntriesAppend([Ran(insn)], acts);
    EntryMasks(s1, VEC_SINGLE_STEP);
  }

  lemma {:induction false} NmiNotInvented(s: State, run: seq<Event>)
    requires ValidRun(run)
    ensures var (t, acts) := Trace(s, run);
            NmiEntries(acts) + BoolToInt(t.nmiPending) <= BoolToInt(s.nmiPending) + NmiRaises(run)
    decreases |run|
  {
    hide Step;
    if run != [] {
      var (s1, acts) := Happened(s, run[0]);
      if run[0].DoStep? { StepTakesNmiOnce(s, run[0].insn); }
      NmiNotInvented(s1, run[1..]);
      NmiEntriesAppend(acts, Trace(s1, run[1..]).1);
    }
  }
}
