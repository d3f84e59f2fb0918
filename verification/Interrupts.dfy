// Nested interrupts (handle_nmi, handle_irq, single_step, int.cpp, div.cpp, ret.cpp): entries
// of every kind and IRETs in any order, with handlers in between that keep SP and the frames.
module Interrupts {
  import opened Words
  import opened Flags
  import opened Machine
  import opened Stack

  // What an entry saves and an IRET must bring back.
  datatype Context = Context(flags: Flags, cs: word, ip: word, sp: word)

  // The frame of an entry as it lies on the stack.
  function Frame(c: Context): seq<word> {
    [FlagWord(c.flags), c.cs, c.ip]
  }

  function Frames(cs: seq<Context>): (r: seq<word>)
    ensures |r| == 3 * |cs|
  {
    if cs == [] then [] else Frames(cs[..|cs| - 1]) + Frame(cs[|cs| - 1])
  }

  // Each recorded SP is the one its own frame started from.
  ghost predicate StartedAt(base: word, cs: seq<Context>)
    requires 3 * |cs| <= 0x8000
  {
    cs == [] || (cs[|cs| - 1].sp == SpAt(base, 3 * |cs| - 3) && StartedAt(base, cs[..|cs| - 1]))
  }

  // The contexts that are interrupted, the innermost last, are all on the stack below base.
  ghost predicate Nested(s: State, base: word, cs: seq<Context>) {
    3 * |cs| <= 0x8000 && Holds(s, base, Frames(cs)) && StartedAt(base, cs)
  }

  function Interrupted(s: State, ip: word): Context {
    Context(s.flags, s.regs.cs, ip, s.regs.sp)
  }

  lemma FramesAppend(cs: seq<Context>, c: Context)
    ensures Frames(cs + [c]) == Frames(cs) + Frame(c)
  {
    assert (cs + [c])[..|cs|] == cs;
  }

  lemma TwoContexts(cs: seq<Context>, c: Context, d: Context)
    ensures cs + [c] + [d] == cs + ([c] + [d]) && cs + ([c] + []) == cs + [c]
  {
  }

  lemma StartedAppend(base: word, cs: seq<Context>, c: Context)
    requires 3 * |cs| + 3 <= 0x8000 && StartedAt(base, cs) && c.sp == SpAt(base, 3 * |cs|)
    ensures StartedAt(base, cs + [c])
  {
    assert (cs + [c])[..|cs|] == cs;
  }

  lemma EntryNests(s: State, base: word, cs: seq<Context>, vector: nat, ip: word)
    requires Nested(s, base, cs) && 3 * |cs| + 3 <= 0x8000 && vector <= 1020
    ensures Nested(Interrupt(s, vector, ip), base, cs + [Interrupted(s, ip)])
  {
    var c := Interrupted(s, ip);
    StartedAppend(base, cs, c);
    FramesAppend(cs, c);
    PushFrameHolds(s, base, Frames(cs), FlagWord(s.flags), s.regs.cs, ip);
    SameStack(PushFrame(s, FlagWord(s.flags), s.regs.cs, ip), Interrupt(s, vector, ip), base, Frames(cs) + Frame(c));
  }

  // The frame as a run of pushes.
  lemma FrameRun(s: State, f: word, cs: word, ip: word)
    ensures var ops := [PushOp(f), PushOp(cs), PushOp(ip)];
            Run(s, ops).0 == PushFrame(s, f, cs, ip) && Balanced(0, 3, ops)
  {
    hide Push;
    assert [PushOp(f), PushOp(cs), PushOp(ip)][1..] == [PushOp(cs), PushOp(ip)];
    assert [PushOp(cs), PushOp(ip)][1..] == [PushOp(ip)];
    assert [PushOp(ip)][1..] == [];
    assert Run(Push(Push(s, f), cs), [PushOp(ip)]).0 == Push(Push(Push(s, f), cs), ip);
    assert Run(Push(s, f), [PushOp(cs), PushOp(ip)]).0 == Push(Push(Push(s, f), cs), ip);
    assert Balanced(2, 3, [PushOp(ip)]);
    assert Balanced(1, 3, [PushOp(cs), PushOp(ip)]);
  }

  // The handler starts where the vector points, as long as the frame does not lie on the vector.
  lemma EntryJumps(s: State, vector: nat, ip: word)
    requires s.regs.sp % 2 == 0 && vector <= 1020
    requires forall a :: vector <= a < vector + 4 ==> Outside(s.regs.ss, s.regs.sp, 3, a)
    ensures var t := Interrupt(s, vector, ip);
            t.regs.ip == ReadWord(s.mem, vector) && t.regs.cs == ReadWord(s.mem, vector + 2)
  {
    hide FlagWord;
    var f := FlagWord(s.flags);
    var ops := [PushOp(f), PushOp(s.regs.cs), PushOp(ip)];
    FrameRun(s, f, s.regs.cs, ip);
    StackRefines(s, s.regs.sp, [], 3, ops);
    assert forall a :: vector <= a < vector + 4 ==> PushFrame(s, f, s.regs.cs, ip).mem[a] == s.mem[a];
  }

  lemma IretPops(s: State, f: word, c: Context)
    requires f == FlagWord(c.flags) && PopFrame(s) == (c.ip, c.cs, f, s.(regs := s.regs.(sp := c.sp)))
    ensures Iret(s) == s.(flags := c.flags, regs := s.regs.(cs := c.cs, ip := c.ip, sp := c.sp))
  {
    FlagWordRoundTrip(c.flags);
    AllFlagsSet(s.flags, c.flags);
  }

  // IRET restores the innermost context.
  lemma IretRestores(s: State, base: word, cs: seq<Context>)
    requires Nested(s, base, cs) && cs != []
    ensures var c := cs[|cs| - 1];
            Iret(s) == s.(flags := c.flags, regs := s.regs.(cs := c.cs, ip := c.ip, sp := c.sp))
    ensures Nested(Iret(s), base, cs[..|cs| - 1])
  {
    var n, c := |cs| - 1, cs[|cs| - 1];
    var stk, f := Frames(cs[..n]), FlagWord(c.flags);
    PopFrameHolds(s, base, stk, f, c.cs, c.ip);
    IretPops(s, f, c);
    SameStack(PopFrame(s).3, Iret(s), base, stk);
  }

  function EntryContexts(s: State, t: State, vector: nat): seq<Context>
    requires vector <= 1020
  {
    var s1 := Interrupt(t, vector, s.regs.ip);
    [Interrupted(s, s.regs.ip)] + (if s.tfWasSet && !s.extIntInhibit then [Interrupted(s1, s1.regs.ip)] else [])
  }

  lemma EntryThenStep(s: State, t: State, base: word, cs: seq<Context>, vector: nat)
    requires Nested(s, base, cs) && vector <= 1020 && 3 * |cs| + 6 <= 0x8000
    requires t == s.(nmiPending := t.nmiPending, pendingIrq := t.pendingIrq)
    ensures Nested(SingleStep(Interrupt(t, vector, s.regs.ip)), base, cs + EntryContexts(s, t, vector))
  {
    var s1, c := Interrupt(t, vector, s.regs.ip), Interrupted(s, s.regs.ip);
    SameStack(s, t, base, Frames(cs));
    EntryNests(t, base, cs, vector, s.regs.ip);
    if s.tfWasSet && !s.extIntInhibit {
      EntryNests(s1, base, cs + [c], VEC_SINGLE_STEP, s1.regs.ip);
    }
    TwoContexts(cs, c, Interrupted(s1, s1.regs.ip));
  }

  // NMI and IRQ entries nest one context, or two when the single-step trap follows at once:
  // the second is then the start of the handler.
  lemma NmiNests(s: State, base: word, cs: seq<Context>)
    requires Nested(s, base, cs) && 3 * |cs| + 6 <= 0x8000
    ensures Nested(HandleNmi(s), base, cs + EntryContexts(s, s.(nmiPending := false), VEC_NMI))
  {
    EntryThenStep(s, s.(nmiPending := false), base, cs, VEC_NMI);
  }

  lemma IrqNests(s: State, base: word, cs: seq<Context>)
    requires Nested(s, base, cs) && 3 * |cs| + 6 <= 0x8000
    ensures Nested(HandleIrq(s), base, cs + EntryContexts(s, s.(pendingIrq := 0), 4 * s.pendingIrq))
  {
    EntryThenStep(s, s.(pendingIrq := 0), base, cs, 4 * s.pendingIrq);
  }

  // ---- Runs of entries, handlers and returns ----

  // INT N, INTO, divide error, NMI, IRQ and single-step are all Enter events: INT and INTO
  // with the IP behind the instruction, the others with IP itself.
  datatype Event = Enter(vector: nat, ip: word) | Handler(after: State) | Return

  // What a handler has to leave alone between s and t: SS, SP and the n words of the frames.
  ghost predicate KeepsFrames(s: State, t: State, base: word, n: nat) {
    && n <= 0x8000 && t.regs.ss == s.regs.ss && t.regs.sp == s.regs.sp
    && forall j {:trigger Slot(base, j)} :: 0 <= j < n ==> StackWord(t, Slot(base, j)) == StackWord(s, Slot(base, j))
  }

  lemma {:induction false} FramesKept(s: State, t: State, base: word, stk: seq<word>)
    requires KeepsFrames(s, t, base, |stk|) && WordsAt(s, base, stk)
    ensures WordsAt(t, base, stk)
  {
    hide StackWord;
    if stk != [] {
      var n := |stk| - 1;
      assert KeepsFrames(s, t, base, n);
      FramesKept(s, t, base, stk[..n]);
      assert StackWord(t, Slot(base, n)) == StackWord(s, Slot(base, n));
    }
  }

  lemma HandlerKeeps(s: State, t: State, base: word, cs: seq<Context>)
    requires Nested(s, base, cs) && KeepsFrames(s, t, base, 3 * |cs|)
    ensures Nested(t, base, cs)
  {
    hide StackWord;
    FramesKept(s, t, base, Frames(cs));
  }

  // A run from s with cs interrupted: entries fit the stack, handlers leave SP and all frames
  // as they are and may change anything else, and a return has something to return to.
  ghost predicate Proper(s: State, base: word, cs: seq<Context>, run: seq<Event>)
    decreases |run|
  {
    if run == [] then true
    else match run[0]
      case Enter(vector, ip) =>
        && vector <= 1020 && 3 * |cs| + 3 <= 0x8000
        && Proper(Interrupt(s, vector, ip), base, cs + [Interrupted(s, ip)], run[1..])
      case Handler(t) => KeepsFrames(s, t, base, 3 * |cs|) && Proper(t, base, cs, run[1..])
      case Return => cs != [] && Proper(Iret(s), base, cs[..|cs| - 1], run[1..])
  }

  // Every return of the run restores CS, IP, FLAGS and SP of the context on top.
  ghost predicate ReturnsRestore(s: State, base: word, cs: seq<Context>, run: seq<Event>)
    requires Proper(s, base, cs, run)
    decreases |run|
  {
    if run == [] then Nested(s, base, cs)
    else match run[0]
      case Enter(vector, ip) =>
        ReturnsRestore(Interrupt(s, vector, ip), base, cs + [Interrupted(s, ip)], run[1..])
      case Handler(t) => ReturnsRestore(t, base, cs, run[1..])
      case Return =>
        && Interrupted(Iret(s), Iret(s).regs.ip) == cs[|cs| - 1]
        && ReturnsRestore(Iret(s), base, cs[..|cs| - 1], run[1..])
  }

  lemma {:induction false} NestingUnwinds(s: State, base: word, cs: seq<Context>, run: seq<Event>)
    requires Nested(s, base, cs) && Proper(s, base, cs, run)
    ensures ReturnsRestore(s, base, cs, run)
    decreases |run|
  {
    if run != [] {
      match run[0]
      case Enter(vector, ip) =>
        EntryNests(s, base, cs, vector, ip);
        NestingUnwinds(Interrupt(s, vector, ip), base, cs + [Interrupted(s, ip)], run[1..]);
      case Handler(t) =>
        HandlerKeeps(s, t, base, cs);
        NestingUnwinds(t, base, cs, run[1..]);
      case Return =>
        IretRestores(s, base, cs);
        NestingUnwinds(Iret(s), base, cs[..|cs| - 1], run[1..]);
    }
  }

  // A run starts from any even SP with nothing interrupted.
  lemma NestingStarts(s: State)
    requires s.regs.sp % 2 == 0
    ensures Nested(s, s.regs.sp, [])
  {
  }

  // So every proper run from any even SP with nothing interrupted unwinds.
  lemma NestingFromStart(s: State, run: seq<Event>)
    requires s.regs.sp % 2 == 0 && Proper(s, s.regs.sp, [], run)
    ensures ReturnsRestore(s, s.regs.sp, [], run)
  {
    NestingStarts(s);
    NestingUnwinds(s, s.regs.sp, [], run);
  }

  // ---- Where each kind of entry goes and returns to ----

  lemma FrameSlots(sp: word)
    ensures Slot(sp, 0) == (sp - 2) % 0x1_0000 && Slot(sp, 1) == (sp - 4) % 0x1_0000 && Slot(sp, 2) == (sp - 6) % 0x1_0000
    ensures SpAt(sp, 3) == (sp - 6) % 0x1_0000
  {
    Wrap16Reduces(sp - 2);
    Wrap16Reduces(sp - 4);
    Wrap16Reduces(sp - 6);
  }

  // t is s after an entry through the vector at the given address that returns to ip: FLAGS, CS
  // and IP below SP in this order, IF and TF clear, CS:IP from the vector, and an IRET brings
  // everything back but the memory.
  ghost predicate Entered(s: State, t: State, vector: nat, ip: word)
    requires vector <= 1020
  {
    && t == s.(regs := s.regs.(sp := (s.regs.sp - 6) % 0x1_0000, cs := t.regs.cs, ip := t.regs.ip),
               flags := s.flags.(ief := false, tf := false), mem := t.mem)
    && t.regs.ip == t.mem[vector] + 0x100 * (t.mem[vector + 1] as int)
    && t.regs.cs == t.mem[vector + 2] + 0x100 * (t.mem[vector + 3] as int)
    && StackWord(t, (s.regs.sp - 2) % 0x1_0000) == FlagWord(s.flags)
    && StackWord(t, (s.regs.sp - 4) % 0x1_0000) == s.regs.cs
    && StackWord(t, (s.regs.sp - 6) % 0x1_0000) == ip
    && Iret(t) == s.(regs := s.regs.(ip := ip), mem := t.mem)
  }

  lemma FrameHeld(s: State, base: word, f: word, cs: word, ip: word)
    requires WordsAt(s, base, [f, cs, ip])
    ensures StackWord(s, Slot(base, 0)) == f && StackWord(s, Slot(base, 1)) == cs && StackWord(s, Slot(base, 2)) == ip
  {
    hide StackWord;
    assert [f, cs, ip][..2] == [f, cs] && [f, cs][..1] == [f];
    assert WordsAt(s, base, [f, cs]) && WordsAt(s, base, [f]);
  }

  lemma EntryEntered(s: State, vector: nat, ip: word)
    requires s.regs.sp % 2 == 0 && vector <= 1020
    ensures Entered(s, Interrupt(s, vector, ip), vector, ip)
  {
    hide StackWord, Slot, SpAt, FlagWord, Iret;
    var t, c := Interrupt(s, vector, ip), Interrupted(s, ip);
    NestingStarts(s);
    EntryNests(s, s.regs.sp, [], vector, ip);
    assert [] + [c] == [c] && Frames([c]) == Frame(c) by { FramesAppend([], c); }
    FrameHeld(t, s.regs.sp, FlagWord(s.flags), s.regs.cs, ip);
    FrameSlots(s.regs.sp);
    IretRestores(t, s.regs.sp, [c]);
  }

  // INT n enters through the vector at 4 * n and returns behind the instruction; INTO does so
  // through the one at 16 if OF is set, and otherwise goes on behind the instruction.
  lemma SoftwareEntries(s: State, n: byte, length: nat)
    requires s.regs.sp % 2 == 0 && length < 16
    ensures Entered(s, IntN(s, n, length), 4 * n, (s.regs.ip + length) % 0x1_0000)
    ensures if s.flags.of then Entered(s, Into(s, length), 16, (s.regs.ip + length) % 0x1_0000)
            else Into(s, length) == s.(regs := s.regs.(ip := (s.regs.ip + length) % 0x1_0000))
  {
    hide Entered, Interrupt;
    Wrap16Reduces(s.regs.ip + length);
    EntryEntered(s, 4 * n, Wrap16(s.regs.ip + length));
    EntryEntered(s, 16, Wrap16(s.regs.ip + length));
  }

  // NMI enters through the vector at 8, IRQ n through the one at 4 * n and the single-step trap
  // through the one at 4, all returning to the instruction at IP. An instruction that ran with TF
  // set and no shadow is trapped, and so is the first of a handler that starts in its place.
  lemma HardwareEntries(s: State)
    requires s.regs.sp % 2 == 0
    ensures if s.tfWasSet && !s.extIntInhibit then Entered(s, SingleStep(s), 4, s.regs.ip) else SingleStep(s) == s
    ensures var t := s.(nmiPending := false); exists u :: Entered(t, u, 8, s.regs.ip) && HandleNmi(s) == SingleStep(u)
    ensures var t := s.(pendingIrq := 0);
            exists u :: Entered(t, u, 4 * s.pendingIrq, s.regs.ip) && HandleIrq(s) == SingleStep(u)
  {
    hide Entered, Interrupt;
    EntryEntered(s, 4, s.regs.ip);
    EntryEntered(s.(nmiPending := false), 8, s.regs.ip);
    EntryEntered(s.(pendingIrq := 0), 4 * s.pendingIrq, s.regs.ip);
    assert HandleNmi(s) == SingleStep(Interrupt(s.(nmiPending := false), 8, s.regs.ip));
    assert HandleIrq(s) == SingleStep(Interrupt(s.(pendingIrq := 0), 4 * s.pendingIrq, s.regs.ip));
  }
}
