// The software CPU as the object it is (EmulatorPimpl in sim/cppmodel/Emulate.cpp with its
// RegisterFile and Memory): methods that update registers, flags, memory and the interrupt
// latches in place, each proved to be the change of state that the other modules reason about.
module Cpu {
  import opened Words
  import opened Flags
  import opened Alu
  import opened Machine
  import opened Stack
  import opened Stepping
  import opened StringOps
  import Bcd
  import Division
  import EnterLeave
  import MulDiv

  // What Memory.cpp asserts of a word access at ss:offset.
  predicate WordFits(ss: word, offset: word) {
    PhysAddr(ss, offset) + 1 < MEMORY_SIZE
  }

  // The same for n pushes from sp.
  predicate PushesFit(ss: word, sp: word, n: nat)
    decreases n
  {
    n == 0 || (WordFits(ss, Wrap16(sp - 2)) && PushesFit(ss, Wrap16(sp - 2), n - 1))
  }

  // With SP even no push ever trips the assertion, nor with BP even does ENTER.
  lemma {:induction false} EvenFits(ss: word, sp: word, n: nat)
    requires sp % 2 == 0
    ensures PushesFit(ss, sp, n) && WordFits(ss, sp)
    decreases n
  {
    SlotsApart(ss, sp, sp);
    if n > 0 { EvenFits(ss, Wrap16(sp - 2), n - 1); }
  }

  // With SP odd it does in the segment that puts the word at the end of memory, and only there.
  lemma OddFits(ss: word, sp: word)
    ensures !WordFits(ss, sp) <==> (16 * ss + sp) % MEMORY_SIZE == 0xf_ffff
  {
    PhysAddrReduces(ss, sp);
  }

  // ENTER pushes BP, the display and the new frame pointer, and reads the display below BP.
  predicate EnterFits(ss: word, sp: word, bp: word, nest: nat) {
    PushesFit(ss, sp, 1 + nest) && (nest > 1 ==> PushesFit(ss, bp, nest - 1))
  }

  predicate TrapDue(s: State) {
    s.tfWasSet && !s.extIntInhibit
  }

  predicate ServeFits(s: State) {
    PushesFit(s.regs.ss, s.regs.sp, if TrapDue(s) then 6 else 3)
  }

  // The stack words that a step touches lie inside memory.
  ghost predicate StepFits(s: State, insn: Insn)
    requires insn.Valid()
  {
    var s0 := s.(tfWasSet := s.flags.tf);
    if NmiReady(s0) || IrqReady(s0) then ServeFits(s0)
    else
      && (insn.PopSr? ==> WordFits(s0.regs.ss, s0.regs.sp))
      && var s1 := Executed(s0, insn);
         if NmiReady(s1) || IrqReady(s1) then ServeFits(s1)
         else TrapDue(s1) ==> PushesFit(s1.regs.ss, s1.regs.sp, 3)
  }

  const RESET := Regs(0, 0, 0, 0, 0, 0, 0, 0, 0, 0, 0, 0, 0)

  lemma QuotientInWord(n: dword, v: word)
    requires !Division.DivFaults(n, v)
    ensures v != 0 && 0 <= n / v <= 0xffff && 0 <= n % v <= 0xffff
  {
    DivModDef(n, v);
    if n / v < 0 { MulLe(n / v, -1, v); }
  }

  // AX with a new low byte.
  function WithAl(ax: word, al: byte): (r: word)
    ensures r / 0x100 == ax / 0x100 && r % 0x100 == al
  {
    ax - ax % 0x100 + al
  }

  // The truncation to 8 bits.
  function Low8(x: word): (r: byte)
    ensures x < 0x100 ==> r == x
    ensures 0x100 <= x < 0x200 ==> r == x - 0x100
    ensures 0xff00 <= x ==> r == x - 0xff00
  {
    x % 0x100
  }

  // The steps of daa27 on CF, AF and AL; tmp is 16 bits wide.
  method DaaSteps(flags: Flags, al0: byte) returns (cf: bool, af: bool, al: byte)
    ensures (flags.(cf := cf, af := af), al) == Bcd.Daa(flags, al0)
  {
    hide Low8;
    var al16: word := al0;
    cf, af := flags.cf, flags.af;
    if al16 % 16 > 9 || af {
      var tmp: word := al16 + 6;
      al16 := Low8(tmp);
      af := true;
      if tmp > 0xff { cf := true; }
    } else {
      af := false;
    }
    if al16 > 0x9f || cf {
      al16 := al16 + 0x60;
      cf := true;
    }
    al := Low8(al16);
  }

  // DAS from its two decisions, af and cf, and the values of AL after each.
  lemma DasIs(flags: Flags, al0: byte, af: bool, al1: byte, cf: bool, al2: word)
    requires af == (al0 % 16 > 9 || flags.af) && al1 == (if af then Bcd.Wrap8(al0 - 6) else al0)
    requires cf == (al1 > 0x9f || flags.cf || (af && al0 < 6)) && al2 == (if cf then Wrap16(al1 - 0x60) else al1)
    ensures Bcd.Das(flags, al0)
         == (flags.(cf := cf, af := af, sf := flags.sf || Bit(al2, 7), zf := flags.zf || al2 == 0,
                    pf := flags.pf || Ones(al2, 16) % 2 == 0),
             Low8(al2))
  {
    hide Bit, Ones, Low8;
  }

  // The steps of das2f on the flags and AL, which is held in 16 bits until it is stored.
  method DasSteps(flags: Flags, al0: byte) returns (cf: bool, af: bool, sf: bool, zf: bool, pf: bool, al: byte)
    ensures (flags.(cf := cf, af := af, sf := sf, zf := zf, pf := pf), al) == Bcd.Das(flags, al0)
  {
    hide Bcd.Das, Low8, Bit, Ones;
    var al16: word := al0;
    cf, af, sf, zf, pf := flags.cf, flags.af, flags.sf, flags.zf, flags.pf;
    if al16 % 16 > 9 || af {
      var tmp := Wrap16(al16 - 6);
      al16 := Low8(tmp);
      af := true;
      if tmp > 0xff { cf := true; }
    } else {
      af := false;
    }
    ghost var al1: byte := al16;
    if al16 > 0x9f || cf {
      al16 := Wrap16(al16 - 0x60);
      cf := true;
    } else {
      cf := false;
    }
    DasIs(flags, al0, af, al1, cf, al16);
    if Bit(al16, 7) { sf := true; }
    if al16 == 0 { zf := true; }
    if Ones(al16, 16) % 2 == 0 { pf := true; }
    al := Low8(al16);
  }

  // Three pops from sp.
  predicate PopsFit(ss: word, sp: word) {
    && WordFits(ss, sp) && WordFits(ss, Wrap16(sp + 2)) && WordFits(ss, Wrap16(Wrap16(sp + 2) + 2))
  }

  lemma SixFits(ss: word, sp: word)
    ensures PushesFit(ss, sp, 6) ==> PushesFit(ss, sp, 3)
    ensures PushesFit(ss, sp, 6) ==> PushesFit(ss, Wrap16(Wrap16(Wrap16(sp - 2) - 2) - 2), 3)
  {
    var a: word := Wrap16(sp - 2);
    var b: word := Wrap16(a - 2);
    var c: word := Wrap16(b - 2);
    assert PushesFit(ss, sp, 6) ==> PushesFit(ss, a, 5);
    assert PushesFit(ss, a, 5) ==> PushesFit(ss, b, 4);
    assert PushesFit(ss, b, 4) ==> PushesFit(ss, c, 3);
    assert PushesFit(ss, b, 1) && PushesFit(ss, a, 2) <== PushesFit(ss, b, 4) && PushesFit(ss, a, 5);
  }

  // One round of do_rep.
  lemma RepOnce(op: StringOp, mode: RepMode, seg: word, s: State)
    ensures s.regs.cx == 0 ==> Rep(op, mode, seg, s) == s
    ensures s.regs.cx > 0 ==>
              var s1 := Primitive(op, seg, s);
              var s2 := s1.(regs := s1.regs.(cx := s.regs.cx - 1));
              && s1.regs.cx == s.regs.cx
              && Rep(op, mode, seg, s) == if Complete(op, mode, s2) then s2 else Rep(op, mode, seg, s2)
  {
  }

  lemma PushMoves(s: State, v: word)
    ensures Push(s, v).regs == s.regs.(sp := Wrap16(s.regs.sp - 2))
  {
  }

  class Emulator {
    var regs: Regs
    var flags: Flags
    const mem: array<byte>
    var nmiPending: bool
    var extIntInhibit: bool
    var pendingIrq: byte
    var tfWasSet: bool

    ghost predicate Valid() {
      mem.Length == MEMORY_SIZE
    }

    ghost function St(): State
      requires Valid()
      reads this, mem
    {
      State(regs, flags, mem[..], nmiPending, extIntInhibit, pendingIrq, tfWasSet)
    }

    // All registers and flags are clear after reset; the initial memory is a parameter.
    constructor (memory: Mem)
      ensures Valid() && fresh(mem)
      ensures St() == State(RESET, NO_FLAGS, memory, false, false, 0, false)
    {
      mem := new byte[MEMORY_SIZE](i requires 0 <= i < MEMORY_SIZE => memory[i]);
      regs, flags := RESET, NO_FLAGS;
      nmiPending, extIntInhibit, pendingIrq, tfWasSet := false, false, 0, false;
      new;
      assert mem[..] == memory;
    }

    // ---- Memory and stack ----

    method Read16(a: nat) returns (v: word)
      requires Valid() && a + 1 < MEMORY_SIZE
      ensures v == ReadWord(mem[..], a)
    {
      v := mem[a] + 0x100 * (mem[a + 1] as int);
    }

    method Write16(a: nat, v: word)
      requires Valid() && a + 1 < MEMORY_SIZE
      modifies mem
      ensures mem[..] == WriteWord(old(mem[..]), a, v)
    {
      mem[a] := v % 0x100;
      mem[a + 1] := v / 0x100;
    }

    method PushWord(v: word)
      requires Valid() && WordFits(regs.ss, Wrap16(regs.sp - 2))
      modifies this`regs, mem
      ensures St() == Push(old(St()), v)
    {
      regs := regs.(sp := Wrap16(regs.sp - 2));
      Write16(PhysAddr(regs.ss, regs.sp), v);
    }

    method PopWord() returns (v: word)
      requires Valid() && WordFits(regs.ss, regs.sp)
      modifies this`regs
      ensures (v, St()) == Pop(old(St()))
    {
      v := Read16(PhysAddr(regs.ss, regs.sp));
      regs := regs.(sp := Wrap16(regs.sp + 2));
    }

    // ---- Interrupts ----

    method RaiseNmi()
      requires Valid()
      modifies this`nmiPending
      ensures St() == old(St()).(nmiPending := true)
    {
      nmiPending := true;
    }

    method RaiseIrq(vector: byte)
      requires Valid()
      modifies this`pendingIrq
      ensures St() == old(St()).(pendingIrq := vector)
    {
      pendingIrq := vector;
    }

    // The sequence that every entry repeats.
    method EnterInterrupt(vector: nat, ip: word)
      requires Valid() && vector <= 1020 && PushesFit(regs.ss, regs.sp, 3)
      modifies this`regs, this`flags, mem
      ensures St() == Interrupt(old(St()), vector, ip)
      ensures regs.ss == old(regs.ss) && regs.sp == Wrap16(Wrap16(Wrap16(old(regs.sp) - 2) - 2) - 2)
    {
      hide FlagWord, FromWord, WriteWord, ReadWord;
      var f := FlagWord(flags);
      assert PushesFit(regs.ss, Wrap16(regs.sp - 2), 2);
      assert PushesFit(regs.ss, Wrap16(Wrap16(regs.sp - 2) - 2), 1);
      PushWord(f);
      PushWord(regs.cs);
      PushWord(ip);
      FlagWordRoundTrip(flags);
      flags := SetFlags(flags, FromWord(f).(ief := false, tf := false), IF_TF);
      var newCs := Read16(vector + 2);
      var newIp := Read16(vector);
      regs := regs.(cs := newCs, ip := newIp);
    }

    // INT N; the one-byte INT 3 is the case n = 3.
    method SoftwareInterrupt(n: byte, length: nat)
      requires Valid() && length < 16 && PushesFit(regs.ss, regs.sp, 3)
      modifies this`regs, this`flags, mem
      ensures St() == IntN(old(St()), n, length)
    {
      hide Interrupt;
      EnterInterrupt(4 * n, Wrap16(regs.ip + length));
    }

    method Breakpoint(length: nat)
      requires Valid() && length < 16 && PushesFit(regs.ss, regs.sp, 3)
      modifies this`regs, this`flags, mem
      ensures St() == IntN(old(St()), 3, length)
    {
      hide Interrupt;
      EnterInterrupt(VEC_INT, Wrap16(regs.ip + length));
    }

    method InterruptOnOverflow(length: nat)
      requires Valid() && length < 16 && (flags.of ==> PushesFit(regs.ss, regs.sp, 3))
      modifies this`regs, this`flags, mem
      ensures St() == Into(old(St()), length)
    {
      hide Interrupt;
      if !flags.of {
        regs := regs.(ip := Wrap16(regs.ip + length));
        return;
      }
      EnterInterrupt(VEC_OVERFLOW, Wrap16(regs.ip + length));
    }

    // What keeps single_step from doing anything.
    predicate TrapHeld()
      reads this
    {
      !tfWasSet || extIntInhibit
    }

    method TakeSingleStep()
      requires Valid() && (TrapDue(St()) ==> PushesFit(regs.ss, regs.sp, 3))
      modifies this`regs, this`flags, mem
      ensures St() == SingleStep(old(St()))
    {
      if TrapHeld() { return; }
      EnterInterrupt(VEC_SINGLE_STEP, regs.ip);
    }

    method TakeNmi()
      requires Valid() && ServeFits(St())
      modifies this`regs, this`flags, this`nmiPending, mem
      ensures St() == HandleNmi(old(St()))
    {
      hide Interrupt;
      SixFits(regs.ss, regs.sp);
      nmiPending := false;
      EnterInterrupt(VEC_NMI, regs.ip);
      TakeSingleStep();
    }

    // The result is the vector acknowledged to the interrupt controller.
    method TakeIrq() returns (acknowledged: byte)
      requires Valid() && ServeFits(St()) && pendingIrq != 0
      modifies this`regs, this`flags, this`pendingIrq, mem
      ensures St() == HandleIrq(old(St())) && acknowledged == old(pendingIrq)
    {
      hide Interrupt;
      SixFits(regs.ss, regs.sp);
      acknowledged := pendingIrq;
      pendingIrq := 0;
      EnterInterrupt(4 * acknowledged, regs.ip);
      TakeSingleStep();
    }

    method InterruptReturn()
      requires Valid() && PopsFit(regs.ss, regs.sp)
      modifies this`regs, this`flags
      ensures St() == Iret(old(St()))
    {
      hide FromWord, ReadWord;
      var ip := PopWord();
      var cs := PopWord();
      var f := PopWord();
      regs := regs.(ip := ip, cs := cs);
      flags := SetFlags(flags, FromWord(f), ALL_FLAGS);
    }

    // ---- Arithmetic ----

    // ADD, ADC, SUB and SBB; CMP drops the result.
    method Arithmetic(op: AluOp, w: nat, a: nat, b: nat, withCarry: bool) returns (result: nat)
      requires 8 <= w < 32 && a < Pow2(w) && b < Pow2(w)
      modifies this`flags
      ensures (flags, result) == AluInsn(old(flags), op, w, a, b, withCarry)
    {
      var f;
      f, result := DoAlu(flags, op, w, a, b, withCarry && flags.cf);
      flags := SetFlags(flags, f, ARITHMETIC);
    }

    method IncOrDec(op: AluOp, w: nat, v: nat) returns (result: nat)
      requires 8 <= w < 32 && v < Pow2(w)
      modifies this`flags
      ensures (flags, result) == IncDec(old(flags), op, w, v)
    {
      OneFits(w);
      var f;
      f, result := DoAlu(flags, op, w, v, 1, false);
      flags := SetFlags(flags, f, ARITHMETIC.(cf := false));
    }

    // A conditional jump with a signed 8-bit displacement from behind the instruction.
    method JumpIf(c: Condition, displacement: int, length: nat)
      requires -0x80 <= displacement < 0x80 && length < 16
      modifies this`regs
      ensures regs == old(regs).(ip := (old(regs).ip + length + (if Taken(c, flags) then displacement else 0)) % 0x1_0000)
    {
      Wrap16Reduces(regs.ip + length);
      Wrap16Reduces(regs.ip + displacement + length);
      if Taken(c, flags) {
        regs := regs.(ip := Wrap16(regs.ip + displacement + length));
      } else {
        regs := regs.(ip := Wrap16(regs.ip + length));
      }
    }

    method DecimalAdjustAdd()
      modifies this`regs, this`flags
      ensures var (f, al) := Bcd.Daa(old(flags), old(regs).ax % 0x100);
              flags == f && regs == old(regs).(ax := WithAl(old(regs).ax, al))
    {
      hide Bcd.Daa;
      var cf, af, al := DaaSteps(flags, regs.ax % 0x100);
      regs := regs.(ax := WithAl(regs.ax, al));
      flags := SetFlags(flags, flags.(cf := cf, af := af), ARITHMETIC.(of := false));
    }

    method DecimalAdjustSubtract()
      modifies this`regs, this`flags
      ensures var (f, al) := Bcd.Das(old(flags), old(regs).ax % 0x100);
              flags == f && regs == old(regs).(ax := WithAl(old(regs).ax, al))
    {
      hide Bcd.Das;
      var cf, af, sf, zf, pf, al := DasSteps(flags, regs.ax % 0x100);
      regs := regs.(ax := WithAl(regs.ax, al));
      flags := SetFlags(flags, flags.(cf := cf, af := af, sf := sf, zf := zf, pf := pf), ARITHMETIC.(of := false));
    }

    // ---- Multiplication and division ----

    method StoreProduct(product: dword)
      requires Valid()
      modifies this`regs, this`flags
      ensures St() == MulDiv.StoreProduct(old(St()), product)
    {
      var f := flags.(cf := false, of := false, zf := false);
      if product > 0xffff { f := f.(cf := true, of := true); }
      regs := regs.(ax := product % 0x1_0000, dx := product / 0x1_0000);
      flags := SetFlags(flags, f, MulDiv.MUL_FLAGS);
    }

    method Multiply(v: word)
      requires Valid()
      modifies this`regs, this`flags
      ensures St() == MulDiv.Mul(old(St()), v)
    {
      MulDiv.ProductFits(v, regs.ax);
      StoreProduct(v * regs.ax);
    }

    method SignedMultiply(v: word)
      requires Valid()
      modifies this`regs, this`flags
      ensures St() == MulDiv.Imul(old(St()), v)
    {
      var v1, v2 := Signed(v, 0x1_0000), Signed(regs.ax, 0x1_0000);
      StoreProduct(v1 * v2 % 0x1_0000_0000);
    }

    method Divide(v: word)
      requires Valid()
      requires Division.DivFaults(regs.dx * 0x1_0000 + regs.ax, v) ==> PushesFit(regs.ss, regs.sp, 3)
      modifies this`regs, this`flags, mem
      ensures St() == MulDiv.Div(old(St()), v)
    {
      hide Interrupt, Division.DivFaults;
      var dividend := regs.dx * 0x1_0000 + regs.ax;
      if Division.DivFaults(dividend, v) {
        EnterInterrupt(VEC_DIVIDE_ERROR, regs.ip);
      } else {
        QuotientInWord(dividend, v);
        regs := regs.(dx := dividend % v, ax := dividend / v);
      }
    }

    method SignedDivide(v: word)
      requires Valid()
      requires Division.IDivFaults(Signed(regs.dx * 0x1_0000 + regs.ax, 0x1_0000_0000), Signed(v, 0x1_0000)) ==>
                 PushesFit(regs.ss, regs.sp, 3)
      modifies this`regs, this`flags, mem
      ensures St() == MulDiv.Idiv(old(St()), v)
    {
      hide Interrupt, TruncDiv, TruncMod;
      var divisor, dividend := Signed(v, 0x1_0000), Signed(regs.dx * 0x1_0000 + regs.ax, 0x1_0000_0000);
      if divisor == 0 || TruncDiv(dividend, divisor) < -0x8000 || TruncDiv(dividend, divisor) > 0x7fff {
        EnterInterrupt(VEC_DIVIDE_ERROR, regs.ip);
        return;
      }
      regs := regs.(dx := TruncMod(dividend, divisor) % 0x1_0000, ax := TruncDiv(dividend, divisor) % 0x1_0000);
    }

    // ---- ENTER and LEAVE ----

    // The body of the nesting loop.
    method CopyFramePointer()
      requires Valid() && WordFits(regs.ss, Wrap16(regs.bp - 2)) && WordFits(regs.ss, Wrap16(regs.sp - 2))
      modifies this`regs, mem
      ensures St() == EnterLeave.CopyPointer(old(St()))
      ensures regs == old(regs).(sp := Wrap16(old(regs).sp - 2), bp := Wrap16(old(regs).bp - 2))
    {
      regs := regs.(bp := Wrap16(regs.bp - 2));
      var saved := Read16(PhysAddr(regs.ss, regs.bp));
      PushWord(saved);
    }

    // IP is advanced by the caller.
    method EnterFrame(size: word, nesting: byte)
      requires Valid() && EnterFits(regs.ss, regs.sp, regs.bp, nesting % 32)
      modifies this`regs, mem
      ensures St() == EnterLeave.Enter(old(St()), size, nesting)
    {
      hide Push, EnterLeave.CopyPointer, WordFits;
      var nest := nesting % 32;
      PushMoves(St(), regs.bp);
      PushWord(regs.bp);
      var frameTemp := regs.sp;
      ghost var s1 := St();
      for i := 1 to if nest > 1 then nest else 1
        invariant St() == EnterLeave.CopyDisplay(s1, i - 1)
        invariant nest > 0 ==> PushesFit(regs.ss, regs.sp, nest + 1 - i)
        invariant nest > 1 ==> PushesFit(regs.ss, regs.bp, nest - i)
      {
        CopyFramePointer();
      }
      if nest > 0 {
        PushWord(frameTemp);
      }
      regs := regs.(bp := frameTemp, sp := Wrap16(regs.sp - size));
    }

    method LeaveFrame()
      requires Valid() && WordFits(regs.ss, regs.bp)
      modifies this`regs
      ensures St() == EnterLeave.Leave(old(St()))
    {
      regs := regs.(sp := regs.bp);
      var bp := PopWord();
      regs := regs.(bp := bp);
    }

    // ---- String instructions ----

    predicate StringRepComplete(mode: RepMode)
      reads this
    {
      (mode == REPE && !flags.zf) || (mode == REPNE && flags.zf)
    }

    method StringPrimitive(op: StringOp, seg: word)
      requires Valid()
      modifies this`regs, this`flags, mem
      ensures St() == Primitive(op, seg, old(St()))
    {
      hide AluInsn, PhysAddr, Pow2;
      Pow2Of16();
      match op
      case Movsb =>
        mem[PhysAddr(regs.es, regs.di)] := mem[PhysAddr(seg, regs.si)];
        regs := regs.(si := Next(flags, regs.si), di := Next(flags, regs.di));
      case Cmpsb =>
        CompareBytesMeaning(flags, mem[PhysAddr(seg, regs.si)], mem[PhysAddr(regs.es, regs.di)]);
        var r := Arithmetic(Sub, 8, mem[PhysAddr(seg, regs.si)], mem[PhysAddr(regs.es, regs.di)], false);
        regs := regs.(si := Next(flags, regs.si), di := Next(flags, regs.di));
      case Scasb =>
        CompareBytesMeaning(flags, regs.ax % 0x100, mem[PhysAddr(regs.es, regs.di)]);
        var r := Arithmetic(Sub, 8, regs.ax % 0x100, mem[PhysAddr(regs.es, regs.di)], false);
        regs := regs.(di := Next(flags, regs.di));
    }

    // A pass of do_rep's loop; the result is what should_terminate answers.
    method RepPass(op: StringOp, mode: RepMode, seg: word) returns (stop: bool)
      requires Valid() && regs.cx > 0
      modifies this`regs, this`flags, mem
      ensures regs.cx == old(regs.cx) - 1 && stop == Complete(op, mode, St())
      ensures Rep(op, mode, seg, old(St())) == if stop then St() else Rep(op, mode, seg, St())
    {
      hide Primitive, Rep;
      RepOnce(op, mode, seg, St());
      StringPrimitive(op, seg);
      regs := regs.(cx := regs.cx - 1);
      stop := !op.Movsb? && StringRepComplete(mode);
    }

    method DoRep(op: StringOp, hasRepPrefix: bool, mode: RepMode, seg: word)
      requires Valid()
      modifies this`regs, this`flags, mem
      ensures St() == if hasRepPrefix then Rep(op, mode, seg, old(St())) else Primitive(op, seg, old(St()))
    {
      hide Primitive, Rep, Complete;
      if !hasRepPrefix {
        StringPrimitive(op, seg);
        return;
      }
      while regs.cx != 0
        invariant Rep(op, mode, seg, St()) == Rep(op, mode, seg, old(St()))
        decreases regs.cx
      {
        var stop := RepPass(op, mode, seg);
        if stop { return; }
      }
      RepOnce(op, mode, seg, St());
    }

    // ---- Steps ----

    method Execute(insn: Insn)
      requires Valid() && insn.Valid() && (insn.PopSr? ==> WordFits(regs.ss, regs.sp))
      modifies this`regs, this`flags, this`extIntInhibit, mem
      ensures St() == Executed(old(St()), insn)
    {
      extIntInhibit := false;
      match insn
      case Sti(length) =>
        flags := SetFlags(flags, flags.(ief := true), NO_FLAGS.(ief := true));
        extIntInhibit := true;
        regs := Advance(regs, length);
      case MovSr(sr, v, length) =>
        regs := SetSeg(regs, sr, v);
        extIntInhibit := true;
        regs := Advance(regs, length);
      case PopSr(sr, length) =>
        var v := Read16(PhysAddr(regs.ss, regs.sp));
        regs := SetSeg(regs, sr, v);
        regs := regs.(sp := Wrap16(regs.sp + 2));
        extIntInhibit := true;
        regs := Advance(regs, length);
      case Other(newRegs, newFlags, newMem) =>
        regs, flags := newRegs, newFlags;
        forall i | 0 <= i < mem.Length { mem[i] := newMem[i]; }
    }

    // The test at the start and at the end of a step.
    method ServePending() returns (acts: seq<Act>)
      requires Valid() && (NmiReady(St()) || IrqReady(St())) && ServeFits(St())
      modifies this`regs, this`flags, this`nmiPending, this`pendingIrq, mem
      ensures (St(), acts) == Serve(old(St()))
    {
      hide PushesFit, HandleNmi, HandleIrq;
      var trap: seq<Act> := if TrapHeld() then [] else [TrapEntry];
      if nmiPending && !extIntInhibit {
        acts := [NmiEntry] + trap;
        TakeNmi();
      } else {
        acts := [IrqEntry(pendingIrq)] + trap;
        var n := TakeIrq();
      }
    }

    method TakeStep(insn: Insn) returns (acts: seq<Act>)
      requires Valid() && insn.Valid() && StepFits(St(), insn)
      modifies this`regs, this`flags, this`nmiPending, this`extIntInhibit, this`pendingIrq, this`tfWasSet, mem
      ensures (St(), acts) == Step(old(St()), insn)
    {
      hide PushesFit, Serve, SingleStep, Executed;
      tfWasSet := flags.tf;
      if (nmiPending && !extIntInhibit) || (pendingIrq != 0 && !extIntInhibit && flags.ief) {
        acts := ServePending();
        return;
      }
      Execute(insn);
      if (nmiPending && !extIntInhibit) || (pendingIrq != 0 && !extIntInhibit && flags.ief) {
        acts := ServePending();
      } else {
        acts := if TrapHeld() then [] else [TrapEntry];
        TakeSingleStep();
      }
      acts := [Ran(insn)] + acts;
    }
  }
}
