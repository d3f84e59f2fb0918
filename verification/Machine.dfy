// The state of the software CPU (sim/cppmodel/Emulate.cpp, sim/common/RegisterFile.cpp,
// Memory.cpp, CPU.h): registers, flags, 1 MB of memory and the interrupt latches, with the
// stack and the interrupt entry as functions of that state.
module Machine {
  import opened Words
  import opened Flags

  const MEMORY_SIZE: nat := 0x10_0000

  type Mem = m: seq<byte> | |m| == MEMORY_SIZE witness seq(MEMORY_SIZE, _ => 0)

  datatype Regs = Regs(ax: word, cx: word, dx: word, bx: word, sp: word, bp: word, si: word, di: word,
                       es: word, cs: word, ss: word, ds: word, ip: word)

  datatype State = State(regs: Regs, flags: Flags, mem: Mem,
                         nmiPending: bool, extIntInhibit: bool, pendingIrq: byte, tfWasSet: bool)

  // A 16-bit register after a step of less than 64 K in either direction.
  function Wrap16(x: int): (r: word)
    requires -0x1_0000 <= x < 0x2_0000
  {
    if x < 0 then x + 0x1_0000 else if x > 0xffff then x - 0x1_0000 else x
  }

  lemma Wrap16Reduces(x: int)
    requires -0x1_0000 <= x < 0x2_0000
    ensures Wrap16(x) == x % 0x1_0000
  {
    DivModUnique(x, 0x1_0000, if x < 0 then -1 else if x > 0xffff then 1 else 0, Wrap16(x));
  }

  // get_phys_addr: the sum wraps at 1 MB.
  function PhysAddr(segment: word, offset: word): (a: nat)
    ensures a < MEMORY_SIZE
  {
    var x := 16 * segment + offset;
    if x >= MEMORY_SIZE then x - MEMORY_SIZE else x
  }

  lemma PhysAddrReduces(segment: word, offset: word)
    ensures PhysAddr(segment, offset) == (16 * segment + offset) % MEMORY_SIZE
  {
    var x := 16 * segment + offset;
    DivModUnique(x, MEMORY_SIZE, if x >= MEMORY_SIZE then 1 else 0, PhysAddr(segment, offset));
  }

  // Little-endian words. A word access at the last byte of memory fails an assertion in the
  // source; these functions then leave the high byte out.
  function ReadWord(m: Mem, a: nat): word
    requires a < MEMORY_SIZE
  {
    m[a] + (if a + 1 < MEMORY_SIZE then 0x100 * (m[a + 1] as int) else 0)
  }

  function WriteWord(m: Mem, a: nat, v: word): Mem
    requires a < MEMORY_SIZE
  {
    var m' := m[a := v % 0x100];
    if a + 1 < MEMORY_SIZE then m'[a + 1 := v / 0x100] else m'
  }

  lemma ReadBack(m: Mem, a: nat, v: word, b: nat)
    requires a + 1 < MEMORY_SIZE && b + 1 < MEMORY_SIZE && (a == b || a + 2 <= b || b + 2 <= a)
    ensures ReadWord(WriteWord(m, a, v), b) == if a == b then v else ReadWord(m, b)
  {
  }

  // ---- The stack ----

  function StackWord(s: State, offset: word): word {
    ReadWord(s.mem, PhysAddr(s.regs.ss, offset))
  }

  function Push(s: State, v: word): State {
    var sp := Wrap16(s.regs.sp - 2);
    s.(regs := s.regs.(sp := sp), mem := WriteWord(s.mem, PhysAddr(s.regs.ss, sp), v))
  }

  function Pop(s: State): (word, State) {
    (StackWord(s, s.regs.sp), s.(regs := s.regs.(sp := Wrap16(s.regs.sp + 2))))
  }

  // ---- Interrupt entry and return ----

  const VEC_DIVIDE_ERROR: nat := 0

  const VEC_SINGLE_STEP: nat := 4

  const VEC_NMI: nat := 8

  const VEC_INT: nat := 12

  const VEC_OVERFLOW: nat := 16

  function PushFrame(s: State, flags: word, cs: word, ip: word): State {
    Push(Push(Push(s, flags), cs), ip)
  }

  // Push FLAGS, CS and the return IP, clear IF and TF, and jump through the vector.
  function Interrupt(s: State, vector: nat, ip: word): State
    requires vector <= 1020
  {
    var s1 := PushFrame(s, FlagWord(s.flags), s.regs.cs, ip);
    s1.(flags := SetFlags(s.flags, s.flags.(ief := false, tf := false), IF_TF),
        regs := s1.regs.(cs := ReadWord(s1.mem, vector + 2), ip := ReadWord(s1.mem, vector)))
  }

  // IP, CS and FLAGS, and the state with SP above them.
  function PopFrame(s: State): (word, word, word, State) {
    var (ip, s1) := Pop(s);
    var (cs, s2) := Pop(s1);
    var (flags, s3) := Pop(s2);
    (ip, cs, flags, s3)
  }

  function Iret(s: State): State {
    var (ip, cs, flags, s3) := PopFrame(s);
    s3.(regs := s3.regs.(ip := ip, cs := cs), flags := SetFlags(s3.flags, FromWord(flags), ALL_FLAGS))
  }

  // INT N, INT 3 and INTO return behind the instruction; INTO enters only when OF is set.
  function IntN(s: State, n: byte, length: nat): State
    requires length < 16
  {
    Interrupt(s, 4 * n, Wrap16(s.regs.ip + length))
  }

  function Into(s: State, length: nat): State
    requires length < 16
  {
    if s.flags.of then Interrupt(s, VEC_OVERFLOW, Wrap16(s.regs.ip + length))
    else s.(regs := s.regs.(ip := Wrap16(s.regs.ip + length)))
  }

  // The single-step trap of an instruction that ran with TF set, unless an interrupt shadow
  // holds it off.
  function SingleStep(s: State): State {
    if !s.tfWasSet || s.extIntInhibit then s else Interrupt(s, VEC_SINGLE_STEP, s.regs.ip)
  }

  // Both entries are followed at once by the single-step trap.
  function HandleNmi(s: State): State {
    SingleStep(Interrupt(s.(nmiPending := false), VEC_NMI, s.regs.ip))
  }

  function HandleIrq(s: State): State {
    SingleStep(Interrupt(s.(pendingIrq := 0), 4 * s.pendingIrq, s.regs.ip))
  }
}
