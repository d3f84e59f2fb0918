// push_word and pop_word (sim/cppmodel/Emulate.cpp) as a stack: runs of any length with up to
// 32768 words outstanding, through the wrap of SP at 0 and of addresses at 1 MB, and nested
// interrupts on top of it.
module Stack {
  import opened Words
  import opened Flags
  import opened Machine

  // The offset of the j-th word pushed since SP was base.
  function Slot(base: word, j: nat): word
    requires j < 0x8000
  {
    Wrap16(base - 2 * (j + 1))
  }

  // SP after n pushes.
  function SpAt(base: word, n: nat): word
    requires n <= 0x8000
  {
    Wrap16(base - 2 * n)
  }

  // Even offsets reach words that stay inside memory and do not overlap.
  lemma SlotsApart(ss: word, o: word, p: word)
    requires o % 2 == 0 && p % 2 == 0
    ensures PhysAddr(ss, o) + 1 < MEMORY_SIZE
    ensures o != p ==> PhysAddr(ss, o) + 2 <= PhysAddr(ss, p) || PhysAddr(ss, p) + 2 <= PhysAddr(ss, o)
  {
  }

  // A push at any SP: the low byte goes two below SP, the high byte behind it in memory, and
  // nothing else changes.
  lemma PushWritten(s: State, v: word)
    ensures var t := Push(s, v);
            var a := (16 * s.regs.ss + (s.regs.sp - 2) % 0x1_0000) % 0x10_0000;
            && t == s.(regs := s.regs.(sp := (s.regs.sp - 2) % 0x1_0000), mem := t.mem)
            && t.mem[a] == v % 0x100 && (a < 0xf_ffff ==> t.mem[a + 1] == v / 0x100)
            && forall b :: 0 <= b < 0x10_0000 && b != a && b != a + 1 ==> t.mem[b] == s.mem[b]
  {
    Wrap16Reduces(s.regs.sp - 2);
    PhysAddrReduces(s.regs.ss, Wrap16(s.regs.sp - 2));
  }

  // A pop at any SP reads what lies there, the low byte first.
  lemma PopRead(s: State)
    ensures var a := (16 * s.regs.ss + s.regs.sp) % 0x10_0000;
            && Pop(s).1 == s.(regs := s.regs.(sp := (s.regs.sp + 2) % 0x1_0000))
            && (a < 0xf_ffff ==> Pop(s).0 == s.mem[a] + 0x100 * (s.mem[a + 1] as int))
  {
    Wrap16Reduces(s.regs.sp + 2);
    PhysAddrReduces(s.regs.ss, s.regs.sp);
  }

  // It leaves every offset of the stack segment but the two below SP.
  lemma PushKeepsByte(s: State, v: word, o: word)
    requires o != (s.regs.sp - 2) % 0x1_0000 && o != (s.regs.sp - 1) % 0x1_0000
    ensures Push(s, v).mem[PhysAddr(s.regs.ss, o)] == s.mem[PhysAddr(s.regs.ss, o)]
  {
    Wrap16Reduces(s.regs.sp - 2);
    Wrap16Reduces(s.regs.sp - 1);
  }

  // The slots below base hold the words of stk, the last pushed in the lowest slot.
  ghost predicate WordsAt(s: State, base: word, stk: seq<word>)
    requires |stk| <= 0x8000
  {
    stk == [] || (StackWord(s, Slot(base, |stk| - 1)) == stk[|stk| - 1] && WordsAt(s, base, stk[..|stk| - 1]))
  }

  ghost predicate Holds(s: State, base: word, stk: seq<word>) {
    base % 2 == 0 && |stk| <= 0x8000 && s.regs.sp == SpAt(base, |stk|) && WordsAt(s, base, stk)
  }

  // Only SS and memory matter to what the slots hold.
  lemma SameWords(s: State, t: State, base: word, stk: seq<word>)
    requires |stk| <= 0x8000 && WordsAt(s, base, stk) && t.mem == s.mem && t.regs.ss == s.regs.ss
    ensures WordsAt(t, base, stk)
  {
    if stk != [] { SameWords(s, t, base, stk[..|stk| - 1]); }
  }

  lemma PushKeepsWord(s: State, base: word, j: nat, n: nat, v: word)
    requires base % 2 == 0 && j < n < 0x8000 && s.regs.sp == SpAt(base, n)
    ensures StackWord(Push(s, v), Slot(base, j)) == StackWord(s, Slot(base, j))
  {
    var o, top := Slot(base, j), Slot(base, n);
    SlotsApart(s.regs.ss, o, top);
    SlotsApart(s.regs.ss, top, top);
    ReadBack(s.mem, PhysAddr(s.regs.ss, top), v, PhysAddr(s.regs.ss, o));
  }

  // A push above the words leaves them in place.
  lemma PushKeepsWords(s: State, base: word, stk: seq<word>, n: nat, v: word)
    requires base % 2 == 0 && |stk| <= n < 0x8000 && s.regs.sp == SpAt(base, n) && WordsAt(s, base, stk)
    ensures WordsAt(Push(s, v), base, stk)
  {
    if stk != [] {
      PushKeepsWords(s, base, stk[..|stk| - 1], n, v);
      PushKeepsWord(s, base, |stk| - 1, n, v);
    }
  }

  lemma PushHolds(s: State, base: word, stk: seq<word>, v: word)
    requires Holds(s, base, stk) && |stk| < 0x8000
    ensures Holds(Push(s, v), base, stk + [v])
    ensures Push(s, v) == s.(regs := s.regs.(sp := Slot(base, |stk|)), mem := Push(s, v).mem)
    ensures PhysAddr(s.regs.ss, Slot(base, |stk|)) + 1 < MEMORY_SIZE
  {
    var top := Slot(base, |stk|);
    SlotsApart(s.regs.ss, top, top);
    PushKeepsWords(s, base, stk, |stk|, v);
    ReadBack(s.mem, PhysAddr(s.regs.ss, top), v, PhysAddr(s.regs.ss, top));
    assert (stk + [v])[..|stk|] == stk;
  }

  lemma PopHolds(s: State, base: word, stk: seq<word>)
    requires Holds(s, base, stk) && stk != []
    ensures Pop(s).0 == stk[|stk| - 1]
    ensures Holds(Pop(s).1, base, stk[..|stk| - 1])
    ensures Pop(s).1 == s.(regs := s.regs.(sp := SpAt(base, |stk| - 1)))
    ensures PhysAddr(s.regs.ss, s.regs.sp) + 1 < MEMORY_SIZE
  {
    SlotsApart(s.regs.ss, s.regs.sp, s.regs.sp);
    assert s.regs.sp == Slot(base, |stk| - 1);
    SameWords(s, Pop(s).1, base, stk[..|stk| - 1]);
  }

  lemma PushFrameHolds(s: State, base: word, stk: seq<word>, f: word, cs: word, ip: word)
    requires Holds(s, base, stk) && |stk| + 3 <= 0x8000
    ensures Holds(PushFrame(s, f, cs, ip), base, stk + [f, cs, ip])
    ensures var s' := PushFrame(s, f, cs, ip);
            s' == s.(regs := s.regs.(sp := SpAt(base, |stk| + 3)), mem := s'.mem)
  {
    PushHolds(s, base, stk, f);
    PushHolds(Push(s, f), base, stk + [f], cs);
    PushHolds(Push(Push(s, f), cs), base, stk + [f] + [cs], ip);
    assert stk + [f] + [cs] + [ip] == stk + [f, cs, ip];
  }

  lemma PopFrameHolds(s: State, base: word, stk: seq<word>, f: word, cs: word, ip: word)
    requires Holds(s, base, stk + [f, cs, ip])
    ensures PopFrame(s) == (ip, cs, f, s.(regs := s.regs.(sp := SpAt(base, |stk|))))
    ensures Holds(PopFrame(s).3, base, stk)
  {
    var full := stk + [f, cs, ip];
    PopHolds(s, base, full);
    var s1 := Pop(s).1;
    assert full[..|stk| + 2] == stk + [f, cs];
    PopHolds(s1, base, stk + [f, cs]);
    var s2 := Pop(s1).1;
    assert (stk + [f, cs])[..|stk| + 1] == stk + [f];
    PopHolds(s2, base, stk + [f]);
    assert (stk + [f])[..|stk|] == stk;
  }

  lemma SameStack(s: State, t: State, base: word, stk: seq<word>)
    requires Holds(s, base, stk) && t.mem == s.mem && t.regs.ss == s.regs.ss && t.regs.sp == s.regs.sp
    ensures Holds(t, base, stk)
  {
    SameWords(s, t, base, stk);
  }

  // ---- Whole runs ----

  datatype StackOp = PushOp(v: word) | PopOp

  // Every pop finds a word, and never more than n are outstanding.
  predicate Balanced(depth: nat, n: nat, ops: seq<StackOp>)
    decreases |ops|
  {
    if ops == [] then depth <= n
    else match ops[0]
      case PushOp(_) => depth < n && Balanced(depth + 1, n, ops[1..])
      case PopOp => 0 < depth && depth <= n && Balanced(depth - 1, n, ops[1..])
  }

  // The machine's run, with the words it pops.
  function Run(s: State, ops: seq<StackOp>): (State, seq<word>)
    decreases |ops|
  {
    if ops == [] then (s, [])
    else match ops[0]
      case PushOp(v) => Run(Push(s, v), ops[1..])
      case PopOp =>
        var (v, s1) := Pop(s);
        var (s2, vs) := Run(s1, ops[1..]);
        (s2, [v] + vs)
  }

  // The same run on an abstract stack.
  function AbstractRun(stk: seq<word>, ops: seq<StackOp>, n: nat): (seq<word>, seq<word>)
    requires Balanced(|stk|, n, ops)
    decreases |ops|
  {
    if ops == [] then (stk, [])
    else match ops[0]
      case PushOp(v) => AbstractRun(stk + [v], ops[1..], n)
      case PopOp =>
        var (stk', vs) := AbstractRun(stk[..|stk| - 1], ops[1..], n);
        (stk', [stk[|stk| - 1]] + vs)
  }

  // An address that none of the first n slots covers.
  ghost predicate Outside(ss: word, base: word, n: nat, a: nat)
    requires n <= 0x8000
  {
    forall j {:trigger Slot(base, j)} :: 0 <= j < n ==>
      a != PhysAddr(ss, Slot(base, j)) && a != PhysAddr(ss, Slot(base, j)) + 1
  }

  lemma PushOutside(s: State, base: word, n: nat, depth: nat, v: word, a: nat)
    requires base % 2 == 0 && depth < n <= 0x8000 && s.regs.sp == SpAt(base, depth)
    requires a < MEMORY_SIZE && Outside(s.regs.ss, base, n, a)
    ensures Push(s, v).mem[a] == s.mem[a]
  {
    assert Slot(base, depth) == Wrap16(s.regs.sp - 2);
  }

  // The machine pops what the abstract stack pops, ends holding what it holds, and has changed
  // no register but SP and no memory but the slots used.
  lemma {:induction false} StackRefines(s: State, base: word, stk: seq<word>, n: nat, ops: seq<StackOp>)
    requires n <= 0x8000 && Holds(s, base, stk) && Balanced(|stk|, n, ops)
    ensures var (s', popped) := Run(s, ops);
            var (stk', popped') := AbstractRun(stk, ops, n);
            && popped == popped' && Holds(s', base, stk')
            && s' == s.(regs := s.regs.(sp := SpAt(base, |stk'|)), mem := s'.mem)
            && forall a :: 0 <= a < MEMORY_SIZE && Outside(s.regs.ss, base, n, a) ==> s'.mem[a] == s.mem[a]
    decreases |ops|
  {
    hide Push, Pop, WordsAt, Outside, Slot, SpAt;
    if ops != [] {
      match ops[0]
      case PushOp(v) =>
        PushHolds(s, base, stk, v);
        StackRefines(Push(s, v), base, stk + [v], n, ops[1..]);
        forall a | 0 <= a < MEMORY_SIZE && Outside(s.regs.ss, base, n, a)
          ensures Push(s, v).mem[a] == s.mem[a]
        {
          PushOutside(s, base, n, |stk|, v, a);
        }
      case PopOp =>
        PopHolds(s, base, stk);
        StackRefines(Pop(s).1, base, stk[..|stk| - 1], n, ops[1..]);
    }
  }
}
