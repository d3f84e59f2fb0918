// The byte string instructions under a repeat prefix: do_rep and string_rep_complete
// (sim/cppmodel/Emulate.cpp) with MOVSB, CMPSB and SCASB (movs.cpp, cmps.cpp, scas.cpp).
module StringOps {
  import opened Words
  import opened Flags
  import opened Alu
  import opened Machine

  datatype StringOp = Movsb | Cmpsb | Scasb

  datatype RepMode = REPNE | REPE

  // SI or DI after one byte, in the direction of DF.
  function Next(flags: Flags, offset: word): word {
    Wrap16(if flags.df then offset - 1 else offset + 1)
  }

  function CompareBytes(flags: Flags, a: byte, b: byte): Flags {
    Pow2Of16();
    AluInsn(flags, Sub, 8, a, b, false).0
  }

  // One execution of the instruction; seg is the value of the source segment register.
  function Primitive(op: StringOp, seg: word, s: State): State {
    var src, dst := PhysAddr(seg, s.regs.si), PhysAddr(s.regs.es, s.regs.di);
    match op
    case Movsb =>
      s.(mem := s.mem[dst := s.mem[src]],
         regs := s.regs.(si := Next(s.flags, s.regs.si), di := Next(s.flags, s.regs.di)))
    case Cmpsb =>
      s.(flags := CompareBytes(s.flags, s.mem[src], s.mem[dst]),
         regs := s.regs.(si := Next(s.flags, s.regs.si), di := Next(s.flags, s.regs.di)))
    case Scasb =>
      s.(flags := CompareBytes(s.flags, s.regs.ax % 0x100, s.mem[dst]),
         regs := s.regs.(di := Next(s.flags, s.regs.di)))
  }

  // CMP of two bytes: ZF for equality, CF for below; TF, IF and DF are kept.
  lemma CompareBytesMeaning(flags: Flags, a: byte, b: byte)
    ensures var f := CompareBytes(flags, a, b);
            f.zf == (a == b) && f.cf == (a < b) && f.df == flags.df && f.tf == flags.tf && f.ief == flags.ief
  {
    Pow2Of16();
    CompareUnsigned(flags, 8, a, b);
  }

  // string_rep_complete, which CMPS and SCAS consult after each byte; MOVS never stops early.
  predicate Complete(op: StringOp, mode: RepMode, s: State) {
    !op.Movsb? && (mode == REPE) != s.flags.zf
  }

  // The instruction under a repeat prefix.
  function Rep(op: StringOp, mode: RepMode, seg: word, s: State): State
    decreases s.regs.cx
  {
    if s.regs.cx == 0 then s
    else
      var s1 := Primitive(op, seg, s);
      var s2 := s1.(regs := s1.regs.(cx := s.regs.cx - 1));
      if Complete(op, mode, s2) then s2 else Rep(op, mode, seg, s2)
  }

  // ---- REP MOVSB copies a block ----

  // The n bytes from physical address a.
  function Span(m: Mem, a: nat, n: nat): seq<byte>
    requires a + n <= MEMORY_SIZE
  {
    m[a..a + n]
  }

  // No offset and no address wraps while n bytes go up from (seg, offset).
  predicate UpFits(seg: word, offset: word, n: nat) {
    offset + n <= 0x1_0000 && 16 * seg + offset + n <= MEMORY_SIZE
  }

  // The block at dst replaced by data.
  function Stored(m: Mem, dst: nat, data: seq<byte>): Mem
    requires dst + |data| <= MEMORY_SIZE
  {
    m[..dst] + data + m[dst + |data|..]
  }

  // Only memory, CX, SI and DI have changed: CX is 0, the pointers have moved by delta.
  function Moved(s: State, m: Mem, delta: int): State
    requires -0x1_0000 <= delta <= 0x1_0000
  {
    s.(mem := m, regs := s.regs.(cx := 0, si := Wrap16(s.regs.si + delta), di := Wrap16(s.regs.di + delta)))
  }

  // One round of the loop for MOVSB.
  function MovsbRound(seg: word, s: State): State
    requires s.regs.cx > 0
  {
    s.(mem := s.mem[PhysAddr(s.regs.es, s.regs.di) := s.mem[PhysAddr(seg, s.regs.si)]],
       regs := s.regs.(cx := s.regs.cx - 1, si := Next(s.flags, s.regs.si), di := Next(s.flags, s.regs.di)))
  }

  function MovsbLoop(seg: word, s: State): State
    decreases s.regs.cx
  {
    if s.regs.cx == 0 then s else MovsbLoop(seg, MovsbRound(seg, s))
  }

  lemma {:induction false} RepMovsb(mode: RepMode, seg: word, s: State)
    ensures Rep(Movsb, mode, seg, s) == MovsbLoop(seg, s)
    decreases s.regs.cx
  {
    if s.regs.cx > 0 {
      var s1 := Primitive(Movsb, seg, s);
      assert s1.(regs := s1.regs.(cx := s.regs.cx - 1)) == MovsbRound(seg, s);
      RepMovsb(mode, seg, MovsbRound(seg, s));
    }
  }

  // n bytes copied one at a time, going up from src and dst or down.
  function CopyUp(m: Mem, src: nat, dst: nat, n: nat): Mem
    requires src + n <= MEMORY_SIZE && dst + n <= MEMORY_SIZE
    decreases n
  {
    if n == 0 then m else CopyUp(m[dst := m[src]], src + 1, dst + 1, n - 1)
  }

  function CopyDown(m: Mem, src: nat, dst: nat, n: nat): Mem
    requires n <= src + 1 <= MEMORY_SIZE && n <= dst + 1 <= MEMORY_SIZE
    decreases n
  {
    if n == 0 then m
    else if n == 1 then m[dst := m[src]]
    else CopyDown(m[dst := m[src]], src - 1, dst - 1, n - 1)
  }

  // The loop has n bytes left to copy from src to dst, upward or downward.
  ghost predicate Upward(seg: word, s: State, src: nat, dst: nat, n: nat) {
    && !s.flags.df && n > 0 && s.regs.cx == n
    && UpFits(seg, s.regs.si, n) && UpFits(s.regs.es, s.regs.di, n)
    && src == PhysAddr(seg, s.regs.si) && dst == PhysAddr(s.regs.es, s.regs.di)
    && src + n <= MEMORY_SIZE && dst + n <= MEMORY_SIZE
  }

  // No offset and no address wraps while n bytes go down from (seg, offset).
  predicate DownFits(seg: word, offset: word, n: nat) {
    n <= offset + 1 && 16 * seg + offset < MEMORY_SIZE
  }

  ghost predicate Downward(seg: word, s: State, src: nat, dst: nat, n: nat) {
    && s.flags.df && n > 0 && s.regs.cx == n
    && DownFits(seg, s.regs.si, n) && DownFits(s.regs.es, s.regs.di, n)
    && src == PhysAddr(seg, s.regs.si) && dst == PhysAddr(s.regs.es, s.regs.di)
    && n <= src + 1 && n <= dst + 1
  }

  lemma UpwardOnce(seg: word, s: State, src: nat, dst: nat, n: nat)
    requires Upward(seg, s, src, dst, n)
    ensures var s2 := MovsbRound(seg, s);
            && s2 == s.(mem := s.mem[dst := s.mem[src]],
                        regs := s.regs.(cx := n - 1, si := Wrap16(s.regs.si + 1), di := Wrap16(s.regs.di + 1)))
            && (n > 1 ==> Upward(seg, s2, src + 1, dst + 1, n - 1))
  {
  }

  lemma DownwardOnce(seg: word, s: State, src: nat, dst: nat, n: nat)
    requires Downward(seg, s, src, dst, n)
    ensures var s2 := MovsbRound(seg, s);
            && s2 == s.(mem := s.mem[dst := s.mem[src]],
                        regs := s.regs.(cx := n - 1, si := Wrap16(s.regs.si - 1), di := Wrap16(s.regs.di - 1)))
            && (n > 1 ==> Downward(seg, s2, src - 1, dst - 1, n - 1))
  {
  }

  lemma MovedOn(s: State, s2: State, m: Mem, rest: int, d: int)
    requires (d == 1 && 0 <= rest < 0xffff) || (d == -1 && -0xffff < rest <= 0)
    requires s2 == s.(mem := s2.mem, regs := s.regs.(cx := s2.regs.cx, si := Wrap16(s.regs.si + d),
                                                     di := Wrap16(s.regs.di + d)))
    ensures Moved(s2, m, rest) == Moved(s, m, rest + d)
    ensures rest == 0 && s2.regs.cx == 0 && s2.mem == m ==> s2 == Moved(s, m, d)
  {
  }

  lemma {:induction false} LoopUp(seg: word, s: State, src: nat, dst: nat, n: nat)
    requires Upward(seg, s, src, dst, n)
    ensures MovsbLoop(seg, s) == Moved(s, CopyUp(s.mem, src, dst, n), n)
    decreases n
  {
    UpwardOnce(seg, s, src, dst, n);
    var s2 := MovsbRound(seg, s);
    if n > 1 {
      LoopUp(seg, s2, src + 1, dst + 1, n - 1);
    }
    MovedOn(s, s2, CopyUp(s.mem, src, dst, n), n - 1, 1);
  }

  lemma {:induction false} LoopDown(seg: word, s: State, src: nat, dst: nat, n: nat)
    requires Downward(seg, s, src, dst, n)
    ensures MovsbLoop(seg, s) == Moved(s, CopyDown(s.mem, src, dst, n), 0 - n)
    decreases n
  {
    DownwardOnce(seg, s, src, dst, n);
    var s2 := MovsbRound(seg, s);
    if n > 1 {
      LoopDown(seg, s2, src - 1, dst - 1, n - 1);
    }
    MovedOn(s, s2, CopyDown(s.mem, src, dst, n), 1 - n, -1);
  }

  // Copying up is memmove when the destination starts at or below the source or the blocks
  // are disjoint; copying down is when it starts at or above.
  lemma {:induction false} CopyUpMoves(m: Mem, src: nat, dst: nat, n: nat)
    requires src + n <= MEMORY_SIZE && dst + n <= MEMORY_SIZE && (dst <= src || src + n <= dst)
    ensures CopyUp(m, src, dst, n) == Stored(m, dst, Span(m, src, n))
    decreases n
  {
    if n > 0 {
      var m1 := m[dst := m[src]];
      CopyUpMoves(m1, src + 1, dst + 1, n - 1);
      assert Span(m1, src + 1, n - 1) == Span(m, src, n)[1..];
    }
  }

  // The byte at the top first, then the n - 1 bytes below it.
  lemma StoreLast(m: Mem, src: nat, dst: nat, n: nat)
    requires 0 < n <= src + 1 <= MEMORY_SIZE && n <= dst + 1 <= MEMORY_SIZE && (dst >= src || dst + n <= src)
    ensures var m1 := m[dst := m[src]];
            (if n > 1 then Stored(m1, dst + 1 - n, Span(m1, src + 1 - n, n - 1)) else m1)
            == Stored(m, dst + 1 - n, Span(m, src + 1 - n, n))
  {
    var m1 := m[dst := m[src]];
    var data := Span(m, src + 1 - n, n);
    if n > 1 {
      assert Span(m1, src + 1 - n, n - 1) == data[..n - 1];
    }
  }

  lemma {:induction false} CopyDownMoves(m: Mem, src: nat, dst: nat, n: nat)
    requires 0 < n <= src + 1 <= MEMORY_SIZE && n <= dst + 1 <= MEMORY_SIZE && (dst >= src || dst + n <= src)
    ensures CopyDown(m, src, dst, n) == Stored(m, dst + 1 - n, Span(m, src + 1 - n, n))
    decreases n
  {
    hide Stored, Span;
    var m1 := m[dst := m[src]];
    if n > 1 {
      CopyDownMoves(m1, src - 1, dst - 1, n - 1);
    }
    StoreLast(m, src, dst, n);
  }

  // The place of byte j in a pattern of k bytes.
  function Residue(j: nat, k: nat): nat
    requires k > 0
  {
    j % k
  }

  // Bytes outside the destination stay.
  lemma {:induction false} CopyUpKeeps(m: Mem, src: nat, dst: nat, n: nat, a: nat)
    requires src + n <= MEMORY_SIZE && dst + n <= MEMORY_SIZE && a < MEMORY_SIZE && (a < dst || dst + n <= a)
    ensures CopyUp(m, src, dst, n)[a] == m[a]
    decreases n
  {
    if n > 0 {
      CopyUpKeeps(m[dst := m[src]], src + 1, dst + 1, n - 1, a);
    }
  }

  lemma NextResidue(i: nat, k: nat)
    requires k > 0
    ensures Residue(i + 1, k) == if Residue(i, k) + 1 == k then 0 else Residue(i, k) + 1
    ensures Residue(i, k) < k && Residue(0, k) == 0
  {
    DivModUnique(0, k, 0, 0);
    DivModDef(i, k);
    if i % k + 1 == k {
      MulSucc(i / k, k);
      DivModUnique(i + 1, k, i / k + 1, 0);
    } else {
      DivModUnique(i + 1, k, i / k, i % k + 1);
    }
  }

  // Copying up to k bytes above the source, with k below the length, repeats the first k bytes.
  lemma {:induction false} CopyUpRepeats(m: Mem, src: nat, k: nat, n: nat, j: nat)
    requires 0 < k && src + k + n <= MEMORY_SIZE && j < n
    ensures CopyUp(m, src, src + k, n)[src + k + j] == m[src + Residue(j, k)]
    decreases n
  {
    hide Residue;
    NextResidue(j, k);
    var m1 := m[src + k := m[src]];
    if j == 0 {
      CopyUpKeeps(m1, src + 1, src + 1 + k, n - 1, src + k);
    } else {
      CopyUpRepeats(m1, src + 1, k, n - 1, j - 1);
      NextResidue(j - 1, k);
    }
  }

  // REP MOVSB with DF clear.
  lemma MovsbUp(mode: RepMode, seg: word, s: State, src: nat, dst: nat, n: nat)
    requires Upward(seg, s, src, dst, n)
    ensures var t := Rep(Movsb, mode, seg, s);
            && t == Moved(s, t.mem, n)
            && (dst <= src || src + n <= dst ==> t.mem == Stored(s.mem, dst, Span(s.mem, src, n)))
            && (src < dst ==> forall a :: dst <= a < dst + n ==> t.mem[a] == s.mem[src + (a - dst) % (dst - src)])
            && (forall a :: 0 <= a < MEMORY_SIZE && !(dst <= a < dst + n) ==> t.mem[a] == s.mem[a])
  {
    hide Rep, MovsbLoop, CopyUp, Stored, Span, PhysAddr;
    RepMovsb(mode, seg, s);
    LoopUp(seg, s, src, dst, n);
    if dst <= src || src + n <= dst {
      CopyUpMoves(s.mem, src, dst, n);
    }
    forall a | dst <= a < dst + n && src < dst
      ensures CopyUp(s.mem, src, dst, n)[a] == s.mem[src + (a - dst) % (dst - src)]
    {
      CopyUpRepeats(s.mem, src, dst - src, n, a - dst);
    }
    forall a | 0 <= a < MEMORY_SIZE && !(dst <= a < dst + n)
      ensures CopyUp(s.mem, src, dst, n)[a] == s.mem[a]
    {
      CopyUpKeeps(s.mem, src, dst, n, a);
    }
  }

  lemma {:induction false} CopyDownKeeps(m: Mem, src: nat, dst: nat, n: nat, a: nat)
    requires n <= src + 1 <= MEMORY_SIZE && n <= dst + 1 <= MEMORY_SIZE
    requires a < MEMORY_SIZE && (a > dst || a + n <= dst)
    ensures CopyDown(m, src, dst, n)[a] == m[a]
    decreases n
  {
    if n > 1 { CopyDownKeeps(m[dst := m[src]], src - 1, dst - 1, n - 1, a); }
  }

  // Copying down to k bytes below the source, with k below the length, repeats the last k bytes.
  lemma {:induction false} CopyDownRepeats(m: Mem, src: nat, k: nat, n: nat, j: nat)
    requires 0 < k && src < MEMORY_SIZE && k + n <= src + 1 && j < n
    ensures CopyDown(m, src, src - k, n)[src - k - j] == m[src - Residue(j, k)]
    decreases n
  {
    hide Residue;
    NextResidue(j, k);
    var m1 := m[src - k := m[src]];
    if j == 0 {
      if n > 1 { CopyDownKeeps(m1, src - 1, src - 1 - k, n - 1, src - k); }
    } else {
      CopyDownRepeats(m1, src - 1, k, n - 1, j - 1);
      NextResidue(j - 1, k);
    }
  }

  // REP MOVSB with DF set.
  lemma MovsbDown(mode: RepMode, seg: word, s: State, src: nat, dst: nat, n: nat)
    requires Downward(seg, s, src, dst, n)
    ensures var t := Rep(Movsb, mode, seg, s);
            && t == Moved(s, t.mem, 0 - n)
            && (dst >= src || dst + n <= src ==> t.mem == Stored(s.mem, dst + 1 - n, Span(s.mem, src + 1 - n, n)))
            && (dst < src ==> forall a :: dst - n < a <= dst ==> t.mem[a] == s.mem[src - (dst - a) % (src - dst)])
            && (forall a :: 0 <= a < MEMORY_SIZE && !(dst - n < a <= dst) ==> t.mem[a] == s.mem[a])
  {
    hide Rep, MovsbLoop, CopyDown, Stored, Span, PhysAddr;
    RepMovsb(mode, seg, s);
    LoopDown(seg, s, src, dst, n);
    if dst >= src || dst + n <= src {
      CopyDownMoves(s.mem, src, dst, n);
    }
    forall a | dst - n < a <= dst && dst < src
      ensures CopyDown(s.mem, src, dst, n)[a] == s.mem[src - (dst - a) % (src - dst)]
    {
      CopyDownRepeats(s.mem, src, src - dst, n, dst - a);
    }
    forall a | 0 <= a < MEMORY_SIZE && !(dst - n < a <= dst)
      ensures CopyDown(s.mem, src, dst, n)[a] == s.mem[a]
    {
      CopyDownKeeps(s.mem, src, dst, n, a);
    }
  }

  // ---- REPE CMPSB and REPNE SCASB ----

  // The n bytes going up from (seg, offset); offsets and addresses wrap.
  function Text(m: Mem, seg: word, offset: word, n: nat): (t: seq<byte>)
    requires n <= 0xffff
    ensures |t| == n
    decreases n
  {
    if n == 0 then [] else [m[PhysAddr(seg, offset)]] + Text(m, seg, Wrap16(offset + 1), n - 1)
  }

  // The bytes a repeated comparison of a with b looks at: up to the first difference.
  function Compared(a: seq<byte>, b: seq<byte>): (n: nat)
    requires |a| == |b|
    ensures n <= |a|
  {
    if a == [] then 0 else if a[0] != b[0] then 1 else 1 + Compared(a[1..], b[1..])
  }

  // Lexicographic order of strings of one length.
  predicate LexLess(a: seq<byte>, b: seq<byte>)
    requires |a| == |b|
  {
    a != [] && (a[0] < b[0] || (a[0] == b[0] && LexLess(a[1..], b[1..])))
  }

  // The bytes a search for v looks at: up to the first match.
  function Searched(v: byte, b: seq<byte>): (n: nat)
    ensures n <= |b|
  {
    if b == [] then 0 else if b[0] == v then 1 else 1 + Searched(v, b[1..])
  }

  // The search stops just past the first occurrence, or at the end when there is none.
  lemma SearchedMeaning(v: byte, b: seq<byte>)
    ensures v in b ==> Searched(v, b) > 0 && b[Searched(v, b) - 1] == v && v !in b[..Searched(v, b) - 1]
    ensures v !in b ==> Searched(v, b) == |b|
  {
    if b != [] && b[0] != v {
      SearchedMeaning(v, b[1..]);
      var k := Searched(v, b[1..]);
      if v in b {
        assert b[1..][..k - 1] == b[1..k];
        assert b[..k] == [b[0]] + b[1..k];
      }
    }
  }

  lemma ComparedMeaning(a: seq<byte>, b: seq<byte>)
    requires |a| == |b|
    ensures a != b ==> Compared(a, b) > 0 && a[Compared(a, b) - 1] != b[Compared(a, b) - 1]
                       && a[..Compared(a, b) - 1] == b[..Compared(a, b) - 1]
    ensures a == b ==> Compared(a, b) == |a|
  {
    if a != [] && a[0] == b[0] {
      ComparedMeaning(a[1..], b[1..]);
      var k := Compared(a[1..], b[1..]);
      assert a == [a[0]] + a[1..] && b == [b[0]] + b[1..];
      if a != b {
        assert a[..k] == [a[0]] + a[1..][..k - 1] && b[..k] == [b[0]] + b[1..][..k - 1];
      }
    }
  }

  // One round of the loop for CMPSB and for SCASB.
  function CmpsbRound(seg: word, s: State): State
    requires s.regs.cx > 0
  {
    s.(flags := CompareBytes(s.flags, s.mem[PhysAddr(seg, s.regs.si)], s.mem[PhysAddr(s.regs.es, s.regs.di)]),
       regs := s.regs.(cx := s.regs.cx - 1, si := Next(s.flags, s.regs.si), di := Next(s.flags, s.regs.di)))
  }

  function ScasbRound(s: State): State
    requires s.regs.cx > 0
  {
    s.(flags := CompareBytes(s.flags, s.regs.ax % 0x100, s.mem[PhysAddr(s.regs.es, s.regs.di)]),
       regs := s.regs.(cx := s.regs.cx - 1, di := Next(s.flags, s.regs.di)))
  }

  function CmpsbLoop(seg: word, s: State): State
    decreases s.regs.cx
  {
    if s.regs.cx == 0 then s
    else var s2 := CmpsbRound(seg, s); if s2.flags.zf then CmpsbLoop(seg, s2) else s2
  }

  function ScasbLoop(s: State): State
    decreases s.regs.cx
  {
    if s.regs.cx == 0 then s
    else var s2 := ScasbRound(s); if s2.flags.zf then s2 else ScasbLoop(s2)
  }

  lemma {:induction false} RepeCmpsb(seg: word, s: State)
    ensures Rep(Cmpsb, REPE, seg, s) == CmpsbLoop(seg, s)
    decreases s.regs.cx
  {
    if s.regs.cx > 0 {
      var s1, s2 := Primitive(Cmpsb, seg, s), CmpsbRound(seg, s);
      assert s1.(regs := s1.regs.(cx := s.regs.cx - 1)) == s2;
      if s2.flags.zf { RepeCmpsb(seg, s2); }
    }
  }

  lemma {:induction false} RepneScasb(seg: word, s: State)
    ensures Rep(Scasb, REPNE, seg, s) == ScasbLoop(s)
    decreases s.regs.cx
  {
    if s.regs.cx > 0 {
      var s1, s2 := Primitive(Scasb, seg, s), ScasbRound(s);
      assert s1.(regs := s1.regs.(cx := s.regs.cx - 1)) == s2;
      if !s2.flags.zf { RepneScasb(seg, s2); }
    }
  }

  // The state after n bytes, with new flags.
  function ComparedState(s: State, f: Flags, n: nat): State
    requires n <= s.regs.cx
  {
    s.(flags := f, regs := s.regs.(cx := s.regs.cx - n, si := Wrap16(s.regs.si + n), di := Wrap16(s.regs.di + n)))
  }

  function SearchedState(s: State, f: Flags, n: nat): State
    requires n <= s.regs.cx
  {
    s.(flags := f, regs := s.regs.(cx := s.regs.cx - n, di := Wrap16(s.regs.di + n)))
  }

  lemma NextUp(flags: Flags, offset: word)
    ensures !flags.df ==> Next(flags, offset) == Wrap16(offset + 1)
  {
  }

  lemma FirstByte(s: State, f: Flags)
    requires s.regs.cx > 0
    ensures ComparedState(s, f, 1) == s.(flags := f, regs := s.regs.(cx := s.regs.cx - 1, si := Wrap16(s.regs.si + 1),
                                                                     di := Wrap16(s.regs.di + 1)))
    ensures SearchedState(s, f, 1) == s.(flags := f, regs := s.regs.(cx := s.regs.cx - 1, di := Wrap16(s.regs.di + 1)))
  {
  }

  // One byte and then n more.
  lemma ComparedOn(s: State, s2: State, f: Flags, n: nat)
    requires n + 1 <= s.regs.cx && s2 == ComparedState(s, s2.flags, 1)
    ensures ComparedState(s2, f, n) == ComparedState(s, f, n + 1)
  {
  }

  lemma SearchedOn(s: State, s2: State, f: Flags, n: nat)
    requires n + 1 <= s.regs.cx && s2 == SearchedState(s, s2.flags, 1)
    ensures SearchedState(s2, f, n) == SearchedState(s, f, n + 1)
  {
  }

  lemma {:induction false} CmpsbLoopDecides(seg: word, s: State, a: seq<byte>, b: seq<byte>)
    requires !s.flags.df && s.regs.cx > 0
    requires a == Text(s.mem, seg, s.regs.si, s.regs.cx) && b == Text(s.mem, s.regs.es, s.regs.di, s.regs.cx)
    ensures var t := CmpsbLoop(seg, s);
            && t == ComparedState(s, t.flags, Compared(a, b))
            && t.flags.zf == (a == b) && t.flags.cf == LexLess(a, b)
    decreases s.regs.cx
  {
    hide CompareBytes, PhysAddr, Wrap16;
    CompareBytesMeaning(s.flags, a[0], b[0]);
    var s2 := CmpsbRound(seg, s);
    NextUp(s.flags, s.regs.si);
    NextUp(s.flags, s.regs.di);
    FirstByte(s, s2.flags);
    assert a == [a[0]] + a[1..] && b == [b[0]] + b[1..];
    if a[0] == b[0] && s.regs.cx > 1 {
      CmpsbLoopDecides(seg, s2, a[1..], b[1..]);
      ComparedOn(s, s2, CmpsbLoop(seg, s2).flags, Compared(a[1..], b[1..]));
    }
  }

  lemma {:induction false} ScasbLoopDecides(s: State, b: seq<byte>)
    requires !s.flags.df && s.regs.cx > 0 && b == Text(s.mem, s.regs.es, s.regs.di, s.regs.cx)
    ensures var t := ScasbLoop(s);
            && t == SearchedState(s, t.flags, Searched(s.regs.ax % 0x100, b))
            && t.flags.zf == (s.regs.ax % 0x100 in b)
    decreases s.regs.cx
  {
    hide CompareBytes, PhysAddr, Wrap16;
    CompareBytesMeaning(s.flags, s.regs.ax % 0x100, b[0]);
    var s2 := ScasbRound(s);
    NextUp(s.flags, s.regs.di);
    FirstByte(s, s2.flags);
    assert b == [b[0]] + b[1..];
    if s.regs.ax % 0x100 != b[0] && s.regs.cx > 1 {
      ScasbLoopDecides(s2, b[1..]);
      SearchedOn(s, s2, ScasbLoop(s2).flags, Searched(s.regs.ax % 0x100, b[1..]));
    }
  }

  // REPE CMPSB with DF clear and CX = n: the pointers stop just past the first difference of the
  // two n-byte strings; for n >= 1 JE is then taken iff they are equal, JB iff the source is
  // smaller, and for n = 0 nothing changes.
  lemma CmpsbOrders(seg: word, s: State)
    requires !s.flags.df
    ensures var a, b := Text(s.mem, seg, s.regs.si, s.regs.cx), Text(s.mem, s.regs.es, s.regs.di, s.regs.cx);
            var t := Rep(Cmpsb, REPE, seg, s);
            && t == ComparedState(s, t.flags, Compared(a, b))
            && (s.regs.cx > 0 ==> (Taken(E, t.flags) <==> a == b) && (Taken(B, t.flags) <==> LexLess(a, b)))
            && (s.regs.cx == 0 ==> t == s)
  {
    hide Rep, CmpsbRound, PhysAddr;
    RepeCmpsb(seg, s);
    if s.regs.cx > 0 {
      CmpsbLoopDecides(seg, s, Text(s.mem, seg, s.regs.si, s.regs.cx), Text(s.mem, s.regs.es, s.regs.di, s.regs.cx));
    }
  }

  // REPNE SCASB with DF clear and CX = n stops just past the first byte equal to AL, with ZF set,
  // or with CX = 0 and, for n >= 1, ZF clear when there is none.
  lemma ScasbFinds(seg: word, s: State)
    requires !s.flags.df
    ensures var b, v := Text(s.mem, s.regs.es, s.regs.di, s.regs.cx), s.regs.ax % 0x100;
            var t := Rep(Scasb, REPNE, seg, s);
            && t == SearchedState(s, t.flags, Searched(v, b))
            && (s.regs.cx > 0 ==> (Taken(E, t.flags) <==> v in b))
            && (s.regs.cx == 0 ==> t == s) && (v !in b ==> t.regs.cx == 0)
  {
    hide Rep, ScasbRound, PhysAddr;
    RepneScasb(seg, s);
    var b, v := Text(s.mem, s.regs.es, s.regs.di, s.regs.cx), s.regs.ax % 0x100;
    if s.regs.cx > 0 { ScasbLoopDecides(s, b); }
    SearchedMeaning(v, b);
  }

  // ---- CMPSB and SCASB under either prefix and in either direction ----

  // The offset k bytes on, in the direction of DF.
  function Along(s: State, offset: word, k: int): int {
    (if s.flags.df then offset - k else offset + k) % 0x1_0000
  }

  function ByteAt(s: State, seg: word, offset: int): byte
    requires 0 <= offset < 0x1_0000
  {
    s.mem[(16 * seg + offset) % 0x10_0000]
  }

  // The k-th pair of bytes that CMPSB or SCASB compares.
  function LeftByte(op: StringOp, seg: word, s: State, k: nat): byte {
    if op.Scasb? then s.regs.ax % 0x100 else ByteAt(s, seg, Along(s, s.regs.si, k))
  }

  function RightByte(s: State, k: nat): byte {
    ByteAt(s, s.regs.es, Along(s, s.regs.di, k))
  }

  // Pair k lets the loop go on: the bytes are equal under REPE, different under REPNE.
  predicate GoesOn(op: StringOp, mode: RepMode, seg: word, s: State, k: nat) {
    (LeftByte(op, seg, s, k) == RightByte(s, k)) == (mode == REPE)
  }

  // s after n bytes, with new flags.
  function Passed(op: StringOp, s: State, f: Flags, n: int): State
    requires n <= s.regs.cx && n >= 0
  {
    s.(flags := f, regs := s.regs.(cx := s.regs.cx - n, di := Along(s, s.regs.di, n),
                                   si := if op.Scasb? then s.regs.si else Along(s, s.regs.si, n)))
  }

  lemma NextAlong(s: State, offset: word)
    ensures Next(s.flags, offset) == Along(s, offset, 1)
  {
    Wrap16Reduces(if s.flags.df then offset - 1 else offset + 1);
  }

  lemma AlongAgain(s: State, t: State, offset: word, k: nat)
    requires t.flags.df == s.flags.df
    ensures Along(t, Along(s, offset, 1), k) == Along(s, offset, k + 1)
    ensures Along(s, offset, 0) == offset
  {
    if s.flags.df { ModSum(offset - 1, -(k as int)); } else { ModSum(offset + 1, k); }
  }

  lemma BytesAgain(op: StringOp, seg: word, s: State, f: Flags, k: nat)
    requires f.df == s.flags.df && s.regs.cx > 0
    ensures var t := Passed(op, s, f, 1);
            LeftByte(op, seg, t, k) == LeftByte(op, seg, s, k + 1) && RightByte(t, k) == RightByte(s, k + 1)
  {
    hide Along;
    AlongAgain(s, Passed(op, s, f, 1), s.regs.si, k);
    AlongAgain(s, Passed(op, s, f, 1), s.regs.di, k);
  }

  lemma PassedAgain(op: StringOp, s: State, f: Flags, f': Flags, n: nat)
    requires f.df == s.flags.df && n + 1 <= s.regs.cx
    ensures Passed(op, Passed(op, s, f, 1), f', n) == Passed(op, s, f', n + 1)
  {
    hide Along;
    AlongAgain(s, Passed(op, s, f, 1), s.regs.si, n);
    AlongAgain(s, Passed(op, s, f, 1), s.regs.di, n);
  }

  lemma PassedNone(op: StringOp, s: State)
    ensures Passed(op, s, s.flags, 0) == s
  {
    hide Along;
    AlongAgain(s, s, s.regs.si, 0);
    AlongAgain(s, s, s.regs.di, 0);
  }

  // The flags say how the last pair compares.
  ghost predicate Decided(op: StringOp, seg: word, s: State, k: nat, f: Flags) {
    && (Taken(E, f) <==> LeftByte(op, seg, s, k) == RightByte(s, k))
    && (Taken(B, f) <==> LeftByte(op, seg, s, k) < RightByte(s, k))
    && f.df == s.flags.df && f.tf == s.flags.tf && f.ief == s.flags.ief
  }

  lemma OnePair(op: StringOp, seg: word, s: State)
    requires !op.Movsb? && s.regs.cx > 0
    ensures var t := Primitive(op, seg, s);
            && t.(regs := t.regs.(cx := s.regs.cx - 1)) == Passed(op, s, t.flags, 1)
            && t.flags == CompareBytes(s.flags, LeftByte(op, seg, s, 0), RightByte(s, 0))
  {
    hide Along, CompareBytes, PhysAddr;
    NextAlong(s, s.regs.si);
    NextAlong(s, s.regs.di);
    AlongAgain(s, s, s.regs.si, 0);
    AlongAgain(s, s, s.regs.di, 0);
    PhysAddrReduces(seg, s.regs.si);
    PhysAddrReduces(s.regs.es, s.regs.di);
  }

  lemma PairDecided(op: StringOp, seg: word, s: State, f: Flags)
    requires f == CompareBytes(s.flags, LeftByte(op, seg, s, 0), RightByte(s, 0))
    ensures Decided(op, seg, s, 0, f)
  {
    hide CompareBytes, LeftByte, RightByte;
    CompareBytesMeaning(s.flags, LeftByte(op, seg, s, 0), RightByte(s, 0));
  }

  // What holds of pair k of the state after one byte holds of pair k + 1.
  lemma PairAgain(op: StringOp, mode: RepMode, seg: word, s: State, f: Flags, k: nat, g: Flags)
    requires s.regs.cx > 0 && Decided(op, seg, s, 0, f)
    ensures GoesOn(op, mode, seg, Passed(op, s, f, 1), k) == GoesOn(op, mode, seg, s, k + 1)
    ensures Decided(op, seg, Passed(op, s, f, 1), k, g) == Decided(op, seg, s, k + 1, g)
  {
    hide LeftByte, RightByte, Along;
    BytesAgain(op, seg, s, f, k);
  }

  lemma SameDirection(op: StringOp, seg: word, s: State, f: Flags)
    requires Decided(op, seg, s, 0, f)
    ensures f.df == s.flags.df
  {
  }

  // string_rep_complete stops the loop exactly when the pair just compared does not let it go on.
  lemma CompleteMeans(op: StringOp, mode: RepMode, seg: word, s: State, t: State)
    requires !op.Movsb? && Decided(op, seg, s, 0, t.flags)
    ensures Complete(op, mode, t) <==> !GoesOn(op, mode, seg, s, 0)
  {
  }

  lemma PassedFields(op: StringOp, s: State, f: Flags)
    requires s.regs.cx > 0
    ensures Passed(op, s, f, 1).regs.cx == s.regs.cx - 1 && Passed(op, s, f, 1).flags == f
  {
  }

  lemma RepUnfolds(op: StringOp, mode: RepMode, seg: word, s: State, t: State)
    requires s.regs.cx > 0
    requires t == Primitive(op, seg, s).(regs := Primitive(op, seg, s).regs.(cx := s.regs.cx - 1))
    ensures Rep(op, mode, seg, s) == if Complete(op, mode, t) then t else Rep(op, mode, seg, t)
    ensures t.regs.cx == 0 ==> Rep(op, mode, seg, t) == t
  {
    hide Primitive;
  }

  // How far a repeated comparison that ends with flags f went.
  ghost predicate Stops(op: StringOp, mode: RepMode, seg: word, s: State, n: nat, f: Flags) {
    && n <= s.regs.cx && (s.regs.cx > 0 ==> n > 0)
    && (n > 0 ==> Decided(op, seg, s, n - 1, f))
    && (forall k :: 0 <= k < n - 1 ==> GoesOn(op, mode, seg, s, k))
    && (0 < n < s.regs.cx ==> !GoesOn(op, mode, seg, s, n - 1))
  }

  lemma StopsLater(op: StringOp, mode: RepMode, seg: word, s: State, f: Flags, m: nat, g: Flags)
    requires s.regs.cx > 1 && Decided(op, seg, s, 0, f) && GoesOn(op, mode, seg, s, 0)
    requires Stops(op, mode, seg, Passed(op, s, f, 1), m, g)
    ensures Stops(op, mode, seg, s, m + 1, g)
  {
    hide Decided, GoesOn, Passed;
    PassedFields(op, s, f);
    PairAgain(op, mode, seg, s, f, m - 1, g);
    forall k | 0 <= k < m ensures GoesOn(op, mode, seg, s, k) {
      if k > 0 { PairAgain(op, mode, seg, s, f, k - 1, f); }
    }
  }

  lemma StopsBelow(op: StringOp, mode: RepMode, seg: word, s: State, n: nat, f: Flags)
    requires Stops(op, mode, seg, s, n, f)
    ensures n <= s.regs.cx
  {
  }

  lemma StopsAtOnce(op: StringOp, mode: RepMode, seg: word, s: State, f: Flags)
    requires s.regs.cx > 0 && Decided(op, seg, s, 0, f) && (s.regs.cx == 1 || !GoesOn(op, mode, seg, s, 0))
    ensures Stops(op, mode, seg, s, 1, f)
  {
    hide Decided, GoesOn;
  }

  // CMPSB and SCASB compare pairs until CX is used up or a pair stops them, REPE at the first
  // difference and REPNE at the first match; the pointers stop just past the last pair, in the
  // direction of DF, and the flags decide that pair. With CX = 0 nothing changes.
  lemma {:induction false} RepCompares(op: StringOp, mode: RepMode, seg: word, s: State) returns (n: nat)
    requires !op.Movsb?
    ensures var t := Rep(op, mode, seg, s); Stops(op, mode, seg, s, n, t.flags) && t == Passed(op, s, t.flags, n)
    ensures n == 0 ==> Rep(op, mode, seg, s) == s
    decreases s.regs.cx
  {
    hide Primitive, Decided, GoesOn, Passed, Complete;
    PassedNone(op, s);
    n := 0;
    if s.regs.cx > 0 {
      OnePair(op, seg, s);
      var f := Primitive(op, seg, s).flags;
      var t := Passed(op, s, f, 1);
      hide Rep, Stops;
      PairDecided(op, seg, s, f);
      PassedFields(op, s, f);
      CompleteMeans(op, mode, seg, s, t);
      RepUnfolds(op, mode, seg, s, t);
      n := 1;
      if GoesOn(op, mode, seg, s, 0) && t.regs.cx > 0 {
        var m := RepCompares(op, mode, seg, t);
        n := m + 1;
        SameDirection(op, seg, s, f);
        StopsLater(op, mode, seg, s, f, m, Rep(op, mode, seg, t).flags);
        StopsBelow(op, mode, seg, t, m, Rep(op, mode, seg, t).flags);
        PassedAgain(op, s, f, Rep(op, mode, seg, t).flags, m);
      } else {
        StopsAtOnce(op, mode, seg, s, f);
      }
    }
  }
}
