// ENTER and LEAVE (sim/cppmodel/instructions/enter.cpp, leave.cpp).
module EnterLeave {
  import opened Words
  import opened Machine
  import opened Stack

  // A step of the nesting loop moves BP down and pushes the saved frame pointer there.
  function CopyPointer(s: State): State {
    var bp := Wrap16(s.regs.bp - 2);
    Push(s.(regs := s.regs.(bp := bp)), StackWord(s, bp))
  }

  function CopyDisplay(s: State, n: nat): State {
    if n == 0 then s else CopyPointer(CopyDisplay(s, n - 1))
  }

  // ENTER size, nesting; the nesting level is taken modulo 32.
  function Enter(s: State, size: word, nesting: byte): State {
    var nest := nesting % 32;
    var s1 := Push(s, s.regs.bp);
    var frameTemp := s1.regs.sp;
    var s2 := if nest > 1 then CopyDisplay(s1, nest - 1) else s1;
    var s3 := if nest > 0 then Push(s2, frameTemp) else s2;
    s3.(regs := s3.regs.(bp := frameTemp, sp := Wrap16(s3.regs.sp - size)))
  }

  function Leave(s: State): State {
    var (bp, s1) := Pop(s.(regs := s.regs.(sp := s.regs.bp)));
    s1.(regs := s1.regs.(bp := bp))
  }

  // The offset two words per step below x.
  function Below(x: word, n: nat): word
    requires n < 0x8000
  {
    Wrap16(x - 2 * n)
  }

  lemma BelowStep(x: word, n: nat)
    requires x % 2 == 0 && n < 0x7fff
    ensures Below(x, n) % 2 == 0 && Below(x, 0) == x && Below(Below(x, n), 1) == Below(x, n + 1)
  {
  }

  lemma BelowBelow(x: word, m: nat, n: nat)
    requires m + n < 0x8000
    ensures Below(Below(x, m), n) == Below(x, m + n)
    ensures m != n ==> Below(x, m) != Below(x, n)
  {
  }

  lemma BelowOne(x: word)
    ensures Below(x, 1) == Wrap16(x - 2)
  {
  }

  // A push changes no word of the stack segment at another even offset.
  lemma PushKeepsOffset(s: State, v: word, o: word)
    requires s.regs.sp % 2 == 0 && o % 2 == 0
    ensures StackWord(Push(s, v), o) == if o == Below(s.regs.sp, 1) then v else StackWord(s, o)
  {
    var top := Below(s.regs.sp, 1);
    SlotsApart(s.regs.ss, o, top);
    SlotsApart(s.regs.ss, top, o);
    ReadBack(s.mem, PhysAddr(s.regs.ss, top), v, PhysAddr(s.regs.ss, o));
  }

  // The loop moves SP and BP down together.
  lemma {:induction false} CopyMoves(s: State, n: nat)
    requires s.regs.sp % 2 == 0 && s.regs.bp % 2 == 0 && n < 32
    ensures CopyDisplay(s, n).regs == s.regs.(sp := Below(s.regs.sp, n), bp := Below(s.regs.bp, n))
    ensures Below(s.regs.sp, n) % 2 == 0 && Below(s.regs.bp, n) % 2 == 0
  {
    hide ReadWord, WriteWord, PhysAddr, Wrap16, Below;
    if n > 0 {
      CopyMoves(s, n - 1);
      BelowOne(CopyDisplay(s, n - 1).regs.sp);
      BelowOne(CopyDisplay(s, n - 1).regs.bp);
      BelowStep(s.regs.sp, n - 1);
      BelowStep(s.regs.bp, n - 1);
    }
    BelowStep(s.regs.sp, n);
    BelowStep(s.regs.bp, n);
  }

  // The last step of the loop.
  lemma CopyStep(s: State, n: nat, o: word)
    requires s.regs.sp % 2 == 0 && s.regs.bp % 2 == 0 && o % 2 == 0 && 1 <= n < 32
    ensures var t := CopyDisplay(s, n - 1);
            StackWord(CopyDisplay(s, n), o)
            == if o == Below(s.regs.sp, n) then StackWord(t, Below(s.regs.bp, n)) else StackWord(t, o)
  {
    hide Push, PhysAddr, ReadWord, Below, Wrap16;
    var t := CopyDisplay(s, n - 1);
    BelowOne(t.regs.bp);
    CopyMoves(s, n - 1);
    BelowStep(s.regs.sp, n - 1);
    BelowStep(s.regs.bp, n - 1);
    var bp := Wrap16(t.regs.bp - 2);
    PushKeepsOffset(t.(regs := t.regs.(bp := bp)), StackWord(t, bp), o);
  }

  // It writes only the offsets it pushes to.
  lemma {:induction false} CopyFrame(s: State, n: nat, o: word)
    requires s.regs.sp % 2 == 0 && s.regs.bp % 2 == 0 && o % 2 == 0 && n < 32
    requires forall i :: 1 <= i <= n ==> o != Below(s.regs.sp, i)
    ensures StackWord(CopyDisplay(s, n), o) == StackWord(s, o)
  {
    if n > 0 {
      CopyFrame(s, n - 1, o);
      CopyStep(s, n, o);
    }
  }

  lemma BelowApart(x: word, k: nat, n: nat)
    requires 1 <= k <= n < 32
    ensures k < n <==> Below(x, k) != Below(x, n)
  {
  }

  lemma {:induction false} CopiedAt(s: State, n: nat, k: nat)
    requires s.regs.sp % 2 == 0 && s.regs.bp % 2 == 0 && 1 <= k <= n < 32
    requires forall i, j :: 1 <= i <= n && 1 <= j <= n ==> Below(s.regs.bp, i) != Below(s.regs.sp, j)
    ensures StackWord(CopyDisplay(s, n), Below(s.regs.sp, k)) == StackWord(s, Below(s.regs.bp, k))
  {
    hide StackWord, CopyDisplay, Wrap16, Below;
    BelowStep(s.regs.sp, k);
    BelowStep(s.regs.bp, n);
    BelowApart(s.regs.sp, k, n);
    CopyStep(s, n, Below(s.regs.sp, k));
    if k < n {
      CopiedAt(s, n - 1, k);
    } else {
      CopyFrame(s, n - 1, Below(s.regs.bp, n));
    }
  }

  lemma UpAgain(x: word)
    ensures Wrap16(Wrap16(x - 2) + 2) == x
  {
  }

  // LEAVE undoes ENTER: the saved BP survives the display and the locals.
  lemma LeaveUndoesEnter(s: State, size: word, nesting: byte)
    requires s.regs.sp % 2 == 0 && s.regs.bp % 2 == 0
    ensures Leave(Enter(s, size, nesting)).regs == s.regs
  {
    hide ReadWord, WriteWord, PhysAddr, Wrap16, Below;
    var nest := nesting % 32;
    var s1 := Push(s, s.regs.bp);
    var frame := s1.regs.sp;
    BelowOne(s.regs.sp);
    BelowStep(s.regs.sp, 1);
    PushKeepsOffset(s, s.regs.bp, frame);
    var n := if nest > 1 then nest - 1 else 0;
    assert CopyDisplay(s1, 0) == s1;
    CopyMoves(s1, n);
    BelowStep(frame, 0);
    forall i | 1 <= i <= n ensures frame != Below(frame, i) {
      BelowBelow(frame, 0, i);
    }
    CopyFrame(s1, n, frame);
    var s2 := CopyDisplay(s1, n);
    BelowStep(frame, n);
    BelowBelow(frame, 0, n + 1);
    PushKeepsOffset(s2, frame, frame);
    UpAgain(s.regs.sp);
    assert StackWord(Enter(s, size, nesting), frame) == s.regs.bp;
  }

  // The display of the caller lies clear of the new frame.
  ghost predicate DisplayApart(s: State, nest: nat)
    requires nest < 32
  {
    forall i, j :: 1 <= i < nest && 1 <= j <= nest ==> Below(s.regs.bp, i) != Below(s.regs.sp, j)
  }

  // The stack that ENTER with a nesting level of at least one leaves.
  lemma EnterNested(s: State, size: word, nesting: byte)
    requires s.regs.sp % 2 == 0 && s.regs.bp % 2 == 0 && nesting % 32 > 0
    ensures var s1, t := Push(s, s.regs.bp), Enter(s, size, nesting);
            && s1.regs == s.regs.(sp := Below(s.regs.sp, 1)) && t.regs.bp == s1.regs.sp
            && forall o: word :: StackWord(t, o) == StackWord(Push(CopyDisplay(s1, nesting % 32 - 1), s1.regs.sp), o)
  {
    hide ReadWord, WriteWord, PhysAddr, Wrap16, Below;
    var s1 := Push(s, s.regs.bp);
    BelowOne(s.regs.sp);
    assert CopyDisplay(s1, 0) == s1;
    BelowStep(s.regs.sp, 1);
    CopyMoves(s1, nesting % 32 - 1);
  }

  // The nest - 1 saved frame pointers lie below the saved BP in order, the new one last.
  lemma DisplayCopied(s: State, size: word, nesting: byte, k: nat)
    requires s.regs.sp % 2 == 0 && s.regs.bp % 2 == 0 && DisplayApart(s, nesting % 32)
    requires 1 <= k <= nesting % 32
    ensures var t := Enter(s, size, nesting);
            && t.regs.bp == Below(s.regs.sp, 1)
            && StackWord(t, Below(t.regs.bp, k))
               == if k < nesting % 32 then StackWord(s, Below(s.regs.bp, k)) else t.regs.bp
  {
    hide Enter, Push, StackWord, CopyDisplay, Wrap16, Below;
    EnterNested(s, size, nesting);
    var nest := nesting % 32;
    var s1 := Push(s, s.regs.bp);
    var frame, n := s1.regs.sp, nest - 1;
    BelowStep(s.regs.sp, 1);
    BelowStep(frame, k);
    CopyMoves(s1, n);
    BelowStep(frame, n);
    BelowBelow(frame, k, nest);
    PushKeepsOffset(CopyDisplay(s1, n), frame, Below(frame, k));
    if k < nest {
      BelowStep(s.regs.bp, k);
      forall i, j | 1 <= i <= n && 1 <= j <= n
        ensures Below(s.regs.bp, i) != Below(frame, j)
      {
        BelowBelow(s.regs.sp, 1, j);
      }
      CopiedAt(s1, n, k);
      PushKeepsOffset(s, s.regs.bp, Below(s.regs.bp, k));
    }
  }

  // ---- The frame as a whole ----

  lemma WrapDown(x: int, k: int)
    requires 0 <= k <= 0x1_0000
    ensures Wrap16(x % 0x1_0000 - k) == (x - k) % 0x1_0000
  {
    DivModDef(x, 0x1_0000);
    var r := x % 0x1_0000 - k;
    DivModUnique(x - k, 0x1_0000, x / 0x1_0000 - (if r < 0 then 1 else 0), if r < 0 then r + 0x1_0000 else r);
  }

  lemma {:induction false} CopyRegs(s: State, n: nat)
    ensures CopyDisplay(s, n).regs == s.regs.(sp := (s.regs.sp - 2 * n) % 0x1_0000, bp := (s.regs.bp - 2 * n) % 0x1_0000)
  {
    hide Wrap16, ReadWord, WriteWord, PhysAddr;
    if n > 0 {
      CopyRegs(s, n - 1);
      WrapDown(s.regs.sp - 2 * (n - 1), 2);
      WrapDown(s.regs.bp - 2 * (n - 1), 2);
    }
  }

  lemma EnterSp(sp: word, n: nat, size: word)
    ensures var x := ((sp - 2) % 0x1_0000 - 2 * n) % 0x1_0000;
            && Wrap16(x - size) == (sp - 2 - 2 * n - size) % 0x1_0000
            && Wrap16((x - 2) % 0x1_0000 - size) == (sp - 2 - 2 * (n + 1) - size) % 0x1_0000
  {
    ModSum(sp - 2, -(2 * n));
    ModSum(sp - 2 - 2 * n, -2);
    WrapDown(sp - 2 - 2 * n, size);
    WrapDown(sp - 2 - 2 * n - 2, size);
  }

  lemma PushMoves(s: State, v: word)
    ensures var t := Push(s, v); t == s.(regs := s.regs.(sp := (s.regs.sp - 2) % 0x1_0000), mem := t.mem)
  {
    PushWritten(s, v);
  }

  lemma {:induction false} CopyRest(s: State, n: nat)
    ensures var t := CopyDisplay(s, n); t == s.(regs := t.regs, mem := t.mem)
  {
    hide Wrap16, ReadWord, WriteWord, PhysAddr;
    if n > 0 { CopyRest(s, n - 1); }
  }

  // For every size, level and SP, the wrap of SP included: one word for BP, one for each level
  // and size bytes; no register but SP and BP changes.
  lemma EnterRegs(s: State, size: word, nesting: byte)
    ensures var sp: int := s.regs.sp;
            Enter(s, size, nesting).regs
            == s.regs.(bp := (sp - 2) % 0x1_0000, sp := (sp - 2 - 2 * (nesting % 32) - size) % 0x1_0000)
    ensures var t := Enter(s, size, nesting); t == s.(regs := t.regs, mem := t.mem)
  {
    hide Wrap16, Push;
    var nest := nesting % 32;
    var s1 := Push(s, s.regs.bp);
    var n := if nest > 1 then nest - 1 else 0;
    PushMoves(s, s.regs.bp);
    CopyRegs(s1, n);
    assert CopyDisplay(s1, 0) == s1;
    CopyRest(s1, n);
    PushMoves(CopyDisplay(s1, n), s1.regs.sp);
    EnterSp(s.regs.sp, n, size);
  }

  lemma ModApart(x: int, i: int)
    requires 0 <= i < 0xfffe
    ensures (x + i) % 0x1_0000 != (x - 2) % 0x1_0000 && (x + i) % 0x1_0000 != (x - 1) % 0x1_0000
  {
    DivModDef(x + i, 0x1_0000);
    DivModDef(x - 2, 0x1_0000);
    DivModDef(x - 1, 0x1_0000);
  }

  // After ENTER the saved BP lies size bytes and one word per level above SP, and a push changes
  // no byte from SP up to 0xfffe bytes above it: locals, display and saved BP stay.
  lemma FrameStands(s: State, size: word, nesting: byte, v: word, i: nat)
    requires i < 0xfffe
    ensures var t := Enter(s, size, nesting);
            && t.regs.bp == (t.regs.sp + size + 2 * (nesting % 32)) % 0x1_0000
            && var a := PhysAddr(s.regs.ss, (t.regs.sp + i) % 0x1_0000); Push(t, v).mem[a] == t.mem[a]
  {
    hide Enter, PhysAddr, Push;
    EnterRegs(s, size, nesting);
    var t := Enter(s, size, nesting);
    ModSum(s.regs.sp - 2 - 2 * (nesting % 32) - size, size + 2 * (nesting % 32));
    ModApart(t.regs.sp, i);
    PushKeepsByte(t, v, (t.regs.sp + i) % 0x1_0000);
  }
}
