// Programs that run one instruction per word over integers of any number of words: add and
// subtract chains, compares, and shifts by one place. Words are w bits, least significant first.
module Multiword {
  import opened Words
  import opened Flags
  import opened Alu
  import opened Shifts

  ghost predicate WordsBelow(ws: seq<nat>, m: nat) {
    forall k :: 0 <= k < |ws| ==> ws[k] < m
  }

  // The integer that a word sequence stands for, in base m = 2^w.
  function Val(ws: seq<nat>, m: nat): nat {
    if ws == [] then 0 else ws[0] + m * Val(ws[1..], m)
  }

  // Its two's complement reading: only the top word is signed.
  function SignedVal(ws: seq<nat>, m: nat): int
    requires ws != []
  {
    if |ws| == 1 then Signed(ws[0], m) else ws[0] + m * SignedVal(ws[1..], m)
  }

  function Power(m: nat, n: nat): nat {
    if n == 0 then 1 else m * Power(m, n - 1)
  }

  // ---- ADD/ADC and SUB/SBB chains ----

  // INC and DEC instructions between two words, such as pointer and loop-counter updates.
  function Counters(flags: Flags, w: nat, steps: seq<(AluOp, nat)>): (f: Flags)
    requires 8 <= w < 32 && forall k :: 0 <= k < |steps| ==> steps[k].1 < Pow2(w)
    ensures f.cf == flags.cf
    decreases |steps|
  {
    if steps == [] then flags
    else Counters(IncDec(flags, steps[0].0, w, steps[0].1).0, w, steps[1..])
  }

  ghost predicate GapsBelow(gaps: seq<seq<(AluOp, nat)>>, m: nat) {
    forall i, k :: 0 <= i < |gaps| && 0 <= k < |gaps[i]| ==> gaps[i][k].1 < m
  }

  // ADD or SUB on the first word, then ADC or SBB on each further one, with any counters
  // between words.
  ghost function Chain(flags: Flags, op: AluOp, w: nat, a: seq<nat>, b: seq<nat>, withCarry: bool,
                       gaps: seq<seq<(AluOp, nat)>>): (r: (Flags, seq<nat>))
    requires 8 <= w < 32 && |a| == |b| == |gaps| + 1
    requires WordsBelow(a, Pow2(w)) && WordsBelow(b, Pow2(w)) && GapsBelow(gaps, Pow2(w))
    ensures |r.1| == |a| && WordsBelow(r.1, Pow2(w))
    decreases |a|
  {
    var (f, r) := AluInsn(flags, op, w, a[0], b[0], withCarry);
    if |a| == 1 then (f, [r])
    else
      var (f', rs) := Chain(Counters(f, w, gaps[0]), op, w, a[1..], b[1..], true, gaps[1..]);
      (f', [r] + rs)
  }

  // The weight of the final carry or borrow.
  function Carry(op: AluOp, cf: bool, m: nat): int {
    if !cf then 0 else if op.Add? then m else -(m as int)
  }

  // Each step: result digit plus the weighted carry is the exact sum or difference.
  lemma DigitExact(flags: Flags, op: AluOp, w: nat, a: nat, b: nat, withCarry: bool)
    requires 8 <= w < 32 && a < Pow2(w) && b < Pow2(w)
    ensures var (f, r) := AluInsn(flags, op, w, a, b, withCarry);
            Exact(op, a, b, BoolToInt(withCarry && flags.cf)) == r + Carry(op, f.cf, Pow2(w))
  {
  }

  lemma OneWord(s: seq<nat>, m: nat)
    requires |s| == 1
    ensures Val(s, m) == s[0] && Power(m, 1) == m
  {
    assert m * Val(s[1..], m) == 0;
    assert Power(m, 1) == m * Power(m, 0);
  }

  lemma Distribute(m: int, a: int, b: int, c: int, r: int, k: int)
    requires a + b + c == r + k
    ensures m * a + m * b + m * c == m * r + m * k
  {
    assert m * (a + b + c) == m * (r + k);
  }

  lemma Scale(op: AluOp, m: nat, a: nat, b: nat, r: nat, c: bool, c': bool, p: nat)
    requires Exact(op, a, b, BoolToInt(c)) == r + Carry(op, c', p)
    ensures Exact(op, m * a, m * b, 0) + Carry(op, c, m) == m * r + Carry(op, c', m * p)
  {
    if op.Add? {
      Distribute(m, a, b, BoolToInt(c), r, Carry(op, c', p));
    } else {
      Distribute(m, a, 0 - b, 0 - BoolToInt(c), r, Carry(op, c', p));
    }
  }

  // The lowest word and the words above it.
  lemma AddWords(op: AluOp, m: nat, a: nat, b: nat, r: nat, c: bool, cf: bool, a': nat, b': nat, r': nat, cf': bool, p: nat)
    requires Exact(op, a, b, BoolToInt(c)) == r + Carry(op, cf, m)
    requires Exact(op, a', b', BoolToInt(cf)) == r' + Carry(op, cf', p)
    ensures Exact(op, a + m * a', b + m * b', BoolToInt(c)) == r + m * r' + Carry(op, cf', m * p)
  {
    Scale(op, m, a', b', r', cf, cf', p);
  }

  // The chain computes A + B or A - B over all the words, CF being the carry or borrow out.
  lemma {:induction false} ChainExact(flags: Flags, op: AluOp, w: nat, a: seq<nat>, b: seq<nat>, withCarry: bool,
                                      gaps: seq<seq<(AluOp, nat)>>)
    requires 8 <= w < 32 && |a| == |b| == |gaps| + 1
    requires WordsBelow(a, Pow2(w)) && WordsBelow(b, Pow2(w)) && GapsBelow(gaps, Pow2(w))
    ensures var (f, r) := Chain(flags, op, w, a, b, withCarry, gaps);
            Exact(op, Val(a, Pow2(w)), Val(b, Pow2(w)), BoolToInt(withCarry && flags.cf))
            == Val(r, Pow2(w)) + Carry(op, f.cf, Power(Pow2(w), |a|))
    decreases |a|
  {
    hide AluInsn, Counters, Exact, Carry, Pow2;
    var m := Pow2(w);
    DigitExact(flags, op, w, a[0], b[0], withCarry);
    var (f, r) := AluInsn(flags, op, w, a[0], b[0], withCarry);
    if |a| == 1 {
      OneWord(a, m);
      OneWord(b, m);
      OneWord([r], m);
    } else {
      var g := Counters(f, w, gaps[0]);
      var (f', rs) := Chain(g, op, w, a[1..], b[1..], true, gaps[1..]);
      ChainExact(g, op, w, a[1..], b[1..], true, gaps[1..]);
      assert ([r] + rs)[1..] == rs;
      AddWords(op, m, a[0], b[0], r, withCarry && flags.cf, f.cf,
               Val(a[1..], m), Val(b[1..], m), Val(rs, m), f'.cf, Power(m, |a| - 1));
    }
  }

  lemma DigitBelow(d: nat, v: nat, p: nat, m: nat)
    requires d < m && v < p
    ensures d + m * v < m * p
  {
    MulLe(v + 1, p, m);
    MulSucc(v, m);
  }

  lemma ValBound(ws: seq<nat>, m: nat)
    requires m > 0 && WordsBelow(ws, m)
    ensures Val(ws, m) < Power(m, |ws|)
  {
    if ws != [] {
      ValBound(ws[1..], m);
      DigitBelow(ws[0], Val(ws[1..], m), Power(m, |ws| - 1), m);
    }
  }

  // After the last SBB of a subtraction JB is taken exactly when A < B.
  lemma BorrowOrders(flags: Flags, w: nat, a: seq<nat>, b: seq<nat>, gaps: seq<seq<(AluOp, nat)>>)
    requires 8 <= w < 32 && |a| == |b| == |gaps| + 1
    requires WordsBelow(a, Pow2(w)) && WordsBelow(b, Pow2(w)) && GapsBelow(gaps, Pow2(w))
    ensures var f := Chain(flags, Sub, w, a, b, false, gaps).0;
            Taken(B, f) <==> Val(a, Pow2(w)) < Val(b, Pow2(w))
  {
    ChainExact(flags, Sub, w, a, b, false, gaps);
    ValBound(Chain(flags, Sub, w, a, b, false, gaps).1, Pow2(w));
  }

  // A nonnegative low word below m never changes the sign of the words above it.
  lemma SignOfScaled(m: int, a: int, b: int, cf: bool, r: int)
    requires 0 <= r < m
    ensures m * a - m * b + r - (if cf then m else 0) < 0 <==> a - b - BoolToInt(cf) < 0
  {
    var d := a - b - BoolToInt(cf);
    assert m * a - m * b - (if cf then m else 0) == d * m;
    if d < 0 {
      MulLe(d, -1, m);
    } else {
      MulLe(0, d, m);
    }
  }

  lemma {:induction false} SignOfDifference(flags: Flags, w: nat, a: seq<nat>, b: seq<nat>, withCarry: bool,
                                            gaps: seq<seq<(AluOp, nat)>>)
    requires 8 <= w < 32 && |a| == |b| == |gaps| + 1
    requires WordsBelow(a, Pow2(w)) && WordsBelow(b, Pow2(w)) && GapsBelow(gaps, Pow2(w))
    ensures var f := Chain(flags, Sub, w, a, b, withCarry, gaps).0;
            f.sf != f.of <==>
            SignedVal(a, Pow2(w)) - SignedVal(b, Pow2(w)) - BoolToInt(withCarry && flags.cf) < 0
    decreases |a|
  {
    var m := Pow2(w);
    var (f, r) := AluInsn(flags, Sub, w, a[0], b[0], withCarry);
    if |a| == 1 {
      SignOfResult(flags, Sub, w, a[0], b[0], withCarry && flags.cf);
    } else {
      DigitExact(flags, Sub, w, a[0], b[0], withCarry);
      var g := Counters(f, w, gaps[0]);
      SignOfDifference(g, w, a[1..], b[1..], true, gaps[1..]);
      SignOfScaled(m, SignedVal(a[1..], m), SignedVal(b[1..], m), f.cf, r);
    }
  }

  // And JL exactly when A < B as signed numbers.
  lemma SignOrders(flags: Flags, w: nat, a: seq<nat>, b: seq<nat>, gaps: seq<seq<(AluOp, nat)>>)
    requires 8 <= w < 32 && |a| == |b| == |gaps| + 1
    requires WordsBelow(a, Pow2(w)) && WordsBelow(b, Pow2(w)) && GapsBelow(gaps, Pow2(w))
    ensures var f := Chain(flags, Sub, w, a, b, false, gaps).0;
            Taken(L, f) <==> SignedVal(a, Pow2(w)) < SignedVal(b, Pow2(w))
  {
    SignOfDifference(flags, w, a, b, false, gaps);
  }

  // The signed reading subtracts m^n when the sign bit of the top word is set.
  lemma SignedValMeaning(ws: seq<nat>, m: nat)
    requires ws != []
    ensures SignedVal(ws, m) == Val(ws, m) - (if ws[|ws| - 1] >= m / 2 then Power(m, |ws|) else 0)
  {
    if |ws| == 1 {
      OneWord(ws, m);
    } else {
      SignedValMeaning(ws[1..], m);
      var p := Power(m, |ws| - 1);
      assert m * (Val(ws[1..], m) - p) == m * Val(ws[1..], m) - m * p;
    }
  }

  // ---- Shifts by one place over many words ----

  lemma OnePlace(w: nat)
    requires w >= 1
    ensures Places(1, w + 1) == 1
  {
    DivModUnique(1, w + 1, 0, 1);
  }

  lemma DoublePow2(n: nat)
    ensures Pow2(n + 1) == 2 * Pow2(n)
  {
  }

  lemma LowBit(b: bool, s: seq<bool>)
    ensures FromBits([b] + s) == BoolToInt(b) + 2 * FromBits(s)
  {
    assert ([b] + s)[1..] == s;
  }

  lemma TopOff(s: seq<bool>, low: bool)
    requires s != []
    ensures FromBits([low] + s[..|s| - 1]) + (if s[|s| - 1] then Pow2(|s|) else 0)
            == 2 * FromBits(s) + BoolToInt(low)
  {
    hide Pow2, FromBits;
    var t := s[..|s| - 1];
    assert s == t + [s[|s| - 1]];
    FromBitsAppend(t, s[|s| - 1]);
    LowBit(low, t);
    DoublePow2(|t|);
  }

  // RCL r, 1 and RCR r, 1 as arithmetic.
  lemma RclOne(w: nat, v: nat, cf: bool)
    requires w >= 2 && v < Pow2(w)
    ensures var (v', cf') := Rcl(w, v, cf, 1);
            v' < Pow2(w) && v' + (if cf' then Pow2(w) else 0) == 2 * v + BoolToInt(cf)
  {
    var s := ToBits(v, w);
    FromToBits(v, w);
    OnePlace(w);
    PairLeft(s, cf);
    UnpairAppend([cf] + s[..w - 1], s[w - 1]);
    TopOff(s, cf);
  }

  lemma RcrOne(w: nat, v: nat, cf: bool)
    requires w >= 2 && v < Pow2(w)
    ensures var (v', cf') := Rcr(w, v, cf, 1);
            v' < Pow2(w) && 2 * v' + BoolToInt(cf') == v + (if cf then Pow2(w) else 0)
  {
    var s := ToBits(v, w);
    FromToBits(v, w);
    OnePlace(w);
    PairRight(s, cf);
    UnpairAppend(s[1..] + [cf], s[0]);
    FromBitsAppend(s[1..], cf);
  }

  // One place in arithmetic: the carry enters below and the bit of weight 2^w leaves, or the
  // carry enters at that weight and the low bit leaves.
  function OneLeft(w: nat, v: nat, cf: bool): (nat, bool) {
    var x := 2 * v + BoolToInt(cf);
    (x % Pow2(w), x >= Pow2(w))
  }

  function OneRight(w: nat, v: nat, cf: bool): (nat, bool) {
    ((if cf then v + Pow2(w) else v) / 2, v % 2 == 1)
  }

  function StepsLeft(w: nat, v: nat, cf: bool, n: nat): (nat, bool) {
    if n == 0 then (v, cf) else var (u, c) := StepsLeft(w, v, cf, n - 1); OneLeft(w, u, c)
  }

  function StepsRight(w: nat, v: nat, cf: bool, n: nat): (nat, bool) {
    if n == 0 then (v, cf) else var (u, c) := StepsRight(w, v, cf, n - 1); OneRight(w, u, c)
  }

  lemma RotOneLeft(w: nat, v: nat, cf: bool)
    requires w >= 2 && v < Pow2(w)
    ensures Unpair(RotL(Pair(v, cf, w), 1)) == OneLeft(w, v, cf)
  {
    hide RotL, Pair, Unpair, Pow2;
    OnePlace(w);
    RclOne(w, v, cf);
    var (l, out) := Rcl(w, v, cf, 1);
    DivModUnique(2 * v + BoolToInt(cf), Pow2(w), BoolToInt(out), l);
  }

  lemma EvenPower(w: nat)
    requires w >= 1
    ensures Pow2(w) % 2 == 0
  {
  }

  lemma RotOneRight(w: nat, v: nat, cf: bool)
    requires w >= 2 && v < Pow2(w)
    ensures Unpair(RotR(Pair(v, cf, w), 1)) == OneRight(w, v, cf)
  {
    hide RotR, Pair, Unpair, Pow2;
    OnePlace(w);
    RcrOne(w, v, cf);
    var (r, out) := Rcr(w, v, cf, 1);
    EvenPower(w);
    DivModUnique(if cf then v + Pow2(w) else v, 2, r, BoolToInt(out));
    if cf { DivModDef(v, 2); DivModUnique(v, 2, r - Pow2(w) / 2, BoolToInt(out)); }
  }

  lemma {:induction false} TurnsLeftInSteps(w: nat, v: nat, cf: bool, n: nat)
    requires w >= 2 && v < Pow2(w)
    ensures Unpair(TurnL(Pair(v, cf, w), n)) == StepsLeft(w, v, cf, n)
  {
    hide RotL, Pair, Unpair, OneLeft, Pow2;
    UnpairPair([], v, cf, w);
    if n > 0 {
      TurnsLeftInSteps(w, v, cf, n - 1);
      var l := TurnL(Pair(v, cf, w), n - 1);
      UnpairPair(l, v, cf, w);
      RotOneLeft(w, Unpair(l).0, Unpair(l).1);
    }
  }

  lemma {:induction false} TurnsRightInSteps(w: nat, v: nat, cf: bool, n: nat)
    requires w >= 2 && v < Pow2(w)
    ensures Unpair(TurnR(Pair(v, cf, w), n)) == StepsRight(w, v, cf, n)
  {
    hide RotR, Pair, Unpair, OneRight, Pow2;
    UnpairPair([], v, cf, w);
    if n > 0 {
      TurnsRightInSteps(w, v, cf, n - 1);
      var r := TurnR(Pair(v, cf, w), n - 1);
      UnpairPair(r, v, cf, w);
      RotOneRight(w, Unpair(r).0, Unpair(r).1);
    }
  }

  // RCL and RCR by any count are that many one-place steps, the count taken modulo 32.
  lemma RclRcrSteps(w: nat, v: nat, cf: bool, count: nat)
    requires w >= 2 && v < Pow2(w)
    ensures Rcl(w, v, cf, count) == StepsLeft(w, v, cf, count % 32)
    ensures Rcr(w, v, cf, count) == StepsRight(w, v, cf, count % 32)
  {
    hide RotL, RotR, Unpair, TurnL, TurnR, StepsLeft, StepsRight;
    TurnsLeftInSteps(w, v, cf, count % 32);
    TurnsRightInSteps(w, v, cf, count % 32);
    TurnLIsRotL(Pair(v, cf, w), count % 32);
    TurnRIsRotR(Pair(v, cf, w), count % 32);
  }

  // SHL r, 1 and SHR r, 1 are RCL and RCR with the carry clear.
  lemma ShlOne(w: nat, v: nat)
    requires w >= 2 && v < Pow2(w)
    ensures var (v', cf') := Shl(w, v, 1);
            v' < Pow2(w) && v' + (if cf' then Pow2(w) else 0) == 2 * v
  {
    assert Pow2(1) == 2;
    var q := if v >= Pow2(w - 1) then 1 else 0;
    DivModUnique(2 * v, Pow2(w), q, if v >= Pow2(w - 1) then 2 * v - Pow2(w) else 2 * v);
  }

  lemma ShrOne(v: nat)
    ensures var (v', cf') := FloorShift(v, 1); v' >= 0 && 2 * v' + BoolToInt(cf') == v
  {
    assert Pow2(1) == 2 && Pow2(0) == 1;
    DivModUnique(v, 1, v, 0);
  }

  // One instruction of a shift chain: the first word is shifted, the others take the carry.
  function StepUp(w: nat, v: nat, first: bool, cf: bool): (r: (nat, bool))
    requires w >= 2 && v < Pow2(w)
    ensures r.0 + (if r.1 then Pow2(w) else 0) == 2 * v + BoolToInt(!first && cf)
  {
    ShlOne(w, v);
    RclOne(w, v, cf);
    if first then Shl(w, v, 1) else Rcl(w, v, cf, 1)
  }

  function StepDown(w: nat, v: nat, first: bool, cf: bool): (r: (nat, bool))
    requires w >= 2 && v < Pow2(w)
    ensures 2 * r.0 + BoolToInt(r.1) == v + (if !first && cf then Pow2(w) else 0)
  {
    ShrOne(v);
    RcrOne(w, v, cf);
    if first then FloorShift(v, 1) else Rcr(w, v, cf, 1)
  }

  // SHL on the lowest word, then RCL on each higher one.
  ghost function ShiftUp(w: nat, ws: seq<nat>, first: bool, cf: bool): (r: (seq<nat>, bool))
    requires w >= 2 && WordsBelow(ws, Pow2(w))
    ensures |r.0| == |ws|
  {
    if ws == [] then ([], cf)
    else
      var (v, cf') := StepUp(w, ws[0], first, cf);
      var (vs, out) := ShiftUp(w, ws[1..], false, cf');
      ([v] + vs, out)
  }

  lemma ScaleDouble(m: int, r: int, out: bool, p: int, v: int, c: bool)
    requires r + (if out then p else 0) == 2 * v + BoolToInt(c)
    ensures m * r + (if out then m * p else 0) == 2 * (m * v) + (if c then m else 0)
  {
    assert m * (r + (if out then p else 0)) == m * (2 * v + BoolToInt(c));
  }

  lemma {:induction false} ShiftUpDoubles(w: nat, ws: seq<nat>, first: bool, cf: bool)
    requires w >= 2 && WordsBelow(ws, Pow2(w)) && (first ==> ws != [])
    ensures var (r, out) := ShiftUp(w, ws, first, cf);
            Val(r, Pow2(w)) + (if out then Power(Pow2(w), |ws|) else 0)
            == 2 * Val(ws, Pow2(w)) + BoolToInt(!first && cf)
    decreases |ws|
  {
    hide StepUp, Pow2;
    var m := Pow2(w);
    if ws != [] {
      var (v, cf') := StepUp(w, ws[0], first, cf);
      var (vs, out) := ShiftUp(w, ws[1..], false, cf');
      ShiftUpDoubles(w, ws[1..], false, cf');
      assert ([v] + vs)[1..] == vs;
      ScaleDouble(m, Val(vs, m), out, Power(m, |ws| - 1), Val(ws[1..], m), cf');
    }
  }

  // SHR on the highest word, then RCR on each lower one.
  ghost function ShiftDown(w: nat, ws: seq<nat>, first: bool, cf: bool): (r: (seq<nat>, bool))
    requires w >= 2 && WordsBelow(ws, Pow2(w))
    ensures |r.0| == |ws|
  {
    if ws == [] then ([], cf)
    else
      var n := |ws| - 1;
      var (v, cf') := StepDown(w, ws[n], first, cf);
      var (vs, out) := ShiftDown(w, ws[..n], false, cf');
      (vs + [v], out)
  }

  lemma NoWords(m: nat)
    ensures Val([], m) == 0
  {
  }

  lemma AppendScale(m: int, v: int, p: int, d: int)
    ensures m * (v + p * d) == m * v + m * p * d
  {
    assert m * (p * d) == m * p * d;
  }

  lemma ValAppend(ws: seq<nat>, d: nat, m: nat)
    ensures Val(ws + [d], m) == Val(ws, m) + Power(m, |ws|) * d
  {
    if ws == [] {
      OneWord([d], m);
      assert ws + [d] == [d];
    } else {
      ValAppend(ws[1..], d, m);
      assert (ws + [d])[1..] == ws[1..] + [d];
      AppendScale(m, Val(ws[1..], m), Power(m, |ws| - 1), d);
    }
  }

  lemma HalveTop(p: int, m: int, v: int, c: bool, u: int, k: bool)
    requires 2 * v + BoolToInt(c) == u + (if k then m else 0)
    ensures 2 * (p * v) + (if c then p else 0) == p * u + (if k then m * p else 0)
  {
    assert p * (2 * v + BoolToInt(c)) == p * (u + (if k then m else 0));
  }

  // The words below the top and the top word, with the carry between them.
  lemma HalveWords(p: int, m: int, v: int, c: bool, u: int, k: bool, low: int, out: bool, rest: int)
    requires 2 * v + BoolToInt(c) == u + (if k then m else 0)
    requires 2 * low + BoolToInt(out) == rest + (if c then p else 0)
    ensures 2 * (low + p * v) + BoolToInt(out) == rest + p * u + (if k then m * p else 0)
  {
    HalveTop(p, m, v, c, u, k);
  }

  lemma {:induction false} ShiftDownHalves(w: nat, ws: seq<nat>, first: bool, cf: bool)
    requires w >= 2 && WordsBelow(ws, Pow2(w)) && (first ==> ws != [])
    ensures var (r, out) := ShiftDown(w, ws, first, cf);
            2 * Val(r, Pow2(w)) + BoolToInt(out)
            == Val(ws, Pow2(w)) + (if !first && cf then Power(Pow2(w), |ws|) else 0)
    decreases |ws|
  {
    hide StepDown, Pow2, Val;
    var m, n := Pow2(w), |ws| - 1;
    NoWords(m);
    if ws != [] {
      var (v, cf') := StepDown(w, ws[n], first, cf);
      var (vs, out) := ShiftDown(w, ws[..n], false, cf');
      ShiftDownHalves(w, ws[..n], false, cf');
      assert ws == ws[..n] + [ws[n]];
      ValAppend(ws[..n], ws[n], m);
      ValAppend(vs, v, m);
      HalveWords(Power(m, n), m, v, cf', ws[n], !first && cf, Val(vs, m), out, Val(ws[..n], m));
    }
  }
}
