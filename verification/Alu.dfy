// The ALU of the software CPU, do_alu with do_add and do_sub (sim/cppmodel/Emulate.cpp), and
// the instructions that go through it, over operands of any width from 8 to 31 bits.
module Alu {
  import opened Words
  import opened Flags

  datatype AluOp = Add | Sub

  // The exact integer that the operation stands for.
  function Exact(op: AluOp, a: int, b: int, c: int): int {
    match op
    case Add => a + b + c
    case Sub => a - b - c
  }

  // The 32-bit value the source computes it as.
  function Result32(op: AluOp, a: int, b: int, c: int): dword {
    Exact(op, a, b, c) % 0x1_0000_0000
  }

  // v & ~(1 << k)
  function ClearBit(v: int, k: nat): int {
    if Bit(v, k) then v - Pow2(k) else v
  }

  // An integer within one step of [0, m), wrapped at a multiple of 2 * m.
  lemma WrappedBit(x: int, r: int, m: int, h: int)
    requires m > 0 && h > 0 && r == 2 * h * m && -m <= x < 2 * m
    ensures (x % r / m) % 2 == 1 <==> !(0 <= x < m)
    ensures x % r % m == x % m
  {
    MulLe(2, 2 * h, m);
    var q := if x < 0 then -1 else if x < m then 0 else 1;
    var y := if x < 0 then x + r else x;
    var q' := if x < 0 then 2 * h - 1 else q;
    DivModUnique(x, r, if x < 0 then -1 else 0, y);
    MulSucc(2 * h - 1, m);
    assert y == q' * m + (x - q * m);
    DivModUnique(y, m, q', x - q * m);
    DivModUnique(x, m, q, x - q * m);
  }

  lemma SplitDword(k: nat)
    requires k < 32
    ensures 2 * Pow2(31 - k) * Pow2(k) == 0x1_0000_0000
  {
    Pow2Add(32 - k, k);
    Pow2Of16();
    Pow2Add(16, 16);
  }

  // Bit k of the 32-bit result says whether the exact result of k-bit operands left [0, 2^k).
  lemma CarryBit(op: AluOp, k: nat, a: nat, b: nat, c: nat)
    requires k < 32 && a < Pow2(k) && b < Pow2(k) && c <= 1
    ensures Bit(Result32(op, a, b, c), k) <==> !(0 <= Exact(op, a, b, c) < Pow2(k))
    ensures Result32(op, a, b, c) % Pow2(k) == Exact(op, a, b, c) % Pow2(k)
  {
    SplitDword(k);
    WrappedBit(Exact(op, a, b, c), 0x1_0000_0000, Pow2(k), Pow2(31 - k));
  }

  lemma TopBit(y: int, h: int)
    requires h > 0
    ensures (y / h) % 2 == 1 <==> y % (2 * h) >= h
  {
    var q, r := y / (2 * h), y % (2 * h);
    assert y == 2 * h * q + r;
    assert 2 * h * q == 2 * q * h;
    MulSucc(2 * q, h);
    if r >= h {
      DivModUnique(y, h, 2 * q + 1, r - h);
    } else {
      DivModUnique(y, h, 2 * q, r);
    }
  }

  lemma ClearTop(v: nat, w: nat)
    requires w >= 1 && v < Pow2(w)
    ensures ClearBit(v, w - 1) == if v >= Pow2(w - 1) then v - Pow2(w - 1) else v
  {
    TopBit(v, Pow2(w - 1));
    DivModUnique(v, Pow2(w), 0, v);
  }

  predicate InSignedRange(s: int, half: int) {
    -half <= s < half
  }

  // What ADD, ADC, SUB, SBB and CMP are for: the exact result reduced to w bits, CF and OF
  // saying that it did not fit the unsigned and the signed range, AF the same for the low
  // nibble.
  function Alu(flags: Flags, op: AluOp, w: nat, a: nat, b: nat, carry: bool): (r: (Flags, nat))
    requires 8 <= w < 32 && a < Pow2(w) && b < Pow2(w)
    ensures r.1 < Pow2(w)
  {
    var m, h, c := Pow2(w), Pow2(w - 1), BoolToInt(carry);
    var x := Exact(op, a, b, c);
    var s := Exact(op, Signed(a, m), Signed(b, m), c);
    var result := if x < 0 then x + m else if x < m then x else x - m;
    (flags.(cf := !(0 <= x < m), pf := EvenParity(result % 256), af := !(0 <= Exact(op, a % 16, b % 16, c) < 16),
            zf := result == 0, sf := result >= h, of := !InSignedRange(s, h)),
     result)
  }

  lemma TimesByte(n: nat)
    ensures Pow2(n + 8) == 256 * Pow2(n)
  {
    if n > 0 {
      TimesByte(n - 1);
    } else {
      Pow2Of16();
    }
  }

  lemma LowByteOfMultiple(y: int, m: int, p: int, q: int, r: int)
    requires m == 256 * p && y == q * m + r
    ensures y % 256 == r % 256
  {
    assert q * m == 256 * (p * q);
    DivModUnique(y, 256, p * q + r / 256, r % 256);
  }

  lemma LowByte(y: int, w: nat)
    requires w >= 8
    ensures y % 256 == y % Pow2(w) % 256
  {
    TimesByte(w - 8);
    DivModDef(y, Pow2(w));
    LowByteOfMultiple(y, Pow2(w), Pow2(w - 8), y / Pow2(w), y % Pow2(w));
  }

  lemma ExactMod(x: int, m: int)
    requires m > 0 && -m <= x < 2 * m
    ensures x % m == if x < 0 then x + m else if x < m then x else x - m
  {
    DivModUnique(x, m, if x < 0 then -1 else if x < m then 0 else 1,
                 if x < 0 then x + m else if x < m then x else x - m);
  }

  lemma ValueBits(op: AluOp, w: nat, a: nat, b: nat, c: nat)
    requires 8 <= w < 32 && a < Pow2(w) && b < Pow2(w) && c <= 1
    ensures var x, y, m := Exact(op, a, b, c), Result32(op, a, b, c), Pow2(w);
            && y % m == (if x < 0 then x + m else if x < m then x else x - m)
            && (Bit(y, w) <==> !(0 <= x < m))
            && (Bit(y, w - 1) <==> y % m >= Pow2(w - 1))
            && y % 256 == y % m % 256
    ensures Bit(Result32(op, a % 16, b % 16, c), 4) <==> !(0 <= Exact(op, a % 16, b % 16, c) < 16)
  {
    CarryBit(op, w, a, b, c);
    ExactMod(Exact(op, a, b, c), Pow2(w));
    TopBit(Result32(op, a, b, c), Pow2(w - 1));
    LowByte(Result32(op, a, b, c), w);
    assert Pow2(4) == 16;
    CarryBit(op, 4, a % 16, b % 16, c);
  }

  lemma SignedOverflow(op: AluOp, a: int, b: int, c: int, h: int)
    requires 0 <= a < 2 * h && 0 <= b < 2 * h && 0 <= c <= 1
    ensures var x := Exact(op, a, b, c);
            var y := Exact(op, if a >= h then a - h else a, if b >= h then b - h else b, c);
            var s := Exact(op, Signed(a, 2 * h), Signed(b, 2 * h), c);
            var r := if x < 0 then x + 2 * h else if x < 2 * h then x else x - 2 * h;
            var of := !(0 <= y < h) != !(0 <= x < 2 * h);
            && (of <==> !InSignedRange(s, h))
            && ((r >= h) != of <==> s < 0)
  {
    assert 2 * h / 2 == h;
  }

  lemma SignBits(op: AluOp, w: nat, a: nat, b: nat, c: nat)
    requires 8 <= w < 32 && a < Pow2(w) && b < Pow2(w) && c <= 1
    ensures var x, s := Exact(op, a, b, c), Exact(op, Signed(a, Pow2(w)), Signed(b, Pow2(w)), c);
            var carryIn := Bit(Result32(op, ClearBit(a, w - 1), ClearBit(b, w - 1), c), w - 1);
            carryIn != !(0 <= x < Pow2(w)) <==> !InSignedRange(s, Pow2(w - 1))
  {
    ClearTop(a, w);
    ClearTop(b, w);
    CarryBit(op, w - 1, ClearBit(a, w - 1), ClearBit(b, w - 1), c);
    SignedOverflow(op, a, b, c, Pow2(w - 1));
  }

  // do_alu reads the flags off bits of three evaluations of the operation: on the operands,
  // on their low nibbles (AF) and with their sign bits cleared (the carry into the sign).
  method DoAlu(flags: Flags, op: AluOp, w: nat, v1: nat, v2: nat, carry: bool) returns (f: Flags, result: nat)
    requires 8 <= w < 32 && v1 < Pow2(w) && v2 < Pow2(w)
    ensures (f, result) == Alu(flags, op, w, v1, v2, carry)
  {
    var c := BoolToInt(carry);
    var result32 := Result32(op, v1, v2, c);
    var af := Bit(Result32(op, v1 % 16, v2 % 16, c), 4);
    var cf := Bit(result32, w);
    var sf := Bit(result32, w - 1);
    var zf := result32 % Pow2(w) == 0;
    var pf := EvenParity(result32 % 256);
    var carryIn := Bit(Result32(op, ClearBit(v1, w - 1), ClearBit(v2, w - 1), c), w - 1);
    ValueBits(op, w, v1, v2, c);
    SignBits(op, w, v1, v2, c);
    f := flags.(cf := cf, pf := pf, af := af, zf := zf, sf := sf, of := carryIn != cf);
    result := result32 % Pow2(w);
    ghost var e := Alu(flags, op, w, v1, v2, carry);
    assert result == e.1;
    assert cf == e.0.cf && af == e.0.af && zf == e.0.zf;
    assert sf == e.0.sf && pf == e.0.pf && (carryIn != cf) == e.0.of;
  }

  // SF and OF together give the sign of the exact signed result.
  lemma SignOfResult(flags: Flags, op: AluOp, w: nat, a: nat, b: nat, carry: bool)
    requires 8 <= w < 32 && a < Pow2(w) && b < Pow2(w)
    ensures var f := Alu(flags, op, w, a, b, carry).0;
            f.sf != f.of <==> Exact(op, Signed(a, Pow2(w)), Signed(b, Pow2(w)), BoolToInt(carry)) < 0
  {
    SignedOverflow(op, a, b, BoolToInt(carry), Pow2(w - 1));
  }

  // ---- Instructions ----

  // ADD, ADC, SUB, SBB and, when the result is dropped, CMP: ADC and SBB take CF as carry.
  function AluInsn(flags: Flags, op: AluOp, w: nat, a: nat, b: nat, withCarry: bool): (r: (Flags, nat))
    requires 8 <= w < 32 && a < Pow2(w) && b < Pow2(w)
    ensures r.1 < Pow2(w)
  {
    var (f, r) := Alu(flags, op, w, a, b, withCarry && flags.cf);
    (SetFlags(flags, f, ARITHMETIC), r)
  }

  lemma OneFits(w: nat)
    requires w >= 1
    ensures 1 < Pow2(w)
  {
  }

  // INC and DEC do not store CF.
  function IncDec(flags: Flags, op: AluOp, w: nat, v: nat): (r: (Flags, nat))
    requires 8 <= w < 32 && v < Pow2(w)
    ensures r.0.cf == flags.cf && r.1 < Pow2(w)
  {
    OneFits(w);
    var (f, r) := Alu(flags, op, w, v, 1, false);
    (SetFlags(flags, f, ARITHMETIC.(cf := false)), r)
  }

  lemma SignedOne(w: nat, v: nat)
    requires 8 <= w && v < Pow2(w)
    ensures 1 < Pow2(w - 1) && Pow2(w) == 2 * Pow2(w - 1) && Signed(1, Pow2(w)) == 1
    ensures Signed(v, Pow2(w)) == if v >= Pow2(w - 1) then v - Pow2(w) else v
  {
    OneFits(w - 1);
  }

  // The result is one more modulo 2^w; OF says that the largest signed value was passed, AF that
  // the low digit was; CF, TF, IF and DF stay.
  lemma IncExact(flags: Flags, w: nat, v: nat)
    requires 8 <= w < 32 && v < Pow2(w)
    ensures var (f, r) := IncDec(flags, Add, w, v);
            && r == (if v == Pow2(w) - 1 then 0 else v + 1)
            && f == flags.(zf := r == 0, sf := r >= Pow2(w - 1), of := v == Pow2(w - 1) - 1, af := v % 16 == 15,
                           pf := EvenParity(r % 256))
  {
    hide EvenParity, Pow2, Signed;
    SignedOne(w, v);
  }

  // The same for one less.
  lemma DecExact(flags: Flags, w: nat, v: nat)
    requires 8 <= w < 32 && v < Pow2(w)
    ensures var (f, r) := IncDec(flags, Sub, w, v);
            && r == (if v == 0 then Pow2(w) - 1 else v - 1)
            && f == flags.(zf := r == 0, sf := r >= Pow2(w - 1), of := v == Pow2(w - 1), af := v % 16 == 0,
                           pf := EvenParity(r % 256))
  {
    hide EvenParity, Pow2, Signed;
    SignedOne(w, v);
  }

  // ADD to CMP store the six arithmetic flags and no other.
  lemma AluInsnKeeps(flags: Flags, op: AluOp, w: nat, a: nat, b: nat, withCarry: bool)
    requires 8 <= w < 32 && a < Pow2(w) && b < Pow2(w)
    ensures var f := AluInsn(flags, op, w, a, b, withCarry).0;
            f == flags.(cf := f.cf, pf := f.pf, af := f.af, zf := f.zf, sf := f.sf, of := f.of)
  {
    hide Alu, Pow2;
  }

  // The conditions of the conditional jumps.
  datatype Condition = E | NE | B | NB | BE | NBE | L | NL | LE | NLE | S | NS | O | NO | P | NP

  predicate Taken(c: Condition, f: Flags) {
    match c
    case E => f.zf
    case NE => !f.zf
    case B => f.cf
    case NB => !f.cf
    case BE => f.cf || f.zf
    case NBE => !(f.cf || f.zf)
    case L => f.of != f.sf
    case NL => !(f.sf != f.of)
    case LE => (f.of != f.sf) || f.zf
    case NLE => !((f.sf != f.of) || f.zf)
    case S => f.sf
    case NS => !f.sf
    case O => f.of
    case NO => !f.of
    case P => f.pf
    case NP => !f.pf
  }

  // After CMP a, b the jumps decide the unsigned and the signed order of a and b.
  lemma CompareUnsigned(flags: Flags, w: nat, a: nat, b: nat)
    requires 8 <= w < 32 && a < Pow2(w) && b < Pow2(w)
    ensures var f := AluInsn(flags, Sub, w, a, b, false).0;
            && (Taken(E, f) <==> a == b) && (Taken(NE, f) <==> a != b)
            && (Taken(B, f) <==> a < b) && (Taken(NB, f) <==> a >= b)
            && (Taken(BE, f) <==> a <= b) && (Taken(NBE, f) <==> a > b)
  {
    var f := Alu(flags, Sub, w, a, b, false).0;
    assert f.zf == (a == b) && f.cf == (a < b);
  }

  lemma SignedInjective(a: nat, b: nat, m: nat)
    requires a < m && b < m
    ensures Signed(a, m) == Signed(b, m) <==> a == b
  {
  }

  lemma CompareSigned(flags: Flags, w: nat, a: nat, b: nat)
    requires 8 <= w < 32 && a < Pow2(w) && b < Pow2(w)
    ensures var f := AluInsn(flags, Sub, w, a, b, false).0;
            var sa, sb := Signed(a, Pow2(w)), Signed(b, Pow2(w));
            && (Taken(L, f) <==> sa < sb) && (Taken(NL, f) <==> sa >= sb)
            && (Taken(LE, f) <==> sa <= sb) && (Taken(NLE, f) <==> sa > sb)
  {
    SignOfResult(flags, Sub, w, a, b, false);
    CompareUnsigned(flags, w, a, b);
    SignedInjective(a, b, Pow2(w));
  }

  lemma DifferenceFlags(flags: Flags, w: nat, a: nat, b: nat, r: int, s: int)
    requires 8 <= w < 32 && a < Pow2(w) && b < Pow2(w)
    requires r == (if a >= b then a - b else a - b + Pow2(w)) && s == Signed(a, Pow2(w)) - Signed(b, Pow2(w))
    ensures r >= 0
    ensures var f := AluInsn(flags, Sub, w, a, b, false).0;
            f.sf == (r >= Pow2(w - 1)) && f.of == !InSignedRange(s, Pow2(w - 1)) && f.pf == EvenParity(r % 256)
  {
    hide EvenParity, Pow2, Signed;
    assert Exact(Sub, a, b, 0) == a - b;
    assert Exact(Sub, Signed(a, Pow2(w)), Signed(b, Pow2(w)), 0) == s;
  }

  // JS and JNS test the top bit of the difference, JO and JNO whether the signed difference leaves
  // the width, JP and JNP the parity of the eight low bits.
  lemma CompareFlags(flags: Flags, w: nat, a: nat, b: nat)
    requires 8 <= w < 32 && a < Pow2(w) && b < Pow2(w)
    ensures var f, h := AluInsn(flags, Sub, w, a, b, false).0, Pow2(w - 1);
            var r := if a >= b then a - b else a - b + Pow2(w);
            var s := Signed(a, Pow2(w)) - Signed(b, Pow2(w));
            && (Taken(S, f) <==> r >= h) && (Taken(NS, f) <==> r < h)
            && (Taken(O, f) <==> !InSignedRange(s, h)) && (Taken(NO, f) <==> InSignedRange(s, h))
            && (Taken(P, f) <==> EvenLowBits(r)) && (Taken(NP, f) <==> !EvenLowBits(r))
  {
    hide EvenParity, EvenLowBits, Pow2, Signed, AluInsn, InSignedRange;
    var r := if a >= b then a - b else a - b + Pow2(w);
    DifferenceFlags(flags, w, a, b, r, Signed(a, Pow2(w)) - Signed(b, Pow2(w)));
    ParityWritten(r);
  }
}
