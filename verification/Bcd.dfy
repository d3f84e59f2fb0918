// Packed decimal arithmetic: DAA and DAS (sim/cppmodel/instructions/daa.cpp, das.cpp) after the
// byte forms of ADD, ADC, SUB and SBB.
module Bcd {
  import opened Words
  import opened Flags
  import opened Alu

  // Reduction to 8 bits of a value at most one step outside them.
  function Wrap8(x: int): (r: byte)
    requires -0x100 <= x < 0x200
  {
    if x < 0 then x + 0x100 else if x > 0xff then x - 0x100 else x
  }

  // What DAA leaves in AL and the flags. SF, ZF and PF keep their old values.
  function Daa(f: Flags, al: byte): (Flags, byte) {
    var low := al % 16 > 9 || f.af;
    var al1 := if low then Wrap8(al + 6) else al;
    var high := al1 > 0x9f || f.cf || (low && al + 6 > 0xff);
    (f.(af := low, cf := high), if high then Wrap8(al1 + 0x60) else al1)
  }

  // What DAS leaves. AL is held in 16 bits until the end, and SF, ZF and PF, read off those 16
  // bits, are only ever set.
  function Das(f: Flags, al: byte): (Flags, byte) {
    var low := al % 16 > 9 || f.af;
    var al1 := if low then Wrap8(al - 6) else al;
    var high := al1 > 0x9f || f.cf || (low && al < 6);
    var al2 := if !high then al1 else if al1 < 0x60 then al1 + 0xffa0 else al1 - 0x60;
    (f.(af := low, cf := high, sf := f.sf || Bit(al2, 7), zf := f.zf || al2 == 0,
        pf := f.pf || Ones(al2, 16) % 2 == 0),
     if high then Wrap8(al1 - 0x60) else al1)
  }

  lemma TopBitOfByte(x: byte)
    ensures (Bit(x, 7) <==> x >= 0x80) && (Bit(x + 0xff00, 7) <==> x >= 0x80)
  {
    assert Pow2(7) == 128;
    DivModUnique(x + 0xff00, 128, x / 128 + 510, x % 128);
  }

  // After DAS, SF, ZF and PF describe AL, or were set before; AF says that the low digit was
  // adjusted; OF, TF, IF and DF stay.
  lemma DasFlags(f: Flags, al: byte)
    ensures var (f', x) := Das(f, al);
            f' == f.(sf := f.sf || x >= 0x80, zf := f.zf || x == 0, pf := f.pf || EvenLowBits(x),
                     af := al % 16 > 9 || f.af, cf := f'.cf)
  {
    hide Ones, EvenLowBits, Bit;
    var x := Das(f, al).1;
    ParityOfWord(x);
    ParityWritten(x);
    TopBitOfByte(x);
    assert x % 256 == x;
  }

  // After DAA only AF and CF have changed.
  lemma DaaFlags(f: Flags, al: byte)
    ensures var f' := Daa(f, al).0; f' == f.(af := al % 16 > 9 || f.af, cf := f'.cf)
  {
  }

  predicate IsBcd(x: byte) {
    x % 16 < 10 && x / 16 < 10
  }

  // The two decimal digits of a packed byte as a number.
  function Dec(x: byte): nat {
    10 * (x / 16) + x % 16
  }

  // One byte of a decimal chain.
  function Step(f: Flags, op: AluOp, a: byte, b: byte, withCarry: bool): (Flags, byte) {
    assert Pow2(8) == 0x100;
    var (f1, r) := AluInsn(f, op, 8, a, b, withCarry);
    match op
    case Add => Daa(f1, r)
    case Sub => Das(f1, r)
  }

  // ADD or SUB with its adjustment, then ADC or SBB with theirs, from the lowest byte up.
  function Chain(f: Flags, op: AluOp, a: seq<byte>, b: seq<byte>, withCarry: bool): (r: (Flags, seq<byte>))
    requires |a| == |b|
    ensures |r.1| == |a|
    decreases |a|
  {
    if a == [] then (f, [])
    else
      var (f1, x) := Step(f, op, a[0], b[0], withCarry);
      var (f2, xs) := Chain(f1, op, a[1..], b[1..], true);
      (f2, [x] + xs)
  }

  ghost predicate AllBcd(s: seq<byte>) {
    forall k :: 0 <= k < |s| ==> IsBcd(s[k])
  }

  function DecVal(s: seq<byte>): nat {
    if s == [] then 0 else Dec(s[0]) + 100 * DecVal(s[1..])
  }

  function Power100(n: nat): nat {
    if n == 0 then 1 else 100 * Power100(n - 1)
  }

  // The decimal carry or borrow out, with its weight.
  function Carry(op: AluOp, cf: bool, p: nat): int {
    if !cf then 0 else if op.Add? then p else 0 - p
  }

  // The digits hi and lo below 10 of a packed byte.
  lemma Digits(x: byte, hi: int, lo: int)
    requires 0 <= lo < 16 && x == 16 * hi + lo
    ensures x / 16 == hi && x % 16 == lo
  {
    DivModUnique(x, 16, hi, lo);
  }

  // DAA after the binary sum of two decimal bytes: digit sums hi and lo, lo with the carry in.
  lemma DaaDigits(f: Flags, r: byte, hi: int, lo: int)
    requires 0 <= hi <= 18 && 0 <= lo <= 19
    requires f.af == (lo > 15) && f.cf == (16 * hi + lo > 255)
    requires r == 16 * hi + lo - (if f.cf then 256 else 0)
    ensures var (f', x) := Daa(f, r);
            IsBcd(x) && 10 * hi + lo == Dec(x) + Carry(Add, f'.cf, 100)
  {
    var hi', lo' := if lo > 9 then hi + 1 else hi, if lo > 9 then lo - 10 else lo;
    var d := 16 * hi' + lo';
    var (f', x) := Daa(f, r);
    Digits(r, (if lo > 15 then hi + 1 else hi) - (if f.cf then 16 else 0), if lo > 15 then lo - 16 else lo);
    assert f'.af == (lo > 9);
    assert f'.cf == (d >= 0xa0) && x == if d >= 0xa0 then d - 0xa0 else d;
    Digits(x, if d >= 0xa0 then hi' - 10 else hi', lo');
  }

  // DAS after the binary difference of two decimal bytes: digit differences hi and lo.
  lemma DasDigits(f: Flags, r: byte, hi: int, lo: int)
    requires -9 <= hi <= 9 && -10 <= lo <= 9
    requires f.af == (lo < 0) && f.cf == (16 * hi + lo < 0)
    requires r == 16 * hi + lo + (if f.cf then 256 else 0)
    ensures var (f', x) := Das(f, r);
            IsBcd(x) && 10 * hi + lo == Dec(x) + Carry(Sub, f'.cf, 100)
  {
    var hi', lo' := if lo < 0 then hi - 1 else hi, if lo < 0 then lo + 10 else lo;
    var d := 16 * hi' + lo';
    var (f', x) := Das(f, r);
    Digits(r, (if lo < 0 then hi - 1 else hi) + (if f.cf then 16 else 0), if lo < 0 then lo + 16 else lo);
    assert f'.af == (lo < 0);
    assert f'.cf == (d < 0) && x == if d < 0 then d + 0xa0 else d;
    Digits(x, if d < 0 then hi' + 10 else hi', lo');
  }

  lemma BinaryStep(f: Flags, op: AluOp, a: byte, b: byte, withCarry: bool)
    ensures Pow2(8) == 0x100
    ensures var (f1, r) := AluInsn(f, op, 8, a, b, withCarry);
            var c := BoolToInt(withCarry && f.cf);
            && r == Exact(op, a, b, c) - Carry(op, f1.cf, 0x100)
            && f1.cf == !(0 <= Exact(op, a, b, c) <= 255)
            && f1.af == !(0 <= Exact(op, a % 16, b % 16, c) <= 15)
  {
    Pow2Of16();
  }

  // a + b + c, or a - b - c, is the result x with the carry or borrow cf out at weight p.
  ghost predicate Balanced(op: AluOp, a: int, b: int, c: bool, x: int, cf: bool, p: nat) {
    Exact(op, a, b, BoolToInt(c)) == x + Carry(op, cf, p)
  }

  lemma StepAdd(f: Flags, a: byte, b: byte, withCarry: bool)
    requires IsBcd(a) && IsBcd(b)
    ensures var (f', x) := Step(f, Add, a, b, withCarry);
            IsBcd(x) && Dec(a) + Dec(b) + BoolToInt(withCarry && f.cf) == Dec(x) + Carry(Add, f'.cf, 100)
  {
    BinaryStep(f, Add, a, b, withCarry);
    var (f1, r) := AluInsn(f, Add, 8, a, b, withCarry);
    DaaDigits(f1, r, a / 16 + b / 16, a % 16 + b % 16 + BoolToInt(withCarry && f.cf));
  }

  lemma StepSub(f: Flags, a: byte, b: byte, withCarry: bool)
    requires IsBcd(a) && IsBcd(b)
    ensures var (f', x) := Step(f, Sub, a, b, withCarry);
            IsBcd(x) && Dec(a) - Dec(b) - BoolToInt(withCarry && f.cf) == Dec(x) + Carry(Sub, f'.cf, 100)
  {
    BinaryStep(f, Sub, a, b, withCarry);
    var (f1, r) := AluInsn(f, Sub, 8, a, b, withCarry);
    DasDigits(f1, r, a / 16 - b / 16, a % 16 - b % 16 - BoolToInt(withCarry && f.cf));
  }

  lemma StepExact(f: Flags, op: AluOp, a: byte, b: byte, withCarry: bool)
    requires IsBcd(a) && IsBcd(b)
    ensures var (f', x) := Step(f, op, a, b, withCarry);
            IsBcd(x) && Balanced(op, Dec(a), Dec(b), withCarry && f.cf, Dec(x), f'.cf, 100)
  {
    if op.Add? {
      StepAdd(f, a, b, withCarry);
    } else {
      StepSub(f, a, b, withCarry);
    }
  }

  // The digits of a chain are valid packed decimal.
  lemma {:induction false} ChainBcd(f: Flags, op: AluOp, a: seq<byte>, b: seq<byte>, withCarry: bool)
    requires |a| == |b| && AllBcd(a) && AllBcd(b)
    ensures AllBcd(Chain(f, op, a, b, withCarry).1)
    decreases |a|
  {
    if a != [] {
      StepExact(f, op, a[0], b[0], withCarry);
      ChainBcd(Step(f, op, a[0], b[0], withCarry).0, op, a[1..], b[1..], true);
    }
  }

  lemma NoDigits(op: AluOp, c: bool)
    ensures Balanced(op, 0, 0, c, 0, c, 1)
  {
  }

  lemma AddDigits(op: AluOp, a: int, b: int, c: bool, x: int, cf: bool, a': int, b': int, x': int, cf': bool, p: nat)
    requires Balanced(op, a, b, c, x, cf, 100)
    requires Balanced(op, a', b', cf, x', cf', p)
    ensures Balanced(op, a + 100 * a', b + 100 * b', c, x + 100 * x', cf', 100 * p)
  {
  }

  // The chain yields the decimal sum or difference, CF being the decimal carry or borrow.
  lemma {:induction false} ChainExact(f: Flags, op: AluOp, a: seq<byte>, b: seq<byte>, withCarry: bool)
    requires |a| == |b| && AllBcd(a) && AllBcd(b) && (a == [] ==> withCarry)
    ensures var (f', r) := Chain(f, op, a, b, withCarry);
            Balanced(op, DecVal(a), DecVal(b), withCarry && f.cf, DecVal(r), f'.cf, Power100(|a|))
    decreases |a|
  {
    hide Step, Balanced, Dec, IsBcd;
    if a == [] {
      NoDigits(op, withCarry && f.cf);
    } else {
      StepExact(f, op, a[0], b[0], withCarry);
      var (f1, x) := Step(f, op, a[0], b[0], withCarry);
      ChainExact(f1, op, a[1..], b[1..], true);
      var (f2, xs) := Chain(f1, op, a[1..], b[1..], true);
      assert ([x] + xs)[1..] == xs;
      AddDigits(op, Dec(a[0]), Dec(b[0]), withCarry && f.cf, Dec(x), f1.cf,
                DecVal(a[1..]), DecVal(b[1..]), DecVal(xs), f2.cf, Power100(|a| - 1));
    }
  }

  lemma DecValBound(s: seq<byte>)
    requires AllBcd(s)
    ensures DecVal(s) < Power100(|s|)
  {
    if s != [] { DecValBound(s[1..]); }
  }

  // Decimal digits are determined by the number and the length.
  lemma {:induction false} DecValInjective(s: seq<byte>, t: seq<byte>)
    requires |s| == |t| && AllBcd(s) && AllBcd(t) && DecVal(s) == DecVal(t)
    ensures s == t
  {
    if s != [] {
      QuotientUnique(100, DecVal(s[1..]), Dec(s[0]), DecVal(t[1..]), Dec(t[0]));
      QuotientUnique(10, s[0] / 16, s[0] % 16, t[0] / 16, t[0] % 16);
      DecValInjective(s[1..], t[1..]);
      assert s == [s[0]] + s[1..] && t == [t[0]] + t[1..];
    }
  }

  // Subtracting b again restores a, and its borrow equals the carry of the addition.
  lemma SubtractionUndoesAddition(f: Flags, g: Flags, a: seq<byte>, b: seq<byte>)
    requires |a| == |b| > 0 && AllBcd(a) && AllBcd(b)
    ensures var (f', sum) := Chain(f, Add, a, b, false);
            var (g', difference) := Chain(g, Sub, sum, b, false);
            difference == a && g'.cf == f'.cf
  {
    var (f', sum) := Chain(f, Add, a, b, false);
    var (g', difference) := Chain(g, Sub, sum, b, false);
    ChainExact(f, Add, a, b, false);
    ChainBcd(f, Add, a, b, false);
    ChainBcd(g, Sub, sum, b, false);
    ChainExact(g, Sub, sum, b, false);
    DecValBound(a);
    DecValBound(difference);
    DecValInjective(difference, a);
  }
}
