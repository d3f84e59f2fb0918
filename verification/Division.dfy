// The repository's C++ statement of the divider (tests/rtl/TestDivisionAlgorithm.cpp):
// 16 steps of non-restoring division on sign-magnitude operands.
module Division {
  import opened Words

  datatype SignMagnitude = SignMagnitude(isNegative: bool, magnitude: nat)

  // v ^ mask for a mask of all zeros or all ones.
  function XorMask(v: int, mask: int): int
    requires mask == 0 || mask == -1
  {
    if mask == 0 then v else -1 - v
  }

  // v is the operand in [0, m) for a width of log2(m) bits. isNegative is computed from the
  // unsigned operand in the source, so it is always false.
  function TwosCompToSm(v: nat, m: nat): (r: SignMagnitude)
    requires v < m && m % 2 == 0
    ensures r.magnitude == Abs(Signed(v, m)) && !r.isNegative
    ensures r.isNegative == (Signed(v, m) < 0) <==> v < m / 2
  {
    var mask := if Signed(v, m) < 0 then -1 else 0;
    var x := XorMask(v + mask, mask);
    assert x % m == Abs(Signed(v, m)) by {
      DivModUnique(x, m, if mask == 0 then 0 else -1, Abs(Signed(v, m)));
    }
    SignMagnitude(v < 0, x % m)
  }

  // The sign of -1 is missed.
  lemma SignMissed()
    ensures Signed(0xffff, 0x1_0000) == -1 && !TwosCompToSm(0xffff, 0x1_0000).isNegative
  {
  }

  // What divide works on: the operand itself, or its magnitude when signed.
  function Operand(v: nat, m: nat, isSigned: bool): nat {
    if isSigned then Abs(Signed(v, m)) else v
  }

  // The result registers hold n divided by d exactly when the quotient fits in 16 bits.
  ghost predicate Divided(n: int, d: int, quotient: int, remainder: int) {
    n < d * 0x1_0000 <==> quotient * d + remainder == n && remainder < d
  }

  // p steps' worth of bits stands for the signed-digit quotient 2 * bits + 1 - p.
  ghost predicate Exact(p: int, n: int, bits: int, D: int, P: int) {
    p * n == (2 * bits + 1 - p) * D + P
  }

  // The loop invariant: bits 15 down to i + 1 of q are chosen. P = 2^k * n - Q * D for the
  // signed-digit quotient Q after k = 15 - i steps, and P stays within one divisor of zero.
  ghost predicate Steps(i: int, n: nat, d: nat, bits: int, q: int, P: int)
    requires -1 <= i <= 15
  {
    var p := Pow2(15 - i);
    && 0 <= bits < p
    && q == bits * Pow2(i + 1)
    && Exact(p, n, bits, d * 0x1_0000, P)
    && (n < d * 0x1_0000 ==> -(d * 0x1_0000) <= P < d * 0x1_0000)
  }

  lemma StepsBegin(n: nat, d: nat)
    ensures Steps(15, n, d, 0, 0, n)
  {
    assert Pow2(0) == 1;
  }

  lemma BitStep(bits: int, p: int)
    requires p > 0
    ensures (bits * (2 * p) / p) % 2 == 0
    ensures bits * (2 * p) + p == (2 * bits + 1) * p
    ensures bits * (2 * p) == (2 * bits) * p
  {
    assert bits * (2 * p) == (2 * bits) * p;
    MulSucc(2 * bits, p);
    DivModUnique(bits * (2 * p), p, 2 * bits, 0);
  }

  lemma StepExact(p: int, n: int, bits: int, D: int, P: int)
    requires Exact(p, n, bits, D, P)
    ensures Exact(2 * p, n, 2 * bits + 1, D, 2 * P - D)
    ensures Exact(2 * p, n, 2 * bits, D, 2 * P + D)
  {
    var Q := 2 * bits + 1 - p;
    assert 2 * p * n == 2 * (p * n);
    assert (2 * Q + 1) * D == 2 * (Q * D) + D;
    assert (2 * Q - 1) * D == 2 * (Q * D) - D;
    assert 2 * (2 * bits + 1) + 1 - 2 * p == 2 * Q + 1;
    assert 2 * (2 * bits) + 1 - 2 * p == 2 * Q - 1;
  }

  lemma StepTaken(i: nat, n: nat, d: nat, bits: int, q: int, P: int)
    requires i <= 15 && Steps(i, n, d, bits, q, P)
    ensures (q / Pow2(i)) % 2 == 0
    ensures P >= 0 ==> Steps(i - 1, n, d, 2 * bits + 1, q + Pow2(i), 2 * P - d * 0x1_0000)
    ensures P < 0 ==> Steps(i - 1, n, d, 2 * bits, q, 2 * P + d * 0x1_0000)
  {
    var p := Pow2(15 - i);
    assert Pow2(15 - (i - 1)) == 2 * p && Pow2(i + 1) == 2 * Pow2(i);
    BitStep(bits, Pow2(i));
    StepExact(p, n, bits, d * 0x1_0000, P);
  }

  lemma ExactRemainder(n: int, d: int, Q: int, P: int)
    requires 0x1_0000 * n == Q * (d * 0x1_0000) + P
    ensures P % 0x1_0000 == 0 && n == Q * d + P / 0x1_0000
  {
    assert Q * (d * 0x1_0000) == 0x1_0000 * (Q * d);
    DivModUnique(P, 0x1_0000, n - Q * d, 0);
  }

  lemma StepsEnd(n: nat, d: nat, bits: int, q: int, P: int)
    requires Steps(-1, n, d, bits, q, P)
    ensures 0 <= q <= 0xffff
    ensures P % 0x1_0000 == 0 && n == (2 * q - 0xffff) * d + P / 0x1_0000
    ensures n < d * 0x1_0000 ==> -(d * 0x1_0000) <= P < d * 0x1_0000
  {
    Pow2Of16();
    ExactRemainder(n, d, 2 * q - 0xffff, P);
  }

  // The loop of divide: 16 steps from the partial remainder P0 = n, with the divisor shifted
  // up 16 bits. A set bit of q stands for the digit +1 and a clear one for the digit -1, so
  // the signed-digit quotient is 2 * q - 0xffff; n is that times d, plus P / 2^16, exactly.
  method NonRestoringSteps(n: nat, d: nat) returns (q: int, P: int)
    ensures 0 <= q <= 0xffff
    ensures P % 0x1_0000 == 0 && n == (2 * q - 0xffff) * d + P / 0x1_0000
    ensures n < d * 0x1_0000 ==> -(d * 0x1_0000) <= P < d * 0x1_0000
  {
    hide Steps, Pow2;
    var D := d * 0x1_0000;
    P, q := n, 0;
    ghost var bits := 0;  // the bits of q chosen so far, as a number
    var i := 15;
    StepsBegin(n, d);
    while i >= 0
      invariant -1 <= i <= 15 && Steps(i, n, d, bits, q, P)
    {
      StepTaken(i, n, d, bits, q, P);
      bits := if P >= 0 then 2 * bits + 1 else 2 * bits;
      if P >= 0 {
        q := q + Pow2(i);  // q |= 1 << i: StepTaken shows bit i is still clear
        P := 2 * P - D;
      } else {
        P := 2 * P + D;
      }
      i := i - 1;
    }
    StepsEnd(n, d, bits, q, P);
  }

  lemma ModDecrement(x: int)
    ensures (x % 0x1_0000 - 1) % 0x1_0000 == (x - 1) % 0x1_0000
  {
  }

  // The exact relation left by the loop makes the corrected registers the quotient and
  // remainder precisely when the quotient fits in 16 bits.
  lemma QuotientReadOff(n: nat, d: nat, Q: int, r: int, quotient: word, remainder: word)
    requires n == Q * d + r
    requires n < d * 0x1_0000 ==> -(d as int) <= r < d <= 0x1_0000
    requires quotient == (if r < 0 then Q - 1 else Q) % 0x1_0000
    requires remainder == (if r < 0 then r + d else r) % 0x1_0000
    ensures Divided(n, d, quotient, remainder)
  {
    if n < d * 0x1_0000 {
      var Q', r' := if r < 0 then Q - 1 else Q, if r < 0 then r + d else r;
      MulSucc(Q - 1, d);
      assert Q' * d + r' == n;
      if Q' < 0 { MulLe(Q', -1, d); }
      if Q' >= 0x1_0000 { MulLe(0x1_0000, Q', d); }
    } else {
      MulLe(quotient, 0xffff, d);
    }
  }

  method Divide(dividend: dword, divisor: word, isSigned: bool) returns (quotient: word, remainder: word)
    ensures Divided(Operand(dividend, 0x1_0000_0000, isSigned), Operand(divisor, 0x1_0000, isSigned),
                    quotient, remainder)
  {
    var P: nat, divisorValue: nat;
    if !isSigned {
      P, divisorValue := dividend, divisor;
    } else {
      P, divisorValue := TwosCompToSm(dividend, 0x1_0000_0000).magnitude, TwosCompToSm(divisor, 0x1_0000).magnitude;
    }
    var q, P' := NonRestoringSteps(P, divisorValue);
    ghost var r := P' / 0x1_0000;
    ghost var Q := 2 * q - 0xffff;
    assert P' == 0x1_0000 * r;
    q := (q - (0xffff - q)) % 0x1_0000;
    ModDecrement(Q);
    if P' < 0 {
      q := (q - 1) % 0x1_0000;
      P' := P' + divisorValue * 0x1_0000;
    }
    assert P' / 0x1_0000 == if r < 0 then r + divisorValue else r by {
      DivModUnique(P', 0x1_0000, if r < 0 then r + divisorValue else r, 0);
    }
    quotient, remainder := q, (P' / 0x1_0000) % 0x1_0000;
    QuotientReadOff(P, divisorValue, Q, r, quotient, remainder);
  }

  // Conversion to int16_t of a value known modulo 2^16.
  function ToInt16(x: int): int {
    Signed(x % 0x1_0000, 0x1_0000)
  }

  // The divide-error tests of divf7 and idivf7.
  predicate DivFaults(dividend: dword, divisor: word) {
    divisor == 0 || dividend / divisor > 0xffff
  }

  predicate IDivFaults(dividend: int, divisor: int) {
    divisor == 0 || TruncDiv(dividend, divisor) < -0x8000 || TruncDiv(dividend, divisor) > 0x7fff
  }

  lemma FitsIffNoFault(n: dword, d: word, q: word, r: word)
    requires Divided(n, d, q, r)
    ensures n < d * 0x1_0000 <==> !DivFaults(n, d)
    ensures n < d * 0x1_0000 <==> d != 0 && q == n / d && r == n % d
  {
    if d != 0 {
      if n < d * 0x1_0000 {
        DivModUnique(n, d, q, r);
      } else {
        if n / d <= 0xffff {
          MulLe(n / d, 0xffff, d);
          MulSucc(0xffff, d);
          assert false;
        }
      }
    }
  }

  method UnsignedDivide(dividend: dword, divisor: word) returns (quotient: word, remainder: word)
    ensures !DivFaults(dividend, divisor) <==>
            divisor != 0 && quotient == dividend / divisor && remainder == dividend % divisor
  {
    quotient, remainder := Divide(dividend, divisor, false);
    FitsIffNoFault(dividend, divisor, quotient, remainder);
  }

  function Max1(d: nat): (r: nat)
    ensures r >= 1
  {
    if d == 0 then 1 else d
  }

  lemma Int16Values(x: int)
    requires 0 <= x <= 0xffff
    ensures ToInt16(x) == if x >= 0x8000 then x - 0x1_0000 else x
    ensures ToInt16(-ToInt16(x)) ==
            if x <= 0x7fff then -x else if x == 0x8000 then -0x8000 else 0x1_0000 - x
  {
    SignedOfMod(if x >= 0x8000 then x - 0x1_0000 else x, 0x1_0000);
    if x != 0x8000 {
      SignedOfMod(if x >= 0x8000 then 0x1_0000 - x else -x, 0x1_0000);
    }
  }

  // The magnitudes m and s of quotient and remainder, cut to 16 bits and given their signs,
  // are the truncating quotient and remainder exactly when these fit in int16_t.
  lemma SignsApplied(a: int, b: int, m: int, s: int, q: word, r: word)
    requires -0x8000 <= b < 0x8000
    requires b != 0 ==> m == Abs(a) / Abs(b) && s == Abs(a) % Abs(b)
    requires m <= 0xffff && b != 0 ==> q == m && r == s
    ensures var quotient := if (a < 0) != (b < 0) then ToInt16(-ToInt16(q)) else ToInt16(q);
            var remainder := if a < 0 then ToInt16(-ToInt16(r)) else ToInt16(r);
            !IDivFaults(a, b) <==> b != 0 && quotient == TruncDiv(a, b) && remainder == TruncMod(a, b)
  {
    if b != 0 {
      assert TruncDiv(a, b) == if (a < 0) != (b < 0) then -m else m;
      assert TruncMod(a, b) == if a < 0 then -s else s;
      assert s <= 0x7fff;
      Int16Values(q);
      Int16Values(r);
    }
  }

  method IDivide(dividend: int, divisor: int) returns (quotient: int, remainder: int)
    requires -0x8000_0000 <= dividend < 0x8000_0000 && -0x8000 <= divisor < 0x8000
    ensures !IDivFaults(dividend, divisor) <==>
            divisor != 0 && quotient == TruncDiv(dividend, divisor) && remainder == TruncMod(dividend, divisor)
  {
    var q, r := Divide(dividend % 0x1_0000_0000, divisor % 0x1_0000, true);
    SignedOfMod(dividend, 0x1_0000_0000);
    SignedOfMod(divisor, 0x1_0000);
    FitsIffNoFault(Abs(dividend), Abs(divisor), q, r);
    quotient, remainder := ToInt16(q), ToInt16(r);
    if (dividend < 0 && divisor >= 0) || (dividend >= 0 && divisor < 0) {
      quotient := ToInt16(-quotient);
    }
    if dividend < 0 {
      remainder := ToInt16(-remainder);
    }
    SignsApplied(dividend, divisor, Abs(dividend) / Max1(Abs(divisor)), Abs(dividend) % Max1(Abs(divisor)), q, r);
  }
}
