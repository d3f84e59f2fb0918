// The 16-bit MUL, IMUL, DIV and IDIV (sim/cppmodel/instructions/mul.cpp, imul.cpp, div.cpp) as
// changes of state, without the advance of IP behind the instruction.
module MulDiv {
  import opened Words
  import opened Flags
  import opened Machine
  import opened Division

  const MUL_FLAGS := NO_FLAGS.(of := true, cf := true, zf := true)

  // DX:AX, CF, OF and ZF from a 32-bit product; CF and OF say that the high half is not zero.
  function StoreProduct(s: State, product: dword): State {
    var high := product / 0x1_0000;
    s.(regs := s.regs.(ax := product % 0x1_0000, dx := high),
       flags := SetFlags(s.flags, s.flags.(cf := high != 0, of := high != 0, zf := false), MUL_FLAGS))
  }

  lemma ProductFits(a: word, b: word)
    ensures 0 <= a * b < 0x1_0000_0000
  {
    MulLe(a, 0xffff, b);
    MulLe(0, a, b);
  }

  function Mul(s: State, v: word): State {
    ProductFits(v, s.regs.ax);
    StoreProduct(s, v * s.regs.ax)
  }

  function Imul(s: State, v: word): State {
    StoreProduct(s, Signed(v, 0x1_0000) * Signed(s.regs.ax, 0x1_0000) % 0x1_0000_0000)
  }

  function Dividend(s: State): dword {
    s.regs.dx * 0x1_0000 + s.regs.ax
  }

  // A divide error is an interrupt that returns to the instruction itself.
  function Div(s: State, v: word): State {
    if DivFaults(Dividend(s), v) then Interrupt(s, VEC_DIVIDE_ERROR, s.regs.ip)
    else s.(regs := s.regs.(dx := Dividend(s) % v, ax := Dividend(s) / v))
  }

  // The source computes INT_MIN / -1 in 32 bits, which C++ leaves undefined; here the quotient
  // is the exact one and faults.
  function Idiv(s: State, v: word): State {
    var n, d := Signed(Dividend(s), 0x1_0000_0000), Signed(v, 0x1_0000);
    if IDivFaults(n, d) then Interrupt(s, VEC_DIVIDE_ERROR, s.regs.ip)
    else s.(regs := s.regs.(dx := TruncMod(n, d) % 0x1_0000, ax := TruncDiv(n, d) % 0x1_0000))
  }

  // ---- What the registers hold ----

  // DX:AX is the exact product, and the registers and flags not named are kept.
  lemma MulExact(s: State, v: word)
    ensures var t := Mul(s, v);
            && 0x1_0000 * t.regs.dx + t.regs.ax == v * s.regs.ax
            && t == s.(regs := s.regs.(ax := t.regs.ax, dx := t.regs.dx),
                       flags := s.flags.(cf := t.flags.cf, of := t.flags.of, zf := false))
  {
    ProductFits(v, s.regs.ax);
    DivModDef(v * s.regs.ax, 0x1_0000);
  }

  lemma SignedProduct(a: int, b: int)
    requires -0x8000 <= a < 0x8000 && -0x8000 <= b < 0x8000
    ensures -0x4000_0000 <= a * b <= 0x4000_0000
  {
    MulLe(Abs(a), 0x8000, Abs(b));
    assert Abs(a) * Abs(b) == a * b || Abs(a) * Abs(b) == -(a * b);
  }

  // DX:AX is the exact signed product in 32 bits of two's complement.
  lemma ImulExact(s: State, v: word)
    ensures var t := Imul(s, v);
            var a: int := if s.regs.ax >= 0x8000 then s.regs.ax - 0x1_0000 else s.regs.ax;
            var d: int := if v >= 0x8000 then v - 0x1_0000 else v;
            && 0x1_0000 * t.regs.dx + t.regs.ax == d * a + (if d * a < 0 then 0x1_0000_0000 else 0)
            && t == s.(regs := s.regs.(ax := t.regs.ax, dx := t.regs.dx),
                       flags := s.flags.(cf := t.flags.cf, of := t.flags.of, zf := false))
  {
    var a, d := Signed(s.regs.ax, 0x1_0000), Signed(v, 0x1_0000);
    var p := d * a;
    SignedProduct(d, a);
    DivModUnique(p, 0x1_0000_0000, if p < 0 then -1 else 0, if p < 0 then p + 0x1_0000_0000 else p);
    DivModDef(p % 0x1_0000_0000, 0x1_0000);
  }

  lemma DivFaultsIff(high: word, low: word, v: word)
    ensures DivFaults(0x1_0000 * high + low, v) <==> high >= v
  {
    var n: int := 0x1_0000 * high + low;
    if v != 0 {
      DivModDef(n, v);
      if high >= v {
        if n / v <= 0xffff { MulLe(n / v, 0xffff, v); }
      } else if n / v > 0xffff {
        MulLe(0x1_0000, n / v, v);
      }
    }
  }

  lemma DivDefines(s: State, v: word)
    ensures Dividend(s) == 0x1_0000 * s.regs.dx + s.regs.ax
    ensures s.regs.dx < v ==>
              && !DivFaults(Dividend(s), v)
              && Dividend(s) == Dividend(s) / v * v + Dividend(s) % v && 0 <= Dividend(s) % v < v
    ensures s.regs.dx >= v ==> DivFaults(Dividend(s), v)
  {
    DivFaultsIff(s.regs.dx, s.regs.ax, v);
    if s.regs.dx < v { DivModDef(Dividend(s), v); }
  }

  lemma EntryKeeps(s: State, vector: nat, ip: word)
    requires vector <= 1020
    ensures Interrupt(s, vector, ip).regs.ax == s.regs.ax && Interrupt(s, vector, ip).regs.dx == s.regs.dx
  {
  }

  // DIV leaves the quotient in AX and the remainder in DX when DX is below the operand, and is a
  // divide error, with AX and DX kept, when it is not.
  lemma DivExact(s: State, v: word)
    ensures var t := Div(s, v);
            if s.regs.dx < v then
              && t.regs.ax * v + t.regs.dx == 0x1_0000 * s.regs.dx + s.regs.ax && t.regs.dx < v
              && t == s.(regs := s.regs.(ax := t.regs.ax, dx := t.regs.dx))
            else t == Interrupt(s, 0, s.regs.ip) && t.regs.ax == s.regs.ax && t.regs.dx == s.regs.dx
  {
    hide Dividend, DivFaults, Interrupt;
    DivDefines(s, v);
    EntryKeeps(s, VEC_DIVIDE_ERROR, s.regs.ip);
  }

  // The quotient of n by d fits in 16 bits of two's complement.
  predicate QuotientFits(n: int, d: int) {
    d != 0 && Abs(n) < (if (n < 0) == (d < 0) then 0x8000 else 0x8001) * Abs(d)
  }

  lemma QuotientBelow(n: nat, d: nat, m: nat)
    requires d > 0
    ensures n / d < m <==> n < m * d
  {
    DivModDef(n, d);
    if n / d < m { MulLe(n / d + 1, m, d); } else { MulLe(m, n / d, d); }
  }

  lemma AbsPositive(d: int)
    requires d != 0
    ensures Abs(d) > 0
  {
  }

  lemma IDivFaultsIff(n: int, d: int)
    ensures IDivFaults(n, d) <==> !QuotientFits(n, d)
  {
    hide Abs;
    if d != 0 {
      AbsPositive(d);
      var q := Abs(n) / Abs(d);
      var m := if (n < 0) == (d < 0) then 0x8000 else 0x8001;
      QuotientBelow(Abs(n), Abs(d), m);
      assert TruncDiv(n, d) == if (n < 0) == (d < 0) then q else -q;
      DivModDef(Abs(n), Abs(d));
      if q < 0 { MulLe(q, -1, Abs(d)); }
    }
  }

  lemma SignsOfProduct(q: nat, d: int)
    ensures q * Abs(d) == (if d < 0 then -(q as int) else q) * d
    ensures -(q * Abs(d)) == (if d < 0 then q else -(q as int)) * d
  {
  }

  lemma TruncDefines(n: int, d: int)
    requires d != 0
    ensures var q, r := TruncDiv(n, d), TruncMod(n, d);
            q * d + r == n && Abs(r) < Abs(d) && (r < 0 ==> n < 0) && (r > 0 ==> n > 0)
  {
    var q, r := Abs(n) / Abs(d), Abs(n) % Abs(d);
    DivModDef(Abs(n), Abs(d));
    SignsOfProduct(q, d);
  }

  lemma TruncStored(n: int, d: int)
    requires !IDivFaults(n, d) && -0x8000 <= d < 0x8000
    ensures var q, r := Signed(TruncDiv(n, d) % 0x1_0000, 0x1_0000), Signed(TruncMod(n, d) % 0x1_0000, 0x1_0000);
            q * d + r == n && Abs(r) < Abs(d) && (r < 0 ==> n < 0) && (r > 0 ==> n > 0)
  {
    hide TruncDiv, TruncMod, Signed;
    TruncDefines(n, d);
    SignedOfMod(TruncDiv(n, d), 0x1_0000);
    SignedOfMod(TruncMod(n, d), 0x1_0000);
  }

  // IDIV on the two's complement values: the quotient times the operand and the remainder make up
  // the dividend, the remainder is the smaller and has the dividend's sign; or a divide error.
  lemma IdivExact(s: State, v: word)
    ensures var t := Idiv(s, v);
            var n: int := 0x1_0000 * s.regs.dx + s.regs.ax - (if s.regs.dx >= 0x8000 then 0x1_0000_0000 else 0);
            var d: int := v - (if v >= 0x8000 then 0x1_0000 else 0);
            var q: int := t.regs.ax - (if t.regs.ax >= 0x8000 then 0x1_0000 else 0);
            var r: int := t.regs.dx - (if t.regs.dx >= 0x8000 then 0x1_0000 else 0);
            if QuotientFits(n, d) then
              && q * d + r == n && Abs(r) < Abs(d) && (r < 0 ==> n < 0) && (r > 0 ==> n > 0)
              && t == s.(regs := s.regs.(ax := t.regs.ax, dx := t.regs.dx))
            else t == Interrupt(s, 0, s.regs.ip) && t.regs.ax == s.regs.ax && t.regs.dx == s.regs.dx
  {
    hide TruncDiv, TruncMod, QuotientFits, Interrupt, IDivFaults, Abs;
    EntryKeeps(s, VEC_DIVIDE_ERROR, s.regs.ip);
    var n, d := Signed(Dividend(s), 0x1_0000_0000), Signed(v, 0x1_0000);
    IDivFaultsIff(n, d);
    if !IDivFaults(n, d) { TruncStored(n, d); }
  }

  // The registers DIV and IDIV store are those of the non-restoring divider.
  method DivByDivider(s: State, v: word) returns (quotient: word, remainder: word)
    ensures s.regs.dx < v ==> Div(s, v).regs == s.regs.(ax := quotient, dx := remainder)
  {
    hide Dividend, DivFaults;
    quotient, remainder := UnsignedDivide(Dividend(s), v);
    DivDefines(s, v);
  }

  method IdivByDivider(s: State, v: word) returns (quotient: int, remainder: int)
    ensures QuotientFits(Signed(0x1_0000 * s.regs.dx + s.regs.ax, 0x1_0000_0000), Signed(v, 0x1_0000)) ==>
              Idiv(s, v).regs == s.regs.(ax := quotient % 0x1_0000, dx := remainder % 0x1_0000)
  {
    var n, d := Signed(Dividend(s), 0x1_0000_0000), Signed(v, 0x1_0000);
    quotient, remainder := IDivide(n, d);
    IDivFaultsIff(n, d);
  }

  // ---- Each undoes the other ----

  // MUL then DIV by the same operand never faults, restores AX and clears DX.
  lemma DivUndoesMul(s: State, v: word)
    requires v != 0
    ensures !DivFaults(Dividend(Mul(s, v)), v)
    ensures Div(Mul(s, v), v).regs == s.regs.(dx := 0)
    ensures Div(Mul(s, v), v).mem == s.mem
  {
    var p := v * s.regs.ax;
    ProductFits(v, s.regs.ax);
    assert Dividend(Mul(s, v)) == p;
    DivModUnique(p, v, s.regs.ax, 0);
  }

  lemma AbsProduct(d: int, a: int)
    ensures Abs(d * a) == Abs(a) * Abs(d)
    ensures d * a < 0 <==> (d < 0) != (a < 0) && a != 0 && d != 0
  {
    assert (-d) * a == -(d * a) && d * (-a) == -(d * a) && (-d) * (-a) == d * a;
    if a != 0 && d != 0 { MulLe(1, Abs(d), Abs(a)); }
  }

  lemma AbsQuotient(p: nat, d: nat, a: nat)
    requires d > 0 && p == a * d
    ensures p / d == a && p % d == 0
  {
    DivModUnique(p, d, a, 0);
  }

  lemma ExactQuotient(p: int, d: int, a: int)
    requires d != 0 && p == d * a
    ensures TruncDiv(p, d) == a && TruncMod(p, d) == 0
  {
    AbsProduct(d, a);
    AbsQuotient(Abs(p), Abs(d), Abs(a));
  }

  lemma IdivUndoesImul(s: State, v: word)
    requires v != 0
    ensures Signed(Dividend(Imul(s, v)), 0x1_0000_0000) == Signed(v, 0x1_0000) * Signed(s.regs.ax, 0x1_0000)
    ensures !IDivFaults(Signed(Dividend(Imul(s, v)), 0x1_0000_0000), Signed(v, 0x1_0000))
    ensures Idiv(Imul(s, v), v).regs == s.regs.(dx := 0)
    ensures Idiv(Imul(s, v), v).mem == s.mem
  {
    var a, d := Signed(s.regs.ax, 0x1_0000), Signed(v, 0x1_0000);
    var p := d * a;
    SignedProduct(d, a);
    SignedOfMod(p, 0x1_0000_0000);
    assert Dividend(Imul(s, v)) == p % 0x1_0000_0000;
    ExactQuotient(p, d, a);
    SignedOfMod(a, 0x1_0000);
  }

  lemma HighHalf(x: dword)
    ensures x / 0x1_0000 != 0 <==> x > 0xffff
  {
  }

  // CF and OF after MUL say that the product needs DX. IMUL sets them by the same test of the
  // high half, so they say that the product does not fit a signed word except where the sign
  // extension is not zero (small negative products) or zero is not the sign extension.
  lemma MulOverflow(s: State, v: word)
    ensures var f := Mul(s, v).flags; f.cf == f.of && (f.cf <==> v * s.regs.ax > 0xffff)
  {
    ProductFits(v, s.regs.ax);
    HighHalf(v * s.regs.ax);
  }

  lemma ImulOverflow(s: State, v: word)
    ensures var f, p := Imul(s, v).flags, Signed(v, 0x1_0000) * Signed(s.regs.ax, 0x1_0000);
            && f.cf == f.of
            && ((f.cf <==> !(-0x8000 <= p < 0x8000)) <==> !(-0x8000 <= p < 0 || 0x8000 <= p < 0x1_0000))
  {
    var p := Signed(v, 0x1_0000) * Signed(s.regs.ax, 0x1_0000);
    SignedProduct(Signed(v, 0x1_0000), Signed(s.regs.ax, 0x1_0000));
    DivModUnique(p, 0x1_0000_0000, if p < 0 then -1 else 0, if p < 0 then p + 0x1_0000_0000 else p);
    HighHalf(p % 0x1_0000_0000);
  }

  // 1 * -1 fits a word and sets CF; 2 * 0x4000 does not fit and clears it.
  lemma ImulMisleads(s: State)
    ensures s.regs.ax == 1 ==>
              Signed(0xffff, 0x1_0000) * Signed(s.regs.ax, 0x1_0000) == -1 && Imul(s, 0xffff).flags.cf
    ensures s.regs.ax == 2 ==>
              Signed(0x4000, 0x1_0000) * Signed(s.regs.ax, 0x1_0000) == 0x8000 && !Imul(s, 0x4000).flags.cf
  {
    if s.regs.ax == 1 {
      ImulOverflow(s, 0xffff);
    } else if s.regs.ax == 2 {
      ImulOverflow(s, 0x4000);
    }
  }
}
