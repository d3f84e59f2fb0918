// The step loops of the shift and rotate instructions (sim/cppmodel/instructions/rcl.cpp,
// rcr.cpp, rol.cpp, ror.cpp, shl.cpp, shr.cpp, sar.cpp) over operands of any width w >= 2.
module Shifts {
  import opened Words
  import opened Flags

  // ---- Rotations as moves of a bit string ----

  // Rotation left by k: the k top bits move below the others.
  function RotL(s: seq<bool>, k: nat): (r: seq<bool>)
    requires k <= |s|
    ensures |r| == |s|
  {
    s[|s| - k..] + s[..|s| - k]
  }

  // Rotation right by k: the k bottom bits move above the others.
  function RotR(s: seq<bool>, k: nat): (r: seq<bool>)
    requires k <= |s|
    ensures |r| == |s|
  {
    s[k..] + s[..k]
  }

  // n rotations by one place.
  function TurnL(s: seq<bool>, n: nat): (r: seq<bool>)
    requires s != []
    ensures |r| == |s|
  {
    if n == 0 then s else RotL(TurnL(s, n - 1), 1)
  }

  function TurnR(s: seq<bool>, n: nat): (r: seq<bool>)
    requires s != []
    ensures |r| == |s|
  {
    if n == 0 then s else RotR(TurnR(s, n - 1), 1)
  }

  // The bit x between a and b is the next to move round.
  lemma OneMoreLeft(a: seq<bool>, x: bool, b: seq<bool>)
    ensures var s := a + [x] + b;
            RotL(RotL(s, |b|), 1) == RotL(s, if a == [] then 0 else |b| + 1)
  {
    var s := a + [x] + b;
    assert RotL(s, |b|) == (b + a) + [x];
    assert RotL((b + a) + [x], 1) == [x] + (b + a);
    assert a != [] ==> s[|a|..] == [x] + b && s[..|a|] == a;
  }

  lemma OneMoreRight(a: seq<bool>, x: bool, b: seq<bool>)
    ensures var s := a + [x] + b;
            RotR(RotR(s, |a|), 1) == RotR(s, if b == [] then 0 else |a| + 1)
  {
    var s := a + [x] + b;
    assert RotR(s, |a|) == [x] + (b + a);
    assert RotR([x] + (b + a), 1) == (b + a) + [x];
    assert b != [] ==> s[|a| + 1..] == b && s[..|a| + 1] == a + [x];
  }

  lemma OneMore(s: seq<bool>, k: nat, l: seq<bool>, r: seq<bool>)
    requires k < |s| && l == RotL(s, k) && r == RotR(s, k)
    ensures RotL(l, 1) == RotL(s, if k + 1 == |s| then 0 else k + 1)
    ensures RotR(r, 1) == RotR(s, if k + 1 == |s| then 0 else k + 1)
  {
    hide RotL, RotR;
    OneMoreLeft(s[..|s| - k - 1], s[|s| - k - 1], s[|s| - k..]);
    assert s == s[..|s| - k - 1] + [s[|s| - k - 1]] + s[|s| - k..];
    OneMoreRight(s[..k], s[k], s[k + 1..]);
    assert s == s[..k] + [s[k]] + s[k + 1..];
  }

  lemma RotNone(s: seq<bool>)
    ensures RotL(s, 0) == s && RotR(s, 0) == s
  {
  }

  lemma TurnByResidue(s: seq<bool>, n: nat, q: nat, k: nat)
    requires k < |s| && n == q * |s| + k
    ensures TurnL(s, n) == RotL(s, k) && TurnR(s, n) == RotR(s, k)
  {
    hide RotL, RotR;
    RotNone(s);
    if k > 0 {
      TurnByResidue(s, n - 1, q, k - 1);
      OneMore(s, k - 1, TurnL(s, n - 1), TurnR(s, n - 1));
    } else if q > 0 {
      MulSucc(q - 1, |s|);
      TurnByResidue(s, n - 1, q - 1, |s| - 1);
      OneMore(s, |s| - 1, TurnL(s, n - 1), TurnR(s, n - 1));
    }
  }

  lemma TurnLIsRotL(s: seq<bool>, n: nat)
    requires s != []
    ensures TurnL(s, n) == RotL(s, n % |s|)
  {
    TurnByResidue(s, n, n / |s|, n % |s|);
  }

  lemma TurnRIsRotR(s: seq<bool>, n: nat)
    requires s != []
    ensures TurnR(s, n) == RotR(s, n % |s|)
  {
    TurnByResidue(s, n, n / |s|, n % |s|);
  }

  // count & 0x1f
  function Masked(count: nat): (n: nat)
    ensures n < 32
  {
    count % 32
  }

  // The places a rotation of an m-bit string by the masked count moves each bit.
  function Places(count: nat, m: nat): (k: nat)
    requires m > 0
    ensures k < m
  {
    Masked(count) % m
  }

  // The carry and operand as one (w + 1)-bit string, the carry on top.
  function Pair(v: nat, cf: bool, w: nat): (s: seq<bool>)
    ensures |s| == w + 1
  {
    ToBits(v, w) + [cf]
  }

  function Unpair(s: seq<bool>): (nat, bool)
    requires s != []
  {
    (FromBits(s[..|s| - 1]), s[|s| - 1])
  }

  lemma UnpairPair(s: seq<bool>, v: nat, cf: bool, w: nat)
    ensures |s| == w + 1 ==> Pair(Unpair(s).0, Unpair(s).1, w) == s && Unpair(s).0 < Pow2(w)
    ensures v < Pow2(w) ==> Unpair(Pair(v, cf, w)) == (v, cf)
  {
    if |s| == w + 1 {
      ToFromBits(s[..w]);
    }
    if v < Pow2(w) {
      FromToBits(v, w);
      assert Pair(v, cf, w)[..w] == ToBits(v, w);
    }
  }

  lemma UnpairAppend(low: seq<bool>, cf: bool)
    ensures Unpair(low + [cf]) == (FromBits(low), cf) && FromBits(low) < Pow2(|low|)
  {
    assert (low + [cf])[..|low|] == low;
    ToFromBits(low);
  }

  // What the rotate instructions compute: the (w + 1)-bit string of carry and operand turns
  // by the masked count mod w + 1, the operand alone by the count mod w. Only ROR takes its
  // count unmasked.
  function Rcl(w: nat, v: nat, cf: bool, count: nat): (nat, bool) {
    Unpair(RotL(Pair(v, cf, w), Places(count, w + 1)))
  }

  function Rcr(w: nat, v: nat, cf: bool, count: nat): (nat, bool) {
    Unpair(RotR(Pair(v, cf, w), Places(count, w + 1)))
  }

  function Rol(w: nat, v: nat, count: nat): nat
    requires w > 0
  {
    FromBits(RotL(ToBits(v, w), Places(count, w)))
  }

  function Ror(w: nat, v: nat, count: nat): nat
    requires w > 0
  {
    FromBits(RotR(ToBits(v, w), count % w))
  }

  lemma RotUndo(s: seq<bool>, k: nat)
    requires k <= |s|
    ensures RotR(RotL(s, k), k) == s && RotL(RotR(s, k), k) == s
  {
  }

  lemma PairUndo(w: nat, v: nat, cf: bool, k: nat)
    requires k <= w && v < Pow2(w)
    ensures var (v', cf') := Unpair(RotL(Pair(v, cf, w), k));
            v' < Pow2(w) && Unpair(RotR(Pair(v', cf', w), k)) == (v, cf)
    ensures var (v', cf') := Unpair(RotR(Pair(v, cf, w), k));
            v' < Pow2(w) && Unpair(RotL(Pair(v', cf', w), k)) == (v, cf)
  {
    var s := Pair(v, cf, w);
    RotUndo(s, k);
    UnpairPair(RotL(s, k), v, cf, w);
    assert Pair(Unpair(RotL(s, k)).0, Unpair(RotL(s, k)).1, w) == RotL(s, k);
    UnpairPair(RotR(s, k), v, cf, w);
    assert Pair(Unpair(RotR(s, k)).0, Unpair(RotR(s, k)).1, w) == RotR(s, k);
  }

  lemma RclRcrUndo(w: nat, v: nat, cf: bool, count: nat)
    requires w > 0 && v < Pow2(w)
    ensures var (v', cf') := Rcl(w, v, cf, count); v' < Pow2(w) && Rcr(w, v', cf', count) == (v, cf)
    ensures var (v', cf') := Rcr(w, v, cf, count); v' < Pow2(w) && Rcl(w, v', cf', count) == (v, cf)
  {
    PairUndo(w, v, cf, Places(count, w + 1));
  }

  lemma MaskIrrelevant(count: nat)
    ensures Places(count, 8) == count % 8 && Places(count, 16) == count % 16
  {
    var q, r := count / 32, Masked(count);
    DivModUnique(count, 8, 4 * q + r / 8, Places(count, 8));
    DivModUnique(count, 16, 2 * q + r / 16, Places(count, 16));
  }

  lemma ValueUndo(w: nat, v: nat, k: nat)
    requires k < w && v < Pow2(w)
    ensures FromBits(RotR(ToBits(FromBits(RotL(ToBits(v, w), k)), w), k)) == v
    ensures FromBits(RotL(ToBits(FromBits(RotR(ToBits(v, w), k)), w), k)) == v
  {
    var s := ToBits(v, w);
    ToFromBits(RotL(s, k));
    ToFromBits(RotR(s, k));
    FromToBits(v, w);
    RotUndo(s, k);
  }

  // Masking the count to five bits does not matter at a width that divides 32.
  lemma RolRorUndo(w: nat, v: nat, count: nat)
    requires w == 8 || w == 16
    requires v < Pow2(w)
    ensures Ror(w, Rol(w, v, count), count) == v
    ensures Rol(w, Ror(w, v, count), count) == v
  {
    MaskIrrelevant(count);
    ValueUndo(w, v, Places(count, w));
  }

  lemma SignBit(s: seq<bool>)
    requires s != []
    ensures FromBits(s) >= Pow2(|s| - 1) <==> s[|s| - 1]
  {
    var t := s[..|s| - 1];
    assert s == t + [s[|s| - 1]];
    FromBitsAppend(t, s[|s| - 1]);
    ToFromBits(t);
  }

  // ROL and ROR in arithmetic, one place at a time.
  function TurnsLeft(w: nat, v: nat, n: nat): nat
    requires w > 0
  {
    if n == 0 then v
    else
      var u := TurnsLeft(w, v, n - 1);
      2 * u % Pow2(w) + (if u >= Pow2(w - 1) then 1 else 0)
  }

  function TurnsRight(w: nat, v: nat, n: nat): nat
    requires w > 0
  {
    if n == 0 then v
    else
      var u := TurnsRight(w, v, n - 1);
      u / 2 + (if u % 2 == 1 then Pow2(w - 1) else 0)
  }

  lemma TopRound(u: nat, t: nat, b: bool, h: nat)
    requires t < h && u == t + (if b then h else 0)
    ensures 2 * u % (2 * h) + (if u >= h then 1 else 0) == BoolToInt(b) + 2 * t
  {
    DivModUnique(2 * u, 2 * h, BoolToInt(b), 2 * t);
  }

  lemma LowFirst(s: seq<bool>)
    requires s != []
    ensures FromBits(s) == BoolToInt(s[0]) + 2 * FromBits(s[1..])
  {
  }

  lemma TwicePower(w: nat)
    requires w > 0
    ensures Pow2(w) == 2 * Pow2(w - 1)
  {
  }

  lemma TurnOneLeft(t: seq<bool>, b: bool)
    ensures var u, w := FromBits(t + [b]), |t| + 1;
            FromBits(RotL(t + [b], 1)) == 2 * u % Pow2(w) + (if u >= Pow2(w - 1) then 1 else 0)
  {
    hide Pow2, FromBits;
    FromBitsAppend(t, b);
    ToFromBits(t);
    TwicePower(|t| + 1);
    TopRound(FromBits(t + [b]), FromBits(t), b, Pow2(|t|));
    assert RotL(t + [b], 1) == [b] + t;
    LowFirst([b] + t);
    assert ([b] + t)[1..] == t;
  }

  lemma SameRight(s: seq<bool>)
    requires s != []
    ensures RotR(s, 1) == s[1..] + [s[0]]
  {
  }

  lemma TurnOneRight(s: seq<bool>)
    requires s != []
    ensures var u := FromBits(s);
            FromBits(RotR(s, 1)) == u / 2 + (if u % 2 == 1 then Pow2(|s| - 1) else 0)
  {
    hide Pow2, FromBits;
    SameRight(s);
    LowFirst(s);
    FromBitsAppend(s[1..], s[0]);
    DivModUnique(FromBits(s), 2, FromBits(s[1..]), BoolToInt(s[0]));
  }

  lemma {:induction false} TurnsInSteps(w: nat, v: nat, n: nat)
    requires w > 0 && v < Pow2(w)
    ensures FromBits(TurnL(ToBits(v, w), n)) == TurnsLeft(w, v, n)
    ensures FromBits(TurnR(ToBits(v, w), n)) == TurnsRight(w, v, n)
  {
    hide RotL, RotR, Pow2, ToBits, FromBits;
    FromToBits(v, w);
    if n > 0 {
      TurnsInSteps(w, v, n - 1);
      var l := TurnL(ToBits(v, w), n - 1);
      assert l == l[..w - 1] + [l[w - 1]];
      TurnOneLeft(l[..w - 1], l[w - 1]);
      TurnOneRight(TurnR(ToBits(v, w), n - 1));
    }
  }

  // ROL turns by its count modulo 32, ROR by its whole count.
  lemma RolRorSteps(w: nat, v: nat, count: nat)
    requires w > 0 && v < Pow2(w)
    ensures Rol(w, v, count) == TurnsLeft(w, v, count % 32)
    ensures Ror(w, v, count) == TurnsRight(w, v, count)
  {
    hide RotL, RotR, TurnL, TurnR, TurnsLeft, TurnsRight, Pow2, FromBits;
    TurnsInSteps(w, v, count % 32);
    TurnsInSteps(w, v, count);
    TurnLIsRotL(ToBits(v, w), count % 32);
    TurnRIsRotR(ToBits(v, w), count);
  }

  // One step of the left rotations: the sign bit leaves and `low` enters at the bottom.
  method ShiftInLeft(w: nat, v0: nat, low: bool, ghost s: seq<bool>)
    returns (v: nat, out: bool, ghost s': seq<bool>)
    requires |s| == w > 0 && v0 == FromBits(s)
    ensures s' == [low] + s[..w - 1] && v == FromBits(s') && out == s[w - 1]
  {
    ghost var t := s[..w - 1];
    SignBit(s);
    assert s == t + [s[w - 1]];
    FromBitsAppend(t, s[w - 1]);
    ToFromBits(t);
    DivModUnique(2 * v0, Pow2(w), BoolToInt(s[w - 1]), 2 * FromBits(t));
    s' := [low] + t;
    assert s'[1..] == t;
    out := v0 >= Pow2(w - 1);
    v := 2 * v0 % Pow2(w);
    v := v + BoolToInt(low);
  }

  // One step of the right rotations: the low bit leaves and `high` enters at the top.
  method ShiftInRight(w: nat, v0: nat, high: bool, ghost s: seq<bool>)
    returns (v: nat, out: bool, ghost s': seq<bool>)
    requires |s| == w > 0 && v0 == FromBits(s)
    ensures s' == s[1..] + [high] && v == FromBits(s') && out == s[0]
  {
    s' := s[1..] + [high];
    FromBitsAppend(s[1..], high);
    out := v0 % 2 == 1;
    v := v0 / 2;
    v := v + (if high then Pow2(w - 1) else 0);
  }

  lemma PairLeft(low: seq<bool>, cf: bool)
    requires low != []
    ensures RotL(low + [cf], 1) == ([cf] + low[..|low| - 1]) + [low[|low| - 1]]
  {
  }

  lemma PairRight(low: seq<bool>, cf: bool)
    requires low != []
    ensures RotR(low + [cf], 1) == (low[1..] + [cf]) + [low[0]]
  {
  }

  lemma SameLeft(s: seq<bool>)
    requires s != []
    ensures RotL(s, 1) == [s[|s| - 1]] + s[..|s| - 1]
  {
  }

  // do_rcl: rotate (cf, v) left by (count & 31) mod (w + 1).
  method DoRcl(w: nat, v0: nat, count: nat, carryIn: bool) returns (flags: Flags, v: nat)
    requires w >= 2 && v0 < Pow2(w)
    ensures v < Pow2(w) && (v, flags.cf) == Rcl(w, v0, carryIn, count)
    ensures flags == NO_FLAGS.(cf := flags.cf, of := flags.cf != (v >= Pow2(w - 1)))
  {
    hide RotL, FromBits, ToBits, Pow2;
    var cf := carryIn;
    v := v0;
    ghost var p0, low := Pair(v0, carryIn, w), ToBits(v0, w);
    FromToBits(v0, w);
    var n := Masked(count);
    for i := 0 to n
      invariant |low| == w && v == FromBits(low)
      invariant low + [cf] == TurnL(p0, i)
    {
      PairLeft(low, cf);
      v, cf, low := ShiftInLeft(w, v, cf, low);
    }
    TurnLIsRotL(p0, n);
    UnpairAppend(low, cf);
    flags := NO_FLAGS.(cf := cf, of := cf != (v >= Pow2(w - 1)));
  }

  // The two top bits differ.
  predicate TopBitsDiffer(v: nat, w: nat)
    requires w >= 2
  {
    var msbs := v / Pow2(w - 2) % 4;
    msbs == 1 || msbs == 2
  }

  lemma LowTwo(x: int)
    ensures x % 4 == 1 || x % 4 == 2 <==> x / 2 % 2 != x % 2
  {
  }

  // They are bit w - 1 and bit w - 2.
  lemma TopBits(v: nat, w: nat)
    requires w >= 2
    ensures TopBitsDiffer(v, w) <==> v / Pow2(w - 1) % 2 != v / Pow2(w - 2) % 2
  {
    hide Pow2;
    TwicePower(w - 1);
    DivDiv(v, Pow2(w - 2), 2);
    LowTwo(v / Pow2(w - 2));
  }

  // do_rcr: rotate (cf, v) right by (count & 31) mod (w + 1).
  method DoRcr(w: nat, v0: nat, count: nat, carryIn: bool) returns (flags: Flags, v: nat)
    requires w >= 2 && v0 < Pow2(w)
    ensures v < Pow2(w) && (v, flags.cf) == Rcr(w, v0, carryIn, count)
    ensures flags == NO_FLAGS.(cf := flags.cf, of := TopBitsDiffer(v, w))
  {
    hide RotR, FromBits, ToBits, Pow2, TopBitsDiffer;
    var cf := carryIn;
    v := v0;
    ghost var p0, low := Pair(v0, carryIn, w), ToBits(v0, w);
    FromToBits(v0, w);
    var n := Masked(count);
    for i := 0 to n
      invariant |low| == w && v == FromBits(low)
      invariant low + [cf] == TurnR(p0, i)
    {
      PairRight(low, cf);
      v, cf, low := ShiftInRight(w, v, cf, low);
    }
    TurnRIsRotR(p0, n);
    UnpairAppend(low, cf);
    flags := NO_FLAGS.(cf := cf, of := TopBitsDiffer(v, w));
  }

  // do_rol: rotate v left by (count & 31) mod w; CF is the bit that came round last.
  method DoRol(w: nat, v0: nat, count: nat) returns (flags: Flags, v: nat)
    requires w >= 2 && v0 < Pow2(w)
    ensures v < Pow2(w) && v == Rol(w, v0, count)
    ensures flags == NO_FLAGS.(cf := count % 32 > 0 && v % 2 == 1, of := flags.cf != (v >= Pow2(w - 1)))
  {
    hide RotL, ToBits, Pow2;
    var cf := false;
    v := v0;
    ghost var s0, s := ToBits(v0, w), ToBits(v0, w);
    FromToBits(v0, w);
    var n := Masked(count);
    for i := 0 to n
      invariant |s| == w && v == FromBits(s)
      invariant s == TurnL(s0, i)
      invariant cf == (i > 0 && s[0])
    {
      var signBitSet := v >= Pow2(w - 1);
      SignBit(s);
      SameLeft(s);
      v, cf, s := ShiftInLeft(w, v, signBitSet, s);
    }
    TurnLIsRotL(s0, n);
    ToFromBits(s);
    flags := NO_FLAGS.(cf := cf, of := cf != (v >= Pow2(w - 1)));
  }

  // do_ror: rotate v right by count mod w. The loop does not mask the count.
  method DoRor(w: nat, v0: nat, count: nat) returns (flags: Flags, v: nat)
    requires w >= 2 && v0 < Pow2(w)
    ensures v < Pow2(w) && v == Ror(w, v0, count)
    ensures flags == NO_FLAGS.(cf := count > 0 && v >= Pow2(w - 1), of := TopBitsDiffer(v, w))
  {
    hide RotR, ToBits, Pow2, TopBitsDiffer;
    var cf := false;
    v := v0;
    ghost var s0, s := ToBits(v0, w), ToBits(v0, w);
    FromToBits(v0, w);
    for i := 0 to count
      invariant |s| == w && v == FromBits(s)
      invariant s == TurnR(s0, i)
      invariant cf == (i > 0 && s[w - 1])
    {
      SameRight(s);
      v, cf, s := ShiftInRight(w, v, v % 2 == 1, s);
    }
    SignBit(s);
    TurnRIsRotR(s0, count);
    ToFromBits(s);
    flags := NO_FLAGS.(cf := cf, of := TopBitsDiffer(v, w));
  }

  // ---- Shifts ----

  // What the shift instructions compute, with the last bit shifted out: SHL multiplies by
  // 2^count mod 2^w (the bit out is bit w of the unbounded product), SHR and SAR divide the
  // unsigned and the signed value by 2^count, rounding down.
  function Shl(w: nat, v: nat, count: nat): (nat, bool) {
    (v * Pow2(count) % Pow2(w), count > 0 && Bit(v * Pow2(count), w))
  }

  function FloorShift(v: int, count: nat): (int, bool) {
    (v / Pow2(count), count > 0 && Bit(v, count - 1))
  }

  ghost predicate ShiftedLeft(w: nat, v0: nat, i: nat, v: nat) {
    v == v0 * Pow2(i) % Pow2(w) && v < Pow2(w)
  }

  lemma ShiftStart(v: nat, m: nat)
    requires v < m
    ensures v * Pow2(0) % m == v && v / Pow2(0) == v
  {
    assert Pow2(0) == 1;
    DivModUnique(v, m, 0, v);
    DivModUnique(v, 1, v, 0);
  }

  lemma DoubleRight(a: int, b: int)
    ensures a * (2 * b) == 2 * (a * b)
  {
  }

  lemma DoubledBit(x: int, h: int, v: int)
    requires h > 0 && v == x % (2 * h)
    ensures 2 * v % (2 * h) == 2 * x % (2 * h) && 2 * v % (2 * h) < 2 * h
    ensures v >= h <==> (2 * x / (2 * h)) % 2 == 1
  {
    ModDouble(x, 2 * h);
  }

  lemma ShlStep(w: nat, v0: nat, i: nat, v: nat)
    requires w >= 1 && ShiftedLeft(w, v0, i, v)
    ensures ShiftedLeft(w, v0, i + 1, 2 * v % Pow2(w))
    ensures v >= Pow2(w - 1) <==> Bit(v0 * Pow2(i + 1), w)
  {
    var x, h := v0 * Pow2(i), Pow2(w - 1);
    DoubleRight(v0, Pow2(i));
    DoubledBit(x, h, v);
    assert Pow2(w) == 2 * h && Pow2(i + 1) == 2 * Pow2(i);
    hide Pow2;
    assert v0 * Pow2(i + 1) == 2 * x;
  }

  method DoShl(w: nat, v0: nat, count: nat) returns (flags: Flags, v: nat)
    requires w >= 2 && v0 < Pow2(w)
    ensures (v, flags.cf) == Shl(w, v0, count) && v < Pow2(w)
    ensures flags == NO_FLAGS.(cf := flags.cf, of := TopBitsDiffer(v0, w),
                               zf := v == 0, pf := EvenParity(v), sf := v >= Pow2(w - 1))
  {
    var of, cf := TopBitsDiffer(v0, w), false;
    v := v0;
    ShiftStart(v0, Pow2(w));
    for i := 0 to count
      invariant ShiftedLeft(w, v0, i, v) && cf == (i > 0 && Bit(v0 * Pow2(i), w))
    {
      ShlStep(w, v0, i, v);
      cf := v >= Pow2(w - 1);
      v := 2 * v % Pow2(w);
    }
    flags := NO_FLAGS.(cf := cf, of := of, zf := v == 0, pf := EvenParity(v), sf := v >= Pow2(w - 1));
  }

  lemma Halve(x: int, i: nat)
    ensures x / Pow2(i) / 2 == x / Pow2(i + 1)
  {
    DivDiv(x, Pow2(i), 2);
    assert Pow2(i) * 2 == Pow2(i + 1);
  }

  method DoShr(w: nat, v0: nat, count: nat) returns (flags: Flags, v: nat)
    requires w >= 2 && v0 < Pow2(w)
    ensures (v as int, flags.cf) == FloorShift(v0, count)
    ensures flags == NO_FLAGS.(cf := flags.cf, of := v0 >= Pow2(w - 1), zf := v == 0, pf := EvenParity(v))
  {
    var of, cf := v0 >= Pow2(w - 1), false;
    v := v0;
    ShiftStart(v0, Pow2(w));
    for i := 0 to count
      invariant v == v0 / Pow2(i) && cf == (i > 0 && Bit(v0, i - 1))
    {
      Halve(v0, i);
      cf := v % 2 == 1;
      v := v / 2;
    }
    flags := NO_FLAGS.(cf := cf, of := of, zf := v == 0, pf := EvenParity(v));
  }

  method DoSar(w: nat, v0: nat, count: nat) returns (flags: Flags, v: nat)
    requires w >= 2 && v0 < Pow2(w)
    ensures v < Pow2(w) && (Signed(v, Pow2(w)), flags.cf) == FloorShift(Signed(v0, Pow2(w)), count)
    ensures flags == NO_FLAGS.(cf := flags.cf, zf := v == 0, pf := EvenParity(v), sf := v >= Pow2(w - 1))
  {
    var isNegative, cf := v0 >= Pow2(w - 1), false;
    v := v0;
    assert Signed(v0, Pow2(w)) / Pow2(0) == Signed(v0, Pow2(w)) by {
      DivModUnique(Signed(v0, Pow2(w)), 1, Signed(v0, Pow2(w)), 0);
    }
    for i := 0 to count
      invariant v < Pow2(w) && isNegative == (v >= Pow2(w - 1))
      invariant Signed(v, Pow2(w)) == Signed(v0, Pow2(w)) / Pow2(i)
      invariant cf == (i > 0 && Bit(Signed(v0, Pow2(w)), i - 1))
    {
      Halve(Signed(v0, Pow2(w)), i);
      cf := v % 2 == 1;
      v := v / 2;
      if isNegative {
        v := v + Pow2(w - 1);  // v |= sign_bit, clear after the shift
      }
    }
    flags := NO_FLAGS.(cf := cf, zf := v == 0, pf := EvenParity(v), sf := v >= Pow2(w - 1));
  }
}
