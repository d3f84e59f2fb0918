// Fixed-width words, bits and powers of two. A C++ uintN_t is an int with a bound and
// every truncation of the source is written out as a remainder.
module Words {

  type byte = x: int | 0 <= x < 0x100

  type word = x: int | 0 <= x < 0x1_0000

  type dword = x: int | 0 <= x < 0x1_0000_0000

  function Pow2(n: nat): (r: nat)
    ensures r >= 1
  {
    if n == 0 then 1 else 2 * Pow2(n - 1)
  }

  // Bit k of x, that is !!(x & (1 << k)).
  predicate Bit(x: int, k: nat) {
    (x / Pow2(k)) % 2 == 1
  }

  function BoolToInt(b: bool): (r: nat)
    ensures r <= 1
  {
    if b then 1 else 0
  }

  // The two's complement reading of a value in [0, m), where m is 2^width.
  function Signed(x: int, m: int): int {
    if x >= m / 2 then x - m else x
  }

  function Abs(x: int): nat {
    if x < 0 then -x else x
  }

  // C++ integer division and remainder truncate toward zero.
  function TruncDiv(a: int, b: int): int
    requires b != 0
  {
    var q := Abs(a) / Abs(b);
    if (a < 0) != (b < 0) then -q else q
  }

  function TruncMod(a: int, b: int): int
    requires b != 0
  {
    var r := Abs(a) % Abs(b);
    if a < 0 then -r else r
  }

  lemma MulLe(a: int, b: int, m: int)
    requires a <= b && m >= 0
    ensures a * m <= b * m
  {
    assert (b - a) * m >= 0;
    assert (b - a) * m == b * m - a * m;
  }

  lemma MulSucc(a: int, m: int)
    ensures (a + 1) * m == a * m + m
  {
  }

  lemma QuotientUnique(m: int, q: int, r: int, q': int, r': int)
    requires 0 <= r < m && 0 <= r' < m && q * m + r == q' * m + r'
    ensures q == q' && r == r'
  {
    if q < q' {
      MulLe(q + 1, q', m);
      MulSucc(q, m);
    } else if q' < q {
      MulLe(q' + 1, q, m);
      MulSucc(q', m);
    }
  }

  lemma DivModDef(x: int, m: int)
    requires m > 0
    ensures x == x / m * m + x % m && 0 <= x % m < m
  {
  }

  // Quotient and remainder are determined by q * m + r == x with 0 <= r < m.
  lemma DivModUnique(x: int, m: int, q: int, r: int)
    requires 0 <= r < m && x == q * m + r
    ensures x / m == q && x % m == r
  {
    QuotientUnique(m, q, r, x / m, x % m);
  }

  // A sum may be reduced at every step.
  lemma ModSum(x: int, y: int)
    ensures (x % 0x1_0000 + y) % 0x1_0000 == (x + y) % 0x1_0000
  {
    DivModDef(x, 0x1_0000);
    DivModDef(x + y, 0x1_0000);
    DivModUnique(x % 0x1_0000 + y, 0x1_0000, (x + y) / 0x1_0000 - x / 0x1_0000, (x + y) % 0x1_0000);
  }

  // Reducing to m values and reading them as signed gives back any x in the signed range.
  lemma SignedOfMod(x: int, m: int)
    requires m > 0 && m % 2 == 0 && -(m / 2) <= x < m / 2
    ensures Signed(x % m, m) == x
  {
    DivModUnique(x, m, if x < 0 then -1 else 0, if x < 0 then x + m else x);
  }

  lemma DoubleLeft(a: int, b: int)
    ensures 2 * a * b == 2 * (a * b)
  {
  }

  lemma Pow2Add(a: nat, b: nat)
    ensures Pow2(a + b) == Pow2(a) * Pow2(b)
  {
    if a > 0 {
      Pow2Add(a - 1, b);
      DoubleLeft(Pow2(a - 1), Pow2(b));
    }
  }

  lemma NestedQuotient(x: int, a: int, b: int, q: int, s: int, r: int)
    requires 0 <= r < a && 0 <= s < b && x == (q * b + s) * a + r
    ensures a * b > 0 && 0 <= s * a + r < a * b && x == q * (a * b) + (s * a + r)
  {
    MulLe(s, b - 1, a);
    MulLe(0, s, a);
    MulSucc(b - 1, a);
    assert b * a == a * b;
    assert (q * b + s) * a == q * b * a + s * a;
    assert q * b * a == q * (b * a);
  }

  lemma DivDiv(x: int, a: int, b: int)
    requires a > 0 && b > 0
    ensures a * b > 0 && x / (a * b) == x / a / b
  {
    NestedQuotient(x, a, b, x / a / b, x / a % b, x % a);
    var q, r := x / a / b, x / a % b * a + x % a;
    DivModUnique(x, a * b, q, r);
  }

  lemma Pow2Of16()
    ensures Pow2(8) == 0x100 && Pow2(16) == 0x1_0000
  {
  }

  // (2 * x) mod m and its top bit, from x mod m.
  lemma ModDouble(x: int, m: int)
    requires m > 0
    ensures 2 * x % m == 2 * (x % m) % m
    ensures 2 * x / m == 2 * (x / m) + (if 2 * (x % m) >= m then 1 else 0)
    ensures 2 * (x % m) % m == 2 * (x % m) - (if 2 * (x % m) >= m then m else 0)
  {
    var q, r := x / m, x % m;
    assert x == q * m + r;
    assert 2 * q * m == 2 * (q * m);
    MulSucc(2 * q, m);
    if 2 * r >= m {
      DivModUnique(2 * x, m, 2 * q + 1, 2 * r - m);
      DivModUnique(2 * r, m, 1, 2 * r - m);
    } else {
      DivModUnique(2 * x, m, 2 * q, 2 * r);
      DivModUnique(2 * r, m, 0, 2 * r);
    }
  }

  // ---- Bit strings, least significant bit first ----

  function ToBits(x: int, n: nat): (s: seq<bool>)
    ensures |s| == n
    decreases n
  {
    if n == 0 then [] else [x % 2 == 1] + ToBits(x / 2, n - 1)
  }

  function FromBits(s: seq<bool>): nat {
    if s == [] then 0 else BoolToInt(s[0]) + 2 * FromBits(s[1..])
  }

  lemma FromToBits(x: nat, n: nat)
    requires x < Pow2(n)
    ensures FromBits(ToBits(x, n)) == x
  {
    if n > 0 { FromToBits(x / 2, n - 1); }
  }

  lemma ToFromBits(s: seq<bool>)
    ensures FromBits(s) < Pow2(|s|)
    ensures ToBits(FromBits(s), |s|) == s
  {
    if s != [] {
      ToFromBits(s[1..]);
      DivModUnique(FromBits(s), 2, FromBits(s[1..]), BoolToInt(s[0]));
    }
  }

  lemma FromBitsAppend(s: seq<bool>, b: bool)
    ensures FromBits(s + [b]) == FromBits(s) + (if b then Pow2(|s|) else 0)
  {
    if s == [] {
      assert s + [b] == [b];
    } else {
      assert (s + [b])[1..] == s[1..] + [b];
      FromBitsAppend(s[1..], b);
    }
  }

  // The number of ones among the n low bits of x.
  function Ones(x: nat, n: nat): nat {
    if n == 0 then 0 else x % 2 + Ones(x / 2, n - 1)
  }

  // !__builtin_parity(x & 0xff), the value of PF.
  predicate EvenParity(x: nat) {
    Ones(x, 8) % 2 == 0
  }

  lemma OnesNext(x: nat, k: nat, y: nat, z: nat, n: nat)
    requires n > 0 && k > 0 && y == x / k && z == x / (k * 2)
    ensures Ones(y, n) == y % 2 + Ones(z, n - 1)
  {
    DivDiv(x, k, 2);
  }

  lemma LowBits(x: nat, k: nat, h: nat)
    requires k > 0 && h > 0
    ensures x % (2 * k * h) / k % 2 == x / k % 2
  {
    var y, m := x % (2 * k * h), 2 * k * h;
    var q := x / m;
    DivModDef(x, m);
    assert q * (2 * k * h) == 2 * (q * h) * k;
    DivModDef(y, k);
    DivModUnique(x, k, 2 * (q * h) + y / k, y % k);
    DivModDef(y / k, 2);
    DivModUnique(x / k, 2, q * h + y / k / 2, y / k % 2);
  }

  lemma {:induction false} OnesAdd(x: nat, y: nat, n: nat, m: nat)
    requires x < Pow2(n)
    ensures Ones(x + Pow2(n) * y, n + m) == Ones(x, n) + Ones(y, m)
  {
    if n > 0 {
      var h := Pow2(n - 1) * y;
      DoubleLeft(Pow2(n - 1), y);
      DivModUnique(x + 2 * h, 2, x / 2 + h, x % 2);
      OnesAdd(x / 2, y, n - 1, m);
    }
  }

  lemma OnesOfFull()
    ensures Ones(0xff, 8) == 8 && Ones(0, 8) == 0
  {
    assert Ones(0xf, 4) == 4 && Ones(0, 4) == 0;
  }

  // Eight ones above the low byte do not change the parity of a 16-bit value.
  lemma ParityOfWord(x: byte)
    ensures Ones(x, 16) == Ones(x, 8) && Ones(x + 0xff00, 16) == Ones(x, 8) + 8
  {
    hide Ones;
    Pow2Of16();
    OnesOfFull();
    OnesAdd(x, 0, 8, 8);
    OnesAdd(x, 0xff, 8, 8);
  }

  // An even number of the eight low bits are ones.
  predicate EvenLowBits(x: nat) {
    (x % 2 + x / 2 % 2 + x / 4 % 2 + x / 8 % 2 + x / 16 % 2 + x / 32 % 2 + x / 64 % 2 + x / 128 % 2) % 2 == 0
  }

  lemma NoOnes(x: nat)
    ensures Ones(x, 0) == 0
  {
  }

  // PF is the parity of the eight low bits.
  lemma ParityWritten(x: nat)
    ensures EvenParity(x % 256) <==> EvenLowBits(x)
  {
    hide Ones;
    var y := x % 256;
    OnesNext(y, 1, y, y / 2, 8);
    OnesNext(y, 2, y / 2, y / 4, 7);
    OnesNext(y, 4, y / 4, y / 8, 6);
    OnesNext(y, 8, y / 8, y / 16, 5);
    OnesNext(y, 16, y / 16, y / 32, 4);
    OnesNext(y, 32, y / 32, y / 64, 3);
    OnesNext(y, 64, y / 64, y / 128, 2);
    OnesNext(y, 128, y / 128, y / 256, 1);
    LowBits(x, 1, 128);
    LowBits(x, 2, 64);
    LowBits(x, 4, 32);
    LowBits(x, 8, 16);
    LowBits(x, 16, 8);
    LowBits(x, 32, 4);
    LowBits(x, 64, 2);
    LowBits(x, 128, 1);
    NoOnes(y / 256);
  }
}
