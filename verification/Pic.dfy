// The interrupt controller (sim/PIC.h). A register byte is the set of its one bits: line i is
// bit i, and a lower line has the higher priority.
module Pic {
  import opened Words

  datatype Option<T> = None | Some(value: T)

  const LINES: nat := 8

  // A vector base is v & 0xf8 of some byte v.
  type Base = x: int | 0 <= x <= 0xf8 && x % 8 == 0 witness 0

  datatype Mode = Idle | Icw2 | Icw4

  datatype PicState = PicState(irr: set<nat>, isr: set<nat>, mask: set<nat>, base: Base, mode: Mode, readIrr: bool)
  {
    // No register has more than eight bits.
    ghost predicate Valid() {
      forall i :: i in irr || i in isr || i in mask ==> i < LINES
    }
  }

  // The lowest line of s that is at least i; LINES if there is none.
  function First(s: set<nat>, i: nat): (k: nat)
    requires i <= LINES
    ensures i <= k <= LINES && (k < LINES ==> k in s)
    ensures forall j :: i <= j < k ==> j !in s
    decreases LINES - i
  {
    if i == LINES || i in s then i else First(s, i + 1)
  }

  function Lines(v: byte): set<nat> {
    set i | 0 <= i < LINES && Bit(v, i)
  }

  // ---- The operations as functions ----

  // A raised line that is not masked enters IRR; then the highest requested line, if it is above
  // every line in service, is signalled to the CPU by its vector.
  function Raised(p: PicState, line: nat): (PicState, Option<byte>)
    requires line < LINES
  {
    if line in p.mask then (p, None)
    else
      var q := p.(irr := p.irr + {line});
      var i := First(q.irr, 0);
      (q, if i < First(q.isr, 0) then Some(q.base + i) else None)
  }

  // A vector of none of the eight lines changes no bit of the byte registers.
  function Acknowledged(p: PicState, vector: byte): PicState {
    if p.base <= vector < p.base + LINES then
      var line: nat := vector - p.base;
      p.(isr := p.isr + {line}, irr := p.irr - {line})
    else p
  }

  predicate IsIcw1(v: byte) { Bit(v, 4) }

  predicate IsOcw2(v: byte) { !Bit(v, 4) && !Bit(v, 3) }

  predicate IsOcw3(v: byte) { !Bit(v, 7) && !Bit(v, 4) && Bit(v, 3) }

  // What the source asserts of a command: 8086 mode without a second controller, no polling and
  // no special mask mode.
  predicate CommandAllowed(v: byte) {
    && (IsIcw1(v) ==> v % 16 == 3)
    && (IsOcw3(v) ==> !Bit(v, 2) && !Bit(v, 5) && !Bit(v, 6))
  }

  predicate NonSpecificEoi(v: byte) { IsOcw2(v) && v / 32 == 1 }

  predicate SpecificEoi(v: byte) { IsOcw2(v) && v / 32 == 3 }

  // End of interrupt, non-specific, clears the highest line in service; specific clears the one named.
  function Ocw2(p: PicState, v: byte): PicState {
    if v / 32 == 1 then p.(isr := p.isr - {First(p.isr, 0)})
    else if v / 32 == 3 then p.(isr := p.isr - {v % 8})
    else p
  }

  function Command(p: PicState, v: byte): PicState {
    if IsIcw1(v) then p.(mode := Icw2)
    else if IsOcw2(v) then Ocw2(p, v)
    else if IsOcw3(v) then
      (if v % 4 == 2 then p.(readIrr := true) else if v % 4 == 3 then p.(readIrr := false) else p)
    else p
  }

  function Data(p: PicState, v: byte): PicState {
    match p.mode
    case Icw2 => p.(base := v / 8 * 8, mode := Icw4)
    case Icw4 => p.(mode := Idle)
    case Idle => p.(mask := Lines(v))
  }

  // The byte of a register, bit i for line i.
  function ByteOf(s: set<nat>): byte {
    (if 0 in s then 1 else 0) + (if 1 in s then 2 else 0) + (if 2 in s then 4 else 0) + (if 3 in s then 8 else 0)
    + (if 4 in s then 16 else 0) + (if 5 in s then 32 else 0) + (if 6 in s then 64 else 0) + (if 7 in s then 128 else 0)
  }

  // ---- What the bytes mean ----

  lemma LowPowers()
    ensures Pow2(0) == 1 && Pow2(1) == 2 && Pow2(2) == 4 && Pow2(3) == 8
    ensures Pow2(4) == 16 && Pow2(5) == 32 && Pow2(6) == 64 && Pow2(7) == 128
  {
    assert Pow2(3) == 8;
    assert Pow2(6) == 64;
  }

  // Line i is in the register exactly when the byte has a one at the place of 2 to the i.
  lemma LinesWritten(v: byte, i: nat)
    ensures i in Lines(v) <==> i < 8 && v / [1, 2, 4, 8, 16, 32, 64, 128][i] % 2 == 1
  {
    LowPowers();
    if i < 8 { assert Pow2(i) == [1, 2, 4, 8, 16, 32, 64, 128][i]; }
  }

  lemma Halved(v: int, m: int)
    requires m > 0
    ensures v / m == 2 * (v / (m * 2)) + v / m % 2
  {
    DivDiv(v, m, 2);
  }

  // What the binary digit at the place of m adds to v.
  function Digit(v: byte, m: int): int
    requires m > 0
  {
    m * (v / m % 2)
  }

  lemma BinaryDigits(v: byte)
    ensures v == Digit(v, 1) + Digit(v, 2) + Digit(v, 4) + Digit(v, 8)
                 + Digit(v, 16) + Digit(v, 32) + Digit(v, 64) + Digit(v, 128)
  {
    Halved(v, 1);
    Halved(v, 2);
    Halved(v, 4);
    Halved(v, 8);
    Halved(v, 16);
    Halved(v, 32);
    Halved(v, 64);
    Halved(v, 128);
    assert v / 1 == v && v / 256 == 0;
  }

  lemma LineDigit(v: byte, i: nat, m: int)
    requires i < 8 && m == [1, 2, 4, 8, 16, 32, 64, 128][i]
    ensures Digit(v, m) == if i in Lines(v) then m else 0
  {
    LinesWritten(v, i);
    assert v / m % 2 == 0 || v / m % 2 == 1;
  }

  lemma LinesRoundTrip(v: byte)
    ensures ByteOf(Lines(v)) == v
  {
    hide Lines, Digit;
    LineDigit(v, 0, 1);
    LineDigit(v, 1, 2);
    LineDigit(v, 2, 4);
    LineDigit(v, 3, 8);
    LineDigit(v, 4, 16);
    LineDigit(v, 5, 32);
    LineDigit(v, 6, 64);
    LineDigit(v, 7, 128);
    BinaryDigits(v);
  }

  // After a mask write a raise of line i is ignored when bit i of the byte is one, and enters IRR
  // when it is zero.
  lemma MaskWriteMasks(p: PicState, v: byte, i: nat)
    requires p.mode == Idle && i < 8
    ensures var q := Data(p, v);
            && q == p.(mask := q.mask)
            && Raised(q, i) == if v / [1, 2, 4, 8, 16, 32, 64, 128][i] % 2 == 1 then (q, None)
                               else (q.(irr := p.irr + {i}), Raised(q, i).1)
  {
    hide Lines;
    LinesWritten(v, i);
  }

  lemma MaskWritesOfBios()
    ensures Lines(0xff) == {0, 1, 2, 3, 4, 5, 6, 7} && Lines(0xfe) == {1, 2, 3, 4, 5, 6, 7} && Lines(0) == {}
  {
    hide Lines;
    forall i: nat ensures (i in Lines(0xff) <==> i < 8) && (i in Lines(0xfe) <==> 0 < i < 8) && i !in Lines(0) {
      LinesWritten(0xff, i);
      LinesWritten(0xfe, i);
      LinesWritten(0, i);
    }
  }

  // ICW1, ICW2, OCW2 and OCW3 by the arithmetic of their bytes.
  lemma CommandDecoded(p: PicState, v: byte)
    requires p.Valid()
    ensures v / 16 % 2 == 1 ==> Command(p, v) == p.(mode := Icw2)
    ensures v / 8 % 4 == 0 && v / 32 == 1 ==> forall i: nat ::
              i in Command(p, v).isr <==> i in p.isr && exists j :: 0 <= j < i && j in p.isr
    ensures v / 8 % 4 == 0 && v / 32 == 3 ==> Command(p, v) == p.(isr := p.isr - {v % 8})
    ensures v / 8 % 4 == 0 && v / 32 != 1 && v / 32 != 3 ==> Command(p, v) == p
    ensures v / 8 % 4 == 0 ==> Command(p, v) == p.(isr := Command(p, v).isr)
    ensures v / 8 % 4 == 1 ==>
              Command(p, v) == if v < 128 && v % 4 == 2 then p.(readIrr := true)
                               else if v < 128 && v % 4 == 3 then p.(readIrr := false)
                               else p
  {
    hide Pow2;
    LowPowers();
    assert v / 8 / 2 == v / 16;
    var top := First(p.isr, 0);
    forall i: nat | v / 8 % 4 == 0 && v / 32 == 1
      ensures i in Command(p, v).isr <==> i in p.isr && exists j :: 0 <= j < i && j in p.isr
    {
      if top < i { assert i in p.isr ==> top in p.isr; }
    }
  }

  // The two bytes that set up the controller, and the end-of-interrupt bytes.
  lemma VectorBase(p: PicState, v: byte)
    requires p.mode == Icw2
    ensures Data(p, v) == p.(base := v - v % 8, mode := Icw4)
    ensures Data(Data(p, v), 1) == p.(base := v - v % 8, mode := Idle)
  {
    DivModDef(v, 8);
  }

  // ---- The controller ----

  class Controller {
    var irr: set<nat>
    var isr: set<nat>
    var mask: set<nat>
    var base: Base
    var mode: Mode
    var readIrr: bool

    ghost function View(): PicState
      reads this
    {
      PicState(irr, isr, mask, base, mode, readIrr)
    }

    // The vector base has no initial value in the source; it is a parameter here.
    constructor (firstBase: Base)
      ensures View() == PicState({}, {}, {}, firstBase, Idle, true) && View().Valid()
    {
      irr, isr, mask, base, mode, readIrr := {}, {}, {}, firstBase, Idle, true;
    }

    // The result is the vector passed to the CPU's raise_irq, if it is called.
    method RaiseIrq(line: nat) returns (signal: Option<byte>)
      requires View().Valid() && line < LINES
      modifies this`irr
      ensures (View(), signal) == Raised(old(View()), line)
      ensures View().Valid()
    {
      if line in mask { return None; }
      irr := irr + {line};
      var i := 0;
      while i < LINES
        invariant i <= LINES
        invariant forall j :: 0 <= j < i ==> j !in isr && j !in irr
      {
        if i in isr {
          assert First(isr, 0) == i <= First(irr, 0);
          return None;
        }
        if i in irr {
          assert First(irr, 0) == i < First(isr, 0);
          return Some(base + i);
        }
        i := i + 1;
      }
      signal := None;
    }

    // The shift by vector - base is defined in C++ for 0 to 31; from 8 on it leaves the byte.
    method IntaHandler(vector: byte)
      requires base <= vector < base + 32
      modifies this`irr, this`isr
      ensures View() == Acknowledged(old(View()), vector)
    {
      var bit := {vector - base};
      isr := isr + (if vector - base < LINES then bit else {});
      irr := irr - (if vector - base < LINES then bit else {});
    }

    method EndOfInterrupt(v: byte)
      requires View().Valid()
      modifies this`isr
      ensures View() == Ocw2(old(View()), v)
    {
      if v / 32 == 1 {
        var i := 0;
        while i < LINES
          invariant i <= LINES && isr == old(isr)
          invariant forall j :: 0 <= j < i ==> j !in isr
        {
          if i in isr {
            assert First(isr, 0) == i;
            isr := isr - {i};
            return;
          }
          i := i + 1;
        }
        assert isr - {First(isr, 0)} == isr;
      } else if v / 32 == 3 {
        isr := isr - {v % 8};
      }
    }

    method WriteCommand(v: byte)
      requires View().Valid() && CommandAllowed(v)
      modifies this
      ensures View() == Command(old(View()), v)
    {
      if IsIcw1(v) {
        mode := Icw2;
      } else if IsOcw2(v) {
        EndOfInterrupt(v);
      } else if IsOcw3(v) {
        if v % 4 == 2 {
          readIrr := true;
        } else if v % 4 == 3 {
          readIrr := false;
        }
      }
    }

    method ReadCommand() returns (v: byte)
      ensures v == if readIrr then ByteOf(irr) else ByteOf(isr)
    {
      v := if readIrr then ByteOf(irr) else ByteOf(isr);
    }

    method ReadData() returns (v: byte)
      ensures v == ByteOf(mask)
    {
      v := ByteOf(mask);
    }

    method WriteData(v: byte)
      requires mode == Icw4 ==> v == 1
      modifies this
      ensures View() == Data(old(View()), v)
      ensures old(mode) == Idle ==> ByteOf(mask) == v
    {
      LinesRoundTrip(v);
      match mode
      case Icw2 =>
        base := v / 8 * 8;
        mode := Icw4;
      case Icw4 => mode := Idle;
      case Idle => mask := Lines(v);
    }
  }
}
