// The flags register (sim/common/RegisterFile.h, RegisterFile.cpp). Of its 16 bits only the
// nine named flags vary; bit 1 and bits 12 to 15 read as one (FLAGS_STUCK_BITS in the default
// build), bits 3 and 5 as zero.
module Flags {
  import opened Words

  datatype Flags = Flags(cf: bool, pf: bool, af: bool, zf: bool, sf: bool, tf: bool, ief: bool, df: bool, of: bool)

  const WORD_BITS: nat := 16

  const NO_FLAGS := Flags(false, false, false, false, false, false, false, false, false)

  const ALL_FLAGS := Flags(true, true, true, true, true, true, true, true, true)

  // OF | SF | ZF | AF | CF | PF
  const ARITHMETIC := ALL_FLAGS.(tf := false, ief := false, df := false)

  // IF | TF
  const IF_TF := NO_FLAGS.(ief := true, tf := true)

  // RegisterFile::set_flags: the flags in mask take their value from val.
  function SetFlags(flags: Flags, val: Flags, mask: Flags): Flags {
    Flags(if mask.cf then val.cf else flags.cf,
          if mask.pf then val.pf else flags.pf,
          if mask.af then val.af else flags.af,
          if mask.zf then val.zf else flags.zf,
          if mask.sf then val.sf else flags.sf,
          if mask.tf then val.tf else flags.tf,
          if mask.ief then val.ief else flags.ief,
          if mask.df then val.df else flags.df,
          if mask.of then val.of else flags.of)
  }

  // The 16 bits as stored, from CF at bit 0 to the stuck bits at the top.
  function FlagBits(f: Flags): seq<bool> {
    [f.cf, true, f.pf, false, f.af, false, f.zf, f.sf, f.tf, f.ief, f.df, f.of, true, true, true, true]
  }

  // RegisterFile::get_flags, the word that a push or an interrupt entry stores.
  function FlagWord(f: Flags): word {
    ToFromBits(FlagBits(f));
    Pow2Of16();
    FromBits(FlagBits(f))
  }

  function FlagsOfBits(b: seq<bool>): Flags
    requires |b| == WORD_BITS
  {
    Flags(b[0], b[2], b[4], b[6], b[7], b[8], b[9], b[10], b[11])
  }

  // The named flags of a word that set_flags takes from a pop or an IRET.
  function FromWord(v: word): Flags {
    FlagsOfBits(ToBits(v, WORD_BITS))
  }

  lemma FlagBitsRead(f: Flags)
    ensures FlagsOfBits(FlagBits(f)) == f
  {
  }

  // What an IRET or a POPF stores is what was pushed.
  lemma FlagWordRoundTrip(f: Flags)
    ensures FromWord(FlagWord(f)) == f
  {
    ToFromBits(FlagBits(f));
    FlagBitsRead(f);
  }

  lemma AllFlagsSet(flags: Flags, val: Flags)
    ensures SetFlags(flags, val, ALL_FLAGS) == val
  {
  }

  lemma {:induction false} BitAt(x: nat, n: nat, k: nat)
    requires k < n
    ensures ToBits(x, n)[k] <==> x / Pow2(k) % 2 == 1
    decreases k
  {
    if k > 0 {
      BitAt(x / 2, n - 1, k - 1);
      DivDiv(x, 2, Pow2(k - 1));
    }
  }

  lemma FlagPowers()
    ensures Pow2(0) == 1 && Pow2(2) == 4 && Pow2(4) == 16 && Pow2(6) == 64 && Pow2(7) == 128
    ensures Pow2(8) == 256 && Pow2(9) == 512 && Pow2(10) == 1024 && Pow2(11) == 2048
  {
    assert Pow2(4) == 16;
    assert Pow2(8) == 256;
  }

  // The places of the nine flags in a word that is popped.
  lemma FlagPlaces(v: word)
    ensures var f := FromWord(v);
            && (f.cf <==> v % 2 == 1) && (f.pf <==> v / 4 % 2 == 1) && (f.af <==> v / 16 % 2 == 1)
            && (f.zf <==> v / 64 % 2 == 1) && (f.sf <==> v / 128 % 2 == 1) && (f.tf <==> v / 256 % 2 == 1)
            && (f.ief <==> v / 512 % 2 == 1) && (f.df <==> v / 1024 % 2 == 1) && (f.of <==> v / 2048 % 2 == 1)
  {
    hide ToBits, Pow2;
    FlagPowers();
    BitAt(v, 16, 0);
    BitAt(v, 16, 2);
    BitAt(v, 16, 4);
    BitAt(v, 16, 6);
    BitAt(v, 16, 7);
    BitAt(v, 16, 8);
    BitAt(v, 16, 9);
    BitAt(v, 16, 10);
    BitAt(v, 16, 11);
    assert v / 1 == v;
  }

  lemma NextBit(b: seq<bool>, k: nat)
    requires k < |b|
    ensures FromBits(b[k..]) == BoolToInt(b[k]) + 2 * FromBits(b[k + 1..])
  {
    assert b[k..][1..] == b[k + 1..];
  }

  lemma EightBits(b: seq<bool>, k: nat)
    requires k + 8 <= |b|
    ensures FromBits(b[k..]) == BoolToInt(b[k]) + 2 * BoolToInt(b[k + 1]) + 4 * BoolToInt(b[k + 2])
                                + 8 * BoolToInt(b[k + 3]) + 16 * BoolToInt(b[k + 4]) + 32 * BoolToInt(b[k + 5])
                                + 64 * BoolToInt(b[k + 6]) + 128 * BoolToInt(b[k + 7]) + 256 * FromBits(b[k + 8..])
  {
    hide FromBits, BoolToInt;
    NextBit(b, k);
    NextBit(b, k + 1);
    NextBit(b, k + 2);
    NextBit(b, k + 3);
    NextBit(b, k + 4);
    NextBit(b, k + 5);
    NextBit(b, k + 6);
    NextBit(b, k + 7);
  }

  lemma OneAndZero()
    ensures BoolToInt(true) == 1 && BoolToInt(false) == 0
  {
  }

  lemma LowByte(f: Flags)
    ensures |FlagBits(f)| == 16
    ensures FromBits(FlagBits(f)[0..]) == BoolToInt(f.cf) + 2 + 4 * BoolToInt(f.pf) + 16 * BoolToInt(f.af)
                                          + 64 * BoolToInt(f.zf) + 128 * BoolToInt(f.sf) + 256 * FromBits(FlagBits(f)[8..])
  {
    hide FromBits, BoolToInt;
    OneAndZero();
    EightBits(FlagBits(f), 0);
  }

  lemma HighByte(f: Flags)
    ensures |FlagBits(f)| == 16
    ensures FromBits(FlagBits(f)[8..]) == BoolToInt(f.tf) + 2 * BoolToInt(f.ief) + 4 * BoolToInt(f.df)
                                          + 8 * BoolToInt(f.of) + 240 + 256 * FromBits(FlagBits(f)[16..])
  {
    hide FromBits, BoolToInt;
    OneAndZero();
    EightBits(FlagBits(f), 8);
  }

  lemma WholeWord(f: Flags)
    ensures |FlagBits(f)| == 16 && FlagWord(f) == FromBits(FlagBits(f)[0..]) && FromBits(FlagBits(f)[16..]) == 0
  {
    assert FlagBits(f)[0..] == FlagBits(f);
    assert FlagBits(f)[16..] == [];
  }

  // The word that is pushed, bit by bit.
  lemma FlagWordWritten(f: Flags)
    ensures FlagWord(f) == 0xf002 + BoolToInt(f.cf) + 4 * BoolToInt(f.pf) + 16 * BoolToInt(f.af) + 64 * BoolToInt(f.zf)
                           + 128 * BoolToInt(f.sf) + 256 * BoolToInt(f.tf) + 512 * BoolToInt(f.ief)
                           + 1024 * BoolToInt(f.df) + 2048 * BoolToInt(f.of)
  {
    hide FromBits, BoolToInt, FlagWord, FlagBits;
    LowByte(f);
    HighByte(f);
    WholeWord(f);
  }
}
