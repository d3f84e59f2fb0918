// The BIOS driver of the SD card (bios/sd.c), talking to the card one byte at a time through
// one buffer that it sends from and receives into.
module SdDriver {
  import opened Words
  import opened SdCard
  import opened SdExchange

  const SPI_CONTROL_PORT: nat := 0

  const SPI_TRANSFER_PORT: nat := 2

  datatype SpiCmd = SpiCmd(cmd: byte, arg: seq<byte>, crc: byte, rxDatalen: nat)

  // The byte that n bytes of disk from pos leave at distance d from the start: the last one
  // to reach it, if any does. n is less than two laps of the segment.
  function Delivered(disk: seq<byte>, pos: nat, n: nat, d: nat, before: byte): byte
    requires pos + n <= |disk|
  {
    if d + 0x1_0000 < n then disk[pos + d + 0x1_0000] else if d < n then disk[pos + d] else before
  }

  // How far offset i lies above daddr in a 64 KB segment.
  function Distance(daddr: word, i: int): nat
    requires 0 <= i < 0x1_0000
  {
    if i >= daddr then i - daddr else i + 0x1_0000 - daddr
  }

  // A segment that was ram0 after n bytes from pos were read to daddr.
  ghost predicate HoldsSectors(ram: seq<byte>, ram0: seq<byte>, disk: seq<byte>, pos: nat, n: nat, daddr: word)
    requires pos + n <= |disk|
  {
    && |ram| == |ram0| == 0x1_0000
    && forall j :: 0 <= j < 0x1_0000 ==> ram[j] == Delivered(disk, pos, n, Distance(daddr, j), ram0[j])
  }

  lemma DistanceReduces(daddr: word, i: int)
    requires 0 <= i < 0x1_0000
    ensures Distance(daddr, i) == (i - daddr) % 0x1_0000
  {
    DivModUnique(i - daddr, 0x1_0000, if i >= daddr then 0 else -1, Distance(daddr, i));
  }

  lemma DistanceBack(daddr: word, k: nat)
    requires k < 0x1_0000
    ensures 0 <= (daddr + k) % 0x1_0000 < 0x1_0000 && Distance(daddr, (daddr + k) % 0x1_0000) == k
  {
    var i := if daddr + k < 0x1_0000 then daddr + k else daddr + k - 0x1_0000;
    DivModUnique(daddr + k, 0x1_0000, if daddr + k < 0x1_0000 then 0 else 1, i);
  }

  // Byte k of a block that goes to daddr is at offset daddr + k modulo 64 K, and no other offset
  // has changed.
  lemma Landed(after: seq<byte>, was: seq<byte>, block: seq<byte>, daddr: word)
    requires |after| == |was| == 0x1_0000 && |block| <= 0x1_0000
    requires forall i :: 0 <= i < 0x1_0000 ==>
               after[i] == if Distance(daddr, i) < |block| then block[Distance(daddr, i)] else was[i]
    ensures seq(|block|, k requires 0 <= k < |block| => after[(daddr + k) % 0x1_0000]) == block
    ensures forall i :: 0 <= i < 0x1_0000 && (i - daddr) % 0x1_0000 >= |block| ==> after[i] == was[i]
  {
    hide Distance;
    forall k | 0 <= k < |block| ensures after[(daddr + k) % 0x1_0000] == block[k] {
      DistanceBack(daddr, k);
    }
    forall i | 0 <= i < 0x1_0000 && (i - daddr) % 0x1_0000 >= |block| ensures after[i] == was[i] {
      DistanceReduces(daddr, i);
    }
  }

  lemma SameOffset(daddr: word, x: nat, d: nat)
    requires x == d || x == d + 0x1_0000
    ensures (daddr + x) % 0x1_0000 == (daddr + d) % 0x1_0000
  {
    DivModDef(daddr + d, 0x1_0000);
    DivModUnique(daddr + x, 0x1_0000, (daddr + d) / 0x1_0000 + (if x == d then 0 else 1), (daddr + d) % 0x1_0000);
  }

  // Byte x of a read of several sectors, when no byte that comes a lap later overwrites it.
  lemma SectorByteLanded(after: seq<byte>, was: seq<byte>, disk: seq<byte>, pos: nat, n: nat, daddr: word, x: nat)
    requires pos + n <= |disk| && HoldsSectors(after, was, disk, pos, n, daddr)
    requires x < n < 0x2_0000 && n <= x + 0x1_0000
    ensures after[(daddr + x) % 0x1_0000] == disk[pos + x]
  {
    hide Distance;
    var d := if x < 0x1_0000 then x else x - 0x1_0000;
    SameOffset(daddr, x, d);
    DistanceBack(daddr, d);
  }

  lemma SectorsKeepRest(after: seq<byte>, was: seq<byte>, disk: seq<byte>, pos: nat, n: nat, daddr: word)
    requires pos + n <= |disk| && HoldsSectors(after, was, disk, pos, n, daddr)
    ensures forall i :: 0 <= i < 0x1_0000 && (i - daddr) % 0x1_0000 >= n ==> after[i] == was[i]
  {
    hide Distance;
    forall i | 0 <= i < 0x1_0000 && (i - daddr) % 0x1_0000 >= n ensures after[i] == was[i] {
      DistanceReduces(daddr, i);
    }
  }

  // The bytes of a read of several sectors: of more than one lap the last 64 K stay.
  lemma SectorsLanded(after: seq<byte>, was: seq<byte>, disk: seq<byte>, pos: nat, n: nat, daddr: word)
    requires pos + n <= |disk| && n < 0x2_0000 && |after| == 0x1_0000 && HoldsSectors(after, was, disk, pos, n, daddr)
    ensures var lost := if n > 0x1_0000 then n - 0x1_0000 else 0;
            seq(n - lost, k requires 0 <= k < n - lost => after[(daddr + lost + k) % 0x1_0000])
            == disk[pos + lost..pos + n]
  {
    hide HoldsSectors;
    var lost := if n > 0x1_0000 then n - 0x1_0000 else 0;
    var block := disk[pos + lost..pos + n];
    forall k | 0 <= k < n - lost ensures after[(daddr + lost + k) % 0x1_0000] == block[k] {
      SectorByteLanded(after, was, disk, pos, n, daddr, lost + k);
      assert daddr + lost + k == daddr + (lost + k);
    }
  }

  lemma HoldsNothing(ram: seq<byte>, disk: seq<byte>, pos: nat, daddr: word)
    requires pos <= |disk| && |ram| == 0x1_0000
    ensures HoldsSectors(ram, ram, disk, pos, 0, daddr)
  {
  }

  lemma NextSectorAt(disk: seq<byte>, pos: nat, n: nat, daddr: word, dst: word, j: nat, before: byte)
    requires j < 0x1_0000 && n + 512 < 0x2_0000 && pos + n + 512 <= |disk| && dst == (daddr + n) % 0x1_0000
    ensures Delivered(disk, pos, n + 512, Distance(daddr, j), before)
            == if Distance(dst, j) < 512 then disk[pos + n + Distance(dst, j)]
               else Delivered(disk, pos, n, Distance(daddr, j), before)
  {
    var d, e := Distance(daddr, j), Distance(dst, j);
    DivModDef(daddr + n, 0x1_0000);
    assert e < 512 ==> n + e == d || n + e == d + 0x1_0000;
  }

  lemma NextSector(ram: seq<byte>, before: seq<byte>, ram0: seq<byte>, disk: seq<byte>, pos: nat, n: nat,
                   daddr: word, dst: word)
    requires n + 512 < 0x2_0000 && pos + n + 512 <= |disk| && dst == (daddr + n) % 0x1_0000
    requires HoldsSectors(before, ram0, disk, pos, n, daddr) && |ram| == 0x1_0000
    requires forall j :: 0 <= j < 0x1_0000 ==>
               ram[j] == if Distance(dst, j) < 512 then disk[pos + n + Distance(dst, j)] else before[j]
    ensures HoldsSectors(ram, ram0, disk, pos, n + 512, daddr)
  {
    forall j | 0 <= j < 0x1_0000
      ensures ram[j] == Delivered(disk, pos, n + 512, Distance(daddr, j), ram0[j])
    {
      NextSectorAt(disk, pos, n, daddr, dst, j, ram0[j]);
    }
  }

  lemma IdleRun(c: Card, tx: seq<byte>, n: nat) returns (run: seq<Card>)
    requires Ready(c) && forall k :: 0 <= k < |tx| ==> tx[k] == 0xff
    ensures IsRun(run, c, tx) && |run| == n + 1
    ensures forall t :: 1 <= t <= n ==> run[t] == c.(doWrite := false, rxVal := 0xff)
    ensures run[0] == c
  {
    run := RunExists(c, tx, n);
    forall t | 1 <= t <= n
      ensures run[t] == c.(doWrite := false, rxVal := 0xff)
    {
      StaysIdle(c, tx, t);
    }
  }

  // The data-accepted token of the packet response.
  predicate WriteReceived(packetResponse: byte) {
    packetResponse % 2 == 1 && packetResponse / 2 % 8 == 2
  }

  // The 512 bytes at saddr in a segment, whose offsets wrap.
  function Fetched(ram: seq<byte>, saddr: word): (s: seq<byte>)
    requires |ram| == 0x1_0000
    ensures |s| == 512
  {
    seq<byte>(512, k requires 0 <= k < 512 => ram[if saddr + k < 0x1_0000 then saddr + k else saddr + k - 0x1_0000])
  }

  lemma FetchedFrom(ram: seq<byte>, saddr: word)
    requires |ram| == 0x1_0000
    ensures Fetched(ram, saddr) == seq(512, k requires 0 <= k < 512 => ram[(saddr + k) % 0x1_0000])
  {
    forall k | 0 <= k < 512 ensures Fetched(ram, saddr)[k] == ram[(saddr + k) % 0x1_0000] {
      DivModUnique(saddr + k, 0x1_0000, if saddr + k < 0x1_0000 then 0 else 1,
                   if saddr + k < 0x1_0000 then saddr + k else saddr + k - 0x1_0000);
    }
  }

  // The data lies at pos, and the rest of the image is as it was.
  lemma Patched(disk: seq<byte>, pos: nat, data: seq<byte>)
    requires pos + |data| <= |disk|
    ensures var d := Patch(disk, pos, data);
            && |d| == |disk| && d[pos..pos + |data|] == data
            && d[..pos] == disk[..pos] && d[pos + |data|..] == disk[pos + |data|..]
  {
  }

  lemma BlockRun(c: Card, tx: seq<byte>) returns (run: seq<Card>)
    requires Awaiting(c) && BlockFrame(tx)
    ensures IsRun(run, c, tx) && |run| == 514 + 517 + 1
    ensures forall t :: 1 <= t <= 514 ==> run[t].rxVal == 0xff
    ensures run[515].rxVal == 0xaa && run[|run| - 1] == Written(c, tx)
  {
    run := RunExists(c, tx, 514 + 517);
    forall t | 1 <= t <= 515
      ensures run[t].rxVal == if t <= 514 then 0xff else 0xaa
    {
      BlockAnswer(c, tx, t - 1);
    }
    BlockSettles(c, tx, 514 + 517);
  }

  // The byte address that a sector number stands for on the bus.
  function SectorAddress(sector: dword, sdhc: bool): dword {
    if sdhc then sector else sector * 512 % 0x1_0000_0000
  }

  function BigEndian(a: dword): (s: seq<byte>)
    ensures |s| == 4
  {
    [a / 0x100_0000, a / 0x1_0000 % 0x100, a / 0x100 % 0x100, a % 0x100]
  }

  // The most significant byte of an address goes first, on both sides of the bus.
  lemma AddressBytes(cmd: byte, a: byte, b: byte, c: byte, d: byte)
    ensures Address([cmd, a, b, c, d]) == ((a * 0x100 + b) * 0x100 + c) * 0x100 + d
    ensures BigEndian(((a * 0x100 + b) * 0x100 + c) * 0x100 + d) == [a, b, c, d]
  {
    var x := ((a * 0x100 + b) * 0x100 + c) * 0x100 + d;
    DivModUnique(x, 0x100, (a * 0x100 + b) * 0x100 + c, d);
    DivModUnique((a * 0x100 + b) * 0x100 + c, 0x100, a * 0x100 + b, c);
    DivModUnique(a * 0x100 + b, 0x100, a, b);
    DivDiv(x, 0x100, 0x100);
    DivDiv(x, 0x1_0000, 0x100);
  }

  lemma BigEndianAddress(cmd: byte, a: dword)
    ensures Address([cmd] + BigEndian(a)) == a
  {
    DivDiv(a, 0x100, 0x100);
    DivDiv(a, 0x1_0000, 0x100);
  }

  function AnswerTo(cmd: SpiCmd, disk: seq<byte>): seq<byte>
    requires |cmd.arg| == 4 && Known(cmd.cmd)
  {
    Response([cmd.cmd] + cmd.arg, disk)
  }

  // The answer to a read: R1 third, the start token fifth, then the block.
  lemma ReadAnswer(address: dword, disk: seq<byte>)
    requires address + 512 <= |disk|
    ensures var answer := AnswerTo(SpiCmd(0x51, BigEndian(address), 0, 1028), disk);
            && |answer| == 519 && answer[2] == 0x00 && answer[3] == 0xff && answer[4] == 0xfe
            && forall t :: 5 <= t < 517 ==> answer[t] == disk[address + t - 5]
  {
    BigEndianAddress(0x51, address);
    var answer := AnswerTo(SpiCmd(0x51, BigEndian(address), 0, 1028), disk);
    assert answer[5..517] == Block(disk, address);
    forall t | 5 <= t < 517
      ensures answer[t] == disk[address + t - 5]
    {
      assert answer[t] == answer[5..517][t - 5] == DiskByte(disk, address + (t - 5));
    }
  }

  function CommandLen(cmd: SpiCmd): nat {
    1 + 6 + cmd.rxDatalen + 8
  }

  // What spi_do_command puts in the transmit buffer.
  function Frame(cmd: SpiCmd): (tx: seq<byte>)
    requires |cmd.arg| == 4 && Known(cmd.cmd) && cmd.rxDatalen > 0
    ensures |tx| == CommandLen(cmd) && CommandFrame(tx)
  {
    [0xff, cmd.cmd] + cmd.arg + [cmd.crc] + seq<byte>(cmd.rxDatalen + 8, _ => 0xff)
  }

  // The command is one the card knows and leaves room for its whole answer.
  ghost predicate WellFormed(cmd: SpiCmd, disk: seq<byte>) {
    && |cmd.arg| == 4 && Known(cmd.cmd) && cmd.rxDatalen > 0
    && |AnswerTo(cmd, disk)| < CommandLen(cmd) <= 1280
  }

  // Commands leave the disk alone and the card ready; a write command leaves it waiting.
  lemma CommandSettles(c: Card, cmd: SpiCmd)
    requires Ready(c) && c.controlReg == 1 && WellFormed(cmd, c.disk)
    ensures var c' := Settled(c, Frame(cmd));
            && c'.disk == c.disk && c'.controlReg == 1
            && (cmd.cmd != 0x58 ==> Ready(c'))
            && (cmd.cmd == 0x58 ==> Waiting(c', Address([cmd.cmd] + cmd.arg)))
  {
    var mosi := Frame(cmd)[1..8];
    assert forall k :: 0 <= k < 5 ==> mosi[k] == ([cmd.cmd] + cmd.arg)[k];
  }

  lemma ChipSelected()
    ensures !Bit(1, 9)
  {
    assert Pow2(9) == 512;
  }

  lemma AnswerOfFrame(c: Card, cmd: SpiCmd)
    requires |cmd.arg| == 4 && Known(cmd.cmd) && cmd.rxDatalen > 0
    ensures Queued(c, Frame(cmd)).miso == AnswerTo(cmd, c.disk)
  {
    var mosi := Frame(cmd)[1..8];
    assert forall k :: 0 <= k < 5 ==> mosi[k] == ([cmd.cmd] + cmd.arg)[k];
  }

  // The exchange of a command frame: eight idle answers, then the answer to the command.
  lemma CommandRun(c: Card, cmd: SpiCmd) returns (run: seq<Card>, first: nat)
    requires Ready(c) && c.controlReg == 1 && WellFormed(cmd, c.disk)
    ensures var tx, answer, i := Frame(cmd), AnswerTo(cmd, c.disk), FirstIndex(cmd.cmd);
            && IsRun(run, c, tx) && first == 8 + i && |run| == first + |tx| + 1
            && run[first + 1].rxVal != 0xff
            && (forall t :: 1 <= t <= first ==> run[t].rxVal == 0xff)
            && (forall t :: first < t < |run| ==> run[t].rxVal == Padded(answer, i + t - first - 1))
            && run[|run| - 1] == Settled(c, tx)
  {
    var tx, answer, i := Frame(cmd), AnswerTo(cmd, c.disk), FirstIndex(cmd.cmd);
    first := 8 + i;
    run := RunExists(c, tx, first + |tx|);
    ChipSelected();
    AnswerOfFrame(c, cmd);
    FirstIndexIsFirst([cmd.cmd] + cmd.arg, c.disk);
    forall t | 1 <= t < |run|
      ensures run[t].rxVal == if t <= 8 then 0xff else Padded(answer, t - 9)
    {
      CommandAnswer(c, tx, t - 1);
    }
    Settle(c, tx, first + |tx| - 9 - |answer|);
  }

  lemma NextAddress(daddr: word, i: nat)
    ensures ((daddr + 512 * i) % 0x1_0000 + 512) % 0x1_0000 == (daddr + 512 * (i + 1)) % 0x1_0000
  {
    ModSum(daddr + 512 * i, 512);
  }

  lemma ByteAddress(sector: dword)
    requires sector * 512 < 0x1_0000_0000
    ensures SectorAddress(sector, false) == sector * 512 == sector * 512 % 0x1_0000_0000
  {
  }

  // What a read of sector b finds after data was written to sector a.
  lemma WrittenSectorReadsBack(disk: seq<byte>, data: seq<byte>, a: nat, b: nat)
    requires |data| == 512 && a * 512 + 512 <= |disk| && b * 512 + 512 <= |disk|
    ensures Patch(disk, a * 512, data)[b * 512..b * 512 + 512]
            == if a == b then data else disk[b * 512..b * 512 + 512]
  {
    if a < b {
      MulLe(a + 1, b, 512);
    } else if b < a {
      MulLe(b + 1, a, 512);
    }
  }

  // How many answers a waiting exchange has stored after t steps: it begins with the first that
  // is not 0xff.
  ghost function StoredAfter(c: Card, tx: seq<byte>, t: nat): nat {
    if t == 0 then 0
    else
      var n := StoredAfter(c, tx, t - 1);
      if n > 0 || Answer(c, tx, t - 1) != 0xff then n + 1 else n
  }

  lemma StoredStarts(c: Card, tx: seq<byte>)
    ensures StoredAfter(c, tx, 0) == 0
  {
  }

  lemma StoredNext(run: seq<Card>, c: Card, tx: seq<byte>, t: nat)
    requires IsRun(run, c, tx) && t < |run| - 1
    ensures var n := StoredAfter(c, tx, t);
            StoredAfter(c, tx, t + 1) == if n > 0 || run[t + 1].rxVal != 0xff then n + 1 else n
  {
    RunIsAfter(run, c, tx, t + 1);
  }

  lemma {:induction false} StoresFrom(c: Card, tx: seq<byte>, first: nat, n: nat)
    requires Answer(c, tx, first) != 0xff
    ensures n > 0 ==> StoredAfter(c, tx, first + n) >= n
  {
    hide Answer;
    if n > 1 { StoresFrom(c, tx, first, n - 1); }
  }

  lemma {:induction false} StoresNothing(c: Card, tx: seq<byte>, t: nat)
    requires forall k: nat :: Answer(c, tx, k) == 0xff
    ensures StoredAfter(c, tx, t) == 0
  {
    hide Answer;
    if t > 0 { StoresNothing(c, tx, t - 1); }
  }

  // The steps an exchange takes: all bytes are sent, or len answers stored from the first
  // one that is not 0xff.
  ghost predicate Awaits(run: seq<Card>, len: nat, waitForResp: bool, first: nat) {
    && len > 0
    && (waitForResp ==> |run| == first + len + 1 && run[first + 1].rxVal != 0xff)
    && (!waitForResp ==> |run| == len + 1 && (first >= len || run[first + 1].rxVal != 0xff))
    && forall t :: 1 <= t <= first && t < |run| ==> run[t].rxVal == 0xff
  }

  // The answer that ends the silence of the first t + 1 steps.
  lemma FirstAnswer(c: Card, tx: seq<byte>, t: nat) returns (first: nat)
    requires Answer(c, tx, t) != 0xff
    ensures first <= t && Answer(c, tx, first) != 0xff && forall k :: 0 <= k < first ==> Answer(c, tx, k) == 0xff
  {
    hide Answer;
    first := 0;
    while Answer(c, tx, first) == 0xff
      invariant first <= t && forall k :: 0 <= k < first ==> Answer(c, tx, k) == 0xff
      decreases t - first
    {
      first := first + 1;
    }
  }

  // If the card ever answers, the exchange has a run that SpiXfer can follow to its end.
  lemma WaitRun(c: Card, tx: seq<byte>, len: nat) returns (run: seq<Card>, first: nat)
    requires len > 0 && Answers(c, tx)
    ensures IsRun(run, c, tx) && Awaits(run, len, true, first)
  {
    var t: nat :| Answer(c, tx, t) != 0xff;
    first := FirstAnswer(c, tx, t);
    run := RunExists(c, tx, first + len);
    forall t | 1 <= t <= first ensures run[t].rxVal == 0xff {
      assert Answer(c, tx, t - 1) == 0xff;
    }
  }

  lemma StoresIffAnswers(c: Card, tx: seq<byte>, len: nat)
    requires len > 0
    ensures (exists t: nat :: StoredAfter(c, tx, t) >= len) <==> Answers(c, tx)
  {
    hide Answer, StoredAfter;
    if first: nat :| Answer(c, tx, first) != 0xff {
      StoresFrom(c, tx, first, len);
    } else if t: nat :| StoredAfter(c, tx, t) >= len {
      StoresNothing(c, tx, t);
    }
  }

  // An exchange that waits for len answers of a card between commands comes to an end if and
  // only if the card is selected and some byte to be sent is not 0xff.
  lemma WaitEndsIff(c: Card, tx: seq<byte>, len: nat)
    requires len > 0 && Ready(c)
    ensures (exists t: nat :: StoredAfter(c, tx, t) >= len)
            <==> !Bit(c.controlReg, 9) && exists k :: 0 <= k < |tx| && tx[k] != 0xff
  {
    StoresIffAnswers(c, tx, len);
    ReadyAnswersIff(c, tx);
  }

  // With a card that waits for the block of a write, if and only if the start token is sent.
  lemma BlockWaitEndsIff(c: Card, tx: seq<byte>, len: nat)
    requires len > 0 && c.state == WaitForData
    ensures (exists t: nat :: StoredAfter(c, tx, t) >= len) <==> 0xfe in tx
  {
    StoresIffAnswers(c, tx, len);
    WaitingAnswersIff(c, tx);
  }

  // wait_for_write_completion sends one 0xff at a time and waits for the answer. The card that
  // has just taken a block is between commands and never gives one.
  lemma CompletionPollHangs(c: Card, block: seq<byte>, t: nat)
    requires Awaiting(c) && BlockFrame(block)
    ensures Ready(Written(c, block)) && Answer(Written(c, block), [0xff], t) == 0xff
    ensures StoredAfter(Written(c, block), [0xff], t) < 1
  {
    hide Answer, StoredAfter;
    WaitEndsIff(Written(c, block), [0xff], 1);
    ReadyAnswersIff(Written(c, block), [0xff]);
  }

  class Driver {
    const card: SpiCard
    const spiXferBuf: array<byte>
    var sdIsSdhc: bool

    ghost predicate Valid()
      reads this
    {
      spiXferBuf.Length == 1280
    }

    constructor (card: SpiCard)
      ensures Valid() && this.card == card && !sdIsSdhc && fresh(spiXferBuf)
    {
      this.card := card;
      spiXferBuf := new byte[1280](i => 0);
      sdIsSdhc := false;
    }

    // Wait until the busy bit, bit 8 of the transfer port, is clear: the card never sets it.
    method SpiWaitIdle()
    {
      var v := card.Read16(SPI_TRANSFER_PORT);
      assert v / 0x100 % 2 == 0;
    }

    // Send one byte and wait for the exchange to end.
    method ClockOut(v: byte, ghost run: seq<Card>, ghost c: Card, ghost tx: seq<byte>, ghost t: nat)
      requires IsRun(run, c, tx) && t < |run| - 1 && card.View() == run[t] && v == Sent(tx, t)
      modifies card
      ensures card.View() == run[t + 1]
    {
      assert IsStep(run, tx, t);
      assert v % 0x100 == v;
      card.Write16(SPI_TRANSFER_PORT, v);
      SpiWaitIdle();
    }

    // Send the first len bytes of the buffer, then 0xff; store the answers from the first that
    // is not 0xff over the same buffer until len are stored, or, when no answer is awaited,
    // until all bytes are sent. The card gets the bytes that the buffer held at first: nothing is
    // overwritten before it is sent.
    method SpiXfer(len: nat, waitForResp: bool, ghost run: seq<Card>, ghost first: nat)
      requires Valid() && 0 < len <= 1280
      requires IsRun(run, card.View(), spiXferBuf[..len]) && Awaits(run, len, waitForResp, first)
      modifies card, spiXferBuf
      ensures card.View() == run[|run| - 1] == After(old(card.View()), old(spiXferBuf[..len]), |run| - 1)
      ensures var stored := if waitForResp then len else if first < len then len - 1 - first else 0;
              && (forall j :: 0 <= j < stored ==> spiXferBuf[j] == run[first + j + 1].rxVal)
              && (forall j :: stored <= j < 1280 ==> spiXferBuf[j] == old(spiXferBuf[j]))
      ensures waitForResp ==> StoredAfter(old(card.View()), old(spiXferBuf[..len]), |run| - 1) == len
    {
      hide IsRun, After, AfterTransfer, Answer, StoredAfter;
      ghost var c, tx := card.View(), spiXferBuf[..len];
      RunStarts(run, c, tx);
      RunIsAfter(run, c, tx, |run| - 1);
      StoredStarts(c, tx);
      ghost var t := 0;
      var src, dst := 0, 0;
      var nonFfByteReceived := false;
      while dst < len
        invariant 0 <= dst <= src <= len && src == (if t < len then t else len)
        invariant dst == if t <= first then 0 else t - first
        invariant if waitForResp then dst == StoredAfter(c, tx, t) else t < len
        invariant t <= |run| - 1 && nonFfByteReceived == (t > first)
        invariant card.View() == run[t]
        invariant forall j :: 0 <= j < dst ==> spiXferBuf[j] == run[first + j + 1].rxVal
        invariant forall j :: dst <= j < 1280 ==> spiXferBuf[j] == old(spiXferBuf[j])
        decreases |run| - t
      {
        var v: byte := 0xff;
        if src < len {
          v := spiXferBuf[src];
          src := src + 1;
        }
        ClockOut(v, run, c, tx, t);
        StoredNext(run, c, tx, t);
        t := t + 1;

        if !waitForResp && src == len {
          break;
        }

        var r := card.Read16(SPI_TRANSFER_PORT);
        var b: byte := r % 0x100;
        if !nonFfByteReceived && b == 0xff {
          continue;
        }
        nonFfByteReceived := true;
        spiXferBuf[dst] := b;
        dst := dst + 1;
      }
    }

    // Send a command and receive its answer from the first byte that is not 0xff.
    method SpiDoCommand(cmd: SpiCmd)
      requires Valid() && Ready(card.View()) && WellFormed(cmd, card.View().disk)
      modifies card, spiXferBuf
      ensures card.View() == Settled(old(card.View()).(controlReg := 1), Frame(cmd))
      ensures card.diskImage == old(card.diskImage)
      ensures cmd.cmd != 0x58 ==> Ready(card.View())
      ensures cmd.cmd == 0x58 ==> Waiting(card.View(), Address([cmd.cmd] + cmd.arg))
      ensures forall j :: 0 <= j < CommandLen(cmd) ==>
                spiXferBuf[j] == Padded(AnswerTo(cmd, old(card.View()).disk), FirstIndex(cmd.cmd) + j)
      ensures forall j :: CommandLen(cmd) <= j < 1280 ==> spiXferBuf[j] == old(spiXferBuf[j])
    {
      var cmdlen := CommandLen(cmd);

      spiXferBuf[0] := 0xff;
      spiXferBuf[1] := cmd.cmd;
      for m := 0 to 4
        invariant card.View() == old(card.View())
        invariant spiXferBuf[0] == 0xff && spiXferBuf[1] == cmd.cmd
        invariant forall j :: 0 <= j < m ==> spiXferBuf[2 + j] == cmd.arg[j]
        invariant forall j :: 6 <= j < 1280 ==> spiXferBuf[j] == old(spiXferBuf[j])
      {
        spiXferBuf[2 + m] := cmd.arg[m];
      }
      spiXferBuf[6] := cmd.crc;
      for m := 7 to cmdlen
        invariant card.View() == old(card.View())
        invariant forall j :: 0 <= j < m ==> spiXferBuf[j] == Frame(cmd)[j]
        invariant forall j :: cmdlen <= j < 1280 ==> spiXferBuf[j] == old(spiXferBuf[j])
      {
        spiXferBuf[m] := 0xff;
      }
      assert spiXferBuf[..cmdlen] == Frame(cmd);

      card.Write16(SPI_CONTROL_PORT, 0x1);
      ghost var c := card.View();
      ghost var run, first := CommandRun(c, cmd);
      SpiXfer(cmdlen, true, run, first);
      CommandSettles(c, cmd);
      forall j | 0 <= j < cmdlen
        ensures spiXferBuf[j] == Padded(AnswerTo(cmd, c.disk), FirstIndex(cmd.cmd) + j)
      {
        assert run[first + j + 1].rxVal == Padded(AnswerTo(cmd, c.disk), FirstIndex(cmd.cmd) + j);
      }
    }

    // The first byte of the buffer that is not 0xff.
    method FindR1Response() returns (i: int, r1: byte)
      requires Valid()
      ensures -1 <= i < 1280
      ensures i == -1 <==> forall k :: 0 <= k < 1280 ==> spiXferBuf[k] == 0xff
      ensures i >= 0 ==> r1 == spiXferBuf[i] != 0xff && forall k :: 0 <= k < i ==> spiXferBuf[k] == 0xff
    {
      r1 := 0;
      i := 0;
      while i < 1280
        invariant 0 <= i <= 1280 && forall k :: 0 <= k < i ==> spiXferBuf[k] == 0xff
      {
        if spiXferBuf[i] != 0xff {
          r1 := spiXferBuf[i];
          return;
        }
        i := i + 1;
      }
      i := -1;
    }

    // The byte after the first data start token behind r1offs. The source tests the token
    // before the bound; the extra read cannot change the result.
    method FindDataStart(r1offs: nat) returns (start: int)
      requires Valid() && r1offs < 1280
      ensures start == -1 <==> forall k :: r1offs < k < 1280 ==> spiXferBuf[k] != 0xfe
      ensures start != -1 ==> r1offs + 1 < start <= 1280 && spiXferBuf[start - 1] == 0xfe
                              && forall k :: r1offs < k < start - 1 ==> spiXferBuf[k] != 0xfe
    {
      var i := r1offs + 1;
      while i < 1280 && spiXferBuf[i] != 0xfe
        invariant r1offs < i <= 1280 && forall k :: r1offs < k < i ==> spiXferBuf[k] != 0xfe
      {
        i := i + 1;
      }
      start := if i == 1280 then -1 else i + 1;
    }

    // memcpy_seg: a block copy into a segment, whose offsets wrap.
    method CopyToSegment(ram: array<byte>, daddr: word, src: nat, len: nat)
      requires Valid() && ram.Length == 0x1_0000 && ram != spiXferBuf && src + len <= 1280
      modifies ram
      ensures forall i :: 0 <= i < 0x1_0000 ==>
                ram[i] == if Distance(daddr, i) < len then spiXferBuf[src + Distance(daddr, i)] else old(ram[i])
    {
      for k := 0 to len
        invariant forall i :: 0 <= i < 0x1_0000 ==>
                    ram[i] == if Distance(daddr, i) < k then spiXferBuf[src + Distance(daddr, i)] else old(ram[i])
      {
        var i := if daddr + k < 0x1_0000 then daddr + k else daddr + k - 0x1_0000;
        ram[i] := spiXferBuf[src + k];
      }
    }

    // The exchange of read_sector: the block at address arrives in the buffer behind the
    // third answer byte.
    method ReceiveBlock(address: dword) returns (dataStart: int)
      requires Valid() && Ready(card.View()) && address + 512 <= |card.diskImage|
      modifies card, spiXferBuf
      ensures Ready(card.View()) && card.diskImage == old(card.diskImage)
      ensures dataStart == 3
      ensures forall j :: 3 <= j < 515 ==> spiXferBuf[j] == card.diskImage[address + j - 3]
    {
      var cmd := SpiCmd(0x51, BigEndian(address), 0, 1 + 1 + 512 + 2 + 512);
      ghost var answer := AnswerTo(cmd, card.diskImage);
      ReadAnswer(address, card.diskImage);
      SpiDoCommand(cmd);
      assert forall j :: 0 <= j < 515 ==> spiXferBuf[j] == answer[2 + j];
      assert spiXferBuf[0] == 0 && spiXferBuf[1] == 0xff && spiXferBuf[2] == 0xfe;
      dataStart := -1;
      var r1offs, r1 := FindR1Response();
      if r1offs >= 0 && r1 / 2 == 0 {
        dataStart := FindDataStart(r1offs);
      }
    }

    // Read one sector into a segment of memory at daddr.
    method ReadSector(sector: dword, ram: array<byte>, daddr: word) returns (rc: int)
      requires Valid() && Ready(card.View()) && ram.Length == 0x1_0000 && ram != spiXferBuf
      requires SectorAddress(sector, sdIsSdhc) + 512 <= |card.diskImage|
      modifies card, spiXferBuf, ram
      ensures rc == 0 && Ready(card.View()) && card.diskImage == old(card.diskImage)
      ensures var a := SectorAddress(sector, sdIsSdhc);
              forall i :: 0 <= i < 0x1_0000 ==>
                ram[i] == if Distance(daddr, i) < 512 then card.diskImage[a + Distance(daddr, i)] else old(ram[i])
      ensures var a: int := if sdIsSdhc then sector else sector * 512 % 0x1_0000_0000;
              var after := ram[..];
              seq(512, k requires 0 <= k < 512 => after[(daddr + k) % 0x1_0000]) == card.diskImage[a..a + 512]
      ensures forall i :: 0 <= i < 0x1_0000 && (i - daddr) % 0x1_0000 >= 512 ==> ram[i] == old(ram[i])
    {
      hide Ready, Distance;
      var address: int := sector;
      if !sdIsSdhc {
        address := address * 512 % 0x1_0000_0000;
      }
      rc := -1;
      var dataStart := ReceiveBlock(address);
      if dataStart >= 0 {
        CopyToSegment(ram, daddr, dataStart, 512);
        rc := 0;
      }
      Landed(ram[..], old(ram[..]), card.diskImage[address..address + 512], daddr);
    }

    method SdMakeWriteRequest(address: dword) returns (rc: int)
      requires Valid() && Ready(card.View())
      modifies card, spiXferBuf
      ensures rc == 0 && card.diskImage == old(card.diskImage) && Waiting(card.View(), address)
    {
      var cmd := SpiCmd(0x58, BigEndian(address), 0, 1);
      BigEndianAddress(0x58, address);
      SpiDoCommand(cmd);
      assert spiXferBuf[0] == Padded([0xff, 0x00, 0xff, 0xff, 0x05], 1) == 0x00;
      var r1offs, r1 := FindR1Response();
      rc := if r1offs < 0 then -1 else if r1 / 2 == 0 then 0 else r1;
    }

    // Send a block of 512 bytes taken from a segment of memory at saddr.
    method SdWriteBlock(ram: array<byte>, saddr: word)
      requires Valid() && Awaiting(card.View()) && ram.Length == 0x1_0000 && ram != spiXferBuf
      modifies card, spiXferBuf
      ensures Ready(card.View())
      ensures card.diskImage == Patch(old(card.diskImage), old(card.diskPos), Fetched(old(ram[..]), saddr))
      ensures var was, a := old(ram[..]), old(card.diskPos);
              && |card.diskImage| == |old(card.diskImage)|
              && card.diskImage[a..a + 512] == seq(512, k requires 0 <= k < 512 => was[(saddr + k) % 0x1_0000])
              && card.diskImage[..a] == old(card.diskImage)[..a]
              && card.diskImage[a + 512..] == old(card.diskImage)[a + 512..]
      ensures spiXferBuf[0] == 0xaa
    {
      ghost var data := Fetched(ram[..], saddr);
      FetchedFrom(ram[..], saddr);
      Patched(card.diskImage, card.diskPos, data);
      spiXferBuf[0] := 0xff;
      spiXferBuf[1] := 0xfe;
      for k := 0 to 512
        invariant card.View() == old(card.View()) && ram[..] == old(ram[..])
        invariant spiXferBuf[0] == 0xff && spiXferBuf[1] == 0xfe
        invariant spiXferBuf[2..2 + k] == data[..k]
      {
        spiXferBuf[2 + k] := ram[if saddr + k < 0x1_0000 then saddr + k else saddr + k - 0x1_0000];
      }
      spiXferBuf[2 + 512] := 0x0;
      spiXferBuf[3 + 512] := 0x0;
      spiXferBuf[4 + 512] := 0xff;

      ghost var c, tx := card.View(), spiXferBuf[..517];
      assert tx[2..514] == spiXferBuf[2..2 + 512] == data;
      ghost var run := BlockRun(c, tx);
      SpiXfer(5 + 512, true, run, 514);
    }

    // Write one sector. The card answers the checksum bytes with 0xaa, and the driver takes the
    // first of them for the packet response, so the block is written and -1 is returned.
    method WriteSector(sector: dword, ram: array<byte>, saddr: word) returns (rc: int)
      requires Valid() && Ready(card.View()) && ram.Length == 0x1_0000 && ram != spiXferBuf
      requires SectorAddress(sector, sdIsSdhc) + 512 <= |card.diskImage|
      modifies card, spiXferBuf
      ensures rc == -1 && Ready(card.View())
      ensures card.diskImage == Patch(old(card.diskImage), SectorAddress(sector, sdIsSdhc), Fetched(old(ram[..]), saddr))
      ensures var was := old(ram[..]);
              var a: int := if sdIsSdhc then sector else sector * 512 % 0x1_0000_0000;
              && |card.diskImage| == |old(card.diskImage)|
              && card.diskImage[a..a + 512] == seq(512, k requires 0 <= k < 512 => was[(saddr + k) % 0x1_0000])
              && card.diskImage[..a] == old(card.diskImage)[..a]
              && card.diskImage[a + 512..] == old(card.diskImage)[a + 512..]
    {
      var address: int := sector;
      if !sdIsSdhc {
        address := address * 512 % 0x1_0000_0000;
      }
      rc := -1;
      var e := SdMakeWriteRequest(address);
      if e == 0 {
        SdWriteBlock(ram, saddr);
        var packetResponse := spiXferBuf[0];
        if WriteReceived(packetResponse) {
          assert false;
        }
      }
    }

    // Write one sector from the segment at saddr, then read one into it at daddr: the same sector
    // gives back what was written, any other is as it was.
    method WriteThenRead(written: dword, saddr: word, read: dword, daddr: word, ram: array<byte>)
      requires Valid() && Ready(card.View()) && ram.Length == 0x1_0000 && ram != spiXferBuf && !sdIsSdhc
      requires written * 512 + 512 <= |card.diskImage| <= 0x1_0000_0000 && read * 512 + 512 <= |card.diskImage|
      modifies card, spiXferBuf, ram
      ensures Ready(card.View())
      ensures var was, after := old(ram[..]), ram[..];
              seq(512, k requires 0 <= k < 512 => after[(daddr + k) % 0x1_0000])
              == if read == written then seq(512, k requires 0 <= k < 512 => was[(saddr + k) % 0x1_0000])
                 else old(card.diskImage)[read * 512..read * 512 + 512]
      ensures forall i :: 0 <= i < 0x1_0000 && (i - daddr) % 0x1_0000 >= 512 ==> ram[i] == old(ram[i])
    {
      hide Ready, SectorAddress, Patch, Fetched, Distance;
      ghost var disk, data := card.diskImage, Fetched(ram[..], saddr);
      ByteAddress(written);
      ByteAddress(read);
      var wrote := WriteSector(written, ram, saddr);
      WrittenSectorReadsBack(disk, data, written, read);
      var rc := ReadSector(read, ram, daddr);
      FetchedFrom(old(ram[..]), saddr);
    }

    // Clear the first bytes of the buffer and clock eight of them into the idle card under the
    // given control word: 0xff bytes change nothing.
    method ClockIdle(control: word, cleared: nat)
      requires Valid() && Ready(card.View()) && 8 <= cleared <= 1280
      modifies card, spiXferBuf
      ensures Ready(card.View()) && card.diskImage == old(card.diskImage)
    {
      for i := 0 to cleared
        invariant card.View() == old(card.View())
        invariant forall j :: 0 <= j < i ==> spiXferBuf[j] == 0xff
      {
        spiXferBuf[i] := 0xff;
      }
      card.Write16(SPI_CONTROL_PORT, control);
      ghost var run := IdleRun(card.View(), spiXferBuf[..8], 8);
      SpiXfer(8, false, run, 8);
    }

    // A command that is answered by R1 alone, or by R1 and data bytes.
    method SendCommand(cmd: SpiCmd) returns (rc: int, r1: byte)
      requires Valid() && Ready(card.View()) && WellFormed(cmd, card.diskImage)
      requires cmd.cmd != 0x51 && cmd.cmd != 0x58
      modifies card, spiXferBuf
      ensures Ready(card.View()) && card.diskImage == old(card.diskImage)
      ensures r1 == AnswerTo(cmd, card.diskImage)[0] && rc == r1 / 2 * 2
      ensures forall j :: 0 <= j < CommandLen(cmd) ==> spiXferBuf[j] == Padded(AnswerTo(cmd, card.diskImage), j)
    {
      SpiDoCommand(cmd);
      assert spiXferBuf[0] == Padded(AnswerTo(cmd, card.diskImage), 0) != 0xff;
      var r1offs;
      r1offs, r1 := FindR1Response();
      rc := if r1offs < 0 then -1 else r1 / 2 * 2;
    }

    // The card reports standard capacity: bit 30 of the OCR is clear.
    method SdSendReadOcr() returns (rc: int)
      requires Valid() && Ready(card.View())
      modifies this`sdIsSdhc, card, spiXferBuf
      ensures Ready(card.View()) && card.diskImage == old(card.diskImage)
      ensures rc == 0 && !sdIsSdhc
    {
      var r1;
      rc, r1 := SendCommand(SpiCmd(0x7a, [0, 0, 0, 0], 0, 5));
      assert spiXferBuf[1] == Padded([0x01, 0x00, 0x00, 0x00, 0x00], 1) == 0;
      sdIsSdhc := spiXferBuf[1] / 0x40 % 2 == 1;
    }

    method SdWaitReady() returns (rc: int)
      requires Valid() && Ready(card.View())
      modifies card, spiXferBuf
      ensures Ready(card.View()) && card.diskImage == old(card.diskImage)
      ensures rc == 0
    {
      rc := 0;
      var busy := true;
      while busy
        invariant Ready(card.View()) && card.diskImage == old(card.diskImage) && rc == 0
        decreases busy
      {
        var r1;
        rc, r1 := SendCommand(SpiCmd(0x77, [0, 0, 0, 0], 0, 1));
        busy := false;
        if rc == 0 {
          rc, r1 := SendCommand(SpiCmd(0x69, [0x40, 0, 0, 0], 0, 1));
          busy := rc == 0 && r1 % 2 == 1;
        }
      }
    }

    method SdSendReset() returns (rc: int)
      requires Valid() && Ready(card.View())
      modifies card, spiXferBuf
      ensures Ready(card.View()) && card.diskImage == old(card.diskImage) && rc == 0
    {
      var r1;
      rc, r1 := SendCommand(SpiCmd(0x40, [0, 0, 0, 0], 0x95, 1));
    }

    method SdSendIfCond() returns (rc: int)
      requires Valid() && Ready(card.View())
      modifies card, spiXferBuf
      ensures Ready(card.View()) && card.diskImage == old(card.diskImage) && rc == 0
    {
      var r1;
      rc, r1 := SendCommand(SpiCmd(0x48, [0x00, 0x00, 0x01, 0xaa], 0x87, 1));
    }

    method SdSetBlocklen() returns (rc: int)
      requires Valid() && Ready(card.View())
      modifies card, spiXferBuf
      ensures Ready(card.View()) && card.diskImage == old(card.diskImage) && rc == 0
    {
      var r1;
      rc, r1 := SendCommand(SpiCmd(0x50, [0x00, 0x00, 0x02, 0x00], 0, 1));
    }

    // Initialization ends without panic, with the card ready and byte addressing selected.
    method SdInit() returns (ok: bool)
      requires Valid() && Ready(card.View())
      modifies this`sdIsSdhc, card, spiXferBuf
      ensures ok && Ready(card.View()) && !sdIsSdhc && card.diskImage == old(card.diskImage)
    {
      ClockIdle(0x200 + 0x1ff, 8);  // slow clock with the card deselected
      ClockIdle(0x1ff, 128);
      var reset := SdSendReset();
      var cond := SdSendIfCond();
      var ocr := SdSendReadOcr();
      var ready := SdWaitReady();
      var ocr' := SdSendReadOcr();
      var blocklen := SdSetBlocklen();
      ok := reset == 0 && cond == 0 && ocr == 0 && ready == 0 && ocr' == 0 && blocklen == 0;
    }

    // One pass of the sector loop, n bytes from the sector at lba having been read to daddr.
    method ReadNext(sector: dword, ram: array<byte>, dst: word, ghost ram0: seq<byte>, ghost lba: nat, ghost n: nat,
                    ghost daddr: word)
      requires Valid() && Ready(card.View()) && ram.Length == 0x1_0000 && ram != spiXferBuf && !sdIsSdhc
      requires sector * 512 == lba * 512 + n && sector * 512 + 512 <= |card.diskImage| <= 0x1_0000_0000
      requires n + 512 < 0x2_0000 && dst == (daddr + n) % 0x1_0000
      requires HoldsSectors(ram[..], ram0, card.diskImage, lba * 512, n, daddr)
      modifies card, spiXferBuf, ram
      ensures Ready(card.View()) && card.diskImage == old(card.diskImage)
      ensures HoldsSectors(ram[..], ram0, card.diskImage, lba * 512, n + 512, daddr)
    {
      hide Ready, HoldsSectors, Distance, SectorAddress;
      ghost var before := ram[..];
      ByteAddress(sector);
      var rc := ReadSector(sector, ram, dst);
      NextSector(ram[..], before, ram0, card.diskImage, lba * 512, n, daddr, dst);
    }

    // The sector loop of the BIOS disk service (bios/disk.c): count sectors from lba into the
    // segment at daddr, whose offsets wrap, so that a later sector overwrites an earlier one.
    method DiskRead(lba: dword, count: byte, ram: array<byte>, daddr: word) returns (done: byte)
      requires Valid() && Ready(card.View()) && ram.Length == 0x1_0000 && ram != spiXferBuf && !sdIsSdhc
      requires (lba + count) * 512 <= |card.diskImage| <= 0x1_0000_0000
      modifies card, spiXferBuf, ram
      ensures done == count && Ready(card.View()) && card.diskImage == old(card.diskImage)
      ensures HoldsSectors(ram[..], old(ram[..]), card.diskImage, lba * 512, count * 512, daddr)
      ensures var after, n := ram[..], count * 512;
              var lost := if n > 0x1_0000 then n - 0x1_0000 else 0;
              seq(n - lost, k requires 0 <= k < n - lost => after[(daddr + lost + k) % 0x1_0000])
              == card.diskImage[lba * 512 + lost..lba * 512 + n]
      ensures forall i :: 0 <= i < 0x1_0000 && (i - daddr) % 0x1_0000 >= count * 512 ==> ram[i] == old(ram[i])
    {
      hide Ready, HoldsSectors, Distance, SectorAddress;
      HoldsNothing(ram[..], card.diskImage, lba * 512, daddr);
      var sector: int := lba;
      var dst: int := daddr;
      done := 0;
      for i := 0 to count
        invariant Ready(card.View()) && card.diskImage == old(card.diskImage)
        invariant sector == lba + i && done == i && dst == (daddr + 512 * i) % 0x1_0000
        invariant HoldsSectors(ram[..], old(ram[..]), card.diskImage, lba * 512, i * 512, daddr)
      {
        ReadNext(sector, ram, dst, old(ram[..]), lba, i * 512, daddr);
        NextAddress(daddr, i);
        sector := sector + 1;
        dst := (dst + 512) % 0x1_0000;
        done := done + 1;
      }
      SectorsLanded(ram[..], old(ram[..]), card.diskImage, lba * 512, count * 512, daddr);
      SectorsKeepRest(ram[..], old(ram[..]), card.diskImage, lba * 512, count * 512, daddr);
    }

    // The sector loop of the write service. Since write_sector reports failure for a sector it
    // has written, the service stops there: one sector is written and none is counted.
    method DiskWrite(lba: dword, count: byte, ram: array<byte>, daddr: word) returns (done: byte)
      requires Valid() && Ready(card.View()) && ram.Length == 0x1_0000 && ram != spiXferBuf && !sdIsSdhc
      requires (lba + count) * 512 <= |card.diskImage| <= 0x1_0000_0000
      modifies card, spiXferBuf
      ensures Ready(card.View()) && done == 0
      ensures card.diskImage == if count == 0 then old(card.diskImage)
                                else Patch(old(card.diskImage), lba * 512, Fetched(old(ram[..]), daddr))
      ensures var was, a := old(ram[..]), lba * 512;
              count > 0 ==>
                && |card.diskImage| == |old(card.diskImage)|
                && card.diskImage[a..a + 512] == seq(512, k requires 0 <= k < 512 => was[(daddr + k) % 0x1_0000])
                && card.diskImage[..a] == old(card.diskImage)[..a]
                && card.diskImage[a + 512..] == old(card.diskImage)[a + 512..]
    {
      hide Patch, Fetched, Ready;
      var counted: int, dst: int := 0, daddr;
      var i := 0;
      var failed := false;
      while i < count && !failed
        invariant 0 <= i <= count && i == (if failed then 1 else 0) && counted == 0 && dst == daddr
        invariant Ready(card.View()) && ram[..] == old(ram[..])
        invariant card.diskImage == if !failed then old(card.diskImage)
                                    else Patch(old(card.diskImage), lba * 512, Fetched(old(ram[..]), daddr))
        decreases count - i
      {
        var next: int := (dst + 512) % 0x1_0000;
        var rc := WriteSector(lba + i, ram, dst);
        failed := rc != 0;
        dst := if failed then dst else next;
        counted := counted + (if failed then 0 else 1);
        i := i + 1;
      }
      done := counted;
      if count > 0 {
        FetchedFrom(ram[..], daddr);
        Patched(old(card.diskImage), lba * 512, Fetched(ram[..], daddr));
      }
    }
  }

  // A concrete failure report: sector 0 of a blank card is written with 0x5a bytes.
  method WriteReportsFailure() returns (rc: int, disk: seq<byte>)
    ensures rc == -1 && disk == seq<byte>(512, _ => 0x5a)
  {
    var card := new SpiCard(seq<byte>(512, _ => 0));
    var driver := new Driver(card);
    var ram := new byte[0x1_0000](_ => 0x5a);
    rc := driver.WriteSector(0, ram, 0);
    disk := card.diskImage;
  }
}
