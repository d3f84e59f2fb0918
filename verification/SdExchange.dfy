// Whole exchanges with the card: what it answers to a stream of bytes, and in particular to a
// command frame and to a data block.
module SdExchange {
  import opened Words
  import opened SdCard

  // The byte the driver clocks out at step t: its buffer, then 0xff.
  function Sent(tx: seq<byte>, t: nat): byte {
    if t < |tx| then tx[t] else 0xff
  }

  // The card after t steps, and the byte it answers at step t.
  ghost function After(c: Card, tx: seq<byte>, t: nat): Card {
    if t == 0 then c else AfterTransfer(After(c, tx, t - 1), Sent(tx, t - 1))
  }

  ghost function Answer(c: Card, tx: seq<byte>, t: nat): byte {
    After(c, tx, t + 1).rxVal
  }

  ghost predicate IsStep(run: seq<Card>, tx: seq<byte>, t: nat)
    requires t < |run| - 1
  {
    run[t + 1] == AfterTransfer(run[t], Sent(tx, t))
  }

  // The states of the card over an exchange, one more than the steps.
  ghost predicate IsRun(run: seq<Card>, c: Card, tx: seq<byte>) {
    && run != [] && run[0] == c
    && forall t {:trigger IsStep(run, tx, t)} :: 0 <= t < |run| - 1 ==> IsStep(run, tx, t)
  }

  lemma RunIsAfter(run: seq<Card>, c: Card, tx: seq<byte>, t: nat)
    requires IsRun(run, c, tx) && t < |run|
    ensures run[t] == After(c, tx, t)
  {
    if t > 0 {
      RunIsAfter(run, c, tx, t - 1);
      assert IsStep(run, tx, t - 1);
    }
  }

  lemma RunStarts(run: seq<Card>, c: Card, tx: seq<byte>)
    requires IsRun(run, c, tx)
    ensures run != [] && run[0] == c
  {
  }

  lemma RunExists(c: Card, tx: seq<byte>, n: nat) returns (run: seq<Card>)
    ensures IsRun(run, c, tx) && |run| == n + 1
    ensures forall t :: 0 <= t <= n ==> run[t] == After(c, tx, t)
  {
    run := seq(n + 1, t requires t >= 0 => After(c, tx, t));
    forall t | 0 <= t < n
      ensures IsStep(run, tx, t)
    {
    }
  }

  // The card between commands.
  ghost predicate Ready(c: Card) {
    c.state == Idle && c.mosi == [] && c.miso == []
  }

  // A transmit buffer holding a gap byte, a command with its argument and checksum, and
  // padding to clock the answer out.
  ghost predicate CommandFrame(tx: seq<byte>) {
    && |tx| >= 16
    && tx[0] == 0xff && Known(tx[1])
    && forall k :: 7 <= k < |tx| ==> tx[k] == 0xff
  }

  // The card once the frame has arrived, at step 8, with the whole answer queued.
  ghost function Queued(c: Card, tx: seq<byte>): Card
    requires CommandFrame(tx)
  {
    Executed(c.(mosi := tx[1..8], doWrite := false, rxVal := 0xff)).(state := Transmitting)
  }

  lemma Receive(c: Card, tx: seq<byte>, t: nat)
    requires Ready(c) && !Bit(c.controlReg, 9) && CommandFrame(tx) && 2 <= t <= 7
    ensures After(c, tx, t) == c.(doWrite := false, rxVal := 0xff, state := Receiving, mosi := tx[1..t])
  {
    hide Executed, Response, Bit;
    if t == 2 {
      assert After(c, tx, 1) == AfterTransfer(After(c, tx, 0), tx[0]);
      assert [] + [tx[1]] == tx[1..2];
    } else {
      Receive(c, tx, t - 1);
      assert tx[1..t - 1] + [tx[t - 1]] == tx[1..t];
    }
  }

  lemma FrameArrives(c: Card, tx: seq<byte>)
    requires Ready(c) && !Bit(c.controlReg, 9) && CommandFrame(tx)
    ensures After(c, tx, 8) == Queued(c, tx) && Answer(c, tx, 7) == 0xff
  {
    Receive(c, tx, 7);
    assert tx[1..7] + [tx[7]] == tx[1..8];
    assert After(c, tx, 8) == AfterTransfer(After(c, tx, 7), tx[7]);
  }

  // Until then the card answers nothing.
  lemma FrameSilent(c: Card, tx: seq<byte>, t: nat)
    requires Ready(c) && !Bit(c.controlReg, 9) && CommandFrame(tx) && t < 8
    ensures Answer(c, tx, t) == 0xff
  {
    hide Executed, Response;
    if t == 0 {
      assert After(c, tx, 1) == AfterTransfer(After(c, tx, 0), tx[0]);
    } else if t < 7 {
      Receive(c, tx, t + 1);
    } else {
      FrameArrives(c, tx);
    }
  }

  // Clocking out the queue.
  lemma Drain(c: Card, tx: seq<byte>, k: nat)
    requires Ready(c) && !Bit(c.controlReg, 9) && CommandFrame(tx)
    requires k <= |Queued(c, tx).miso|
    ensures var q := Queued(c, tx);
            After(c, tx, 8 + k) == q.(miso := q.miso[k..], rxVal := if k == 0 then 0xff else q.miso[k - 1])
  {
    hide Response, Known, Bit;
    if k == 0 {
      FrameArrives(c, tx);
    } else {
      Drain(c, tx, k - 1);
      var q := Queued(c, tx);
      assert q.miso[k - 1..][1..] == q.miso[k..];
    }
  }

  // The card after the answer: idle again, or waiting for the block after a write command.
  ghost function Settled(c: Card, tx: seq<byte>): Card
    requires CommandFrame(tx)
  {
    var q := Queued(c, tx);
    q.(miso := [], mosi := [], rxVal := 0xff, state := if q.doWrite then WaitForData else Idle)
  }

  lemma Settle(c: Card, tx: seq<byte>, j: nat)
    requires Ready(c) && !Bit(c.controlReg, 9) && CommandFrame(tx)
    ensures var n := 9 + |Queued(c, tx).miso|; After(c, tx, n + j) == Settled(c, tx)
  {
    hide Executed, Response, Known, Bit;
    var n := 9 + |Queued(c, tx).miso|;
    if j == 0 {
      Drain(c, tx, n - 9);
    } else {
      Settle(c, tx, j - 1);
      assert Sent(tx, n + j - 1) == 0xff;
    }
  }

  // Where the first byte that is not idle stands in the answer to each command.
  function FirstIndex(cmd: byte): nat {
    if cmd == 0x51 then 2 else if cmd == 0x58 then 1 else 0
  }

  // The index of the first byte that is not 0xff.
  ghost predicate FirstByte(r: seq<byte>, i: nat) {
    i < |r| && r[i] != 0xff && forall k :: 0 <= k < i ==> r[k] == 0xff
  }

  lemma FirstIndexIsFirst(mosi: seq<byte>, disk: seq<byte>)
    requires |mosi| >= 5 && Known(mosi[0])
    ensures FirstByte(Response(mosi, disk), FirstIndex(mosi[0]))
  {
  }

  // A sequence followed by idle bytes.
  function Padded(r: seq<byte>, i: nat): byte {
    if i < |r| then r[i] else 0xff
  }

  // The whole answer to a command: eight idle bytes, the queued bytes, idle bytes for ever.
  lemma CommandAnswer(c: Card, tx: seq<byte>, t: nat)
    requires Ready(c) && !Bit(c.controlReg, 9) && CommandFrame(tx)
    ensures Answer(c, tx, t) == if t < 8 then 0xff else Padded(Queued(c, tx).miso, t - 8)
  {
    var n := |Queued(c, tx).miso|;
    hide Executed, Response;
    if t < 8 {
      FrameSilent(c, tx, t);
    } else if t - 8 < n {
      Drain(c, tx, t - 7);
    } else {
      Settle(c, tx, t - 8 - n);
    }
  }

  // ---- The data block of a write ----

  function Patch(disk: seq<byte>, pos: nat, data: seq<byte>): (d: seq<byte>)
    requires pos + |data| <= |disk|
    ensures |d| == |disk|
  {
    disk[..pos] + data + disk[pos + |data|..]
  }

  // A transmit buffer with gap, start token, 512 data bytes, two checksum bytes and one more.
  ghost predicate BlockFrame(tx: seq<byte>) {
    |tx| == 517 && tx[0] == 0xff && tx[1] == 0xfe && tx[516] == 0xff
  }

  // A card that has accepted a command to write a block at pos.
  ghost predicate Waiting(c: Card, pos: nat) {
    c.state == WaitForData && c.mosi == [] && c.miso == [] && c.writeCount == 0 && c.diskPos == pos
  }

  ghost predicate Awaiting(c: Card) {
    Waiting(c, c.diskPos) && c.diskPos + 512 <= |c.disk|
  }

  ghost function Arrived(c: Card, tx: seq<byte>, k: nat): Card
    requires Awaiting(c) && BlockFrame(tx) && k <= 512
  {
    c.(rxVal := 0xff, state := DoWriteBlock, writeCount := k, diskPos := c.diskPos + k,
       disk := Patch(c.disk, c.diskPos, tx[2..2 + k]))
  }

  lemma PatchMore(disk: seq<byte>, pos: nat, tx: seq<byte>, k: nat)
    requires pos + k < |disk| && 2 + k < |tx|
    ensures Put(Patch(disk, pos, tx[2..2 + k]), pos + k, tx[2 + k]) == Patch(disk, pos, tx[2..3 + k])
  {
  }

  lemma BlockStep(c: Card, tx: seq<byte>, k: nat, c': Card)
    requires Awaiting(c) && BlockFrame(tx) && k < 512 && c' == Arrived(c, tx, k)
    ensures AfterTransfer(c', tx[2 + k]) == Arrived(c, tx, k + 1)
  {
    PatchMore(c.disk, c.diskPos, tx, k);
  }

  lemma BlockArrives(c: Card, tx: seq<byte>, k: nat)
    requires Awaiting(c) && BlockFrame(tx) && k <= 512
    ensures After(c, tx, 2 + k) == Arrived(c, tx, k)
    ensures After(c, tx, 1) == c.(rxVal := 0xff)
  {
    assert After(c, tx, 1) == AfterTransfer(After(c, tx, 0), tx[0]) == c.(rxVal := 0xff);
    if k == 0 {
      assert Patch(c.disk, c.diskPos, tx[2..2]) == c.disk;
    } else {
      BlockArrives(c, tx, k - 1);
      BlockStep(c, tx, k - 1, After(c, tx, 1 + k));
      assert After(c, tx, 2 + k) == AfterTransfer(After(c, tx, 1 + k), tx[1 + k]);
    }
  }

  // The card after the block: the disk holds the data and the card is ready again.
  ghost function Written(c: Card, tx: seq<byte>): Card
    requires Awaiting(c) && BlockFrame(tx)
  {
    c.(rxVal := 0xff, state := Idle, writeCount := 515, diskPos := c.diskPos + 512, doWrite := false,
       disk := Patch(c.disk, c.diskPos, tx[2..514]))
  }

  lemma BlockResponses(c: Card, tx: seq<byte>)
    requires Awaiting(c) && BlockFrame(tx)
    ensures After(c, tx, 515) == After(c, tx, 514).(writeCount := 513, rxVal := 0xaa)
    ensures After(c, tx, 516) == After(c, tx, 514).(writeCount := 514, rxVal := 0xaa)
    ensures After(c, tx, 517) == After(c, tx, 514).(writeCount := 515, rxVal := 0x05, state := Idle)
  {
    BlockArrives(c, tx, 512);
    assert After(c, tx, 515) == AfterTransfer(After(c, tx, 514), tx[514]);
    assert After(c, tx, 516) == AfterTransfer(After(c, tx, 515), tx[515]);
    assert After(c, tx, 517) == AfterTransfer(After(c, tx, 516), tx[516]);
  }

  lemma BlockSettles(c: Card, tx: seq<byte>, t: nat)
    requires Awaiting(c) && BlockFrame(tx) && t >= 518
    ensures After(c, tx, t) == Written(c, tx)
  {
    if t == 518 {
      BlockArrives(c, tx, 512);
      BlockResponses(c, tx);
    } else {
      BlockSettles(c, tx, t - 1);
    }
  }

  // The first answer that is not idle comes for the first checksum byte, two steps before the
  // data response.
  lemma BlockAnswer(c: Card, tx: seq<byte>, t: nat)
    requires Awaiting(c) && BlockFrame(tx)
    ensures Answer(c, tx, t) == if t < 514 then 0xff else if t < 516 then 0xaa else if t == 516 then 0x05 else 0xff
  {
    if t < 514 {
      BlockArrives(c, tx, if t == 0 then 0 else t - 1);
    } else if t < 517 {
      BlockResponses(c, tx);
    } else {
      BlockSettles(c, tx, t + 1);
    }
  }

  // ---- Whether the card answers at all ----

  ghost predicate Answers(c: Card, tx: seq<byte>) {
    exists t: nat :: Answer(c, tx, t) != 0xff
  }

  lemma AfterNext(c: Card, tx: seq<byte>, t: nat)
    ensures After(c, tx, t + 1) == AfterTransfer(After(c, tx, t), Sent(tx, t))
  {
  }

  lemma DrainStep(q: Card, v: byte)
    requires q.state == Transmitting && q.miso != []
    ensures var q' := AfterTransfer(q, v);
            q'.state == Transmitting && q'.miso == q.miso[1..] && q'.rxVal == q.miso[0]
  {
  }

  lemma DrainAnswers(c: Card, tx: seq<byte>, t: nat, i: nat)
    requires var q := After(c, tx, t); q.state == Transmitting && i < |q.miso| && q.miso[i] != 0xff
    ensures Answers(c, tx)
    decreases i
  {
    hide After, AfterTransfer;
    AfterNext(c, tx, t);
    DrainStep(After(c, tx, t), Sent(tx, t));
    if i == 0 {
      assert Answer(c, tx, t) != 0xff;
    } else {
      DrainAnswers(c, tx, t + 1, i - 1);
    }
  }

  lemma ReceiveStep(q: Card, v: byte)
    requires q.state == Receiving
    ensures var q', mosi := AfterTransfer(q, v), q.mosi + [v];
            && (!Known(mosi[0]) ==> q'.state == Transmitting && q'.miso == [0xfe])
            && (Known(mosi[0]) && |mosi| >= 7 ==> q'.state == Transmitting && q'.miso == Response(mosi, q.disk))
            && (Known(mosi[0]) && |mosi| < 7 ==> q'.state == Receiving && q'.mosi == mosi)
  {
    hide Known, Response;
  }

  // A command that has begun is answered, an unknown one with an error.
  lemma ReceiveAnswers(c: Card, tx: seq<byte>, t: nat)
    requires var q := After(c, tx, t); q.state == Receiving && 1 <= |q.mosi| < 7
    ensures Answers(c, tx)
    decreases 7 - |After(c, tx, t).mosi|
  {
    hide After, AfterTransfer, Known, Response, FirstIndex, Answers;
    var q := After(c, tx, t);
    var mosi := q.mosi + [Sent(tx, t)];
    AfterNext(c, tx, t);
    ReceiveStep(q, Sent(tx, t));
    if !Known(mosi[0]) {
      DrainAnswers(c, tx, t + 1, 0);
    } else if |mosi| >= 7 {
      FirstIndexIsFirst(mosi, q.disk);
      DrainAnswers(c, tx, t + 1, FirstIndex(mosi[0]));
    } else {
      ReceiveAnswers(c, tx, t + 1);
    }
  }

  lemma IdleStep(q: Card, v: byte)
    requires q.state == Idle && q.mosi == [] && !Bit(q.controlReg, 9)
    ensures var q' := AfterTransfer(q, v);
            if v == 0xff then q'.state == Idle && q'.mosi == [] && q'.controlReg == q.controlReg
            else q'.state == Receiving && q'.mosi == [v]
  {
    hide Bit;
  }

  // A card between commands takes the next byte that is not 0xff for the start of one.
  lemma IdleAnswers(c: Card, tx: seq<byte>, t: nat, k: nat)
    requires var q := After(c, tx, t); q.state == Idle && q.mosi == [] && !Bit(q.controlReg, 9)
    requires t <= k && Sent(tx, k) != 0xff
    ensures Answers(c, tx)
    decreases k - t
  {
    hide After, AfterTransfer, Bit, Answers;
    AfterNext(c, tx, t);
    IdleStep(After(c, tx, t), Sent(tx, t));
    if Sent(tx, t) != 0xff {
      ReceiveAnswers(c, tx, t + 1);
    } else {
      IdleAnswers(c, tx, t + 1, k);
    }
  }

  // A card that is not selected, or is sent nothing but 0xff, stays between commands.
  lemma {:induction false} StaysIdle(c: Card, tx: seq<byte>, t: nat)
    requires Ready(c) && (Bit(c.controlReg, 9) || forall k :: 0 <= k < |tx| ==> tx[k] == 0xff)
    ensures t > 0 ==> After(c, tx, t) == c.(doWrite := false, rxVal := 0xff)
  {
    hide Bit;
    if t > 0 {
      StaysIdle(c, tx, t - 1);
      assert Bit(c.controlReg, 9) || Sent(tx, t - 1) == 0xff;
    }
  }

  // A card between commands answers if and only if it is selected and some byte is not 0xff.
  lemma ReadyAnswersIff(c: Card, tx: seq<byte>)
    requires Ready(c)
    ensures Answers(c, tx) <==> !Bit(c.controlReg, 9) && exists k :: 0 <= k < |tx| && tx[k] != 0xff
  {
    hide Bit;
    if !Bit(c.controlReg, 9) && exists k :: 0 <= k < |tx| && tx[k] != 0xff {
      var k :| 0 <= k < |tx| && tx[k] != 0xff;
      IdleAnswers(c, tx, 0, k);
    } else {
      forall t: nat ensures Answer(c, tx, t) == 0xff {
        StaysIdle(c, tx, t + 1);
      }
    }
  }

  // A block that has begun is answered, at the latest behind its last byte.
  lemma DataAnswers(c: Card, tx: seq<byte>, t: nat)
    requires After(c, tx, t).state == DoWriteBlock
    ensures Answers(c, tx)
    decreases if After(c, tx, t).writeCount < 512 then 512 - After(c, tx, t).writeCount else 0
  {
    assert After(c, tx, t + 1) == AfterTransfer(After(c, tx, t), Sent(tx, t));
    if After(c, tx, t).writeCount < 512 {
      DataAnswers(c, tx, t + 1);
    } else {
      assert Answer(c, tx, t) != 0xff;
    }
  }

  lemma TokenAnswers(c: Card, tx: seq<byte>, t: nat, k: nat)
    requires After(c, tx, t).state == WaitForData && t <= k && Sent(tx, k) == 0xfe
    ensures Answers(c, tx)
    decreases k - t
  {
    assert After(c, tx, t + 1) == AfterTransfer(After(c, tx, t), Sent(tx, t));
    if Sent(tx, t) == 0xfe {
      DataAnswers(c, tx, t + 1);
    } else {
      TokenAnswers(c, tx, t + 1, k);
    }
  }

  lemma {:induction false} StaysWaiting(c: Card, tx: seq<byte>, t: nat)
    requires c.state == WaitForData && 0xfe !in tx
    ensures t > 0 ==> After(c, tx, t) == c.(rxVal := 0xff)
  {
    if t > 0 {
      StaysWaiting(c, tx, t - 1);
      assert Sent(tx, t - 1) != 0xfe;
    }
  }

  // A card that waits for a block answers if and only if the start token is sent.
  lemma WaitingAnswersIff(c: Card, tx: seq<byte>)
    requires c.state == WaitForData
    ensures Answers(c, tx) <==> 0xfe in tx
  {
    if 0xfe in tx {
      var k :| 0 <= k < |tx| && tx[k] == 0xfe;
      TokenAnswers(c, tx, 0, k);
    } else {
      forall t: nat ensures Answer(c, tx, t) == 0xff {
        StaysWaiting(c, tx, t + 1);
      }
    }
  }
}
