// The SD card behind the SPI port (sim/SPI.cpp, SPI.h): one byte in and one byte out per
// transfer.
module SdCard {
  import opened Words

  datatype SpiState = Idle | Receiving | Transmitting | WaitForData | DoWriteBlock

  // The card's fields, with the disk image as bytes and a position.
  datatype Card = Card(controlReg: word, rxVal: byte, state: SpiState, mosi: seq<byte>, miso: seq<byte>,
                       disk: seq<byte>, diskPos: nat, doWrite: bool, writeCount: nat)

  // The commands the card knows by number; any other is answered at once with an error.
  predicate Known(cmd: byte) {
    cmd in [0x77, 0x40, 0x48, 0x50, 0x69, 0x51, 0x58, 0x7a]
  }

  // The big-endian block address of a command.
  function Address(mosi: seq<byte>): nat
    requires |mosi| >= 5
  {
    0x100_0000 * (mosi[1] as int) + 0x1_0000 * (mosi[2] as int) + 0x100 * (mosi[3] as int) + mosi[4]
  }

  function DiskByte(disk: seq<byte>, pos: nat): byte {
    if pos < |disk| then disk[pos] else 0xff
  }

  function Block(disk: seq<byte>, pos: nat): (s: seq<byte>)
    ensures |s| == 512
  {
    seq<byte>(512, i requires i >= 0 => DiskByte(disk, pos + i))
  }

  // What a known command puts in the output queue.
  function Response(mosi: seq<byte>, disk: seq<byte>): (r: seq<byte>)
    requires |mosi| >= 5 && Known(mosi[0])
    ensures r != []
  {
    var cmd := mosi[0];
    if cmd == 0x69 then [0x00]
    else if cmd == 0x51 then [0xff, 0xff, 0x00, 0xff, 0xfe] + Block(disk, Address(mosi)) + [0x77, 0x77]
    else if cmd == 0x58 then [0xff, 0x00, 0xff, 0xff, 0x05]
    else if cmd == 0x7a then [0x01, 0x00, 0x00, 0x00, 0x00]
    else [0x01]
  }

  // A command frame, once complete: transmit_ready with read_block and write_block.
  function Executed(c: Card): Card
    requires |c.mosi| >= 7 && Known(c.mosi[0])
  {
    var c' := c.(miso := Response(c.mosi, c.disk));
    if c.mosi[0] == 0x51 then c'.(diskPos := Address(c.mosi) + 512)
    else if c.mosi[0] == 0x58 then c'.(doWrite := true, writeCount := 0, diskPos := Address(c.mosi))
    else c'
  }

  function Put(disk: seq<byte>, pos: nat, v: byte): (d: seq<byte>)
    ensures |d| == |disk|
  {
    if pos < |disk| then disk[pos := v] else disk
  }

  // What SPI::transfer does to the card.
  function AfterTransfer(c: Card, v: byte): Card {
    match c.state
    case Idle =>
      var c' := c.(doWrite := false, rxVal := 0xff);
      if v != 0xff && !Bit(c.controlReg, 9) then c'.(state := Receiving, mosi := c.mosi + [v]) else c'
    case Receiving =>
      var c' := c.(mosi := c.mosi + [v], rxVal := 0xff);
      if !Known(c'.mosi[0]) then c'.(miso := [0xfe], state := Transmitting)
      else if |c'.mosi| >= 7 then Executed(c').(state := Transmitting)
      else c'
    case Transmitting =>
      if c.miso == [] then c.(rxVal := 0xff, state := if c.doWrite then WaitForData else Idle, mosi := [])
      else c.(rxVal := c.miso[0], miso := c.miso[1..])
    case WaitForData =>
      c.(rxVal := 0xff, state := if v == 0xfe then DoWriteBlock else WaitForData)
    case DoWriteBlock =>
      var c' := c.(writeCount := c.writeCount + 1);
      if c.writeCount < 512 then c'.(disk := Put(c.disk, c.diskPos, v), diskPos := c.diskPos + 1, rxVal := 0xff)
      else if c.writeCount < 514 then c'.(rxVal := 0xaa)
      else c'.(rxVal := 0x05, state := Idle)
  }

  class SpiCard {
    var controlReg: word
    var rxVal: byte
    var state: SpiState
    var mosiBuf: seq<byte>
    var misoBuf: seq<byte>
    var diskImage: seq<byte>
    var diskPos: nat
    var doWrite: bool
    var writeCount: nat

    ghost function View(): Card
      reads this
    {
      Card(controlReg, rxVal, state, mosiBuf, misoBuf, diskImage, diskPos, doWrite, writeCount)
    }

    constructor (image: seq<byte>)
      ensures View() == Card(0, 0, Idle, [], [], image, 0, false, 0)
    {
      controlReg, rxVal, state := 0, 0, Idle;
      mosiBuf, misoBuf := [], [];
      diskImage, diskPos := image, 0;
      doWrite, writeCount := false, 0;
    }

    method Transfer(mosiVal: byte)
      modifies this
      ensures View() == AfterTransfer(old(View()), mosiVal)
    {
      match state {
        case Idle =>
          doWrite := false;
          if mosiVal != 0xff && !Bit(controlReg, 9) {
            state := Receiving;
            mosiBuf := mosiBuf + [mosiVal];
          }
          rxVal := 0xff;
        case Receiving =>
          mosiBuf := mosiBuf + [mosiVal];
          var ready := TransmitReady();
          if ready {
            state := Transmitting;
          }
          rxVal := 0xff;
        case Transmitting =>
          if |misoBuf| == 0 {
            rxVal := 0xff;
            state := if doWrite then WaitForData else Idle;
            mosiBuf := [];
          } else {
            rxVal := misoBuf[0];
            misoBuf := misoBuf[1..];
          }
        case WaitForData =>
          rxVal := 0xff;
          if mosiVal == 0xfe {
            state := DoWriteBlock;
          }
        case DoWriteBlock =>
          if writeCount < 512 {
            diskImage, diskPos := Put(diskImage, diskPos, mosiVal), diskPos + 1;
            rxVal := 0xff;
          } else if writeCount < 514 {
            rxVal := 0xaa;
          } else {
            rxVal := 0x5;
            state := Idle;
          }
          writeCount := writeCount + 1;
      }
    }

    method TransmitReady() returns (ready: bool)
      requires |mosiBuf| > 0
      modifies this`misoBuf, this`diskPos, this`doWrite, this`writeCount
      ensures ready == (!Known(mosiBuf[0]) || |mosiBuf| >= 7)
      ensures View() == if !Known(mosiBuf[0]) then old(View()).(miso := [0xfe])
                        else if |mosiBuf| >= 7 then Executed(old(View()))
                        else old(View())
      ensures |mosiBuf| >= 7 && mosiBuf[0] in [0x77, 0x40, 0x48, 0x50] ==> misoBuf == [0x01]
      ensures |mosiBuf| >= 7 && mosiBuf[0] == 0x69 ==> misoBuf == [0x00]
      ensures |mosiBuf| >= 7 && mosiBuf[0] == 0x7a ==> misoBuf == [0x01, 0x00, 0x00, 0x00, 0x00]
    {
      ready := false;
      var cmd := mosiBuf[0];
      if cmd == 0x77 || cmd == 0x40 || cmd == 0x48 || cmd == 0x50 {
        if |mosiBuf| >= 7 {
          misoBuf := [0x01];
          return true;
        }
      } else if cmd == 0x69 {
        if |mosiBuf| >= 7 {
          misoBuf := [0x00];
          return true;
        }
      } else if cmd == 0x51 {
        if |mosiBuf| >= 7 {
          ReadBlock();
          return true;
        }
      } else if cmd == 0x58 {
        if |mosiBuf| >= 7 {
          WriteBlock();
          return true;
        }
      } else if cmd == 0x7a {
        if |mosiBuf| >= 7 {
          misoBuf := [0x01, 0x00, 0x00, 0x00, 0x00];
          return true;
        }
      } else {
        misoBuf := [0xfe];
        return true;
      }
    }

    method ReadBlock()
      requires |mosiBuf| >= 5
      modifies this`misoBuf, this`diskPos
      ensures misoBuf == [0xff, 0xff, 0x00, 0xff, 0xfe] + Block(diskImage, Address(mosiBuf)) + [0x77, 0x77]
      ensures diskPos == Address(mosiBuf) + 512
    {
      misoBuf := [0xff, 0xff, 0x00, 0xff, 0xfe];
      diskPos := Address(mosiBuf);
      for m := 0 to 512
        invariant diskPos == Address(mosiBuf) + m
        invariant misoBuf == [0xff, 0xff, 0x00, 0xff, 0xfe] + Block(diskImage, Address(mosiBuf))[..m]
      {
        misoBuf, diskPos := misoBuf + [DiskByte(diskImage, diskPos)], diskPos + 1;
      }
      assert Block(diskImage, Address(mosiBuf))[..512] == Block(diskImage, Address(mosiBuf));
      for m := 0 to 2
        invariant diskPos == Address(mosiBuf) + 512
        invariant misoBuf == [0xff, 0xff, 0x00, 0xff, 0xfe] + Block(diskImage, Address(mosiBuf)) + [0x77, 0x77][..m]
      {
        misoBuf := misoBuf + [0x77];
      }
      assert [0x77, 0x77][..2] == [0x77, 0x77];
    }

    method WriteBlock()
      requires |mosiBuf| >= 5
      modifies this`misoBuf, this`diskPos, this`doWrite, this`writeCount
      ensures misoBuf == [0xff, 0x00, 0xff, 0xff, 0x05] && doWrite && writeCount == 0
      ensures diskPos == Address(mosiBuf)
    {
      misoBuf := [0xff, 0x00, 0xff, 0xff, 0x05];
      doWrite := true;
      writeCount := 0;
      diskPos := Address(mosiBuf);
    }

    // Port 0 is the control register, port 2 the transfer register, of which only the low
    // byte is wired.
    method Write8(portNum: nat, offs: nat, v: byte)
      requires offs <= 1
      modifies this
      ensures View() == if portNum == 0 then
                          old(View()).(controlReg := if offs == 0 then old(controlReg) / 0x100 * 0x100 + v
                                                     else old(controlReg) % 0x100 + 0x100 * v)
                        else if offs == 0 then AfterTransfer(old(View()), v)
                        else old(View())
    {
      if portNum == 0 {
        controlReg := if offs == 0 then controlReg / 0x100 * 0x100 + v else controlReg % 0x100 + 0x100 * v;
      } else if offs == 0 {
        Transfer(v);
      }
    }

    method Write16(portNum: nat, v: word)
      modifies this
      ensures View() == if portNum == 0 then old(View()).(controlReg := v)
                        else AfterTransfer(old(View()), v % 0x100)
    {
      Write8(portNum, 0, v % 0x100);
      Write8(portNum, 1, v / 0x100);
    }

    method Read16(portNum: nat) returns (v: word)
      ensures v == if portNum == 0 then controlReg else rxVal
    {
      var low := if portNum == 0 then controlReg % 0x100 else rxVal;
      var high := if portNum == 0 then controlReg / 0x100 else 0x00;
      v := low + 0x100 * high;
    }
  }
}
