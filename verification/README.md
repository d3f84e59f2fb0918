# A verified model of the s80x86 software CPU and its neighbours

s80x86 is an FPGA implementation of the 80186 with a C++ reference CPU, a simulator and a BIOS.
This project models the parts of its C and C++ code that carry the most state and arithmetic,
and proves what they compute over inputs, programs and runs of any length.

* **Software CPU** (`sim/cppmodel`, `sim/common`). `Cpu.dfy` holds the CPU as an object whose
  methods update registers, flags, 1 MB of memory and the interrupt latches in place; each method
  is proved to be a change of state that the theorems use.
  `Alu`, `Multiword`, `Bcd` and `Shifts` show what programs of one instruction per word compute;
  `StringOps` what the repeated string instructions do to blocks; `Stack`, `Interrupts` and
  `EnterLeave` what survives on the stack through every wrap of SP and of addresses; `Stepping`
  when a run serves NMI, IRQ and the single-step trap; `MulDiv` that the multiplications and
  divisions are exact, undo each other and store what the hardware divider computes.
* **Interrupt controller** (`sim/PIC.h`). `Pic.dfy` is the object, `Protocol.dfy` the
  controller and the CPU as one protocol over their single shared request slot, and
  `Simulator.dfy` the two objects wired together.
* **Divider** (`tests/rtl/TestDivisionAlgorithm.cpp`). `Division.dfy` proves non-restoring
  division exact against the division instructions.
* **SD card** (`bios/sd.c`, `sim/SPI.cpp`). `SdCard.dfy` is the card, `SdExchange.dfy` what it
  answers to whole frames, `SdDriver.dfy` the driver that talks to it one byte at a time. The
  frames are those of section 7.3 of the SD Physical Layer Simplified Specification.
* **Timing wheel** (`tests/rtl/VerilogDriver.h`). `Wheel.dfy` proves the 64 buckets against a
  plain record of requests with due cycles.
* **Formatter** (`bios/printk.c`). `Printk.dfy` proves the bounded formatter against an
  unbounded rendering.

`Words.dfy` holds fixed-width words, bit strings and the arithmetic of quotients; `Flags.dfy`
the flags register. `dafny verify dfyconfig.toml` checks the whole project.

## Findings

Where a promise fails, the model keeps the code and a member states exactly when it holds.

* `WriteSector` always returns -1 although the sector is on the disk: the card answers the
  checksum bytes with 0xaa and the driver takes the first of them for the packet response
  (`WriteReportsFailure` is one case). The BIOS write service therefore stops after one sector and
  counts none (`DiskWrite`).
* The poll that would follow an accepted write, `wait_for_write_completion`, sends single 0xff bytes
  to a card that is then between commands and never answers them, so `spi_xfer`, which has no limit
  of its own, would not return (`CompletionPollHangs`). It is not reached in the simulator only
  because of the failure above. A waiting exchange ends exactly when the card is selected and some
  byte to be sent is not 0xff, or, for a card that waits for a block, when the start token is sent
  (`WaitEndsIff`, `BlockWaitEndsIff`); the driver's commands and blocks all meet this.
* A deferred event requested for the current cycle by a deferred or a ClockCapture callback runs
  64 cycles late, and only such an event does (`OnTimeIff`, `CallbackRequestFires`; `LateEvent` is
  a run in which it happens).
* A signalled request is taken for no request at all when it is line 0 of vector base 0, and only
  then (`RequestLostIff`, `LineZeroLost`); it also clears a request that was pending
  (`LineZeroWipes`). `RaiseReachesIff` says exactly when raising a line reaches the CPU's slot; a line
  raised while it or a higher line is in service stays in IRR, and the EOI does not signal it
  (`RaisedInService`).
* A base that changes while a request is pending makes the acknowledgement miss its line
  (`RebaseMisses`, `LineZeroMissed`).
* With TF set, a step that finds an NMI or IRQ ready takes it and the single-step trap behind it,
  although no instruction has run, and only such a step does (`TrapIffTraced`,
  `TrapWithoutInstruction`).
* IMUL sets CF and OF whenever the high half of the product is not zero, although Volume 2 of the
  Intel 64 and IA-32 Architectures SDM has them say that the product does not fit; the two differ
  exactly for products in [-0x8000, 0) and [0x8000, 0x10000) (`ImulOverflow`, `ImulMisleads`).
* The formatter's `%%` consumes an argument and prints it as a character: a percent sign only if
  the argument is one (`PercentPrints`, `PercentPercent`).
* The sign flag that the divider test computes from its unsigned operand is never set, so it is
  wrong exactly for negative operands (`TwosCompToSm`, `SignMissed`); `IDivide` shows that the
  results are right all the same, the signs being applied afterwards.

## Model

| member | source | states |
|---|---|---|
| `Division.NonRestoringSteps` | tests/rtl/TestDivisionAlgorithm.cpp:75-84 | After the 16 steps the dividend is exactly the signed-digit quotient times the divisor plus the partial remainder, which lies within one divisor of zero whenever the quotient fits 16 bits |
| `Division.TwosCompToSm` | tests/rtl/TestDivisionAlgorithm.cpp:42-53 | The magnitude is the absolute value of the two's complement operand, the most negative one included; the sign flag is never set, so it is right exactly for operands without the sign bit |
| `Division.SignMissed` | tests/rtl/TestDivisionAlgorithm.cpp:47-47 | The concrete miss: -1 in 16 bits has the flag clear |
| `Division.Divide` | tests/rtl/TestDivisionAlgorithm.cpp:56-94 | The returned registers hold quotient and remainder of the (magnitudes of the) operands if and only if the quotient fits in 16 bits |
| `Division.UnsignedDivide` | sim/cppmodel/instructions/div.cpp:51-81 | The non-restoring divider agrees with `/` and `%` exactly when DIV raises no divide error; every input, zero divisors included |
| `Division.IDivide` | tests/rtl/TestDivisionAlgorithm.cpp:96-109 | The signed divider gives the truncating quotient and remainder of IDIV exactly when IDIV raises no divide error |
| `Division.FitsIffNoFault` | sim/cppmodel/instructions/div.cpp:57-57 | The register equation of the divider is the divide-error test of DIV and determines quotient and remainder |
| `Division.SignsApplied` | tests/rtl/TestDivisionAlgorithm.cpp:103-106 | 16-bit magnitudes with the signs put back are the truncating results exactly when these fit in int16_t |
| `Alu.DoAlu` | sim/cppmodel/Emulate.cpp:872-909 | The flags read off bits of the 32-bit evaluations mean: CF, OF, AF say that the exact unsigned, signed and low-nibble result does not fit; ZF, SF, PF describe the result; for every width from 8 to 31 bits |
| `Alu.CarryBit` | sim/cppmodel/Emulate.cpp:888-895 | Bit k of the wrapped 32-bit result is set exactly when the exact result of k-bit operands leaves [0, 2^k) |
| `Alu.SignBits` | sim/cppmodel/Emulate.cpp:901-906 | The carry into the sign bit differs from the carry out exactly when the signed result overflows |
| `Alu.SignOfResult` | sim/cppmodel/Emulate.cpp:890-906 | SF differs from OF exactly when the exact signed result is negative |
| `Alu.IncDec` | sim/cppmodel/instructions/inc_dec.cpp:65-105 | INC and DEC leave CF as it was |
| `Alu.IncExact` | sim/cppmodel/instructions/inc_dec.cpp:65-76 | INC adds one modulo 2^w, OF says that the largest signed value was passed and AF that the low digit was; CF, TF, IF and DF stay |
| `Alu.DecExact` | sim/cppmodel/instructions/inc_dec.cpp:94-105 | DEC takes one away modulo 2^w, OF says that the smallest signed value was passed and AF that the low digit was; CF, TF, IF and DF stay |
| `Alu.AluInsnKeeps` | sim/cppmodel/Emulate.cpp:872-909 | ADD to CMP store the six arithmetic flags and no other |
| `Alu.CompareUnsigned` | sim/cppmodel/instructions/jmp.cpp:44-174 | After CMP, JE, JNE, JB, JNB, JBE and JNBE decide equality and unsigned order |
| `Alu.CompareSigned` | sim/cppmodel/instructions/jmp.cpp:54-154 | After CMP, JL, JNL, JLE and JNLE decide signed order |
| `Alu.CompareFlags` | sim/cppmodel/instructions/jmp.cpp:44-174 | After CMP, JS and JNS test the top bit of the difference, JO and JNO whether the signed difference leaves the width, JP and JNP the parity of its eight low bits written out |
| `Words.ParityWritten` | sim/cppmodel/Emulate.cpp:899-900 | PF is the parity of the eight low bits, each written as a quotient modulo 2 |
| `Multiword.ChainExact` | sim/cppmodel/instructions/adc.cpp:73-88 | ADD then ADC (or SUB then SBB) over any number of words, with INC and DEC in between, computes the whole sum or difference with CF the carry or borrow out |
| `Multiword.BorrowOrders` | sim/cppmodel/instructions/sbb.cpp:72-87 | After the last SBB, JB is taken iff A < B as unsigned integers of any length |
| `Multiword.SignOrders` | sim/cppmodel/instructions/jmp.cpp:54-62 | After the last SBB, JL is taken iff A < B as signed integers of any length |
| `Multiword.SignOfDifference` | sim/cppmodel/instructions/sbb.cpp:72-87 | SF and OF after a borrow chain give the sign of the exact signed difference, the incoming borrow included |
| `Multiword.SignedValMeaning` | sim/cppmodel/instructions/sbb.cpp:72-87 | The signed reading of the word sequence is two's complement over all the words |
| `Multiword.RclOne` | sim/cppmodel/instructions/rcl.cpp:18-37 | RCL by one doubles the operand, takes CF in below and gives the carry out at weight 2^w |
| `Multiword.RcrOne` | sim/cppmodel/instructions/rcr.cpp:18-40 | RCR by one halves the operand with CF entering at weight 2^w and the low bit leaving in CF |
| `Multiword.RclRcrSteps` | sim/cppmodel/instructions/rcl.cpp:18-37 | RCL and RCR by any count are count modulo 32 one-place steps in arithmetic, the carry entering at one end and the bit that leaves becoming the carry |
| `Multiword.ShiftUpDoubles` | sim/cppmodel/instructions/rcl.cpp:18-37 | SHL then RCL upward over any number of words doubles the whole integer, the carry out being its top bit |
| `Multiword.ShiftDownHalves` | sim/cppmodel/instructions/rcr.cpp:18-40 | SHR then RCR downward over any number of words halves the whole integer, the carry out being its low bit |
| `Shifts.DoRcl` | sim/cppmodel/instructions/rcl.cpp:18-37 | The loop rotates the (w+1)-bit string of CF and operand left by (count & 31) mod (w+1); OF is CF xor the new sign |
| `Shifts.DoRcr` | sim/cppmodel/instructions/rcr.cpp:18-40 | The loop rotates the same string right by (count & 31) mod (w+1); OF is the difference of the two top bits |
| `Shifts.DoRol` | sim/cppmodel/instructions/rol.cpp:18-37 | The loop rotates the operand left by (count & 31) mod w; CF is the bit that came round last, and clear only if count modulo 32 is 0 or that bit is 0 |
| `Shifts.DoRor` | sim/cppmodel/instructions/ror.cpp:18-38 | The loop, which does not mask its count, rotates right by count mod w |
| `Shifts.RclRcrUndo` | sim/cppmodel/instructions/rcr.cpp:18-40 | RCL and RCR undo each other in operand and carry for every width and count |
| `Shifts.RolRorUndo` | sim/cppmodel/instructions/ror.cpp:18-38 | ROL and ROR undo each other for every count at widths 8 and 16, although only ROL masks |
| `Shifts.RolRorSteps` | sim/cppmodel/instructions/ror.cpp:18-38 | ROL by any count is count modulo 32 one-place steps in arithmetic, ROR its whole count of them |
| `Shifts.TopBits` | sim/cppmodel/instructions/rcr.cpp:34-38 | The test of the two top bits for OF is that bit w - 1 differs from bit w - 2 |
| `Shifts.MaskIrrelevant` | sim/cppmodel/instructions/rol.cpp:18-37 | The 5-bit mask does not change a rotation by the count at widths 8 and 16 |
| `Shifts.DoShl` | sim/cppmodel/instructions/shl.cpp:18-43 | Multiplication by 2^count modulo 2^w, CF the last bit shifted out |
| `Shifts.DoShr` | sim/cppmodel/instructions/shr.cpp:18-39 | Unsigned division by 2^count, CF the last bit shifted out |
| `Shifts.DoSar` | sim/cppmodel/instructions/sar.cpp:18-41 | Floor division of the signed value by 2^count, CF the last bit shifted out |
| `Bcd.DaaDigits` | sim/cppmodel/instructions/daa.cpp:19-42 | After the binary sum of two packed bytes DAA leaves the valid digits of the decimal sum, CF the decimal carry |
| `Bcd.DasDigits` | sim/cppmodel/instructions/das.cpp:19-52 | After the binary difference DAS leaves the valid digits of the decimal difference, CF the borrow |
| `Bcd.DasFlags` | sim/cppmodel/instructions/das.cpp:19-52 | After DAS SF, ZF and PF describe AL, although the code reads them off 16 bits, or were set before; AF says that the low digit was adjusted; OF, TF, IF and DF stay |
| `Bcd.DaaFlags` | sim/cppmodel/instructions/daa.cpp:19-42 | After DAA only AF and CF have changed, AF saying that the low digit was adjusted |
| `Bcd.StepExact` | sim/cppmodel/instructions/daa.cpp:19-42 | One byte of a decimal chain is exact with the carry or borrow in and out |
| `Bcd.ChainBcd` | sim/cppmodel/instructions/daa.cpp:19-42 | Every byte of a decimal chain of any length is valid packed BCD |
| `Bcd.ChainExact` | sim/cppmodel/instructions/das.cpp:19-52 | ADD/ADC with DAA, or SUB/SBB with DAS, over any number of bytes yields the decimal sum or difference with CF the carry or borrow |
| `Bcd.DecValInjective` | sim/cppmodel/instructions/daa.cpp:19-42 | Packed digits are determined by number and length |
| `Bcd.SubtractionUndoesAddition` | sim/cppmodel/instructions/das.cpp:19-52 | The subtraction chain restores the digits the addition chain started from, its borrow equal to the addition's carry |
| `Flags.FlagWordRoundTrip` | sim/common/RegisterFile.cpp:100-124 | The nine flags read back from the 16-bit word that get_flags gives, through the bits that always read as one or zero |
| `Flags.FlagWordWritten` | sim/common/RegisterFile.cpp:100-103 | The word that is pushed is 0xf002 plus each flag at its power of two |
| `Flags.FlagPlaces` | sim/common/RegisterFile.cpp:110-124 | Each flag is taken from its bit of the popped word |
| `Machine.ReadBack` | sim/common/Memory.cpp:29-51 | A little-endian word reads back as written and leaves every word that does not overlap it |
| `Machine.PhysAddrReduces` | sim/common/CPU.h:49-53 | The physical address is 16 * segment + offset modulo 1 MB |
| `Machine.Wrap16Reduces` | sim/common/RegisterFile.cpp:77-77 | Register arithmetic reduces modulo 2^16 |
| `Stack.SlotsApart` | sim/common/Memory.cpp:29-51 | Words at even offsets of a segment never cross the end of memory and never overlap unless equal, through both wraps |
| `Stack.PushHolds` | sim/cppmodel/Emulate.cpp:1379-1384 | A push adds one word to the abstract stack and moves only SP |
| `Stack.PopHolds` | sim/cppmodel/Emulate.cpp:1386-1393 | A pop returns and removes the top of the abstract stack and moves only SP |
| `Stack.StackRefines` | sim/cppmodel/Emulate.cpp:1379-1393 | Every balanced run of pushes and pops with at most 32768 words outstanding pops what an abstract LIFO stack pops and changes nothing outside the slots, from any even SP through the wraps of SP and of the address |
| `Stack.PushWritten` | sim/cppmodel/Emulate.cpp:1379-1384 | At any SP a push puts the low byte at 16 * SS + (SP - 2) mod 2^16 modulo 1 MB, the high byte behind it in memory, and changes no other byte and no register but SP |
| `Stack.PopRead` | sim/cppmodel/Emulate.cpp:1386-1393 | At any SP a pop reads the two bytes at SS:SP, low byte first, and moves SP up by two modulo 2^16 |
| `Interrupts.EntryNests` | sim/cppmodel/Emulate.cpp:486-507 | An entry of any kind adds its context to the nest of frames on the stack |
| `Interrupts.EntryJumps` | sim/cppmodel/Emulate.cpp:486-507 | The handler starts at the CS and IP its vector held before the entry, as long as the frame does not lie on the vector |
| `Interrupts.EntryEntered` | sim/cppmodel/Emulate.cpp:486-507 | An entry leaves FLAGS, CS and IP in the words two, four and six below SP, clears IF and TF, takes IP and CS from the four bytes at the vector, low bytes first, and an IRET undoes all of it but the memory |
| `Interrupts.SoftwareEntries` | sim/cppmodel/instructions/int.cpp:38-79 | INT n enters through the vector at 4 * n, INTO through the one at 16 iff OF is set, and the IRET goes behind the instruction; without OF, INTO only moves IP |
| `Interrupts.HardwareEntries` | sim/cppmodel/Emulate.cpp:486-555 | NMI enters through the vector at 8, IRQ n through the one at 4 * n and the single-step trap through the one at 4, and the IRET goes back to the instruction at IP; the trap is taken iff TF was set and no shadow holds it |
| `Interrupts.NmiNests` | sim/cppmodel/Emulate.cpp:486-507 | NMI entry adds one context, or two when the single-step trap follows at once |
| `Interrupts.IrqNests` | sim/cppmodel/Emulate.cpp:509-534 | IRQ entry adds one context, or two when the single-step trap follows at once |
| `Interrupts.IretRestores` | sim/cppmodel/instructions/ret.cpp:58-68 | IRET restores CS, IP, FLAGS and SP of the innermost context |
| `Interrupts.HandlerKeeps` | sim/cppmodel/instructions/ret.cpp:58-68 | A handler that leaves SS, SP and the words of the frames as they were, whatever else it changes, keeps the nest |
| `Interrupts.NestingUnwinds` | sim/cppmodel/instructions/ret.cpp:58-68 | In every run of entries, handlers that leave SS, SP and the words of the frames alone, and returns, every return restores its own context, to any depth the stack segment holds |
| `Interrupts.NestingFromStart` | sim/cppmodel/instructions/ret.cpp:58-68 | So every run from any even SP with nothing interrupted unwinds |
| `EnterLeave.LeaveUndoesEnter` | sim/cppmodel/instructions/leave.cpp:18-22 | LEAVE after ENTER restores all registers for every size and nesting level, SP and BP even |
| `EnterLeave.EnterRegs` | sim/cppmodel/instructions/enter.cpp:18-37 | For every SP, size and level: BP is SP - 2, SP goes down by one word for BP, one for each of the nesting mod 32 levels and size bytes, modulo 2^16, and every other register is kept |
| `EnterLeave.FrameStands` | sim/cppmodel/instructions/enter.cpp:18-37 | After ENTER the saved BP lies size bytes and one word per level above SP, and a push changes no byte from SP up to 0xfffe bytes above it, so locals, display and saved BP stay |
| `EnterLeave.DisplayCopied` | sim/cppmodel/instructions/enter.cpp:18-37 | With the caller's display clear of the new frame, the nest - 1 saved frame pointers are copied in order and the new one is stored last |
| `EnterLeave.CopyFrame` | sim/cppmodel/instructions/enter.cpp:26-30 | The nesting loop writes no offset but those it pushes to |
| `EnterLeave.CopiedAt` | sim/cppmodel/instructions/enter.cpp:26-30 | The k-th word pushed by the loop is the k-th saved frame pointer, also when the display itself is long |
| `StringOps.MovsbUp` | sim/cppmodel/instructions/movs.cpp:18-35 | REP MOVSB upward: CX 0, SI and DI moved by n, flags kept; memmove when the destination is at or below the source or disjoint; otherwise the first k bytes repeat with period k; no other byte changes |
| `StringOps.MovsbDown` | sim/cppmodel/instructions/movs.cpp:18-35 | REP MOVSB downward: CX 0, SI and DI moved down by n, flags kept; memmove when the destination is at or above the source or disjoint; otherwise the last k bytes repeat with period k; no other byte changes |
| `StringOps.CopyUpRepeats` | sim/cppmodel/instructions/movs.cpp:18-35 | Byte j of an overlapping upward copy is byte j mod k of the source |
| `StringOps.CopyDownRepeats` | sim/cppmodel/instructions/movs.cpp:18-35 | Byte j from the top of an overlapping downward copy is byte j mod k from the top of the source |
| `StringOps.CmpsbOrders` | sim/cppmodel/instructions/cmps.cpp:18-40 | REPE CMPSB decides lexicographic order of two strings of any length and stops just past the first difference; with CX = 0 it changes nothing |
| `StringOps.ScasbFinds` | sim/cppmodel/instructions/scas.cpp:18-35 | REPNE SCASB stops just past the first match with ZF set, or ends with CX = 0 and ZF clear iff there is none; with CX = 0 at the start it changes nothing |
| `StringOps.RepCompares` | sim/cppmodel/Emulate.cpp:425-447 | CMPSB and SCASB under either prefix and in either direction of DF, on the bytes at offsets that wrap: REPE goes on to the first different pair and REPNE to the first equal one or until CX is used up, the pointers stop just past that pair and the flags decide it |
| `StringOps.ComparedMeaning` | sim/cppmodel/Emulate.cpp:440-447 | The number of bytes compared is where the strings first differ |
| `StringOps.SearchedMeaning` | sim/cppmodel/Emulate.cpp:440-447 | The number of bytes searched is where the byte first occurs |
| `MulDiv.MulExact` | sim/cppmodel/instructions/mul.cpp:36-52 | DX:AX is the exact product; only CF, OF and ZF change besides |
| `MulDiv.ImulExact` | sim/cppmodel/instructions/imul.cpp:36-52 | DX:AX is the exact signed product in 32 bits of two's complement; only CF, OF and ZF change besides |
| `MulDiv.DivFaultsIff` | sim/cppmodel/instructions/div.cpp:57-57 | DIV is a divide error iff DX is not below the operand |
| `MulDiv.DivExact` | sim/cppmodel/instructions/div.cpp:51-81 | If DX is below the operand, AX times the operand plus DX is the old DX:AX, DX is the smaller, and nothing else changes; otherwise AX and DX are kept and the vector at 0 is entered with the IP of the instruction |
| `MulDiv.IDivFaultsIff` | sim/cppmodel/instructions/div.cpp:123-124 | IDIV is a divide error iff the operand is 0 or the magnitude of the dividend reaches 0x8000 times that of the operand, 0x8001 times when the signs differ |
| `MulDiv.IdivExact` | sim/cppmodel/instructions/div.cpp:117-148 | On the signed values: quotient times operand plus remainder is the dividend, the remainder is the smaller and has the sign of the dividend, and nothing else changes; or a divide error with AX and DX kept and the vector at 0 entered |
| `MulDiv.DivByDivider` | sim/cppmodel/instructions/div.cpp:77-80 | The registers of the non-restoring divider are the ones DIV stores |
| `MulDiv.IdivByDivider` | sim/cppmodel/instructions/div.cpp:143-147 | The registers of the signed divider are the ones IDIV stores |
| `MulDiv.DivUndoesMul` | sim/cppmodel/instructions/mul.cpp:36-52 | MUL then DIV by the same nonzero operand never faults, restores AX and clears DX |
| `MulDiv.MulOverflow` | sim/cppmodel/instructions/mul.cpp:45-51 | CF and OF after MUL say that the product needs DX |
| `MulDiv.ImulOverflow` | sim/cppmodel/instructions/imul.cpp:45-51 | CF and OF after IMUL say that the product does not fit a signed word exactly when it is outside [-0x8000, 0) and [0x8000, 0x10000) |
| `MulDiv.ImulMisleads` | sim/cppmodel/instructions/imul.cpp:45-51 | The concrete cases: 1 * -1 sets CF, 2 * 0x4000 clears it |
| `MulDiv.IdivUndoesImul` | sim/cppmodel/instructions/imul.cpp:36-52 | IMUL leaves the exact signed product in DX:AX, and IDIV by the same nonzero operand then never faults, restores AX and clears DX |
| `Stepping.StepSettles` | sim/cppmodel/Emulate.cpp:557-581 | After a step a pending NMI implies the shadow, a pending IRQ the shadow or IF clear |
| `Stepping.TrapIffTraced` | sim/cppmodel/Emulate.cpp:536-581 | From the state before the step: it takes the single-step trap iff TF is set and a request is ready or the instruction sets no shadow, once and last; and it takes the trap without running any instruction iff TF is set and a request is ready |
| `Stepping.TrapWithoutInstruction` | sim/cppmodel/Emulate.cpp:559-562 | The concrete case: an NMI pending under TF enters two handlers and runs nothing |
| `Stepping.ShadowLastsOneInstruction` | sim/cppmodel/Emulate.cpp:557-600 | In a shadow the next step runs its instruction first, and unless that sets the shadow again, what is pending is served right behind it: NMI before IRQ |
| `Stepping.ShadowInstructions` | sim/cppmodel/instructions/pop.cpp:46-55 | STI sets IF, MOV sr and POP sr write the register they name, POP sr from the word at SP of the old stack segment and moving SP by two, each with IP behind the instruction and the shadow set |
| `Stepping.StiServesBehindNext` | sim/cppmodel/instructions/sti.cpp:18-26 | An IRQ pending while IF is clear waits for STI and is served right behind the instruction that follows it |
| `Stepping.ShadowHolds` | sim/cppmodel/instructions/sti.cpp:18-26 | In every run with requests raised at any time no interrupt or trap directly follows STI, MOV sr or POP sr |
| `Stepping.RunSettles` | sim/cppmodel/Emulate.cpp:557-581 | After every run that ends with a step nothing that could be served is pending |
| `Stepping.StepTakesNmiOnce` | sim/cppmodel/Emulate.cpp:486-489 | A step takes a pending NMI at most once and clears it exactly when it takes it |
| `Stepping.NmiNotInvented` | sim/cppmodel/Emulate.cpp:476-489 | In every run NMI entries never outnumber NMI requests |
| `Pic.First` | sim/PIC.h:72-81 | The scan finds the lowest set bit at or above the start |
| `Pic.Controller.RaiseIrq` | sim/PIC.h:65-82 | A raised unmasked line enters IRR; the CPU is signalled iff the highest request is above every line in service, with base plus that line |
| `Pic.Controller.IntaHandler` | sim/PIC.h:84-88 | Acknowledgement moves the line from IRR to ISR; a vector up to 31 above the base that is none of the eight changes nothing |
| `Pic.Controller.EndOfInterrupt` | sim/PIC.h:151-163 | Non-specific EOI clears the highest line in service, specific EOI the named one |
| `Pic.Controller.WriteCommand` | sim/PIC.h:90-98 | Command bytes are decoded to ICW1, OCW2 and OCW3 with their effects; others do nothing |
| `Pic.Controller.WriteData` | sim/PIC.h:114-127 | The data port is base, mode word or mask according to the initialization state, and a mask byte reads back as itself |
| `Pic.LinesWritten` | sim/PIC.h:178-181 | A line is masked exactly when the bit of the mask byte at its power of two is one |
| `Pic.LinesRoundTrip` | sim/PIC.h:109-112 | The byte of the lines of a byte is that byte |
| `Pic.MaskWriteMasks` | sim/PIC.h:65-70 | After a mask write a raised line is ignored when its bit is one and enters IRR when it is zero; nothing but the mask has changed |
| `Pic.MaskWritesOfBios` | sim/PIC.h:178-181 | 0xff masks all eight lines, 0xfe all but line 0, 0 none |
| `Pic.CommandDecoded` | sim/PIC.h:90-98 | By the arithmetic of the byte: bit 4 begins the initialization, bits 4 and 3 clear make an EOI of the highest or the named line in service or nothing, bit 3 alone below 0x80 selects what is read |
| `Pic.VectorBase` | sim/PIC.h:117-124 | ICW2 sets the base to the byte rounded down to a multiple of eight, and the mode word ends the initialization |
| `Pic.Controller.ReadCommand` | sim/PIC.h:100-107 | The command port reads IRR or ISR as last selected |
| `Pic.Controller.ReadData` | sim/PIC.h:109-112 | The data port reads the mask |
| `Protocol.RaiseCoherent` | sim/PIC.h:65-82 | Raising a line keeps the invariant of the pending slot and of the stack in service |
| `Protocol.AckCoherent` | sim/PIC.h:84-88 | An acknowledgement is in range, of the highest request, above all in service, and keeps the invariant |
| `Protocol.WriteCoherent` | sim/PIC.h:90-127 | Commands, EOI, masks and a change of base with nothing pending keep the invariant |
| `Protocol.WritesCoherent` | sim/common/CPU.h:73-77 | So do the writes of one instruction in order, as a word OUT to the command and the data port |
| `Protocol.StepCoherent` | sim/cppmodel/Emulate.cpp:509-581 | A CPU step with any writes to the controller and an acknowledgement keeps the invariant |
| `Protocol.RunCoherent` | sim/PIC.h:65-163 | Over every interleaving of raise, mask, EOI and step: a pending vector is base plus the lowest IRR line with no ISR line at or above it in priority, and ISR is a stack of strictly rising priority |
| `Protocol.MaskGoverns` | sim/PIC.h:65-70 | A mask write governs every run without another write to the data port: a raised line is ignored at its end iff its bit was one, and enters IRR otherwise |
| `Protocol.MaskStands` | sim/PIC.h:178-181 | Raises, acknowledgements, commands and EOIs leave the mask alone in every run |
| `Protocol.AcksRise` | sim/cppmodel/Emulate.cpp:509-515 | Every acknowledgement pushes a line of higher priority than all in service |
| `Protocol.EoiRetiresLatest` | sim/PIC.h:151-159 | Non-specific EOI retires the line acknowledged last of those still in service |
| `Protocol.SpecificEoiRetires` | sim/PIC.h:160-162 | Specific EOI retires the named line from any place of the stack and no other |
| `Protocol.RaiseReachesIff` | sim/PIC.h:65-82 | From the state before the raise: a request reaches the slot iff the line is not masked, no line in service is at or above the highest request, and that is not line 0 of base 0; otherwise the slot is kept, or cleared by line 0 of base 0 |
| `Protocol.LineZeroWipes` | sim/PIC.h:78-79 | The concrete wipe: with base 0 and vector 3 pending, raising line 0 clears the slot |
| `Protocol.RaisedInService` | sim/PIC.h:74-75 | The concrete wait: a line raised again during its own service is not signalled by the EOI that follows |
| `Protocol.RequestLostIff` | sim/PIC.h:78-79 | A signalled request is lost (vector 0 reads as no request) exactly when the base is 0 and line 0 is requested |
| `Protocol.LineZeroLost` | sim/PIC.h:116-119 | The concrete loss: after an ICW2 below 8 the request of line 0 stays in IRR and the CPU has none |
| `Protocol.RebaseMisses` | sim/PIC.h:84-88 | A base changed while a request is pending makes the acknowledgement miss the eight lines, always and only then |
| `Protocol.LineZeroMissed` | sim/PIC.h:84-88 | The concrete miss: vector 8 pending while ICW2 moves the base from 8 to 16 |
| `Simulator.SoftwareCpu.RaiseIrq` | sim/cppmodel/SoftwareCPU.h:169-172 | The two objects wired together do what the protocol says of a raised line |
| `Simulator.SoftwareCpu.Signals` | sim/common/CPU.h:236-239 | The acknowledge callback reaches the controller with a vector in range |
| `Simulator.SoftwareCpu.StepWithIo` | sim/cppmodel/SoftwareCPU.h:57-60 | A step of the two objects is the protocol's step and keeps its invariant |
| `Cpu.EvenFits` | sim/common/Memory.cpp:29-51 | With SP even no push ever fails the memory assertion |
| `Cpu.OddFits` | sim/common/Memory.cpp:29-51 | A word access fails the assertion exactly at the last byte of memory |
| `Cpu.Emulator.PushWord` | sim/cppmodel/Emulate.cpp:1379-1384 | The method changes the state as Push says |
| `Cpu.Emulator.PopWord` | sim/cppmodel/Emulate.cpp:1386-1393 | The method changes the state as Pop says |
| `Cpu.Emulator.EnterInterrupt` | sim/cppmodel/instructions/int.cpp:38-57 | The entry sequence pushes FLAGS, CS and IP, clears IF and TF and jumps through the vector |
| `Cpu.Emulator.SoftwareInterrupt` | sim/cppmodel/instructions/int.cpp:38-57 | INT N returns behind the instruction |
| `Cpu.Emulator.Breakpoint` | sim/cppmodel/instructions/int.cpp:18-36 | INT 3 is INT N with n = 3 |
| `Cpu.Emulator.InterruptOnOverflow` | sim/cppmodel/instructions/int.cpp:59-79 | INTO enters iff OF is set |
| `Cpu.Emulator.TakeNmi` | sim/cppmodel/Emulate.cpp:486-507 | handle_nmi with its single-step trap |
| `Cpu.Emulator.TakeIrq` | sim/cppmodel/Emulate.cpp:509-534 | handle_irq with its single-step trap, handing back the vector it acknowledges |
| `Cpu.Emulator.TakeSingleStep` | sim/cppmodel/Emulate.cpp:536-555 | The trap is taken iff TF was set and no shadow holds it |
| `Cpu.Emulator.InterruptReturn` | sim/cppmodel/instructions/ret.cpp:58-68 | IRET pops IP, CS and FLAGS in that order |
| `Cpu.Emulator.Arithmetic` | sim/cppmodel/instructions/adc.cpp:73-88 | ADD, ADC, SUB, SBB and CMP store exactly the six arithmetic flags |
| `Cpu.Emulator.IncOrDec` | sim/cppmodel/instructions/inc_dec.cpp:65-105 | INC and DEC store the arithmetic flags without CF |
| `Cpu.Emulator.JumpIf` | sim/cppmodel/instructions/jmp.cpp:44-93 | IP moves by length, plus the displacement iff the condition holds, modulo 2^16 |
| `Cpu.DaaSteps` | sim/cppmodel/instructions/daa.cpp:19-42 | The 16-bit steps of DAA give the flags and AL of the decimal theorems |
| `Cpu.DasSteps` | sim/cppmodel/instructions/das.cpp:19-52 | The 16-bit steps of DAS give the flags and AL of the decimal theorems |
| `Cpu.Emulator.DecimalAdjustAdd` | sim/cppmodel/instructions/daa.cpp:19-42 | DAA stores AL and leaves AH |
| `Cpu.Emulator.DecimalAdjustSubtract` | sim/cppmodel/instructions/das.cpp:19-52 | DAS stores AL and leaves AH |
| `Cpu.Emulator.Multiply` | sim/cppmodel/instructions/mul.cpp:36-52 | MUL in place |
| `Cpu.Emulator.SignedMultiply` | sim/cppmodel/instructions/imul.cpp:36-52 | IMUL in place |
| `Cpu.Emulator.Divide` | sim/cppmodel/instructions/div.cpp:51-81 | DIV in place, the divide error entering vector 0 with IP on the instruction; the stack is needed only then |
| `Cpu.Emulator.SignedDivide` | sim/cppmodel/instructions/div.cpp:117-148 | IDIV in place, with the same divide error and the same need of the stack |
| `Cpu.Emulator.EnterFrame` | sim/cppmodel/instructions/enter.cpp:18-37 | ENTER in place, for every SP and BP whose words lie inside memory |
| `Cpu.Emulator.LeaveFrame` | sim/cppmodel/instructions/leave.cpp:18-22 | LEAVE in place |
| `Cpu.Emulator.StringPrimitive` | sim/cppmodel/instructions/movs.cpp:18-35 | One MOVSB, CMPSB or SCASB in place, in the direction of DF |
| `Cpu.Emulator.RepPass` | sim/cppmodel/Emulate.cpp:432-437 | A pass of do_rep's loop and its decision to stop |
| `Cpu.Emulator.DoRep` | sim/cppmodel/Emulate.cpp:424-438 | do_rep is one execution without a prefix and the repeat function of the block theorems with one |
| `Cpu.Emulator.Execute` | sim/cppmodel/Emulate.cpp:592-600 | An instruction ends the shadow; STI, MOV sr and POP sr start it |
| `Cpu.Emulator.ServePending` | sim/cppmodel/Emulate.cpp:560-578 | The NMI is served before the IRQ |
| `Cpu.Emulator.TakeStep` | sim/cppmodel/Emulate.cpp:557-581 | step in place does what the run theorems speak of, with the acts it performed |
| `SdCard.SpiCard.Transfer` | sim/SPI.cpp:72-118 | One byte exchange is one step of the card's state machine, all five states |
| `SdCard.SpiCard.TransmitReady` | sim/SPI.cpp:120-167 | A known command is answered when seven bytes are in, an unknown one at once with an error |
| `SdCard.SpiCard.ReadBlock` | sim/SPI.cpp:169-186 | The queue is padding, R1, padding, start token, the 512 disk bytes at the big-endian address, and two checksum bytes |
| `SdCard.SpiCard.WriteBlock` | sim/SPI.cpp:188-204 | The write command is accepted and the position set |
| `SdCard.SpiCard.Write8` | sim/SPI.cpp:36-48 | Byte writes change one half of the control register or make one transfer |
| `SdCard.SpiCard.Write16` | sim/SPI.cpp:50-54 | A word write to the transfer port makes exactly one transfer |
| `SdCard.SpiCard.Read16` | sim/SPI.cpp:56-70 | The transfer port reads the byte received last and never shows busy |
| `SdExchange.FrameArrives` | sim/SPI.cpp:72-88 | A command frame sent to an idle card is complete after eight steps, with the whole answer queued |
| `SdExchange.FrameSilent` | sim/SPI.cpp:72-88 | Until then the card answers nothing but 0xff |
| `SdExchange.CommandAnswer` | sim/SPI.cpp:72-98 | The whole infinite answer to a command frame, byte by byte |
| `SdExchange.Settle` | sim/SPI.cpp:89-98 | After its answer the card is idle with both buffers empty, or waiting for the block of a write |
| `SdExchange.BlockArrives` | sim/SPI.cpp:99-107 | k data bytes of a block change exactly k disk bytes in order |
| `SdExchange.BlockAnswer` | sim/SPI.cpp:104-117 | The first answer to a data block that is not idle is 0xaa, two steps before the data response |
| `SdExchange.BlockSettles` | sim/SPI.cpp:104-117 | After the block the disk holds it and the card is idle |
| `SdDriver.Driver.SpiXfer` | bios/sd.c:48-67 | For every exchange in which the awaited answer comes the loop ends, stores the answers from the first that is not 0xff, and has sent the card exactly the bytes the buffer held at first, so none was overwritten before it was sent; the loop counter is StoredAfter at every step |
| `SdExchange.ReadyAnswersIff` | sim/SPI.cpp:72-118 | A card between commands ever answers iff it is selected and some byte sent is not 0xff; an unknown command is answered too |
| `SdExchange.WaitingAnswersIff` | sim/SPI.cpp:99-117 | A card that waits for a block ever answers iff the start token is sent |
| `SdDriver.WaitRun` | bios/sd.c:48-67 | Whenever the card ever answers, the exchange has a run that meets what SpiXfer requires |
| `SdDriver.WaitEndsIff` | bios/sd.c:53-66 | From card and buffer: a waiting exchange with a card between commands stores its answers iff the card is selected and some byte to be sent is not 0xff |
| `SdDriver.BlockWaitEndsIff` | bios/sd.c:53-66 | The same with a card that waits for a block: iff the start token is sent |
| `SdDriver.CompletionPollHangs` | bios/sd.c:318-330 | The concrete call: the poll for write completion against the card that has just taken a block never ends |
| `SdDriver.Driver.SpiDoCommand` | bios/sd.c:116-135 | A command exchange with the card: the buffer holds the answer from its first byte, the card has settled, the rest of the buffer is kept |
| `SdDriver.Driver.FindR1Response` | bios/sd.c:137-153 | The first byte of the buffer that is not 0xff, or -1 iff there is none |
| `SdDriver.Driver.FindDataStart` | bios/sd.c:272-280 | The byte behind the first start token after R1, or -1 iff there is none |
| `SdDriver.Driver.ReceiveBlock` | bios/sd.c:375-399 | The 512 disk bytes lie in the buffer at the offset found |
| `SdDriver.Driver.ReadSector` | bios/sd.c:361-405 | For every image, sector and destination: success, byte k of the sector at offset (daddr + k) mod 2^16 for all 512, every other offset unchanged, card idle with empty buffers |
| `SdDriver.Driver.SdMakeWriteRequest` | bios/sd.c:282-299 | The card is left waiting for a block at the address |
| `SdDriver.AddressBytes` | bios/sd.c:375-378 | The most significant byte of an address goes first, in the driver and in the card |
| `SdDriver.Driver.SdWriteBlock` | bios/sd.c:301-311 | Byte k from offset (saddr + k) mod 2^16 reaches the disk at the card's position plus k for all 512, the rest of the image is kept and the card is idle again; 0xaa is left as the packet response |
| `SdDriver.Driver.WriteSector` | bios/sd.c:332-359 | The sector holds the 512 bytes from the wrapping offsets at saddr, the rest of the image is kept, the card is resynchronized, yet the result is always -1 |
| `SdDriver.WriteReportsFailure` | bios/sd.c:332-359 | The concrete case: a blank card ends up holding the sector and -1 is returned |
| `SdDriver.Driver.WriteThenRead` | bios/sd.c:332-405 | A sector written from saddr and read back to daddr gives the same 512 bytes, any other sector is as it was, and no other byte of memory changes |
| `SdDriver.WrittenSectorReadsBack` | sim/SPI.cpp:104-107 | Patching one sector of the image changes that sector to the data and no other |
| `SdDriver.Driver.SdSendReadOcr` | bios/sd.c:186-215 | The card reports standard capacity, so byte addressing is selected |
| `SdDriver.Driver.SdWaitReady` | bios/sd.c:231-253 | The initialization loop ends |
| `SdDriver.Driver.SdInit` | bios/sd.c:407-425 | Initialization reaches its end without panic, the card ready and the disk untouched |
| `SdDriver.Driver.DiskRead` | bios/disk.c:42-70 | Reads compose: byte k of all the sectors lies at offset (daddr + k) mod 2^16, of more than 64 K the last 64 K, and every offset not reached is unchanged |
| `SdDriver.Driver.DiskWrite` | bios/disk.c:72-103 | The write service writes the 512 bytes from the wrapping offsets at daddr to the first sector, counts none and stops, for every count above zero |
| `Wheel.Driver.AtCycle` | tests/rtl/VerilogDriver.h:241-251 | A request is added to the record with its due cycle, and every bucket still holds exactly the requests due in its cycle, in order |
| `Wheel.Driver.Periodic` | tests/rtl/VerilogDriver.h:79-82 | A periodic handler joins the handlers of its kind and touches nothing else |
| `Wheel.Driver.AfterNCycles` | tests/rtl/VerilogDriver.h:75-78 | The same for a distance |
| `Wheel.Driver.RunDeferredEvents` | tests/rtl/VerilogDriver.h:231-239 | Exactly the callbacks due in this cycle run, in order, with all they request themselves |
| `Wheel.Driver.OneCycle` | tests/rtl/VerilogDriver.h:202-218 | A cycle runs setup handlers, due callbacks and capture handlers as the reference does |
| `Wheel.Driver.RunCycles` | tests/rtl/VerilogDriver.h:195-221 | Any number of cycles refines the reference |
| `Wheel.KeepsCycle` | tests/rtl/VerilogDriver.h:237-238 | Callbacks cannot change what was due in this or an earlier cycle |
| `Wheel.CyclePunctual` | tests/rtl/VerilogDriver.h:199-218 | A cycle keeps: each past cycle ran exactly the requests due in it, once each, in order |
| `Wheel.CycleLog` | tests/rtl/VerilogDriver.h:199-218 | In a cycle run the setup handlers, then the deferred events due in it, then the capture handlers, each once and in the order they were made, and nothing else |
| `Wheel.DrivenPunctual` | tests/rtl/VerilogDriver.h:195-251 | The same over every run of requests and cycles, with callbacks that request anything anywhere |
| `Wheel.RequestServed` | tests/rtl/VerilogDriver.h:231-251 | Every recorded request whose due cycle is past has run in that cycle behind the earlier requests for it, and in no other |
| `Wheel.PlacesDistinct` | tests/rtl/VerilogDriver.h:241-251 | No two requests have the same cycle and place, so none runs in the place of another |
| `Wheel.FiringRequested` | tests/rtl/VerilogDriver.h:231-239 | Every deferred event that ran is a request of that cycle and place |
| `Wheel.DrivenKept` | tests/rtl/VerilogDriver.h:195-251 | A request once made stays on record through every run |
| `Wheel.DrivenLater` | tests/rtl/VerilogDriver.h:231-251 | What was due in a past cycle never changes |
| `Wheel.RequestFires` | tests/rtl/VerilogDriver.h:75-78 | A request made between cycles runs exactly the distance asked later, behind the earlier requests for that cycle, whatever follows |
| `Wheel.CallbackRequestFires` | tests/rtl/VerilogDriver.h:195-251 | A request made by any callback in a cycle runs the distance asked later, or 64 cycles later if the distance is 0 and the callback is deferred or a capture handler |
| `Wheel.OnTimeIff` | tests/rtl/VerilogDriver.h:231-251 | What ran: a callback's request runs in the cycle it asked for iff the distance is not 0 or the callback is a setup handler |
| `Wheel.LateEvent` | tests/rtl/VerilogDriver.h:231-239 | The concrete run: callback 1 asks for callback 2 in cycle 0, which runs only callback 1; callback 2 runs in cycle 64 |
| `Printk.ReverseDigits` | bios/printk.c:66-76 | The do-while loop leaves the digits of the value, least significant first, within the 32-byte buffer |
| `Printk.Formatter.OutputChar` | bios/printk.c:36-42 | The buffer holds the first maxlen - 1 characters of the output and is otherwise untouched |
| `Printk.Formatter.OutputBufReversed` | bios/printk.c:44-55 | The digits come out most significant first |
| `Printk.Formatter.OutputUnsigned` | bios/printk.c:66-80 | The output is extended by the padded numeral |
| `Printk.Formatter.OutputPointer` | bios/printk.c:88-101 | "(null)", or 0x and at least four hexadecimal places |
| `Printk.Formatter.OutputItem` | bios/printk.c:103-115 | The output is extended by the conversion of the argument, whose value `ConversionPrints` fixes |
| `Printk.Formatter.ParseSpecifier` | bios/printk.c:138-144 | The zero flag and the precision are read off the format |
| `Printk.FormatNext` | bios/printk.c:152-159 | One pass of the loop outputs the next conversion or character of the rendering |
| `Printk.StringFormat` | bios/printk.c:146-164 | The buffer gets the first min(|full|, maxlen - 1) characters of the unbounded rendering and a NUL, and nothing behind it is written; of a format that is malformed only behind the point where the buffer is full, the rendering up to there |
| `Printk.ConversionPrints` | bios/printk.c:103-115 | In a full rendering %u is the decimal numeral of its argument and %x the hexadecimal one, with the places the digits of the specifier ask for under the zero flag, %p is 0x and four hexadecimal digits or (null), %s the string and any other conversion the character of the low byte; the rest is rendered with the remaining arguments |
| `Printk.PlainPrints` | bios/printk.c:157-159 | A character that is not a percent sign is printed as it is and consumes no argument |
| `Printk.PrecisionReads` | bios/printk.c:117-126 | The precision is the decimal number that the digits spell |
| `Printk.SampleFormats` | bios/printk.c:103-115 | %u of 10 is 10, %02x of 0xfc is fc and %04x is 00fc |
| `Printk.ShownOfFull` | bios/printk.c:152-159 | What is read of a well-formed format before the buffer is full renders to the start of its full rendering |
| `Printk.PercentPrints` | bios/printk.c:110-111 | `%%` prints a percent sign iff the argument it consumes is one |
| `Printk.PercentPercent` | bios/printk.c:110-111 | The concrete cases: `%%` without an argument is not well formed, with 65 it prints A |
| `Printk.DigitsRead` | bios/printk.c:73-76 | The digits read back in the same base give the value |
| `Printk.NumeralReads` | bios/printk.c:66-80 | A padded numeral reads back as its value in digits of its base, is as long as the precision asks with the zero flag, and has no leading zero beyond that |

## Left out

- Instruction fetch, ModRM decoding, prefixes, the opcode table and instructions of 16 or more bytes: an instruction's length and operands are parameters, and in `Stepping` every instruction but the three that set the shadow is an arbitrary change of registers, flags and memory.
- Cpu.Emulator.Execute: an instruction other than STI, MOV sr and POP sr takes its new registers, flags and memory as given; the handlers proved in the same class are not dispatched from it.
- SdDriver.Driver.SpiXfer: an exchange that waits for an answer from a card that only ever sends 0xff never ends in the source and is outside the method's contract; `WaitEndsIff` and `BlockWaitEndsIff` say exactly which exchanges end.
- Pic.Controller.IntaHandler: a vector below the base, or 32 or more above it, is a shift that C++ leaves undefined.
- Bcd.DaaDigits: SF, ZF and PF after DAA keep their old values in the code, so nothing else is claimed of them.
- MulDiv.IdivUndoesImul: INT_MIN divided by -1 is computed in 32 bits, which C++ leaves undefined; the model divides exactly and faults.
- Word accesses at the last byte of memory: the source asserts; the specification functions drop the high byte there and the methods require that it does not happen.
- The 8-bit MUL and DIV forms, the word forms of the string instructions, AND, OR, XOR and the moves: they add only easier copies of what is proved.
- The registers as an array indexed with byte aliases: here a record, with AL as the low byte of AX; the written markers and the PSEUDO_286 build are not part of this model.
- Callbacks: raise_irq of the controller and the acknowledge callback are results that `Simulator` passes on; port reads of the controller (`ReadCommand`, `ReadData`) do not occur inside a step.
- Liveness after EOI: OCW2 does not look at IRR again, so a request raised while its own line or a higher one was in service waits in IRR until some line is raised; only safety is claimed.
- Protocol.RunCoherent: the vector base is at least 8 and changes only to itself or while no request is pending; the uninitialized base of the source is a constructor parameter.
- The file behind the disk image is a byte sequence with a position; sectors are in range, so the stream's end-of-file state does not arise.
- memcpy_seg is a block copy into or out of a 64 KB segment that is not the driver's own buffer; mouse suspend and resume and the messages do nothing.
- The extra read in find_data_start, which tests the token before the bound: it cannot change the result.
- wait_for_write_completion: unreachable in the simulator, since the packet response is never accepted.
- Sectors from the CHS registers of the disk services: the model starts from the block number.
- Wheel: the design's evaluations, clock, trace and reset are not modelled; callbacks are names whose requests are an arbitrary function of everything that has run, and periodic handlers are registered outside a cycle.
- Printk.StringFormat: a format that, in the part that is read, ends inside a conversion, lacks an argument or overflows a precision is undefined in C and excluded, as is maxlen 0.
- Window, keyboard, mouse, timer, serialization, the RTL drivers and the Verilog are not part of this model.
