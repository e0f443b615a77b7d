# Verified models of the PIC firmware modules

Dafny models of the parts of this repository that carry a protocol, a scheduler, a search or nontrivial
arithmetic, with proofs of what they promise. The firmware itself (C and inline assembly for 8-bit PICs,
Python for the build) is not executed. `dafny verify dfyconfig.toml` checks the whole project.

Code that updates state in place is a class or a method with loops here, specified by a pure function or
step machine; the theorems are about those functions and machines, over every run.

| component | files | main results |
|---|---|---|
| software UART | `Timer1`, `SwUartLine`, `SwUartTx`, `SwUartRaces`, `SwUartRx`, `SwUart` | no drift over bursts of any length, for every interrupt latency below a bit; end-to-end decoding between two bit periods under the drift and latency budget; exactly when a write in the idle window damages the line |
| division, multiply, square root | `PicAsm`, `PicDivide`, `PicKernels`, `PicMultiply`, `PicShiftAdd` | the byte-and-carry loops compute the host's `/`, `%`, `*` on exactly the stated domains |
| scheduler | `Tasks`, `TaskManager` | rounds run exactly their snapshot for arbitrary task bodies and ticks; exact due ticks; one-shots run once; when a stop takes effect |
| Modbus slave | `Bits`, `Xor16`, `Crc16`, `CrcPoly`, `ModbusMap`, `ModbusSlave` | the CRC is the remainder by the standards' generators; detection of every 16-bit burst and every odd number of flipped bits at every length; the in-place slave refines a map over plain sequences, whose answers are given byte by byte |
| build graph | `Paths`, `Manifest`, `AffectedModules` | cycle check exact, dependency order, reversed reachability |
| timers | `TickPeriod`, `Timer246`, `Timer2`, `Timebase` | a pruned search is globally optimal exactly up to 65791 cycles; interrupt counts are exact quotients; which settings of the timebase tick, end to end |
| settings, serial, PID | `Settings`, `Ring`, `SerialTx`, `SerialRx`, `Serial`, `Pid` | persistence round trips and corruption detection; both serial rings under any interleaving of interrupts and pumped callbacks, with the exact conditions for order and loss; PID rails, direction of control and bumpless hand-over |

`Arith`, `Bytes` and `Words` hold shared arithmetic facts and the fixed-width types.

## Where the code does less than its comments say

Each of these is a proved equivalence or a proved concrete input, named in the table below.

- The asm division loops agree with the host exactly for denominators up to 0xFF00: the borrow idiom
  wraps when the high byte of the denominator is 0xFF (`PicDivide.DivideExactIff`).
- The PIC16 16x16 multiply rotates the low byte of its multiplier before the high one, so that the high byte
  never takes part, and can lose a carry besides: it is the product exactly under the condition of
  `PicShiftAdd.ProductIff`. The BCD conversion built on it is right for exactly the numbers of at most three
  digits (`PicShiftAdd.BcdIff`).
- The square root "for the full 0..65535 range" returns 0 for 65535 where `unsigned int` has 16 bits
  (`PicKernels.SqrtU16`).
- The PIC16 add and subtract lose their flag exactly when the operand's high byte is 0xFF and the low
  bytes carry or borrow (`PicMultiply.AddU16Pic16`, `PicMultiply.SubU16Pic16`).
- The UART transmitter counts as idle from the handling of the last data bit on, two bits before the line
  is free (`SwUartRaces.IdleWindowIsReachable`). A write there that rewrites the compare register before a
  pending match leaves the line clean exactly when the module is off and the stop bit is over at the new
  start (`SwUartRaces.IdleWriteIsCleanIff`). When the stop edge matches before the compare register is
  rewritten and is handled after the write, the line stays clean exactly when the start edge has matched by
  then and the stop bit is over at it (`SwUartRaces.HandledLateIsCleanIff`). When the handler interrupts the
  write, only one case loses nothing (`SwUartRaces.InterruptedWriteLosesBits`).
- A start that is armed after its deadline is missed, as `epic-swuart/docs/ARCHITECTURE.md` says of the
  schedule-miss hazard, but no frame is garbled by it: with nothing else pending the frame starts one turn of
  the timer later, whole (`SwUartTx.StartIsPromptIff`, `SwUartTx.SessionWaveform`). It is a re-arming within
  a frame that must not miss its bit (`SwUartTx.RearmIsExactIff`).
- A UART write held up until its bytes have been sent takes a byte from an empty ring, whose 8-bit count
  wraps (`SwUartRaces.HeldUpWriteFindsEmptyRing`, `SwUartRaces.KickOnEmptyRing`).
- A ready task of priority 255 is never run (`Tasks.ReadyAreServedIff`).
- A stopped task is not skipped until it is started again, as `epic-taskmgr/docs/API.md` has it, when the
  round in progress has selected it and not yet come to it: then, and only then, it is entered once more
  (`Tasks.StopHoldsIff`).
- A settings blob of 255 bytes overlaps its own CRC and loads back only by coincidence
  (`Settings.RoundTripIff`); of the 256 blobs that share their first 254 bytes at most one does
  (`Settings.OneOfManyLoads`).
- The PID output is cast to 16 bits before it is clamped: it is the clamped sum exactly under the condition
  of `Pid.AutoOutputIff`. The hand-over from manual to automatic is bumpless exactly under that of
  `Pid.BumplessIff`, which is wider than "the integrator was not clamped".
- The serial transmit callback tests the count before it masks interrupts and writes the transmit register
  after it has let them in again. Pumped from the main loop, it pops an empty ring exactly when interrupts
  send every byte in between (`SerialTx.PumpUnderflowsIff`), and its byte is overtaken exactly when one they
  send differs from it (`SerialTx.PumpOvertakesIff`). The byte stream is in order exactly as long as neither
  has happened (`SerialTx.FifoIff`).
- The serial receive callback masks nothing. Pumped from the main loop and interrupted, it keeps the order
  exactly under the condition of `SerialRx.CallIff`, and the ring is in order at every return from it exactly
  as long as every call has met that condition (`SerialRx.ReadsAreKeptIff`).
- The simulators of the PIC16F87XA and the PIC18 compare Timer2 with its period register after an eight-bit
  increment, so with a period register of 255 it never ticks (`Timer2.RaisedIff`, `Timebase.TicksIff`). The
  timebase settles on 255 at 16.384 MHz, for one (`Timebase.NeverTicksAt16384`).
- The simulated Timer2/4/6 keeps its scaler counters across a start, so a restart is exact only if
  nothing is left in them (`Timer246.StartIsExactIff`); a setting can be restarted at any time only if
  neither of its scalers counts (`Timer246.RestartIsExactIff`).

## Model

| member | source | states |
|---|---|---|
| `SwUart.CyclesPerBitIsNearest` | epic-swuart/src/epic_swuart.c:50-56 | at least one count, and no other 16-bit bit time is closer to the requested baud rate, clamped results included |
| `Timer1.MatchIsExact` | epic-swuart/src/epic_swuart.c:115-117 | a 16-bit deadline armed less than one wrap ahead matches at exactly the intended unbounded time |
| `SwUartLine.FrameIs` | epic-swuart/src/epic_swuart.c:92-112 | a frame on the wire is one low cell, bits 0 to 7 of the byte, one high cell |
| `SwUartLine.PinInCell` | epic-swuart/src/epic_swuart.c:77-84 | with all frames driven, the pin shows the level of a frame's k-th bit throughout that bit cell, and the stop level until the next frame |
| `SwUartTx.PutsAccept` | epic-swuart/src/epic_swuart.c:374-381 | bytes offered one by one are accepted up to the first that finds eight in the ring, and those are the ones a write reports |
| `SwUartTx.WriteIsSteps` | epic-swuart/src/epic_swuart.c:370-406 | a whole write, the bytes it drops included, is one interleaving of the session machine: the bytes that fit are accepted, and the state is that of the in-place write |
| `SwUartTx.StepKeeps` | epic-swuart/src/epic_swuart.c:85-118 | every legal step (late handler, stored byte, end of a write) keeps the transmit invariant |
| `SwUartTx.StartIsPromptIff` | epic-swuart/src/epic_swuart.c:401-403 | the start edge comes 120 cycles after the counter was read if and only if the module is armed before that; armed later, one turn of the timer after that |
| `SwUartTx.RearmIsExactIff` | epic-swuart/src/epic_swuart.c:115-117 | a re-armed compare matches exactly one bit after the last match if and only if the handler takes less than a bit |
| `SwUartTx.SessionWaveform` | epic-swuart/src/epic_swuart.c:85-118 | over every legal session, any handler latencies below one bit and any delay in arming a start, edge k of a frame is at exactly start + k bit times with the frame's level, frames start at least ten bits apart, and accepted bytes = loaded bytes ++ ring |
| `SwUartTx.LoadsOnTime` | epic-swuart/src/epic_swuart.c:91-117 | a frame that the handler loads starts exactly ten bits after the one before |
| `SwUartTx.BurstWaveform` | epic-swuart/src/epic_swuart.c:91-117 | no drift over a burst: over every legal session and any latencies below one bit, edge j of a burst, counted across all its frames, is at exactly the start of the burst + j bit times, with the level its frame calls for |
| `SwUartTx.NoDriftWhileOn` | epic-swuart/src/epic_swuart.c:85-118 | as long as the module stays on, whatever is written meanwhile, all edges belong to the burst of the frame that was being sent at first |
| `SwUartTx.Drains` | epic-swuart/src/epic_swuart.c:85-118 | left to itself, with any handler latencies below one bit, a running transmitter sends every accepted byte in whole frames and switches off after exactly the matches that takes |
| `SwUartRaces.IdleWriteIsCleanIff` | epic-swuart/src/epic_swuart.c:382-404 | a write that finds the machine idle and rewrites the compare register before any pending match, however late it arms an idle module, leaves the line clean, stop bits whole, if and only if the module is off and the last stop bit is over at the new start |
| `SwUartRaces.MatchInOldMode` | epic-swuart/src/epic_swuart.c:402-403 | a new compare value that matches before the mode is set drives the stop edge in its place if and only if it equals the old value |
| `SwUartRaces.StopMatchedIff` | epic-swuart/src/epic_swuart.c:401-403 | the stop edge takes place unless both registers are rewritten before anything matches or the new value matches elsewhere in the old mode |
| `SwUartRaces.HandledLateIsCleanIff` | epic-swuart/src/epic_swuart.c:91-118 | when the stop edge matches before the compare register is rewritten (or in the old mode, the new value being the old one) and its handler runs after the write, the line stays clean if and only if the new start edge has matched by then and the stop bit is over at it |
| `SwUartRaces.IdleWindowIsReachable` | epic-swuart/src/epic_swuart.c:100-112 | two writes from the start lead, whatever the latencies, to the machine idle with the stop edge pending and a byte queued |
| `SwUartRaces.OwedForGood` | epic-swuart/src/epic_swuart.c:85-118 | in any state, transitions that the bytes taken call for and the machine no longer makes are never made up by any legal continuation |
| `SwUartRaces.InterruptedWriteLosesBits` | epic-swuart/src/epic_swuart.c:396-403 | a write interrupted by the stop edge's handler costs ten transitions or one, depending on the statement it lands before, and none if and only if the byte had been taken, the state not yet stored, and no further byte was waiting |
| `SwUartRaces.InterruptedTakes` | epic-swuart/src/epic_swuart.c:396-403 | exactly the bytes taken leave the ring, a missing one leaves 255 stale ones, and which byte is in the shift register, for every statement the handler can interrupt |
| `SwUartRaces.InterruptedArms` | epic-swuart/src/epic_swuart.c:396-403 | the falling edge, and the deadline with it, is 120 cycles after the counter was read, one bit later where the handler moved the new deadline on |
| `SwUartRaces.InterruptedAtRest` | epic-swuart/src/epic_swuart.c:396-403 | in that one case the state is that of a write made after the handler |
| `SwUartRaces.HeldUpWriteFindsEmptyRing` | epic-swuart/src/epic_swuart.c:374-382 | a write that stores a byte on a running machine and is held up for the matches it takes to send everything finds it idle with an empty ring |
| `SwUartRaces.KickOnEmptyRing` | epic-swuart/src/epic_swuart.c:396-398 | the start of a frame leaves the ring within its size if and only if it found a byte; otherwise it sends a stale one and leaves 255, and later writes find no room |
| `SwUartRx.SampleInCell` | epic-swuart/src/epic_swuart.c:182-237 | under the drift and latency budget each of the ten samples of a frame falls inside its own bit cell |
| `SwUartRx.BudgetIsExact` | epic-swuart/src/epic_swuart.c:198-236 | the budget holds if and only if, at every latency it allows, the confirming compare is armed in time and all ten samples fall inside their cells |
| `SwUartRx.ConfirmIsTimelyIff` | epic-swuart/src/epic_swuart.c:198-201 | the confirming compare matches half a bit after the start edge if and only if the capture handler takes less than that |
| `SwUartRx.ReceivedAll` | epic-swuart/src/epic_swuart.c:232-234 | eight samples shifted in from the top rebuild the byte sent least significant bit first |
| `SwUartRx.CaptureIsStart` | epic-swuart/src/epic_swuart.c:182-203 | while listening, the only fall a capture can see is the next frame's start edge, and the register still holds it when read |
| `SwUartRx.StepKeeps` | epic-swuart/src/epic_swuart.c:180-237 | every receiver step keeps: decoded is a prefix of what was sent, each decoded byte is delivered, queued or counted lost |
| `SwUartRx.NeverStuck` | epic-swuart/src/epic_swuart.c:180-237 | until the last byte is decoded the receiver always has a next event |
| `SwUartRx.FinishedIff` | epic-swuart/src/epic_swuart.c:180-237 | nothing more can happen to the receiver if and only if every frame has been decoded |
| `SwUartRx.Decodes` | epic-swuart/src/epic_swuart.c:153-237 | every run against a complete burst decodes a prefix of the frames; it has at most eleven interrupts a frame, and has decoded all of them if and only if it has had as many |
| `SwUartRx.LosslessIff` | epic-swuart/src/epic_swuart.c:153-162 | over any run against any line, no decoded byte is lost if and only if decoded bytes never outrun the reads by more than the ring |
| `SwUartRx.ErrorsAreCounted` | epic-swuart/src/epic_swuart.c:153-230 | over any run against any line the error count is the bytes that met a full ring plus the bad stop bits, modulo 2^16 |
| `SwUartRx.EndToEnd` | epic-swuart/src/epic_swuart.c:85-237 | any transmit session received at another bit time within the budget: bytes decoded are those accepted, in order, with no framing error, and reads ++ ring equal them if the reader keeps up, which is exactly when none is lost; eleven receive interrupts a frame, never more, decode everything |
| `SwUartRx.CanFinish` | epic-swuart/src/epic_swuart.c:180-237 | however a run has gone so far, it can be carried on until everything sent is decoded |
| `SwUart.Channel.TxCompareEvent` | epic-swuart/src/epic_swuart.c:85-118 | the handler updates the handle and its CCP registers as the transmit machine prescribes, whatever state it finds |
| `SwUart.Channel.RxPush` | epic-swuart/src/epic_swuart.c:153-162 | the ring gains the byte, or the error count goes up when it is full |
| `SwUart.Channel.RxStopSample` | epic-swuart/src/epic_swuart.c:221-230 | the stop-bit branch is the receive machine's step |
| `SwUart.Channel.RxDataSample` | epic-swuart/src/epic_swuart.c:232-236 | the data-bit branch is the receive machine's step |
| `SwUart.Channel.RxCaptureEvent` | epic-swuart/src/epic_swuart.c:180-237 | the handler is the receive machine's step in every state |
| `SwUart.Channel.Write` | epic-swuart/src/epic_swuart.c:370-406 | accepts bytes in order, all of them or as many as make eight in the ring, and starts the machine if it was idle |
| `SwUart.Channel.StartFrame` | epic-swuart/src/epic_swuart.c:396-403 | starting takes the oldest queued byte and arms its start edge ahead of the counter; from an empty ring it takes what the wrapped count makes of the array |
| `SwUart.Channel.Read` | epic-swuart/src/epic_swuart.c:408-421 | returns the oldest bytes, as many as asked for or available; result ++ ring is the ring before |
| `Ring.Push` | epic-serial/src/epic_serial.c:103-105 | storing at the head appends to the queue the ring stands for and overwrites no queued byte |
| `Ring.Pop` | epic-serial/src/epic_serial.c:117-119 | reading at the tail removes the oldest byte of that queue |
| `Ring.PopEmpty` | epic-serial/src/epic_serial.c:50-52 | a pop at count zero wraps the count to 255: the queue is then the rest of the whole array repeated to 256 bytes |
| `Ring.PushSlots` | epic-serial/src/epic_serial.c:103-105 | a store replaces the oldest byte the array remembers by the new one |
| `Ring.ByteRing.Store` | epic-swuart/src/epic_swuart.c:376-378 | the contents grow by the byte at the end |
| `Ring.ByteRing.Fetch` | epic-swuart/src/epic_swuart.c:396-398 | the contents lose their first byte, which is returned; an empty ring behaves as if it held the array over and over |
| `PicDivide.IterateReduced` | epic-math/src/pic18/pic_math_div.c:52-79 | after k iterations the k high dividend bits have been divided: quotient and remainder stand in the registers |
| `PicDivide.DivideExact` | epic-math/src/pic16/pic_math_div.c:66-132 | for denominators 1..0xFF00 both kernels, with the 17-bit remainder, return the host's remainder and low quotient word for every numerator |
| `PicDivide.DivideExactIff` | epic-math/src/pic16/pic_math_div.c:41-56 | each kernel agrees with the host on all numerators if and only if the denominator is at most 0xFF00 |
| `PicDivide.WrapSpoilsZero` | epic-math/src/pic18/pic_math_div.c:63-76 | above 0xFF00 no numerator ever yields quotient 0 with remainder 0 |
| `PicKernels.Subtract` | epic-math/src/pic16/pic_math_div.c:39-44 | the byte instructions compute the 16-bit difference and the comparison for subtrahends up to 0xFF00, and the wrapping program beyond |
| `PicKernels.RestorePic16` | epic-math/src/pic16/pic_math_div.c:50-56 | adds back what a borrowing subtraction took, for denominators up to 0xFF00 |
| `PicKernels.RestorePic18` | epic-math/src/pic18/pic_math_div.c:72-76 | adds back what a borrowing subtraction took, for denominators up to 0xFF00 |
| `PicKernels.Step16` | epic-math/src/pic16/pic_math_div.c:33-56 | one pass of the 16/16 loop on byte cells is one division step on words |
| `PicKernels.Step32` | epic-math/src/pic16/pic_math_div.c:88-124 | one pass of the 32/16 loop, forced subtraction included, is one division step |
| `PicKernels.DivmodU16` | epic-math/src/pic16/pic_math_div.c:19-64 | the byte loop returns the kernel's result, and the host's for denominators up to 0xFF00 (zero reported) |
| `PicKernels.DivmodU32` | epic-math/src/pic18/pic_math_div.c:100-157 | the same for the 32/16 kernel |
| `PicKernels.DivmodS16` | epic-math/src/pic16/pic_math_div.c:138-152 | equals the host's truncated signed division for every pair, INT16_MIN / -1 and a zero denominator included |
| `PicKernels.WithSignsIsHost` | epic-math/src/host/pic_math_div.c:22-34 | signs reapplied to the magnitudes' quotient and remainder are C's truncated division after the casts |
| `PicKernels.NewtonStep` | epic-math/src/common/pic_math_sqrt.c:22-26 | from an estimate at or above the root the next is too, and one that does not decrease is the root |
| `PicKernels.SqrtU16` | epic-math/src/common/pic_math_sqrt.c:12-28 | r*r <= v < (r+1)*(r+1) for every v, except that 65535 gives 0 with a 16-bit unsigned int |
| `PicMultiply.MulU16` | epic-math/src/pic18/pic_math_mul.c:61-98 | four byte products summed with carries are the exact product; no carry leaves byte 3 |
| `PicMultiply.AddProduct` | epic-math/src/pic18/pic_math_mul.c:77-82 | adding one product at its byte offset loses nothing but the carry out of the window |
| `PicMultiply.NegateBytes` | epic-math/src/pic18/pic_math_addsub.c:112-128 | the zero-flag cascade turns four bytes into their two's complement |
| `PicMultiply.NegateS32` | epic-math/src/pic18/pic_math_addsub.c:112-128 | the 32-bit negation, zero kept |
| `PicMultiply.MulS16` | epic-math/src/pic18/pic_math_mul.c:107-117 | the exact signed product for every pair |
| `PicShiftAdd.MulU16` | epic-math/src/pic16/pic_math_mul.c:86-143 | the shift-and-add loop on byte cells returns the sum of the partial products of the multiplier's low byte, less 2^16 for each carry lost between the low bytes |
| `PicShiftAdd.ProductIff` | epic-math/src/pic16/pic_math_mul.c:111-137 | that is the product if and only if no carry is lost and the multiplier is below 256, or there is nothing to multiply |
| `PicShiftAdd.CarryIsLost` | epic-math/src/pic16/pic_math_mul.c:113-125 | 0x7FC0 times 3 comes out as 0x7F40 |
| `PicShiftAdd.SmallLosesNothing` | epic-math/src/pic16/pic_math_mul.c:113-125 | multiplicands below 510 never lose a carry |
| `PicShiftAdd.MulS16` | epic-math/src/pic16/pic_math_mul.c:150-160 | the signed form is the product if and only if the multiply of the magnitudes is |
| `PicShiftAdd.Bcd16ToBin` | epic-math/src/pic16/pic_math_bcd.c:27-37 | the loop weighs the digits with 1, 10, 100, 232 and 16 |
| `PicShiftAdd.BcdIff` | epic-math/include/pic_math.h:125-134 | that is the value of the digits modulo 2^16, as documented, if and only if the fourth and fifth are zero |
| `PicMultiply.AddU16Pic16` | epic-math/src/pic16/pic_math_addsub.c:27-46 | the sum is always right; the carry flag is right if and only if the high byte of b is not 0xFF under a low carry |
| `PicMultiply.SubU16Pic16` | epic-math/src/pic16/pic_math_addsub.c:61-80 | the difference is always right; the borrow flag under the same condition with a low borrow |
| `Tasks.UnreadyCounts` | epic-taskmgr/src/task_manager.c:173-192 | every pick uses up one ready flag, so the selection loop ends |
| `Tasks.SnapshotIsExact` | epic-taskmgr/src/task_manager.c:173-192 | the snapshot is exactly the ready tasks of priority below 255, each once, by priority then slot, and clears only their flags |
| `Tasks.SmallerRunsFirst` | epic-taskmgr/src/task_manager.c:174-185 | a smaller priority number runs first, then the smaller slot |
| `Tasks.ReadyAreServedIff` | epic-taskmgr/src/task_manager.c:176-181 | a round serves every ready task if and only if none has priority 255 |
| `Tasks.ExecKeeps` | epic-taskmgr/src/task_manager.c:164-209 | every step of a round, and every API call or tick inside it, keeps pending slots as they were at the snapshot |
| `Tasks.RoundsRunTheSnapshot` | epic-taskmgr/src/task_manager.c:164-209 | for arbitrary task bodies and ticks over any number of rounds, the bodies entered are those of the snapshot, in order, with its entry points and arguments, all of them when the round is over, never null |
| `Tasks.DueExactlyOnMultiples` | epic-taskmgr/src/task_manager.c:132-152 | after any run with n ticks an untouched periodic task is n modulo its period ticks past its last due one |
| `Tasks.DueOnNthTick` | epic-taskmgr/src/task_manager.c:57-118 | counted from a spawn, start or reset, the n-th tick makes the task ready if and only if the period divides n, whatever happens to other slots |
| `Tasks.NewPeriodSetsIn` | epic-taskmgr/src/task_manager.c:120-152 | after a change of period the next due tick comes as it would have, and then one every new period, whatever else goes on |
| `Tasks.ReadyAfterArming` | epic-taskmgr/src/task_manager.c:57-152 | until the next round, a task spawned, started or reset is ready if and only if its period in ticks has passed, one tick for a one-shot; a new period counts from the next arming only |
| `Tasks.SpawnedRuns` | epic-taskmgr/src/task_manager.c:57-82 | a spawn takes the first free slot, and until that is freed every entry calls the function and argument given, at the priority given |
| `Tasks.TicksAreCounted` | epic-taskmgr/src/task_manager.c:132-134 | the tick counter is the number of ticks modulo 2^16 |
| `Tasks.FreshIsIdle` | epic-taskmgr/src/task_manager.c:42-55 | after initialisation nothing is ready, however many ticks come, and slot 0 is free |
| `Tasks.ReadyWaitsForNextRound` | epic-taskmgr/src/task_manager.c:189-207 | a periodic task readied during a round is still ready when the next one starts |
| `Tasks.OneShotRunsOnce` | epic-taskmgr/src/task_manager.c:196-207 | a one-shot whose period is left alone is entered at most once per spawn, and freed as its body returns |
| `Tasks.StopHoldsIff` | epic-taskmgr/src/task_manager.c:96-104 | until it is armed again, a stopped task is entered exactly once more if the round in progress has selected it and not yet come to it, and never otherwise |
| `TaskManager.Manager.Spawn` | epic-taskmgr/src/task_manager.c:57-82 | fills the first free slot and returns it, or changes nothing and returns -1 for a null entry or a full table |
| `TaskManager.Manager.Start` | epic-taskmgr/src/task_manager.c:84-94 | re-arms and enables a used slot, ignores any other id |
| `TaskManager.Manager.Stop` | epic-taskmgr/src/task_manager.c:96-104 | disables a used slot and withdraws its ready flag |
| `TaskManager.Manager.Reset` | epic-taskmgr/src/task_manager.c:106-118 | re-arms a used slot |
| `TaskManager.Manager.SetPeriod` | epic-taskmgr/src/task_manager.c:120-128 | changes the period only |
| `TaskManager.Manager.Tick` | epic-taskmgr/src/task_manager.c:132-152 | the loop over the table in place is the tick on the whole table |
| `TaskManager.Manager.PickBest` | epic-taskmgr/src/task_manager.c:175-185 | the scan returns the runnable slot that comes before all others, or -1 |
| `TaskManager.Manager.TakeSnapshot` | epic-taskmgr/src/task_manager.c:172-193 | the selection loop terminates with the snapshot order and table |
| `TaskManager.Manager.RunOnce` | epic-taskmgr/src/task_manager.c:164-209 | a round in place, for any task bodies, is a legal run of the step machine, with the same table, ticks and calls |
| `Crc16.Update` | epic-settings/src/epic_settings.c:39-50 | the eight-step loop of either variant is the byte step of the CRC |
| `CrcPoly.CrcIff` | epic-modbus/src/epic_modbus.c:49-63 | a register value is the CRC if and only if the message times x^16, its first sixteen coefficients inverted, differs from it by a multiple of x^16 + x^15 + x^2 + 1 (Modbus) or x^16 + x^12 + x^5 + 1 (CCITT) |
| `Crc16.ModbusCheckValue` | epic-modbus/src/epic_modbus.c:49-63 | the CRC of the digits 1 to 9 is 0x4B37 |
| `Crc16.CcittCheckValue` | epic-settings/src/epic_settings.c:39-50 | the CRC of the digits 1 to 9 is 0x29B1 |
| `Crc16.ResidueIff` | epic-modbus/src/epic_modbus.c:315-319 | the register over its own two bytes is zero, and over no other two |
| `Crc16.CrcOkIffResidue` | epic-modbus/src/epic_modbus.c:315-319 | the two-byte comparison accepts a frame if and only if the CRC over all of it is zero |
| `Crc16.SerialIsCrc` | epic-modbus/src/epic_modbus.c:52-61 | taking the data bit by bit in wire order gives the register of the byte loop |
| `Crc16.StayApart` | epic-modbus/src/epic_modbus.c:54-60 | registers that part at a bit do not meet within the next 15, whatever the data |
| `Crc16.BurstDetected` | epic-modbus/src/epic_modbus.c:49-63 | every error burst of at most 16 bits in a valid string, CRC included, at any position and length, is detected |
| `Crc16.TwoByteErrorDetected` | epic-modbus/src/epic_modbus.c:49-63 | in particular any alteration within two adjacent bytes |
| `Crc16.OddErrorDetected` | epic-modbus/src/epic_modbus.c:49-63 | any odd number of flipped bits in a valid string is detected, wherever they are and at any length, in both variants |
| `Crc16.SecondDiffers` | epic-settings/src/epic_settings.c:39-50 | strings that differ in the last byte alone have CRCs that differ in the byte stored second |
| `Bits.GetIsShift` | epic-modbus/src/epic_modbus.c:77-80 | bits count from the least significant one |
| `Bits.PutSetsEntry` | epic-modbus/src/epic_modbus.c:83-90 | setting a packed bit sets that entry of the table and no other |
| `Bits.UnpackPack` | epic-modbus/src/epic_modbus.c:139-146 | packing a run of bits loses nothing |
| `ModbusMap.BurstIsDropped` | epic-modbus/src/epic_modbus.c:309-319 | a valid frame hit by a burst of at most 16 bits changes no register or coil and is not answered |
| `ModbusMap.DamageIsDropped` | epic-modbus/src/epic_modbus.c:309-319 | the same for damage within two adjacent bytes |
| `ModbusMap.OddErrorIsDropped` | epic-modbus/src/epic_modbus.c:309-319 | the same for any odd number of flipped bits |
| `ModbusMap.RepliesAreSealed` | epic-modbus/src/epic_modbus.c:361-368 | every response carries this slave's address and passes the same CRC check; a broadcast is never answered |
| `ModbusMap.RoomForCrc` | epic-modbus/src/epic_modbus.c:365-367 | every response leaves room for its CRC in the buffer |
| `ModbusMap.OnlyTheRangeChanges` | epic-modbus/src/epic_modbus.c:108-292 | reads, exceptions and drops change nothing; a write changes one table, only inside its addressed range |
| `ModbusMap.WhoIsServed` | epic-modbus/src/epic_modbus.c:309-369 | a valid frame of at least four bytes is served if addressed to this slave or to all, and answered exactly if there is an answer and it was not for all |
| `ModbusMap.OtherRequests` | epic-modbus/src/epic_modbus.c:331-359 | an unknown function code is refused with exception 1; a request of a wrong length is dropped |
| `ModbusMap.BitsAreSpelled` | epic-modbus/src/epic_modbus.c:116-148 | function codes 1 and 2: 1 to 2000 bits within the table, spelled eight to a byte from the least significant bit; exception 3 for another quantity or a response too long, 2 for a bad address |
| `ModbusMap.RegsAreSpelled` | epic-modbus/src/epic_modbus.c:150-177 | function codes 3 and 4: 1 to 125 registers, most significant byte first, with the same exceptions |
| `ModbusMap.SingleCoil` | epic-modbus/src/epic_modbus.c:179-203 | FF00 switches the coil on, 0000 off, any other value is refused |
| `ModbusMap.SingleReg` | epic-modbus/src/epic_modbus.c:205-225 | the register takes the two bytes, most significant first |
| `ModbusMap.ManyCoils` | epic-modbus/src/epic_modbus.c:227-259 | 1 to 1968 coils with a matching byte count take the bits of the request, others stay; refused or dropped otherwise |
| `ModbusMap.ManyRegs` | epic-modbus/src/epic_modbus.c:261-292 | the same for 1 to 123 registers |
| `ModbusMap.SingleCoilReadsBack` | epic-modbus/src/epic_modbus.c:179-203 | after a single write a read of that coil returns 1 for FF00 and 0 for 0000 |
| `ModbusMap.SingleRegReadsBack` | epic-modbus/src/epic_modbus.c:205-225 | after a single write a read of that register returns the bytes written |
| `ModbusMap.CoilsReadBack` | epic-modbus/src/epic_modbus.c:227-259 | write-multiple-coils then read of the same range returns the bits written |
| `ModbusMap.RegsReadBack` | epic-modbus/src/epic_modbus.c:261-292 | write-multiple-registers then read of the same range returns the bytes written |
| `ModbusSlave.CrcOfBuffer` | epic-modbus/src/epic_modbus.c:49-63 | the loop over a buffer prefix computes the CRC of that prefix |
| `ModbusSlave.PackInto` | epic-modbus/src/epic_modbus.c:139-146 | the response payload is the packed table slice with zero padding, and its head is untouched |
| `ModbusSlave.SpellInto` | epic-modbus/src/epic_modbus.c:173-175 | the response payload is the table slice in big-endian bytes |
| `ModbusSlave.StoreBits` | epic-modbus/src/epic_modbus.c:247-250 | the coil array afterwards is the old table overwritten by the request's bits |
| `ModbusSlave.StoreRegs` | epic-modbus/src/epic_modbus.c:281-283 | the same for registers |
| `ModbusSlave.Slave.HandleReadBits` | epic-modbus/src/epic_modbus.c:116-148 | the response in place is the map-level one, errors included, with every index in bounds |
| `ModbusSlave.Slave.HandleReadRegs` | epic-modbus/src/epic_modbus.c:150-177 | the same for registers |
| `ModbusSlave.Slave.HandleWriteCoil` | epic-modbus/src/epic_modbus.c:179-203 | map and response are the map-level outcome |
| `ModbusSlave.Slave.HandleWriteReg` | epic-modbus/src/epic_modbus.c:205-225 | map and response are the map-level outcome |
| `ModbusSlave.Slave.HandleWriteCoils` | epic-modbus/src/epic_modbus.c:227-259 | map and response are the map-level outcome |
| `ModbusSlave.Slave.HandleWriteRegs` | epic-modbus/src/epic_modbus.c:261-292 | map and response are the map-level outcome |
| `ModbusSlave.Slave.Dispatch` | epic-modbus/src/epic_modbus.c:331-359 | the handlers together are the map-level meaning of the request |
| `ModbusSlave.Slave.Accepted` | epic-modbus/src/epic_modbus.c:311-325 | the length, CRC and address checks accept exactly the frames the specification accepts |
| `ModbusSlave.Slave.ReplyRegs` | epic-modbus/src/epic_modbus.c:170-176 | the response is the header and the addressed registers in big-endian bytes |
| `ModbusSlave.Slave.ProcessFrame` | epic-modbus/src/epic_modbus.c:309-369 | processing a frame moves the register map and answers exactly as the map-level specification says |
| `ModbusSlave.Slave.Seal` | epic-modbus/src/epic_modbus.c:365-368 | what is sent is the response with its CRC appended |
| `Manifest.CheckKnown` | scripts/epicmanifest.py:351-357 | accepts if and only if every dependency names a module, and reports one that does not |
| `Manifest.CycleSearch.Visit` | scripts/epicmanifest.py:336-345 | finishes a module after its dependencies, or reports a path that runs into itself |
| `Manifest.CheckCycles` | scripts/epicmanifest.py:331-348 | rejects exactly the graphs with a cycle, and shows one |
| `Manifest.Validate` | scripts/epicmanifest.py:351-357 | the dependency checks accept if and only if all names are known and the graph has no cycle |
| `Manifest.Resolver.Visit` | scripts/epicmanifest.py:121-127 | extends the list by modules reachable from the root, dependencies first, the visited one last |
| `Manifest.ResolveDeps` | scripts/epicmanifest.py:112-130 | on every accepted manifest: no repetition, exactly the reachable modules, each after its dependencies, the requested one last |
| `Paths.ReverseIff` | scripts/ci-discover-affected-modules.py:175-181 | reachability in the reversed graph is reachability backwards |
| `AffectedModules.TransitiveClosure` | scripts/ci-discover-affected-modules.py:105-114 | terminates with exactly what the seeds reach, the least closed set containing them |
| `AffectedModules.Expand` | scripts/ci-discover-affected-modules.py:110-113 | marking and stacking the unseen successors of a popped module keeps the worklist invariant |
| `AffectedModules.ReverseGraph` | scripts/ci-discover-affected-modules.py:178-181 | the edges built are exactly the reversed ones |
| `AffectedModules.Affected` | scripts/ci-discover-affected-modules.py:174-184 | the narrowed set is exactly the modules with a dependency path to a touched one |
| `TickPeriod.TryPair` | epic-tick/src/epic_tick.c:48-62 | floor and ceiling bound the error of every count of a scaler pair |
| `TickPeriod.BeatenByLargest` | epic-tick/src/epic_tick.c:53 | a pair whose floor is out of range cannot beat the largest pair |
| `TickPeriod.ComputePeriod` | epic-tick/src/epic_tick.c:29-68 | the result is a global optimum over all configurations if and only if the target is at most 65791 cycles, and then everything the search tries sooner is worse; beyond, the fallback |
| `TickPeriod.OptimalForTheClock` | epic-tick/src/epic_tick.c:33-34 | against the clock itself no configuration is closer to a millisecond by more than twice the remainder of the division by 4000, none at all for a multiple of 4 kHz |
| `TickPeriod.FirstSoFar` | epic-tick/src/epic_tick.c:59-64 | a count that improves on everything before it is the first one as good in the order of the search |
| `Timebase.TicksIff` | epic-tick/docs/ARCHITECTURE.md:50-52 | from the start on, one tick for every prescaler * (PR2+1) * postscaler cycles over every length of run, on the simulators of the older families if and only if PR2 is not 255, with 255 never |
| `Timebase.CommonClocksAreExact` | epic-tick/docs/API.md:6-8 | at 4, 8, 16, 20, 32 and 48 MHz any optimum ticks exactly once a millisecond on every simulator |
| `Timebase.DocumentedSettings` | epic-tick/docs/ARCHITECTURE.md:36-41 | the search finds 1:4, 249, 1:5 at 20 MHz and 1:16, 249, 1:3 at 48 MHz |
| `Timebase.NeverTicksAt16384` | epic-tick/src/epic_tick.c:46-66 | at 16.384 MHz the search settles on PR2 = 255, with which the older simulators never tick, although another optimum would |
| `Timebase.Init` | epic-tick/src/epic_tick.c:71-90 | the timer is set up with the first optimum of the search |
| `Timer246.ControlDecodes` | pic16f193x-hal/src/peripherals/pic16f193x_timer246.c:183-190 | the control byte holds prescaler, run bit and postscaler in its bits 0-1, 2 and 3-6 and decodes to the scalers the driver was given |
| `Timer246.StartedPeriod` | pic16f193x-hal/src/peripherals/pic16f193x_timer246.c:59-68 | the prescaler encodings divide by 1, 4, 16 and 16, the postscaler ones by one more than their value |
| `Timer246.TickAdvances` | pic16f193x-hal/src/sim/pic16f193x_sim.c:254-279 | a cycle advances the mixed-radix phase by one and wraps just when the flag is raised |
| `Timer246.EventsAreExact` | pic16f193x-hal/src/sim/pic16f193x_sim.c:230-280 | after any number of cycles the flag has been raised (phase + n) / period times, and the counter never exceeds the period register |
| `Timer246.CountsBeyond` | pic16f193x-hal/src/sim/pic16f193x_sim.c:260-277 | a count beyond the period register goes on to 255 and wraps, without an event |
| `Timer246.OffStands` | pic16f193x-hal/src/sim/pic16f193x_sim.c:255 | with the run bit clear no number of cycles moves anything |
| `Timer246.StartIsExactIff` | pic16f193x-hal/src/peripherals/pic16f193x_timer246.c:167-193 | after a start, floor(n / (prescaler * (PR+1) * postscaler)) events for every n, if and only if no counted scaler state is left over |
| `Timer246.RestartIsExactIff` | pic16f193x-hal/src/sim/pic16f193x_sim.c:253-276 | started from power-on and started again at any time with the same setting, the rate is kept for every length of run if and only if prescaler and postscaler are both 1:1 |
| `Timer246.Simulator.Start` | pic16f193x-hal/src/peripherals/pic16f193x_timer246.c:167-193 | programs its own instance and leaves the other two alone |
| `Timer246.Simulator.StepOne` | pic16f193x-hal/src/sim/pic16f193x_sim.c:253-280 | one instance's share of a cycle in place, early exits included |
| `Timer246.Simulator.Step` | pic16f193x-hal/src/sim/pic16f193x_sim.c:253-280 | all three instances step as if each were alone |
| `Timer246.Simulator.Run` | pic16f193x-hal/src/sim/pic16f193x_sim.c:134-145 | over any number of cycles each running instance calls back exactly its own quotient of times |
| `Timer2.RaisedIff` | pic16f87xa-hal/src/sim/pic16f87xa_sim.c:211-254 | comparing after the eight-bit increment raises the flag as often as comparing before it, over every length of run, if and only if PR2 is not 255 |
| `Timer2.FullNeverRaises` | pic16f87xa-hal/src/sim/pic16f87xa_sim.c:241-243 | with PR2 = 255 the flag is never raised, from any state |
| `Timer2.BeyondEndsAtOnce` | pic16f87xa-hal/src/sim/pic16f87xa_sim.c:241-253 | a count beyond the period register ends the period at the next increment, but for 255 |
| `Timer2.OffStands` | pic16f87xa-hal/src/sim/pic16f87xa_sim.c:220 | with the run bit clear no number of cycles moves anything |
| `Timer2.Simulator.Start` | pic16f87xa-hal/src/peripherals/pic16f87xa_timer2.c:92-112 | the period register and each field of the control byte, the counter left alone |
| `Timer2.Simulator.Step` | pic16f87xa-hal/src/sim/pic16f87xa_sim.c:211-254 | the step in place, early exits included |
| `Timer2.Simulator.Run` | pic16f87xa-hal/src/sim/pic16f87xa_sim.c:121-130 | over any number of cycles no callback with PR2 = 255, otherwise the whole periods counted from the phase at the start |
| `Settings.LoadAfterSave` | epic-settings/src/epic_settings.c:83-117 | up to 254 bytes load back as saved |
| `Settings.SaveLayout` | epic-settings/src/epic_settings.c:83-96 | a blob lies from its address on, then its CRC, high byte first, modulo 256; no other cell is written |
| `Settings.RoundTripIff` | epic-settings/src/epic_settings.c:93-95 | the round trip works if and only if the size is at most 254 or, at 255, the first byte equals the low CRC byte |
| `Settings.OneOfManyLoads` | epic-settings/src/epic_settings.c:83-96 | of the 255-byte blobs with the same first 254 bytes at most one loads back |
| `Settings.LastSaveIsLoaded` | epic-settings/src/epic_settings.c:83-117 | after any sequence of saves a blob that later ones do not overlap (modulo 256) loads back |
| `Settings.CorruptionIsDetected` | epic-settings/src/epic_settings.c:98-111 | damage within two adjacent stored bytes makes the load fail |
| `Settings.BurstCorruptionIsDetected` | epic-settings/src/epic_settings.c:98-111 | so does any burst of at most 16 bits |
| `Settings.Store.WriteBytes` | epic-settings/src/epic_settings.c:61-81 | writes a prefix, all of it unless a byte write fails |
| `Settings.Store.SaveBlob` | epic-settings/src/epic_settings.c:83-96 | stores blob and CRC; on failure, exactly the bytes before the failing one |
| `Settings.Store.LoadBlob` | epic-settings/src/epic_settings.c:98-117 | succeeds if and only if the stored CRC matches, and otherwise leaves the buffer untouched |
| `Settings.Store.LoadOrDefault` | epic-settings/src/epic_settings.c:119-129 | on any EEPROM contents, the next load returns the bytes it left in the buffer |
| `SerialTx.FifoIff` | epic-serial/src/epic_serial.c:45-57 | over every interleaving, loaded ++ byte in the main loop's hand ++ ring = written if and only if no pop met an empty ring and no interrupt sent another byte than the one in hand; each underflow adds 256 bytes for good; until one a waiting byte has its interrupt armed outside the enqueue-to-enable window |
| `SerialTx.DrainsAndStops` | epic-serial/src/epic_serial.c:45-57 | one transmit interrupt a byte empties the ring in order, and the next one turns the interrupt off |
| `SerialTx.UninterruptedCall` | epic-serial/src/epic_serial.c:45-57 | a pumped call that is not interrupted sends the oldest byte or turns the transmit interrupt off, as the interrupt would |
| `SerialTx.PumpUnderflowsIff` | epic-serial/src/epic_serial.c:47-53 | a callback pumped from the main loop pops an empty ring if and only if the interrupts since its test sent every byte it saw |
| `SerialTx.PumpOvertakesIff` | epic-serial/src/epic_serial.c:52-53 | its byte keeps its place if and only if the interrupts between the restore and the write to the register send only bytes equal to it |
| `SerialTx.StaleByte` | epic-serial/src/epic_serial.c:47-51 | over any run, a pop from the empty ring takes the byte of 32 writes ago, zero if there were fewer, and leaves 255 |
| `SerialTx.UnderflowIsReachable` | epic-serial/src/epic_serial.c:45-57 | one written byte suffices: the callback sends it and a byte never written, and 255 more are queued |
| `SerialTx.OvertakingIsReachable` | epic-serial/src/epic_serial.c:45-57 | two written bytes suffice to send them in the wrong order with no underflow |
| `SerialRx.StepSound` | epic-serial/src/epic_serial.c:36-43 | whatever cuts in on a pumped callback, the count covers at most the array and one slot, the latest before the head |
| `SerialRx.CallIff` | epic-serial/src/epic_serial.c:36-43 | a pumped callback leaves all bytes in the order they came if and only if the byte in hand, those that interrupts stored before the head moved and the slot moved past are alike, and an overfull ring's last byte equals the oldest it replaced; for any fill level and any interrupts between any two statements |
| `SerialRx.ReadsAreKeptIff` | epic-serial/src/epic_serial.c:36-43 | over every interleaving with pumped callbacks, read ++ ring = the bytes that found room, in the order they came, whenever the main loop is outside the callback, if and only if every pumped call met that condition |
| `SerialRx.UninterruptedCall` | epic-serial/src/epic_serial.c:36-43 | a pumped call that is not interrupted is the callback as an interrupt |
| `SerialRx.LosslessIff` | epic-serial/src/epic_serial.c:36-43 | no received byte is dropped if and only if arrivals never outrun reads by more than the ring, a byte in the main loop's hand not counted |
| `SerialRx.SpoilingIsReachable` | epic-serial/src/epic_serial.c:36-43 | one interrupt between the test and the store puts two bytes in the wrong order |
| `Serial.Port.Received` | epic-serial/src/epic_serial.c:36-43 | the callback in place is the machine's receive interrupt, also where the main loop has moved the head and not the count |
| `Serial.Port.PopNext` | epic-serial/src/epic_serial.c:49-52 | the critical section in place is the machine's pop, from an empty ring too |
| `Serial.Port.Transmitted` | epic-serial/src/epic_serial.c:45-57 | the transmit callback as an interrupt, in place, is the machine's step |
| `Serial.Port.PumpTransmit` | epic-serial/src/epic_serial.c:45-57 | called from the main loop, with all interrupts let in between its test and its critical section and again before the register is written, it is exactly those steps of the two machines; undisturbed it sends one byte |
| `Serial.Port.PumpReceive` | epic-serial/src/epic_serial.c:36-43 | called from the main loop with interrupts before each statement, it is exactly those steps of the two machines |
| `Serial.Port.Dispatch` | pic18fxx5x-hal/src/core/pic18_irq_dispatch.c:43-55 | a poll is the transmit callback if the transmitter is ready, then the receive callback if a byte is there |
| `Serial.PumpedUnderflow` | epic-serial/src/epic_serial.c:47-53 | an interrupt let in after the pumped callback's test makes it pop an empty ring |
| `Serial.PumpedOvertaking` | epic-serial/src/epic_serial.c:52-53 | one let in before its write to the register sends two bytes in the wrong order |
| `Serial.ReceivingIs` | epic-serial/src/epic_serial.c:36-43 | the pumped receive callback takes interrupts in each of its four gaps |
| `Serial.PollingIs` | pic18fxx5x-hal/src/core/pic18_irq_dispatch.c:43-55 | a poll calls the transmit callback only if the transmitter is ready, the receive callback only if a byte is there |
| `Serial.Port.AwaitRoom` | epic-serial/src/epic_serial.c:98-102 | under any finite sequence of interrupts the wait ends, after as many polls as it takes until there is room; undisturbed it keeps the stream in order and never underflows |
| `Serial.Port.Write` | epic-serial/src/epic_serial.c:94-110 | under any finite sequence of interrupts, let in wherever the source does, the call is exactly the polls, the queueing and the enabling for each byte as steps of the two machines, and writes the data; undisturbed, sent ++ ring grows by exactly the data |
| `Serial.Port.ReadInto` | epic-serial/src/epic_serial.c:112-123 | returns the oldest bytes, as many as asked for or available |
| `Pid.RailsHold` | epic-pid/src/pid.c:33-112 | after any calls an update answers inside the rails and leaves the integrator inside them |
| `Pid.ResetIsFresh` | epic-pid/src/pid.c:14-40 | after a reset all later outputs, over any calls, are those of a controller just set up with the same gains, rails, mode and manual output |
| `Pid.AutomaticStep` | epic-pid/src/pid.c:59-112 | an automatic step integrates the error between the rails and answers kp * error + integral - kd * rise of the measurement, floored by 256 and held between the rails |
| `Pid.ManualStep` | epic-pid/src/pid.c:82-97 | a manual step answers the set output held between the rails and stores what is missing from it |
| `Pid.IntegratesError` | epic-pid/src/pid.c:99-105 | n steps at a constant error move the integrator by n * ki * error, held at the rails |
| `Pid.OutputFollowsError` | epic-pid/src/pid.c:59-112 | with gains of the usual sign a higher setpoint never lowers output or integrator, a higher measurement never raises them |
| `Pid.AutoOutputIff` | epic-pid/src/pid.c:107-111 | the automatic output is the clamped floor of (P + I + D) / 256 if and only if the sum is within 24 bits, or the cast lands on or past the rail asked for, or the rails coincide |
| `Pid.CastBeforeClamp` | epic-pid/src/pid.c:108-110 | a sum of 2^23 that asks for the upper rail yields the lower one |
| `Pid.BumplessIff` | epic-pid/src/pid.c:82-97 | manual then automatic with nothing moved returns the held output if and only if the rails cut the integrator by a multiple of 2^16 output steps (zero above all), or the output was held on a rail and the cast of the missed one lies on or past it |
| `Pid.BumplessWithin24Bits` | epic-pid/src/pid.c:82-97 | for held sums within 24 bits: if and only if the integrator was kept, missed the lower rail by less than a step, or the output sat on the rail the proportional term pushes towards |
| `Pid.WrappedHandOver` | epic-pid/src/pid.c:82-111 | a hand-over far beyond 24 bits that is bumpless although the integrator was clamped |
| `Pid.Controller.UpdateOnce` | epic-pid/src/pid.c:59-112 | the update in place, over the byte-level multiply, is the specified step |
| `Pid.Controller.ResetState` | epic-pid/src/pid.c:33-40 | clears integrator, history and skip flag, nothing else |
| `Pid.Controller.ChangeGains` | epic-pid/src/pid.c:42-47 | changes the gains only |
| `Pid.Controller.ChangeMode` | epic-pid/src/pid.c:49-52 | changes the mode only |
| `Pid.Controller.ChangeManualOutput` | epic-pid/src/pid.c:54-57 | changes the manual output only |

## Left out

- SwUartTx.SessionWaveform: assumes handlers that finish within a bit, and writes that find the machine idle
  only with the compare module off, their start edge at least one bit after the last stop edge and their byte
  still in the ring. `SwUartRaces` says what happens otherwise.
- SwUartRaces.InterruptedWriteLosesBits: the handler lands between C statements. On an 8-bit core it can also
  land inside one, such as the read, increment and store of the tail at epic_swuart.c:397; which of those
  orders a compiler leaves open is not modelled.
- SwUartRx.EndToEnd: covers one session with the receiver armed before the first start edge; noise on the
  line and a receiver that joins in the middle of a frame are not modelled.
- SwUart.Channel.Write: is one uninterrupted call; its interleaving with handlers is modelled by the
  separate steps of the session machine.
- ModbusSlave.Slave.ProcessFrame: assumes a frame of at most the buffer size; polling, the silence timer
  and the draining of oversized input are not modelled.
- Settings.Store.WriteBytes: the EEPROM accepts a number of byte writes and then fails; write timing and
  a later recovery are not modelled.
- Serial.Port.AwaitRoom: the interrupts are a finite sequence; a transmitter that is never ready again, and
  so a wait without end, is not modelled.
- SerialRx.CallIff: interrupts fall between the callback's statements; the update of the head index, which an
  8-bit core does in several instructions, is one step.
- SerialTx.FifoIff: the transmit register always takes the byte; one overwritten before it was shifted out is
  not modelled.
- Pid.Controller.UpdateOnce: requires that no sum overflows 32 bits, as the source leaves that undefined. It is
  over the PIC18 multiply; on PIC16 `pic_math_mul_s16` is the product only under `PicShiftAdd.ProductIff`.
- TaskManager.Manager.RunOnce: task bodies are arbitrary sequences of API calls and ticks; a body that
  calls `task_manager_run_once` or `task_manager_init` is not modelled.
- Manifest.Validate: only the dependency checks; the checks of family names and parts are lookups.
- PicKernels.DivmodU16: the static scratch cells are locals, so re-entrancy between interrupts is not
  captured.
- Channel set-up and tear-down, GPIO, RS-485 direction, baud registers, SFR maps and one-register drivers:
  register plumbing.
- `epic-usb`, `epic-sdcard`: bindings over code that is not part of this repository.
- `epic-lcd`, `epic-bus`, `epic-fsm`, `epic-debounce`, `epic-adcfilter`, `epic-encoder`, `epic-console`:
  first-match scans and small tables that would only add easy members.
- The tick counter and its delays, 8-bit multiply, two-digit BCD, the LFSR: domains small enough to
  enumerate.
- TOML parsing, git calls, source lists and bundle generation in `scripts/`: input, output and text.
