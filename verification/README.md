# Verified models of the QCC730 drivers

Dafny models of five Zephyr drivers for the QCC730 and of one loop of its Wi-Fi driver, each beside a
small model of the hardware it drives, with proofs of what the drivers are for.  Check everything with
`dafny verify dfyconfig.toml`.

| area | files |
|---|---|
| NOR flash | `NorChip.dfy` (the chip), `FlashPlan.dfy` (what a call's commands do), `FlashMinimal.dfy` (how few they are), `Polling.dfy` (bounded waits), `FlashSolo.dfy` (one call against the chip, access by access), `FlashDriver.dfy` (the calls), `FlashInit.dfy` (status registers), `FlashRoundTrip.dfy`, `FlashSerial.dfy` (threads) |
| RTC and qtimer | `Clock.dfy` (arithmetic), `QTimer.dfy` (counter, compare register, driver), `Rtc.dfy`, `RtcRun.dfy` (whole runs), `RtcRace.dfy` (readings while the clock is being set), `RtcCalls.dfy` (what a caller gets, in exact arithmetic) |
| I2C | `I2cStream.dfy` (compile and decode), `I2cDriver.dfy` (FIFOs and driver), `I2cThreads.dfy` (transfers and the FIFO between them), `I2cSafe.dfy` (which transfers keep their address), `I2cLock.dfy` (threads and their lock), `I2cRun.dfy` (a call of the driver is a run of these) |
| DMA | `Dma.dfy` |
| regulatory domain | `RegDomain.dfy` |
| shared | `Codes.dfy` (return codes), `Mutex.dfy` (counting the threads inside), `Arith.dfy` (division facts) |

## How the models are built

**Hardware.** What the hardware may do is left open in the model, so each contract speaks about every
behaviour.  The NOR chip finishes an operation before any later access or never, well or (if the part
has an error register) badly with garbage in the bytes that the operation reaches; an idle chip may fail
to latch a write enable; a program command wraps inside its 256-byte page; a command without the latch,
or on a busy chip, is ignored.  The qtimer counts by any amount between two register accesses.  The I2C
controller takes any number of words off its FIFO between two polls, executes them under the address
register of that moment, and when disabled either empties its FIFOs or keeps them.  Clocks and poll
time-outs appear as a number of polls that nothing constrains.

**Threads.** Every thread has its own program counter and may be anywhere in its calls; the semaphore is
a count that taking decrements and giving increments, and a thread inside a call makes its next access
whatever the others do.  That the count and the threads inside always add up to one is an invariant
(`FlashSerial.MutualExclusion`, `I2cLock.MutualExclusion`), and the serialisation theorems rest on it.  The
driver classes count the same semaphore: the methods that send a call's commands or messages require that
it is taken, the flash bus shows the taking and giving around every access (`Bracketed`), and the contracts
of the calls are that they ran as one of the calls in these theorems (`FlashSerial.DriverRunsAlone`,
`TransferRuns` in `I2cDriver.I2c.Transfer`).

**Drivers.** The objects with state are classes with the fields of the C structures; loops are loops.
Each method is tied to a specification function, and what the driver promises is proved of that
function.  Which arguments a call accepts, and with which code it refuses the others, is said in its
contract in plain terms, not by the function that its body calls.  The three copies of the erase loop are two methods (`EraseSectors`, `EraseBlocks`), and the
enable / command / wait round that all copies contain is `Perform`.

**Numbers.** A sector is 4096 bytes, a block 65536, a page 256; they are written as numbers because
division by a named constant is much harder on the solver.  For the same reason `Arith.Low`, the
remainder modulo a machine word, is written as repeated wrap-around.  Status register bytes are the sets
of their one bits.  32-bit and 64-bit wrap-around is written out where it can happen (poll countdown, compare
count, elapsed ticks, 16-bit channel loop).

## What the proofs found

* An erase with an offset inside a sector erases SectorCount(size) sectors from the one that holds the
  offset.  It covers the requested range exactly when `offset % 4096 + size` does not run past the
  sectors counted from the size alone (`EraseCoversRequest`).
* The number of erase commands is minimal except for one family: an odd size whose rounding completes a
  64 KB block inside the range costs fifteen commands too many (`EraseCountMinimalIff`).  From an offset
  inside a sector blocks are never used (`UnalignedMinimalIff`).
* The thread-context poll loop keeps to its timeout when the period divides it.  If not, it misses zero
  and wraps, and without a match it returns at all exactly when the power of two in the period divides
  the timeout (`CountdownReachesZeroIff`).
* A call on a chip that an earlier call has left busy, and that is still busy when the first write enable
  arrives, has its first command ignored and can report success all the same: the old operation's latch
  answers the enable, its end answers the wait (`IgnoredCommandSucceeds`, `SoloOutcome`, `Erase`).  If the
  old operation ends before, the call is as from an idle chip.
* A failing flash read keeps the semaphore, after which no call is ever served (`Read`,
  `FailedReadBlocksForever`).
* A protection bit that is read back set after its register was written well, the only reason for EIO,
  occurs only on a part with locked registers (`ClearSpiBits`).
* Writing one byte to a status register of a part where this clears register 2 loses bits there under a
  condition that is proved both ways (`ClearingPartKeepsSr2Iff`).
* Setting the RTC stores the count before the lock is taken and the time after.  Readings around the first
  step are all in order exactly when the counter has not moved since the count before it; else the clock
  can jump back (`StoreIsHarmlessIff`, `GoesBackIff`).  After both steps a reading is right exactly when no
  other call has stored a later count since this call's own (`ReadingTrueIff`).
* The RTC alarm adds its offset to the current count.  If the counter has moved since the time was set,
  the alarm is late; `ArmedDevice` and `LateAlarmIff` say exactly when the clock no longer shows the
  alarm's nanosecond.
* Setting the time arms a stored alarm anew even if it has already fired, exactly when the alarm is not
  before the new time and its count is taken (`SetTime`, `TakenAgain`), so an alarm can fire once more for
  each such call (`RtcRun.AnyRun`).
* A two-word counter read with a roll-over between its accesses is 2^32 too large (`TwoWordReadIff`).
* A STOP that an empty I2C message asks for never reaches the bus (`StopsReachBusIff`), and a RESTART or
  the break after a read can be lost behind one (`LostIff`, `LostBreaks`).
* A write transfer returns with words still in the FIFO.  If the next transfer uses another address, those
  words are lost when the controller is disabled, or executed under the new address.  This cannot happen
  to a transfer exactly when enough words follow before the address changes, or a read comes last
  (`SafeIff`, `ThreadsSafeIff`).
* A transfer to address 0 runs under its own address exactly when some earlier transfer used another one
  or the register held 0 from the start (`OwnAddressIff`).
* The DMA block count is checked but not used: the list is written by pointer, past the sixteen
  descriptors if it is longer (`Configure`).
* The 16-bit channel loop leaves without wrapping exactly under `NoWrap`, which all rules up to
  65525 MHz meet (`WrapIff`, `SmallRulesNoWrap`).  When it wraps it still ends, with channels far outside
  the rule in the table (`StopExists`, `WrappedRule`).

## Model

| member | source | states |
|---|---|---|
| `FlashPlan.MixedEraseRefinesNaive` | drivers/flash/flash_qcc730_qspi_nor.c:851-971 | For every valid area, aligned or not, the three-phase (or chip) erase leaves the same array as one sector erase after another: exactly the rounded sector range at 0xFF, all else unchanged |
| `FlashPlan.ErasePlanInRequest` | drivers/flash/flash_qcc730_qspi_nor.c:857-971 | Every 64 KB command of a partial erase is aligned and inside the request, every sector command starts in it, and the chip erase is not used |
| `FlashPlan.EraseCoversRequest` | drivers/flash/flash_qcc730_qspi_nor.c:851-971 | The requested bytes are erased whatever the array held, if and only if the offset's distance into its sector plus the size fits in the counted sectors |
| `FlashPlan.EraseExactIffAligned` | drivers/flash/flash_qcc730_qspi_nor.c:851-971 | Whatever the array held, running the call's commands erases exactly the request rounded up to sectors if and only if the offset is sector-aligned |
| `FlashPlan.WritePlanPrograms` | drivers/flash/flash_qcc730_qspi_nor.c:1044-1073 | The page commands of a write leave old AND new on the range and nothing else changed, on a chip that wraps inside pages |
| `FlashPlan.UnsplitProgramWraps` | drivers/flash/flash_qcc730_qspi_nor.c:1045-1054 | Why the split is needed: a program that crosses its page end is ANDed into the start of the page |
| `FlashPlan.ErasePlanTiles` | drivers/flash/flash_qcc730_qspi_nor.c:851-971 | The erase commands reach adjacent stretches, in order, that make up exactly the rounded range |
| `FlashPlan.WritePlanTiles` | drivers/flash/flash_qcc730_qspi_nor.c:1044-1073 | The page commands reach adjacent stretches, in order, that make up exactly the area |
| `FlashPlan.PartialRunIsPrefix` | drivers/flash/flash_qcc730_qspi_nor.c:873-970 | Stopping after k commands with the next one in doubt leaves a prefix of the range final, one command's stretch in doubt, everything else untouched |
| `FlashMinimal.AlignedPlanMinimal` | drivers/flash/flash_qcc730_qspi_nor.c:851-971 | No sequence of 4 KB erases, and 64 KB erases of blocks that the array holds whole, that erases exactly a sector-aligned range is shorter than the three-phase plan |
| `FlashMinimal.EraseCountMinimalIff` | drivers/flash/flash_qcc730_qspi_nor.c:825-971 | For every size at an aligned offset, the issued commands are fewest if and only if it is a chip erase or the size is not of the wasteful family |
| `FlashMinimal.UnalignedMinimalIff` | drivers/flash/flash_qcc730_qspi_nor.c:851-971 | At an offset inside a sector no block erase is ever issued, and the commands are fewest if and only if the erased stretch holds no whole 64 KB block |
| `FlashMinimal.ExactCovers` | drivers/flash/flash_qcc730_qspi_nor.c:851-971 | A sequence of erases leaves exactly a range erased, for all contents, if and only if it reaches exactly that range |
| `Polling.WaitedUnique` | drivers/flash/flash_qcc730_qspi_nor.c:432-482 | On a given status stream the bound determines polls and verdict of a wait |
| `Polling.WaitedSays` | drivers/flash/flash_qcc730_qspi_nor.c:432-482 | Status by status: no poll but the last shows the value, and the last shows it or is the last allowed |
| `Polling.LoopsAgree` | drivers/flash/flash_qcc730_qspi_nor.c:432-482 | When the period divides the timeout, the thread loop and the interrupt loop make the same polls on the same stream and agree |
| `Polling.DividingBound` | drivers/flash/flash_qcc730_qspi_nor.c:432-482 | Then the number of polls without a match is timeout / period, which is also its ceiling |
| `Polling.OtherBound` | drivers/flash/flash_qcc730_qspi_nor.c:466-478 | Otherwise the thread loop, if it returns at all, polls for a whole wrap-around of 32 bits beyond the timeout |
| `Polling.CountdownDivides` | drivers/flash/flash_qcc730_qspi_nor.c:466-478 | When the period divides the timeout, the 32-bit countdown first reaches zero after timeout / period polls |
| `Polling.CountdownWraps` | drivers/flash/flash_qcc730_qspi_nor.c:466-478 | Otherwise it is not zero for a whole wrap-around beyond the timeout |
| `Polling.CountdownReachesZeroIff` | drivers/flash/flash_qcc730_qspi_nor.c:466-478 | The unmatched loop ends at all if and only if the power of two in the period divides the timeout |
| `FlashDriver.Flash.CheckError` | drivers/flash/flash_qcc730_qspi_nor.c:721-754 | An error exactly when the part reports errors for this kind of operation and the last operation, if of this kind, failed; never for other operations |
| `FlashDriver.Flash.WaitDone` | drivers/flash/flash_qcc730_qspi_nor.c:432-480 | A period of 0 or beyond the timeout gives EINVAL without a poll; else at most as many polls as the 32-bit countdown takes to its first zero, the error verdict of the first match, or ENODEV after all of them |
| `FlashDriver.VerdictSays` | drivers/flash/flash_qcc730_qspi_nor.c:432-480 | The same status by status, as an equivalence |
| `FlashDriver.Flash.WaitDoneInIsr` | drivers/flash/flash_qcc730_qspi_nor.c:445-464 | The same with ceil(timeout / period) polls and ETIMEDOUT, for every period |
| `FlashDriver.Flash.WriteEnable` | drivers/flash/flash_qcc730_qspi_nor.c:489-500 | The latch is confirmed exactly when a poll of the wait shows it, and the polls decide the verdict; success means that the latch is set; the chip may finish an operation before the enable arrives, or be busy still and keep what it does |
| `FlashDriver.Flash.Perform` | drivers/flash/flash_qcc730_qspi_nor.c:874-889 | One round of a call that holds the semaphore.  Done, it is an enable, a confirming poll, the command and the wait; the command was accepted if the chip was idle when the enable arrived, and ignored if it was still busy then; otherwise the command was not started or only its bytes are in doubt.  A failed round shows on the bus why it failed |
| `FlashDriver.IgnoredCommandSucceeds` | drivers/flash/flash_qcc730_qspi_nor.c:489-500 | The statuses with which a busy chip, finishing its old operation, makes an ignored command look done |
| `FlashDriver.Flash.TransferSize` | drivers/flash/flash_qcc730_qspi_nor.c:1045-1054 | The chunk reaches the page end or the end of the data, whichever is first |
| `FlashDriver.Flash.Erase` | drivers/flash/flash_qcc730_qspi_nor.c:774-986 | Whole contract of the call: refused with EINVAL and an untouched bus if and only if the offset is negative, the size 0 or the area reaches beyond the chip; otherwise from an idle chip success erases exactly the rounded sectors, an error leaves a prefix, and every command was confirmed enabled and accepted; from a busy chip the call is a run of the plan that loses its first command if the chip is still busy when the enable arrives; an error return ends with the wait that caused it, with the timing of a chip erase or of a sector; every access lies between taking and giving the semaphore |
| `FlashDriver.Flash.Write` | drivers/flash/flash_qcc730_qspi_nor.c:988-1087 | The same for a write, which a null buffer refuses too: old AND new on success, a prefix of it on error, with the code of the wait that failed and the timing of a write |
| `FlashDriver.Flash.Read` | drivers/flash/flash_qcc730_qspi_nor.c:1089-1155 | A length of 0 succeeds at once; a negative offset, an area beyond the chip and a null buffer are refused without an access; success on an idle chip copies the area and nothing else; a busy chip shows anything; the fetch comes after taking the semaphore, which a failing bus command leaves taken |
| `FlashDriver.DisciplinedRound` | drivers/flash/flash_qcc730_qspi_nor.c:489-500 | On the bus, an enable whose last poll shows latch set and chip idle, followed by a command and polls, keeps the command protocol |
| `FlashDriver.EraseOutcome` | drivers/flash/flash_qcc730_qspi_nor.c:873-970 | What k confirmed commands of an erase plan leave is a prefix of the rounded range, and all of them leave it erased |
| `FlashSolo.SoloOutcome` | drivers/flash/flash_qcc730_qspi_nor.c:872-970 | Over every run of one call's accesses and of the chip's own time: what it found in progress is untouched; or it has, from the state in which that ended, run the commands before k without the first one if that was lost, with command k not started, in progress or done |
| `FlashSolo.SoloFromIdle` | drivers/flash/flash_qcc730_qspi_nor.c:872-970 | From an idle chip none is lost: a finished run is the plan's effect, any other a prefix with one command's bytes in doubt |
| `FlashRoundTrip.WritesAnd` | drivers/flash/flash_qcc730_qspi_nor.c:1044-1073 | After any successful writes, overlapping or not, each byte is the old byte ANDed with everything written to it |
| `FlashRoundTrip.EraseWriteRead` | drivers/flash/flash_qcc730_qspi_nor.c:988-1155 | Of the plans: after an erase and disjoint writes, written bytes stand where they were written, 0xFF in the rest of the erased sectors, the old bytes elsewhere |
| `FlashRoundTrip.EraseWriteAndRead` | drivers/flash/flash_qcc730_qspi_nor.c:774-1155 | The same of the driver's erase, write and read calls in a row, for what the read call puts in the buffer |
| `FlashSerial.Serialisable` | drivers/flash/flash_qcc730_qspi_nor.c:801-803 | For any threads, calls and interleaving of single accesses, with failing calls and operations still in progress after them, the chip and every result are those of calls that each ran alone, in the order in which they took the semaphore, which keeps each thread's program order; rejected calls are those with bad arguments |
| `FlashSerial.MutualExclusion` | drivers/flash/flash_qcc730_qspi_nor.c:801-803 | In any run, the semaphore's count and the threads inside add up to one, so no two threads are inside |
| `FlashSerial.SuccessfulCalls` | drivers/flash/flash_qcc730_qspi_nor.c:801-985 | When no call fails, the calls that ran alone leave the chip idle with the array that their plans give one after another |
| `FlashSerial.SuccessfulReads` | drivers/flash/flash_qcc730_qspi_nor.c:1089-1155 | Then every read got what the calls before it had left |
| `FlashSerial.OrderIsStable` | drivers/flash/flash_qcc730_qspi_nor.c:1015-1017 | The acquisition order only grows |
| `FlashSerial.HolderCanMove` | drivers/flash/flash_qcc730_qspi_nor.c:973-985 | An open call that is not a failed read always has a next step |
| `FlashSerial.FailedReadBlocksForever` | drivers/flash/flash_qcc730_qspi_nor.c:1133-1142 | After a failed read no step of any thread is possible |
| `FlashSerial.DriverRunsAlone` | drivers/flash/flash_qcc730_qspi_nor.c:774-1087 | What the driver's erase and write calls ensure of the chip between taking and giving the semaphore is that the call ran alone, completed or failed |
| `FlashSerial.EraseRuns` | drivers/flash/flash_qcc730_qspi_nor.c:774-986 | The erase call is refused exactly when the argument checks of the thread system refuse it, and is otherwise a call of it that ran alone, from the state it found to the state it left |
| `FlashSerial.WriteRuns` | drivers/flash/flash_qcc730_qspi_nor.c:988-1087 | The same of the write call |
| `FlashSerial.ReadRuns` | drivers/flash/flash_qcc730_qspi_nor.c:1089-1155 | The same of the read call, for what it gets |
| `FlashInit.InitReachesWanted` | drivers/flash/flash_qcc730_qspi_nor.c:560-711 | Clearing then quad enable gives exactly: masked bits 0, quad bit 1, every other non-volatile bit as before |
| `FlashInit.InitKeepsBothIff` | drivers/flash/flash_qcc730_qspi_nor.c:1210-1242 | The quad bit ends set; the protection bits end clear if and only if the mask leaves the quad bit alone; then repeating it changes nothing |
| `FlashInit.ClearingPartKeepsSr2Iff` | drivers/flash/flash_qcc730_qspi_nor.c:59-81 | On a part whose one-byte status write clears register 2, exactly when the rest of that register survives, for every mask |
| `FlashInit.WriteReg` | drivers/flash/flash_qcc730_qspi_nor.c:579-590 | Success means that an accepted register write was seen to end and the registers hold the value, unless they are locked; a failure ends with the wait that caused it, and is never EIO |
| `FlashInit.ClearSpiBits` | drivers/flash/flash_qcc730_qspi_nor.c:560-599 | Success means the masked bits are read back as zero and only they changed; nothing is written if none was set; EIO means that the write was accepted and ended well on a part with locked registers, and that the bits were read back set; any other failure ends with the wait that did not see the latch or the end of the write |
| `FlashInit.ClearSpiBitsList` | drivers/flash/flash_qcc730_qspi_nor.c:612-629 | The same for the list, in order; a failure is that of one of its registers |
| `FlashInit.ClearWriteProtection` | drivers/flash/flash_qcc730_qspi_nor.c:638-711 | On an unlocked part the masked bits of the vendor's registers (three of them for Winbond and its like, one for Macronix and its like) are cleared and all others kept; a failure is that of one of them |
| `FlashInit.EnableQuadMode` | drivers/flash/flash_qcc730_qspi_nor.c:205-237 | Bit by bit, on an unlocked part: modes 1, 4 and 5 set bit 1 of register 2, mode 3 its bit 7, mode 2 bit 6 of register 1 (JEDEC JESD216A, 15th DWORD), and nothing else changes; unknown modes give EINVAL; nothing is written if the bit is set; any other failure is that of the register write |
| `FlashInit.Initialise` | drivers/flash/flash_qcc730_qspi_nor.c:1210-1242 | Success on an unlocked part gives both guarantees and keeps all other bits; a part that is already set up sees no register write; ENODEV means that a register could not be cleared, EOPNOTSUPP that the quad bit could not be set, each with its cause |
| `Clock.ReadingExact` | drivers/rtc/rtc_qcc730.c:247-262 | The split computation is set time plus floor(ticks * 10^9 / freq), nanoseconds stay below 10^9, and no 64-bit intermediate overflows |
| `Clock.ReadingMonotone` | drivers/rtc/rtc_qcc730.c:247-262 | Readings never go backwards while the counter goes forward |
| `Clock.AlarmTicksExact` | drivers/rtc/rtc_qcc730.c:107-127 | Seconds and nanoseconds converted apart, with the borrow, give floor(D * freq / 10^9) |
| `Clock.AlarmAdjoint` | drivers/rtc/rtc_qcc730.c:107-141 | The clock at the alarm's tick shows at or before the alarm, one tick later at or after it |
| `Clock.LateAlarmIff` | drivers/rtc/rtc_qcc730.c:134-141 | With m ticks between setting time and alarm, exactly when the clock at the compare count still shows at or before the alarm |
| `Clock.MovedAlarmIsLate` | drivers/rtc/rtc_qcc730.c:134-141 | At up to 1 GHz, two ticks of movement make every alarm late |
| `Rtc.DueCountIff` | drivers/rtc/rtc_qcc730.c:107-141 | The 64-bit compare count is now + floor(D * freq / 10^9) if and only if that fits in 64 bits |
| `Rtc.ArmedDevice` | drivers/rtc/rtc_qcc730.c:107-141 | For every armed device whose count and time are of one call and whose two counter readings did not roll over: it is armed as many ticks late as the counter moved since the time was set, the clock one tick after the compare count is at or after the alarm, and exactly when it is still at or before it at the compare count |
| `Rtc.TakenIff` | drivers/rtc/rtc_qcc730.c:129-150 | When an alarm is taken, in exact arithmetic and for every count: its count modulo 2^64 has not passed by the second reading and is below 2^56 |
| `Rtc.RearmedSays` | drivers/rtc/rtc_qcc730.c:186-205 | What setting the clock returns, on totals of nanoseconds: success without a stored alarm, an error for an alarm before the new time, else the verdict on its count |
| `Rtc.TakenAgain` | drivers/rtc/rtc_qcc730.c:186-201 | Every alarm that is not before the new time and fits is taken with the counter standing, so a served one fires again when the clock is set back |
| `Rtc.ServedAlarmTakenAgain` | drivers/rtc/rtc_qcc730.c:186-201 | A concrete such alarm |
| `Rtc.TicksUntil` | drivers/rtc/rtc_qcc730.c:115-127 | The borrow and the two-part conversion, cut to 64 bits at each step, compute the ticks cut to 64 bits once |
| `Rtc.Convert` | drivers/rtc/rtc_qcc730.c:247-262 | The code's steps give set time plus the exact elapsed nanoseconds |
| `Rtc.RtcDevice.AlarmSetTimeShared` | drivers/rtc/rtc_qcc730.c:95-163 | Exactly when arming succeeds: the alarm is not before the base, the timer is masked, and the count computed from the first counter reading has not passed by the second and fits; EINVAL or EIO otherwise |
| `Rtc.RtcDevice.SetTime` | drivers/rtc/rtc_qcc730.c:167-214 | Both steps in a row: new count, then new base; a stored alarm is cancelled and armed anew, fired or not, exactly when it is not before the new base and taken; the code returned in each case; the base changes even if that fails |
| `Rtc.RtcDevice.StoreCount` | drivers/rtc/rtc_qcc730.c:176-180 | The step before the lock: the count read now is stored, the base stays |
| `Rtc.RtcDevice.CommitTime` | drivers/rtc/rtc_qcc730.c:182-213 | The step under the lock, whatever came between: the base is stored, the alarm is armed anew from it with a count read now |
| `RtcRace.ReadingTrueIff` | drivers/rtc/rtc_qcc730.c:176-186 | A reading shows the time since the last set_time exactly when no call has stored a later count since that call stored its own |
| `RtcRace.GoesBackIff` | drivers/rtc/rtc_qcc730.c:176-186 | Two readings with stores of counts between them go back exactly when the stored count moved on by more than the counter did from one reading to the other |
| `RtcRace.StoreIsHarmlessIff` | drivers/rtc/rtc_qcc730.c:176-182 | All readings around the first step of a set_time are in order if and only if the counter has not moved since the count stored before |
| `RtcCalls.SetClock` | drivers/rtc/rtc_qcc730.c:167-214 | An invalid time is refused and changes nothing; without a stored alarm every valid time succeeds; with one, EINVAL exactly for an alarm before the new time, else success exactly when its count is in time; the clock counts as set after a success and stays so |
| `RtcCalls.SetAlarmClock` | drivers/rtc/rtc_qcc730.c:303-342 | The same of setting an alarm, on totals of nanoseconds, with cancelling, the one-alarm limit and an alarm that is armed already |
| `RtcCalls.ReadClock` | drivers/rtc/rtc_qcc730.c:216-282 | Refused exactly before the first success of setting the clock, or at frequency 0; the value returned is the last stored time plus the time since the last stored count |
| `RtcCalls.ShownSays` | drivers/rtc/rtc_qcc730.c:241-262 | That value to the nanosecond, whatever the two counter words show, with the ticks modulo 2^64 |
| `RtcCalls.WithoutRollOver` | drivers/rtc/rtc_qcc730.c:241-262 | When the low word did not roll over it is the time at the first counter access |
| `RtcCalls.ReadTrueIff` | drivers/rtc/rtc_qcc730.c:176-282 | The value that a read of the clock returns is the time since the last set_time exactly when no call has stored a later count since that call stored its own |
| `RtcCalls.SetRunRead` | drivers/rtc/rtc_qcc730.c:167-282 | After a successful set_time and any calls, ticks and interrupts that do not set the clock, get_time succeeds (at a frequency other than 0), and returns the time that was set plus the time since the count at which it was set, exactly so when neither counter reading rolled over |
| `Rtc.RtcDevice.AlarmSetTime` | drivers/rtc/rtc_qcc730.c:303-342 | Cancel with an empty mask; else the code returned in each case, success arms exactly this alarm from a count read during the call, and each failure leaves alarm and timer as they were |
| `Rtc.RtcDevice.GetTime` | drivers/rtc/rtc_qcc730.c:216-282 | ENODATA before a time is set, EIO at frequency 0, else the reading of the stored base and the ticks since the stored count, at a two-word count between entry and exit |
| `Rtc.RtcDevice.Interrupt` | drivers/rtc/rtc_qcc730.c:62-82 | The callback runs, or the alarm is flagged if there is none; the alarm is disarmed |
| `RtcRun.AnyRun` | drivers/rtc/rtc_qcc730.c:95-214 | Over any run of calls, ticks and interrupts, also between the two steps of setting the clock: arms = fired + dropped + armed, every firing delivered once, firings bounded by the alarms set and the served ones armed anew, and an armed compare register is a count read after the base was last stored plus the alarm's ticks, in 64 bits; a clock that is set stays set, and only the calls that set it change its time and count |
| `QTimer.TwoWordReadIff` | drivers/counter/counter_qcc730_qtmr.c:89-108 | The value read lies between the counts at its accesses if and only if the low word did not roll over; else it is 2^32 too large |
| `QTimer.ArmingKept` | drivers/counter/counter_qcc730_qtmr.c:110-116 | Between any two accesses the interrupt is masked until the compare register is complete |
| `QTimer.NoSpuriousAlarm` | drivers/counter/counter_qcc730_qtmr.c:211-243 | However the counter advances during arming, the line is low until armed and then high exactly from the requested count on |
| `QTimer.HalfWrittenIsUnsafe` | drivers/counter/counter_qcc730_qtmr.c:110-116 | Why the mask is needed: an unmasked half-written value can fire early |
| `QTimer.Timer.GetValue64` | drivers/counter/counter_qcc730_qtmr.c:89-108 | The low word of one count and the high word of a later one |
| `QTimer.Timer.SetCval` | drivers/counter/counter_qcc730_qtmr.c:110-116 | The two writes are a run of the register-access model up to the point where only unmasking is left |
| `QTimer.Timer.Arm` | drivers/counter/counter_qcc730_qtmr.c:231-241 | Arming is a complete run of the register-access model, so NoSpuriousAlarm holds of it |
| `QTimer.Timer.SetAlarmAbsolute` | drivers/counter/counter_qcc730_qtmr.c:197-244 | Armed exactly when none is armed, the request is absolute, the value fits 56 bits and has not passed at a two-word count read during the call; errors change no register |
| `QTimer.Timer.SetAlarm` | drivers/counter/counter_qcc730_qtmr.c:118-164 | The relative form: the value is a two-word count read during the call plus the ticks; the range is checked before the kind |
| `QTimer.Timer.CancelAlarm` | drivers/counter/counter_qcc730_qtmr.c:166-181 | Masks the interrupt and drops an armed alarm |
| `QTimer.Timer.Start` | drivers/counter/counter_qcc730_qtmr.c:43-61 | Enables the timer masked: an armed alarm is dropped |
| `QTimer.Timer.Stop` | drivers/counter/counter_qcc730_qtmr.c:63-79 | Disables and masks |
| `QTimer.Timer.Isr` | drivers/counter/counter_qcc730_qtmr.c:246-264 | One firing per armed alarm, reported with the ticks limited to 2^32 - 1 |
| `I2cStream.RoundTrip` | drivers/i2c/i2c_qcc730.c:633-651 | For every message list, decoding the emitted words gives the messages' transactions under the driver's flags, in order with directions, bytes and STOPs, in the bus terms of section 3.1.4 of NXP UM10204 |
| `I2cStream.CallerRoundTripIff` | drivers/i2c/i2c_qcc730.c:633-651 | Decoding gives the transactions that the caller asked for, specified without the driver's flags, if and only if no break is lost; each lost break joins two of them |
| `I2cStream.LostIff` | drivers/i2c/i2c_qcc730.c:633-639 | Exactly when a break that the caller asked for is lost behind an empty message |
| `I2cStream.LostBreaks` | drivers/i2c/i2c_qcc730.c:633-639 | The lists that lose one: an empty message's RESTART between two writes, and a read followed by an empty write and a read |
| `I2cStream.FullMessagesLoseNothing` | drivers/i2c/i2c_qcc730.c:633-651 | Lists without empty messages are carried exactly as asked |
| `I2cStream.BytesConserved` | drivers/i2c/i2c_qcc730.c:467-588 | The bus carries the concatenation of the messages' bytes |
| `I2cStream.WordCount` | drivers/i2c/i2c_qcc730.c:467-588 | One word per byte; empty messages emit nothing |
| `I2cStream.CompileSays` | drivers/i2c/i2c_qcc730.c:467-651 | Word by word: direction, byte, RESTART on the first byte of the first message, of a flagged one and of one after a read or a STOP, STOP on the last byte |
| `I2cStream.StopsReachBusIff` | drivers/i2c/i2c_qcc730.c:488-491 | All requested STOPs reach the bus if and only if no empty message asks for one |
| `I2cStream.BreaksExactly` | drivers/i2c/i2c_qcc730.c:633-639 | For every list, the bus begins a transaction exactly at the first non-empty message, at a flagged one, after a non-empty message's STOP, and where the direction changes |
| `I2cDriver.I2c.DataRecv` | drivers/i2c/i2c_qcc730.c:467-523 | The message's words go out and the bytes arrive in its buffer; at no moment is more than one byte on its way; a timeout means that no byte had come, and from a clean controller that a prefix ending in a read has gone out |
| `I2cDriver.I2c.DataWrite` | drivers/i2c/i2c_qcc730.c:534-588 | The message's words go out, never into a full FIFO, and room is left behind; no more words are left waiting than Pending counts; a timeout means a full FIFO, and a controller with room never times out |
| `I2cDriver.I2c.ConfigAddr` | drivers/i2c/i2c_qcc730.c:418-429 | Disabling the controller around the address write: the words still waiting are lost on a part that flushes, and stay for the new address on one that does not |
| `I2cDriver.I2c.Transfer` | drivers/i2c/i2c_qcc730.c:590-662 | Success without an access for an empty list, ENOTSUP for a ten-bit first message, EBUSY for a busy driver, the code of a failing configuration, each only then and changing nothing; else target address and words exactly as compiled from the caller's messages, read buffers filled in order, write buffers kept; what became of its own words and of those that it found waiting; that the transfer is a run of the thread system; a timeout only with no byte received or a full FIFO, and before the first one only after a prefix that ends in a read |
| `I2cDriver.FirstTransfer` | drivers/i2c/i2c_qcc730.c:590-662 | The first transfer of a fresh device is served: all words go out under the address and all read bytes arrive, or no byte came |
| `I2cDriver.AnyTransfers` | drivers/i2c/i2c_qcc730.c:590-662 | Over any run of transfers up to the first timeout, no word was ever pushed into a full FIFO and never was more than one byte on its way |
| `I2cDriver.I2c.Serve` | drivers/i2c/i2c_qcc730.c:626-659 | With the lock taken: the address is programmed exactly when it differs from the remembered one, and decides about the words left waiting; all own words are executed under the register or left waiting |
| `I2cDriver.StoppedInside` | drivers/i2c/i2c_qcc730.c:653-656 | Stopping inside a message has sent a prefix of the whole transfer |
| `I2cRun.WholeRun` | drivers/i2c/i2c_qcc730.c:626-659 | What the driver's steps give of address, words and executions is, in every state of the thread system that shows the same controller, a run of one whole transfer there |
| `I2cRun.WholeRunOut` | drivers/i2c/i2c_qcc730.c:653-656 | The same of a transfer that times out, which is a run that ends in a timeout |
| `I2cLock.MutualExclusion` | drivers/i2c/i2c_qcc730.c:613-659 | In any run of threads with their own program counters, the lock's count and the threads inside add up to one, so no two threads are inside |
| `I2cLock.ThreadsNeverInterleave` | drivers/i2c/i2c_qcc730.c:613-659 | For any such threads and interleaving, with no transfer open, the words written are the transfers' words one after another in lock order, and the addresses were selected in that order |
| `I2cLock.ThreadsExecute` | drivers/i2c/i2c_qcc730.c:580-588 | For any such threads, under which register a word is executed, and when it is lost |
| `I2cLock.ThreadsSafeIff` | drivers/i2c/i2c_qcc730.c:613-659 | A transfer is safe in every run of any such threads without a timeout if and only if enough words follow it before the address changes or a read comes last |
| `I2cThreads.NeverInterleaved` | drivers/i2c/i2c_qcc730.c:613-659 | Of the system with one open transfer, to which the threads are shown to be a refinement: the words written are the transfers' words one after another in lock order, and the addresses are selected in that order |
| `I2cThreads.OwnAddressIff` | drivers/i2c/i2c_qcc730.c:626-631 | Exactly when the register for a transfer's words holds its own address |
| `I2cThreads.ExecutedUnderOwn` | drivers/i2c/i2c_qcc730.c:580-588 | In any run, a word is executed under its own transfer's register unless it was still waiting when a later transfer had the register changed; then a controller that flushes has lost it |
| `I2cSafe.SafeNeverCrosses` | drivers/i2c/i2c_qcc730.c:613-659 | In any run of any threads without a timeout, the words of a safe transfer (a condition on the transfers alone) are executed under its own register or still waiting for that |
| `I2cSafe.UnsafeCrosses` | drivers/i2c/i2c_qcc730.c:418-429 | For every other transfer there is a run in which its last word is still waiting at the change, and is lost on a controller that flushes |
| `I2cSafe.SafeIff` | drivers/i2c/i2c_qcc730.c:613-659 | Both, of the system with one open transfer and the transfers of one thread: all runs are safe for a transfer if and only if enough words follow it before the address changes or a read comes last |
| `I2cSafe.ReadLastIsSafe` | drivers/i2c/i2c_qcc730.c:497-517 | A transfer that ends in a read is safe |
| `I2cSafe.SafeTransferExecuted` | drivers/i2c/i2c_qcc730.c:633-651 | Once the FIFO has run empty, a safe transfer's part of the log is its messages' transactions, all executed under its own register |
| `Dma.LoweringPreservesMeaning` | drivers/dma/dma_qcc730_dxe.c:173-199 | The only walk from the first descriptor visits one descriptor per block in list order, does exactly the blocks' copies for any memory and copy, and ends at the one descriptor with an interrupt |
| `Dma.WalkUnique` | drivers/dma/dma_qcc730_dxe.c:189-198 | Every walk is at descriptor k after k steps and ends at the last block |
| `Dma.Channel.Configure` | drivers/dma/dma_qcc730_dxe.c:148-221 | Success if and only if there are 1 to 16 blocks by the count, a first block, a memory-to-memory direction, an idle channel, and every block has 1 to 0x3FFC bytes and addresses that are multiples of 4; EBUSY if and only if only idleness is missing; every field of every descriptor written: as many as blocks pass the checks, whatever the count says, so the channel's own are left exactly when these are more than sixteen; a bad block leaves the channel settings unchanged |
| `Dma.Channel.Start` | drivers/dma/dma_qcc730_dxe.c:241-262 | The pending interrupt is cleared and the engine starts at the first descriptor; a busy channel is left alone |
| `Dma.Isr` | drivers/dma/dma_qcc730_dxe.c:107-126 | Exactly bits 7 up to the last channel's are cleared; each channel is called once, in channel order, exactly when its bit is pending and it has a callback, with success exactly if its done bit is set |
| `Dma.DueExactly` | drivers/dma/dma_qcc730_dxe.c:107-126 | A channel is called once, exactly when pending and hooked, with the status of its done bit |
| `RegDomain.Expand` | drivers/wifi/qcom/qcom_wifi_drv.c:2239-2276 | For all rules the table is a prefix of what the loops visit, all of it if it fits and else as much as fits; when none wraps, of the specified table; nothing behind it changes |
| `RegDomain.ExpandRule` | drivers/wifi/qcom/qcom_wifi_drv.c:2248-2272 | The 16-bit loop of any rule ends, and appends the entries of what it visits until the table is full |
| `RegDomain.StopExists` | drivers/wifi/qcom/qcom_wifi_drv.c:2257 | Why it ends: however the variable wraps, it comes to a value that no upper edge reaches |
| `RegDomain.VisitsAreFreqs` | drivers/wifi/qcom/qcom_wifi_drv.c:2248-2272 | Without a wrap it visits exactly the wanted frequencies, ascending |
| `RegDomain.WrappedRule` | drivers/wifi/qcom/qcom_wifi_drv.c:2257 | A rule that wraps, and a frequency far below it that the table then gets |
| `RegDomain.TableExactly` | drivers/wifi/qcom/qcom_wifi_drv.c:2248-2272 | A channel is in the full table if and only if some rule asks for it: on the 20 MHz or 5 MHz grid, 10 MHz inside the edges, in the bands given in MHz, with the rule's power and passive flag, and with DFS only for 20 MHz rules |
| `RegDomain.FreqsExactly` | drivers/wifi/qcom/qcom_wifi_drv.c:2256-2263 | A rule's frequencies are exactly those on its grid, 10 MHz inside its edges and in band, ascending |
| `RegDomain.WrapIff` | drivers/wifi/qcom/qcom_wifi_drv.c:2257 | Exactly when the 16-bit loop variable passes the upper edge without wrapping |
| `RegDomain.SmallRulesNoWrap` | drivers/wifi/qcom/qcom_wifi_drv.c:2257 | Rules up to 65525 MHz never make it wrap |

## Left out

- WaitDone: timings for which the unmatched loop never returns (`Polling.CountdownReachesZeroIff`); a wait with one of them has no verdict unless the chip answers.
- DataRecv: the word-level guarantees are those until the first timeout; after one the controller may hold stale bytes or a full FIFO.
- DataWrite: the poll loop without a time limit after each word is taken to end.
- SafeIff: it and `I2cLock.ThreadsSafeIff` speak of runs without a timeout; after one, `I2cThreads.ExecutedUnderOwn` still says under which register a word is executed.
- Configure: cyclic block lists, which the source walks without end; the checks of the channel number and for a missing configuration; the memory behind the descriptors must be there to be written.
- AlignedPlanMinimal: block erases of a 64 KB block that reaches beyond the end of the array, on a chip whose size is no multiple of 64 KB, are not among the sequences compared.
- SetTime: the validity verdict on broken-down time is a parameter, and so are seconds since the epoch; the libraries that compute them are not part of this model.
- GetTime: the 56-bit wrap of the counter (decades away) and the Wi-Fi padding term.
- Flash: execute-in-place, suspend and resume, power management, device identification, the 4-byte address command, transfer mode checks, failing status-register reads.
- Flash calls from interrupt context, where the semaphore is not waited for; the interrupt-context poll loop is modelled.
- I2C: interrupt mode, bus speed and SCL timing, power management, target side.
- DMA: stop, status and power management, which are single register accesses.
- Regulatory domain: the firmware queries around the rule expansion.
- UART, GPIO, pin control, clock, reset, watchdog, SPI and AON counter drivers, SoC start-up and tooling: single register writes, table look-ups and plumbing.
