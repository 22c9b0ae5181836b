# Models of the STM32MP1 examples

A Dafny 4.11 model of the parts of the STM32MP1 example projects that hold state, loops or
arithmetic, with proofs about them. `dafny verify dfyconfig.toml` checks everything.

| file | what it models |
|---|---|
| `Common.dfy` | an optional value, `uint8_t`, and a count, shared by the models |
| `Words.dfy` | C's `uint32_t` as natural numbers below 2^32, with `&`, `\|`, `~`, `<<`, `>>` defined bit by bit |
| `BitOps.dfy` | the software `__RBIT`, `__CLZ` and `__ROR` of the CMSIS compiler headers |
| `Nvic.dfy` | priority registers packed four to a word, the byte-wide ones, priority fields, interrupt target states |
| `Mailbox.dfy` | the IPCC doorbells between the main processor (A7) and the coprocessor (M4), in micro-steps |
| `TraceLog.dfy` | the wrapping trace buffer |
| `HeapBreak.dfy` | `_sbrk` |
| `SdbText.dfy` | the messages of the shared-buffer protocol, printed and parsed, and the driver's chunked sender |
| `SdbSession.dfy` | the shared-buffer driver as a state machine on values: what a session allocates, announces, signals and frees |
| `SdbDriver.dfy` | the same driver as objects changed in place, each call proved equal to its step in `SdbSession` |
| `SdbCoprocessor.dfy` | the coprocessor's end of the protocol |
| `SdbApp.dfy` | the application's file writer and set-up loop, and the three parties together |
| `Sampling.dfy` | the application's main loop and buffer thread, interleaved read by read and write by write |
| `Handover.dfy` | the two threads with the coprocessor: which buffer is awaited and which one is reported |
| `Delivery.dfy` | the same with the driver in between |
| `SpiTransfer.dfy` | the coprocessor's main loop around an SPI transfer, with its interrupt callbacks |

Code that changes state in place is a class or a method over arrays; each method is tied to
a function of the old state, and the properties of whole runs are lemmas about that
function. Concurrent code is a state machine whose steps are single reads and writes. What
the program cannot see is a parameter of a step: outcomes of `rpmsg_send` and `fwrite`,
copies from and to user space, allocations, the content of fresh kernel memory, message
arrivals and interrupts.

## What the proofs found

- **A doorbell can be lost.** `MAILBOX_Poll` drains the queue and then clears the flag. A
  callback that fires in between has its flag thrown away after it has acknowledged, and the
  entry stays in the queue until the next doorbell (`SourceOrderLoses`,
  `LostUntilNextDoorbell`). This is the only step that breaks the invariant, and clearing
  first removes it (`OnlyInterruptLoses`).
- **The size of a report is cut to 24 bits**, because the driver's reader skips two of its
  eight digits; a report arrives unchanged exactly when its size is below 2^24
  (`ReportIsExact`).
- **Three calls of the driver do harm, and no other** (`RunAccounts`, `SessionsConserve`): an
  `mmap` for an entry that has its buffer (the first block is lost), an `open` while an entry
  has its buffer (the block is lost), and a `close` while an entry was never tried (an address
  that was never set is freed). Over any number of sessions, allocations are conserved if and
  only if none of them happened.
- **The size of an oversized message is kept**: the message is refused, and the next
  `GET_DATA_SIZE` returns its size (`OversizedIsStored`). A `GET_DATA_SIZE` with an unknown
  id resets the last entry (`UnknownIdResetsLast`).
- **The application can stall.** When the answer to a Start command is handled before
  `sampling_start` has returned, the main loop overwrites the idle state that the thread has
  just set, and no further Start is sent (`FastAnswerSticks`, `StuckForever`). Start
  commands match deliveries exactly when that never happened (`StartsMatchDeliveries`).
- **A heap break moved down to address 0 starts again at `_end`**, because NULL also marks
  the uninitialised break; the break is `_end` plus the increments granted exactly when no
  call found it there (`BreakEquation`, `RestartWitness`).
- **With two or more buffers the application waits for the wrong one** unless the reset of
  `mDdrBuffAwaited` in `sampling_start` falls at the right point of the thread's increment
  (`AwaitedIsReported`); in the ordinary case, increment first and reset after it, it already
  does so for the second Start (`SecondBufferIsMissed`), and then nothing is delivered any
  more (`MissedForever`). It never happens if and only if there is one buffer, as configured
  (`AlwaysMeetsIffOneBuffer`).
- **The coprocessor can miss an announcement.** Its receive buffer holds one message, so of
  the announcements handled in one poll only the last is looked at; it then refuses all later
  ones. It has every buffer, up to the four it accepts, if and only if it polls after each of
  their announcements (`SetUp`); with one buffer it always has it (`OneBufferIsTaken`).
- **A request on ttyRPMSG1 is dropped** if and only if the poll that handles it handles another
  message after it, whatever the transfers are doing (`DroppedIffOverwritten`).
- **An SPI request that does not wait for the answer to the one before** has one of five
  further outcomes, by where the loop stands when the running transfer completes
  (`EarlyRequestOutcome`), and each of them occurs (`EarlyRequestsOccur`,
  `EveryOutcomeOccurs`): the firmware halts if the completion does not come before the next
  start; a completion is lost if it comes before the request is taken in, or between the
  switch and the store after it; the request is swallowed if the completion comes between the
  request's being taken in and the switch; and if it comes right before the start, both
  transfers are on record and stay so if and only if the second one completes after the first
  was answered (`OverlapOutcome`); that answer may carry bytes of the second transfer
  (`OverlapTearsBytes`). A failed transfer is forgotten when a request is taken in before the
  next switch (`FailureOutcome`).

## Model

| member | source | states |
|---|---|---|
| BitOps.RbitGcc | exchange_buf/Drivers/CMSIS/Include/cmsis_gcc.h:981-1002 | the early-exit loop, which starts from the whole word, gives for every word the one whose bit k is bit 31-k of it |
| BitOps.RbitIar | exchange_buf/Drivers/CMSIS/Include/cmsis_iccarm.h:511-522 | the same for the IAR loop |
| BitOps.ReversalIsUnique | exchange_buf/Drivers/CMSIS/Include/cmsis_gcc.h:975-981 | a word has only one reversal, so all forms of RBIT agree |
| BitOps.ReversalIsInvolution | exchange_buf/Drivers/CMSIS/Include/cmsis_gcc.h:975-981 | reversing a reversal gives the word back |
| BitOps.RbitTwice | exchange_buf/Drivers/CMSIS/Include/cmsis_gcc.h:990-1001 | on every word both loops return the same, and applying one after the other gives the word back |
| BitOps.Clz | exchange_buf/Drivers/CMSIS/Include/cmsis_iccarm.h:496-509 | the mask loop ends for every word with the number of zeros above the highest set bit: 32 for 0, otherwise c with data >> (31-c) == 1 |
| BitOps.LeadingZerosOfReversal | exchange_buf/Drivers/CMSIS/Include/cmsis_iccarm.h:496-522 | a count is the leading zeros of the reversed word if and only if it is the trailing zeros of the word |
| BitOps.CountTrailingZeros | exchange_buf/Drivers/CMSIS/Include/cmsis_iccarm.h:496-522 | CLZ after RBIT counts trailing zeros |
| BitOps.BitOfRor | exchange_buf/Drivers/CMSIS/Include/cmsis_gcc.h:954-962 | for every count, bit k of the rotated word is bit (k + n) mod 32 of the word |
| BitOps.RorComposes | exchange_buf/Drivers/CMSIS/Include/cmsis_gcc.h:954-962 | rotations add up, counts wrapping included |
| BitOps.RorFormsAgree | exchange_buf/Drivers/CMSIS/Include/cmsis_iccarm.h:586-589 | the unguarded form equals the guarded one for every count for which C defines it |
| Nvic.IndexMacros | exchange_buf/Drivers/CMSIS/Include/core_armv8mbl.h:1239-1241 | through unsigned wraparound the macros name word irq/4, byte irq%4 of an interrupt, and count the exceptions -8..-1 from 0 in the same way |
| Nvic.LaneOfInsert | exchange_buf/Drivers/CMSIS/Include/core_armv8mbl.h:1451-1452 | the read-modify-write replaces one byte of a word and keeps the other three |
| Nvic.SetPackedByte | exchange_buf/Drivers/CMSIS/Include/core_armv8mbl.h:1447-1459 | SetPriority changes the byte of its own number and of no other interrupt or exception |
| Nvic.BitOfStored | exchange_buf/Drivers/CMSIS/Include/core_armv8mml.h:2346 | a priority is stored left-aligned: bit k of the byte is bit k - (8 - PRIO_BITS) of the priority, and the bits below are 0 |
| Nvic.StoredReadsBack | exchange_buf/Drivers/CMSIS/Include/core_armv8mbl.h:1471-1482 | the shifts of Set and Get cancel: the low PRIO_BITS bits come back |
| Nvic.SetKeepsRefinement | exchange_buf/Drivers/CMSIS/Include/core_armv8mml.h:2342-2352 | words and bytes that agree at every priority's address agree after the same SetPriority |
| Nvic.GetIsRefined | exchange_buf/Drivers/CMSIS/Include/core_armv8mml.h:2364-2375 | GetPriority on words returns what it returns on the bytes they refine |
| Nvic.PackedRefinesBytes | exchange_buf/Drivers/CMSIS/Include/core_armv8mbl.h:1447-1482 | over every sequence of SetPriority calls the packed registers refine the byte-wide ones, and both GetPriority functions agree for every number |
| Nvic.GetReturnsLastSet | exchange_buf/Drivers/CMSIS/Include/core_armv8mbl.h:1438-1482 | after every sequence of calls GetPriority returns the last priority set for that number mod 2^PRIO_BITS, or the old one if it was never set |
| Nvic.PackedRegisters.SetPriority | exchange_buf/Drivers/CMSIS/Include/core_cm0.h:730-742 | in memory: the new register file is SetPacked of the old one |
| Nvic.PackedRegisters.GetPriority | exchange_buf/Drivers/CMSIS/Include/core_cm0.h:754-765 | in memory: reads GetPacked of the register file |
| Nvic.ByteRegisters.SetPriority | exchange_buf/Drivers/CMSIS/Include/core_armv8mml.h:2342-2352 | in memory: the new register file is SetBytes of the old one |
| Nvic.ByteRegisters.GetPriority | exchange_buf/Drivers/CMSIS/Include/core_armv8mml.h:2364-2375 | in memory: reads GetBytes of the register file |
| Nvic.FieldWidths | exchange_buf/Drivers/CMSIS/Include/core_armv8mbl.h:1502-1503 | despite wraparound, for every group preemption and sub-priority bits add up to PRIO_BITS |
| Nvic.DecodeOfEncode | exchange_buf/Drivers/CMSIS/Include/core_armv8mbl.h:1496-1534 | decoding an encoded priority gives both fields, each cut to its width, and the encoding fits PRIO_BITS |
| Nvic.EncodeOfDecode | exchange_buf/Drivers/CMSIS/Include/core_armv8mbl.h:1496-1534 | encoding a decoded priority x gives x mod 2^PRIO_BITS |
| Nvic.EncodeIsLexicographic | exchange_buf/Drivers/CMSIS/Include/core_armv8mbl.h:1496-1509 | for fields within their widths encodings are ordered as the pairs (preemption, sub-priority) |
| Nvic.FieldsSurviveTheRegisters | exchange_buf/Drivers/CMSIS/Include/core_armv8mbl.h:1438-1534 | encoded, set, read back after calls for other numbers and decoded, the fields come back |
| Nvic.TargetRegisters.GetTargetState | exchange_buf/Drivers/CMSIS/Include/core_armv8mbl.h:1380-1390 | reads the one target bit of the interrupt, 0 for a negative number |
| Nvic.TargetRegisters.SetTargetState | exchange_buf/Drivers/CMSIS/Include/core_armv8mbl.h:1401-1412 | of all target bits in all words exactly the interrupt's becomes Non-secure; returns 1; does nothing for a negative number |
| Nvic.TargetRegisters.ClearTargetState | exchange_buf/Drivers/CMSIS/Include/core_armv8mbl.h:1423-1434 | of all target bits in all words exactly the interrupt's becomes Secure; returns 0 |
| Mailbox.StepKeepsWellFormed | exchange_buf/CM4/OPENAMP/mbox_ipcc.c:104-147 | every micro-step of A7, callbacks and poll keeps counts and flags consistent with the poll's position |
| Mailbox.OnlyInterruptLoses | exchange_buf/CM4/OPENAMP/mbox_ipcc.c:126-140 | a step keeps "no doorbell lost" if and only if it is not the acknowledgement of a pending doorbell between drain and clear; with the flag cleared first every step keeps it |
| Mailbox.NoLostDoorbell | exchange_buf/CM4/OPENAMP/mbox_ipcc.c:113-140 | over every run in which no callback fires between a channel's drain and clear, or in which the flag is cleared first, every rung and unhandled entry is covered by the flag, the occupied bit or a drain under way |
| Mailbox.LostIffInterrupted | exchange_buf/CM4/OPENAMP/mbox_ipcc.c:113-140 | over every run from a state that has lost nothing, a doorbell is lost at some point if and only if some step of the run is that acknowledgement |
| Mailbox.LostUntilNextDoorbell | exchange_buf/CM4/OPENAMP/mbox_ipcc.c:126-140 | a lost doorbell stays lost over every run without another doorbell on the channel |
| Mailbox.InterruptThenClear | exchange_buf/CM4/OPENAMP/mbox_ipcc.c:133-134 | after the dangerous acknowledgement the next step of the poll leaves the entry pending with flag and occupied bit off |
| Mailbox.SourceOrderLoses | exchange_buf/CM4/OPENAMP/mbox_ipcc.c:113-134 | a run from the start of the program that loses a doorbell, on either channel |
| Mailbox.PollProgress | exchange_buf/CM4/OPENAMP/mbox_ipcc.c:104-147 | every step of the poll comes nearer to its end and leaves the poll's outcome as it was |
| Mailbox.FinishPoll | exchange_buf/CM4/OPENAMP/mbox_ipcc.c:104-147 | left alone the poll returns, with its outcome, and loses nothing |
| Mailbox.Recover | exchange_buf/CM4/OPENAMP/mbox_ipcc.c:104-147 | while nothing is lost the coprocessor can, by its own steps, handle every entry with a doorbell |
| Mailbox.DeliverableIffNoneLost | exchange_buf/CM4/OPENAMP/mbox_ipcc.c:104-147 | the coprocessor can handle everything pending by its own steps if and only if no doorbell is lost |
| Mailbox.Firmware.Channel1Callback | exchange_buf/CM4/OPENAMP/mbox_ipcc.c:200-220 | sets RX_BUF_FREE and acknowledges: the two callback steps of the machine |
| Mailbox.Firmware.Channel2Callback | exchange_buf/CM4/OPENAMP/mbox_ipcc.c:223-243 | sets RX_NEW_MSG and acknowledges: the two callback steps of the machine |
| Mailbox.Firmware.Poll | exchange_buf/CM4/OPENAMP/mbox_ipcc.c:104-147 | uninterrupted, empties and unflags exactly the flagged channels, as the machine's poll; returns 0 if there was one, else -1 |
| Mailbox.Firmware.Notify | exchange_buf/CM4/OPENAMP/mbox_ipcc.c:154-193 | rings exactly the ring's channel once, never while the last doorbell is unacknowledged; -1 and no change for another id |
| TraceLog.Log.constructor | exchange_buf/CM4/OPENAMP/openamp_log.c:57-63 | the zeroed static buffer is the image of the empty history |
| TraceLog.Log.Put | exchange_buf/CM4/OPENAMP/openamp_log.c:59-70 | every character extends the history by its low byte, the buffer stays the image of the history, and no write leaves it |
| TraceLog.LapStep | exchange_buf/CM4/OPENAMP/openamp_log.c:65-69 | the static offset is ((n-1) mod (N-1)) + 1 after n characters |
| TraceLog.CurrentLap | exchange_buf/CM4/OPENAMP/openamp_log.c:59-70 | the buffer starts with exactly the last k characters and a terminator, and reads as that text |
| TraceLog.RecoverHistory | exchange_buf/CM4/OPENAMP/openamp_log.c:59-70 | after a lap, the part behind the terminator followed by the part before it is the end of the history without a gap, at least its last N-2 characters |
| HeapBreak.Heap.Sbrk | exchange_buf/CM4/Core/Src/sysmem.c:54-80 | break and result are those of one step of the model |
| HeapBreak.BreakNeverPassesLimit | exchange_buf/CM4/Core/Src/sysmem.c:69-79 | a success leaves the break at most max_heap and returns the old break; a refusal leaves the initialised break |
| HeapBreak.StackLimit | exchange_buf/CM4/Core/Src/sysmem.c:59-60 | max_heap and the reserved stack together reach exactly to the end of RAM, mod 2^32 if the stack is larger |
| HeapBreak.SucceedsIffStackIsFree | exchange_buf/CM4/Core/Src/sysmem.c:59-73 | in low memory a call succeeds if and only if the new break is at least 0 and leaves _Min_Stack_Size bytes below _estack |
| HeapBreak.BlocksKeepStackFree | exchange_buf/CM4/Core/Src/sysmem.c:69-79 | over every growing run each granted block ends at least _Min_Stack_Size bytes below _estack |
| HeapBreak.BreakModuloWord | exchange_buf/CM4/Core/Src/sysmem.c:54-80 | over every sequence of calls, anywhere in memory, the break is _end plus granted increments plus restarts, mod 2^32 |
| HeapBreak.StepWithoutWrap | exchange_buf/CM4/Core/Src/sysmem.c:69-79 | in low memory a call succeeds if and only if the unbounded sum lies in 0..max_heap |
| HeapBreak.BreakWithRestarts | exchange_buf/CM4/Core/Src/sysmem.c:54-80 | in low memory the equation of the break holds without wraparound over every sequence of calls |
| HeapBreak.BreakEquation | exchange_buf/CM4/Core/Src/sysmem.c:54-80 | the break is _end plus the increments granted if and only if no call found it at address 0 |
| HeapBreak.RestartWitness | exchange_buf/CM4/Core/Src/sysmem.c:63-67 | in every layout below 2^31 with room for a heap, two calls after which the break is not _end plus the increments granted |
| HeapBreak.EndRises | exchange_buf/CM4/Core/Src/sysmem.c:54-80 | with non-negative increments the break never falls |
| HeapBreak.BlockIsInside | exchange_buf/CM4/Core/Src/sysmem.c:69-79 | with non-negative increments a call is refused if and only if it does not fit behind what was granted; a block lies between _end and max_heap |
| HeapBreak.BlocksAreDisjoint | exchange_buf/CM4/Core/Src/sysmem.c:54-80 | with non-negative increments blocks come in order and do not overlap |
| SdbText.DecodeOfReport | 0_kernel_modules/rpmsg_sdb/stm32_rpmsg_sdb.c:69-102 | for every id up to INT_MAX and every size, the reader returns the id and the size mod 2^24 of a report |
| SdbText.ReportIsExact | 0_kernel_modules/rpmsg_sdb/stm32_rpmsg_sdb.c:91-98 | a report comes through unchanged if and only if its size is below 2^24 |
| SdbText.DecodeOfAnyId | 0_kernel_modules/rpmsg_sdb/stm32_rpmsg_sdb.c:84-98 | the id of a report comes back for every int, negative ones included, and any other id is refused as out of range |
| SdbText.UnsignedAccepts | 0_kernel_modules/rpmsg_sdb/stm32_rpmsg_sdb.c:85-91 | an unsigned numeral is accepted, with or without a newline behind it, if and only if it is all digits and below 2^64, and then has their value |
| SdbText.KstrtolForms | 0_kernel_modules/rpmsg_sdb/stm32_rpmsg_sdb.c:85-91 | a sign, a newline, and 0x or 0X in base 16 are read as documented |
| SdbText.LeadingSeparator | 0_kernel_modules/rpmsg_sdb/stm32_rpmsg_sdb.c:80-91 | in a message that starts with 'L' everything behind it is read as the id, and its end once more as the size |
| SdbText.ReportText | exchange_large_buf/CM4/Core/Src/main.c:278 | the report is 'B', the index in decimal, 'L', and the whole size in eight lower-case hexadecimal digits |
| SdbText.InfoText | 0_kernel_modules/rpmsg_sdb/stm32_rpmsg_sdb.c:64-67 | the announcement is 'B', the index in decimal, 'A', the address, 'L' and the size, the last two in eight lower-case hexadecimal digits |
| SdbText.BufferInfoFits | 0_kernel_modules/rpmsg_sdb/stm32_rpmsg_sdb.c:64-67 | the announcement of any 32-bit index, address and size has at most 30 characters, so the 32-byte buffer cuts nothing off |
| SdbText.BufferInfoIsInjective | 0_kernel_modules/rpmsg_sdb/stm32_rpmsg_sdb.c:64-67 | different triples are announced by different texts |
| SdbText.SendBufInfo | 0_kernel_modules/rpmsg_sdb/stm32_rpmsg_sdb.c:104-139 | for every message size, text and outcomes of the sends: chunks are full except the last, their concatenation is the text if and only if 0 is returned and a proper prefix up to the failed send otherwise; a negative message size is returned unsent |
| SdbText.StreamIdentifiesBuffer | 0_kernel_modules/rpmsg_sdb/stm32_rpmsg_sdb.c:118-138 | two announcements sent in full, whatever the message sizes, that concatenate to the same text announce the same index, address and size |
| SdbCoprocessor.AnnouncementIsRead | exchange_large_buf/CM4/Core/Src/main.c:174-226 | the coprocessor takes the driver's announcement if and only if it names the awaited buffer, one of 0..3, and then has the driver's address and size |
| SdbCoprocessor.AcceptsAnnouncementsOnly | exchange_large_buf/CM4/Core/Src/main.c:176-212 | a text is accepted if and only if, whatever its first character, it begins like the driver's announcement of the awaited buffer, one of 0..3, for some address and size |
| SdbCoprocessor.AnnouncedIsRead | exchange_large_buf/CM4/Core/Src/main.c:213-215 | from such a text exactly that address is stored, and that size if no further digit follows |
| SdbCoprocessor.ReadHexClamps | exchange_large_buf/CM4/Core/Src/main.c:214-215 | longer numerals are cut at the greatest long long and then to 32 bits |
| SdbCoprocessor.Coprocessor.TreatAnnouncement | exchange_large_buf/CM4/Core/Src/main.c:174-226 | exactly an accepted announcement is stored, at the next place of the table; the last one makes the machine idle |
| SdbCoprocessor.Coprocessor.Poll | exchange_large_buf/CM4/Core/Src/main.c:118-127 | of all messages of a poll only the last, cut to what the buffer keeps, is treated; nothing happens without one |
| SdbCoprocessor.Coprocessor.FinishTransfer | exchange_large_buf/CM4/Core/Src/main.c:274-285 | reports the filled buffer's index and the whole configured size, character by character, and turns to the next buffer, round the table |
| SdbSession.RunKeepsIndexed | 0_kernel_modules/rpmsg_sdb/stm32_rpmsg_sdb.c:296-316 | over every run of opens, calls and closes entry i of the list has index i, and between opens and closes the list never shrinks |
| SdbSession.SearchIsIndexing | 0_kernel_modules/rpmsg_sdb/stm32_rpmsg_sdb.c:402-418 | searching the list for an id is indexing with it |
| SdbSession.DeliveryIsExact | 0_kernel_modules/rpmsg_sdb/stm32_rpmsg_sdb.c:396-418 | a message touches exactly the entry it names and signals it if and only if the size fits; if it names none it changes nothing, with an error if and only if its id is past LastBufferId |
| SdbSession.PageAlignRoundsUp | 0_kernel_modules/rpmsg_sdb/stm32_rpmsg_sdb.c:143-144 | the mapped size is the least multiple of 4096 that holds the requested one, and 0 in the last page of the address space |
| SdbSession.MmapOutcome | 0_kernel_modules/rpmsg_sdb/stm32_rpmsg_sdb.c:141-202 | mmap returns 0 if and only if there are a device and an entry and the buffer could be allocated and mapped; for every failure its error and what it leaves behind; what is stored, announced and counted |
| SdbSession.OtherOutcomes | 0_kernel_modules/rpmsg_sdb/stm32_rpmsg_sdb.c:304-395 | the results of SET_EFD, GET_DATA_SIZE and unreadable messages; their errors change nothing |
| SdbSession.RunAccounts | 0_kernel_modules/rpmsg_sdb/stm32_rpmsg_sdb.c:141-261 | over every sequence of opens, calls and closes, list entries and live allocations correspond one to one, nothing having been freed wrongly, if and only if no call did harm: no mmap for an entry with its buffer, no open while an entry has its buffer, no close while an entry was never tried |
| SdbSession.FreeAllExactly | 0_kernel_modules/rpmsg_sdb/stm32_rpmsg_sdb.c:247-255 | close frees the allocations of its entries, each exactly once, and no other; each address that was never set makes one wrong free |
| SdbSession.CloseConserves | 0_kernel_modules/rpmsg_sdb/stm32_rpmsg_sdb.c:239-261 | a close after any calls conserves if and only if none of them did harm and no entry is left untried |
| SdbSession.SessionsConserve | 0_kernel_modules/rpmsg_sdb/stm32_rpmsg_sdb.c:214-261 | over any number of sessions that end with a close the list is empty and LastBufferId 0; every allocation was freed exactly once, and nothing else, if and only if no call did harm |
| SdbSession.LastBufferIdCounts | 0_kernel_modules/rpmsg_sdb/stm32_rpmsg_sdb.c:198-201 | over every run LastBufferId is the number of mmap calls since the last close that returned 0 |
| SdbSession.LastBufferIdIsMapped | 0_kernel_modules/rpmsg_sdb/stm32_rpmsg_sdb.c:163-201 | while no call does harm and every allocated buffer could be mapped, LastBufferId is the number of entries that have their buffer, failed and refused mmap calls included |
| SdbSession.FilterAcceptsTheList | 0_kernel_modules/rpmsg_sdb/stm32_rpmsg_sdb.c:396-399 | under that discipline the LastBufferId filter lets every id of the list through if and only if at most one entry is without its buffer |
| SdbSession.MessagesReachTheList | 0_kernel_modules/rpmsg_sdb/stm32_rpmsg_sdb.c:396-418 | then a message is stored for exactly the entry it names, and changes no entry if it names none |
| SdbSession.WritingSizesOf | 0_kernel_modules/rpmsg_sdb/stm32_rpmsg_sdb.c:293-418 | for every call, which writing sizes it stores; all other entries keep theirs, and every entry its index and eventfd |
| SdbSession.OtherEntriesUntouched | 0_kernel_modules/rpmsg_sdb/stm32_rpmsg_sdb.c:331-351 | a message or size request for an id of the list leaves every other entry as it is |
| SdbSession.SizeSurvives | 0_kernel_modules/rpmsg_sdb/stm32_rpmsg_sdb.c:321-353 | an entry's writing size survives every run of calls that store nothing else for it |
| SdbSession.SizeIsDelivered | 0_kernel_modules/rpmsg_sdb/stm32_rpmsg_sdb.c:328-351 | a fitting message is signalled; after any calls that store nothing else for its entry the next size request returns exactly its size; from then on every request, however many come, returns -1 until a call stores another size |
| SdbSession.OnlyMessagesStoreSizes | 0_kernel_modules/rpmsg_sdb/stm32_rpmsg_sdb.c:321-418 | until the next message for an entry every run of calls stores nothing but the marker for it, so the requests in it all return -1 |
| SdbSession.SignalsAlwaysFit | 0_kernel_modules/rpmsg_sdb/stm32_rpmsg_sdb.c:405-415 | over every run each eventfd signal happens with a writing size at most the buffer size |
| SdbSession.OversizedIsStored | 0_kernel_modules/rpmsg_sdb/stm32_rpmsg_sdb.c:406-412 | an oversized message is refused and not signalled, and its size is what the next request returns |
| SdbSession.UnknownIdResetsLast | 0_kernel_modules/rpmsg_sdb/stm32_rpmsg_sdb.c:331-351 | a size request for an unknown id succeeds with the caller's own size and resets the last entry |
| SdbSession.SecondOpenLeaks | 0_kernel_modules/rpmsg_sdb/stm32_rpmsg_sdb.c:214-227 | a second open in a session, and then a close, leave an allocation behind if and only if some mmap of the session got one |
| SdbDriver.Driver.Open | 0_kernel_modules/rpmsg_sdb/stm32_rpmsg_sdb.c:214-227 | in place: the open step of the session |
| SdbDriver.Driver.SetEfd | 0_kernel_modules/rpmsg_sdb/stm32_rpmsg_sdb.c:293-319 | in place: the SET_EFD step of the session, with its error |
| SdbDriver.Driver.Mmap | 0_kernel_modules/rpmsg_sdb/stm32_rpmsg_sdb.c:141-202 | in place: the mmap step of the session, with its three errors; on success the last entry's size, announced and stored, is the least multiple of 4096 that holds the mapping, and, all sends successful, what was sent is the entry's announcement |
| SdbDriver.Driver.Search | 0_kernel_modules/rpmsg_sdb/stm32_rpmsg_sdb.c:402-418 | the list loop finds the first entry with the id, or none |
| SdbDriver.Driver.Receive | 0_kernel_modules/rpmsg_sdb/stm32_rpmsg_sdb.c:369-422 | in place: the message step of the session, from the text to the signal, with the decoder's errors |
| SdbDriver.Driver.GetDataSize | 0_kernel_modules/rpmsg_sdb/stm32_rpmsg_sdb.c:321-353 | in place: the GET_DATA_SIZE step of the session, with the size returned |
| SdbDriver.Driver.FreeFirst | 0_kernel_modules/rpmsg_sdb/stm32_rpmsg_sdb.c:247-255 | one round of the closing loop leaves the final outcome of the frees as it was |
| SdbDriver.Driver.Close | 0_kernel_modules/rpmsg_sdb/stm32_rpmsg_sdb.c:239-261 | in place: the close step of the session |
| SdbApp.WriteRawFile | 1_userland_app/rpmsg_sdb_app/rpmsg_sdb_app.c:359-374 | for every size and all short writes: chunks of 4096 bytes, the last perhaps shorter, cover the data in order exactly once; the total returned is the size if and only if no chunk was short, and then the file holds the data |
| SdbApp.SetUpIsRun | 1_userland_app/rpmsg_sdb_app/rpmsg_sdb_app.c:649-669 | the set-up loop is a legal run of the driver, for any number of buffers, and ends in the state that lists them |
| SdbApp.SetUpIsCareful | 1_userland_app/rpmsg_sdb_app/rpmsg_sdb_app.c:649-669 | the set-up loop does no harm to the account, keeps every mapping and gives every entry its buffer |
| SdbApp.SetUpThenClose | 1_userland_app/rpmsg_sdb_app/rpmsg_sdb_app.c:649-669 | closing after the set-up frees each of its blocks once and no other |
| SdbApp.FailedSetUpThenClose | 1_userland_app/rpmsg_sdb_app/rpmsg_sdb_app.c:659-667 | when the application exits over the mmap of a further round, closing frees each block once and nothing else, if and only if the driver had a device to allocate from |
| SdbApp.ApplicationSessionsConserve | 1_userland_app/rpmsg_sdb_app/rpmsg_sdb_app.c:646-669 | from the start of the driver any number of sessions of the application, each an open, the set-up loop and a close, runs, does no harm, and leaves nothing allocated and nothing freed wrongly |
| SdbApp.SetUp | 1_userland_app/rpmsg_sdb_app/rpmsg_sdb_app.c:649-669 | after the loop the driver lists every buffer, each with the least multiple of 4096 bytes that holds the mapping; the coprocessor, polling after any of the rounds and after the last, agrees with the driver on the address and size of each buffer it has; it has the first four, or all there are, if and only if none of their announcements is overwritten before a poll; it is idle if and only if it has all |
| SdbApp.TakenIffTreated | exchange_large_buf/CM4/Core/Src/main.c:185-189 | waiting for each announcement in turn, the coprocessor takes all acceptable ones if and only if it looks at each before the next one overwrites it |
| SdbApp.OneBufferIsTaken | exchange_large_buf/CM4/Core/Src/main.c:222-225 | a single buffer's announcement is taken whenever the polls come |
| SdbApp.ReportThenAsk | 0_kernel_modules/rpmsg_sdb/stm32_rpmsg_sdb.c:321-422 | a fitting report and the size request after it add one signal, return the size, and make the entry ready for the next report |
| SdbApp.Transfer | 1_userland_app/rpmsg_sdb_app/rpmsg_sdb_app.c:533-540 | a filled buffer's report, printed by the coprocessor and read by the driver, reaches the application through exactly one signal on its entry with the size mod 2^24 if that fits the buffer, and raises no signal otherwise |
| Sampling.AwaitedIsInRange | 1_userland_app/rpmsg_sdb_app/rpmsg_sdb_app.c:515-563 | for any number of buffers and every interleaving with the resets of sampling_start, the awaited index is in range wherever the thread indexes with it, and never above 255 |
| Sampling.WaitOutcome | 1_userland_app/rpmsg_sdb_app/rpmsg_sdb_app.c:515-525 | a thread whose buffer is not ready looks at the machine state again |
| Sampling.FetchOutcome | 1_userland_app/rpmsg_sdb_app/rpmsg_sdb_app.c:526-559 | the thread writes exactly the size it is answered; 0 makes it go on to the next buffer without a delivery |
| Sampling.ExitedForever | 1_userland_app/rpmsg_sdb_app/rpmsg_sdb_app.c:527-530 | a thread that read nothing from its eventfd delivers nothing any more, over every run |
| Sampling.StartsBalance | 1_userland_app/rpmsg_sdb_app/rpmsg_sdb_app.c:680-692 | over every interleaving, Start commands sent or due plus overwritten idle states are the deliveries plus one for a sampling machine |
| Sampling.OverwrittenAreInside | 1_userland_app/rpmsg_sdb_app/rpmsg_sdb_app.c:682-686 | the idle states overwritten are exactly those set while the main loop was inside its idle case |
| Sampling.StartsMatchDeliveries | 1_userland_app/rpmsg_sdb_app/rpmsg_sdb_app.c:680-692 | at the head of the loop Start commands less deliveries are 1 in sampling and 0 in idle if and only if no delivery finished inside the idle case |
| Sampling.FastAnswerSticks | 1_userland_app/rpmsg_sdb_app/rpmsg_sdb_app.c:391-400 | an interleaving, the coprocessor only answering Start commands, that leaves the machine sampling with no Start outstanding |
| Sampling.StuckForever | 1_userland_app/rpmsg_sdb_app/rpmsg_sdb_app.c:515-567 | from such a state no run with such a coprocessor ever leaves it |
| Handover.AwaitedIsReported | 1_userland_app/rpmsg_sdb_app/rpmsg_sdb_app.c:391-563 | over every run with 1 to 255 buffers, a waiting thread awaits the buffer that the outstanding Start brings if and only if the reset of the index fell between read and store of the increment, or before it with the first buffer just delivered, or after it with the last one, or nothing was delivered yet |
| Handover.OneBufferMeets | 1_userland_app/rpmsg_sdb_app/rpmsg_sdb_app.c:391-563 | with one buffer the awaited one is always the reported one |
| Handover.SecondBufferIsMissed | 1_userland_app/rpmsg_sdb_app/rpmsg_sdb_app.c:391-563 | for every 2 to 255 buffers, an ordinary run after which the thread waits for buffer 0 while the outstanding Start brings buffer 1 |
| Handover.AlwaysMeetsIffOneBuffer | 1_userland_app/rpmsg_sdb_app/rpmsg_sdb_app.c:391-563 | every waiting state of every run awaits the buffer that the outstanding Start brings if and only if there is one buffer |
| Handover.MissedForever | 1_userland_app/rpmsg_sdb_app/rpmsg_sdb_app.c:515-567 | a thread that waits for the wrong buffer does so for ever: over every run no further delivery, and no Start beyond the outstanding one |
| Delivery.DriverIsTransparent | 1_userland_app/rpmsg_sdb_app/rpmsg_sdb_app.c:525-561 | over every run, with eventfds signalled by the driver and sizes answered by it, application and coprocessor do exactly what they do without it, each delivery having the reported size |
| Delivery.NeverAnswersMarker | 1_userland_app/rpmsg_sdb_app/rpmsg_sdb_app.c:525-545 | over every run of application, driver and coprocessor, the size request that follows the read of an eventfd answers the reported size, at most the buffer's, and never the marker -1 |
| Delivery.WritesAreReports | 1_userland_app/rpmsg_sdb_app/rpmsg_sdb_app.c:534-563 | over every run of application, driver and coprocessor the writes to the file are one for each delivery, the k-th from buffer k mod NB_BUF with exactly the reported size |
| Delivery.SetUpServes | 1_userland_app/rpmsg_sdb_app/rpmsg_sdb_app.c:649-669 | the set-up loop leaves a driver to which the two results apply, for sizes up to the mapped one |
| SpiTransfer.BufferValIsLetter | exchange_buf/CM4/Core/Src/main.c:217-220 | the byte that memset takes from the spread word is the letter |
| SpiTransfer.EveryRequestAccounted | exchange_buf/CM4/Core/Src/main.c:175-239 | over every run without a transfer error, however many messages a poll handles and however early requests come, each request is answered, dropped, lost with its completion, swallowed, refused by the start that halts, or in progress; the k-th transmission carries 64 letters 'a' + k mod 26, and behind them the bytes of the last completed transfer unless another one is running just then |
| SpiTransfer.OneRound | exchange_buf/CM4/Core/Src/main.c:175-239 | from an idle loop one request, the start of its transfer, its completion and the answer take a fixed course that sends the next letter and the received bytes and ends idle |
| SpiTransfer.OverlapTearsBytes | exchange_buf/CM4/Core/Src/main.c:224-226 | an answer made while the next transfer is running carries whatever that one has written so far |
| SpiTransfer.FailureOutcome | exchange_buf/CM4/Core/Src/main.c:233-235 | a failed transfer halts the firmware at the next switch, unless a request is taken in before, which makes it forgotten and starts a new transfer |
| SpiTransfer.IdleLoopPolls | exchange_buf/CM4/Core/Src/main.c:175-239 | a loop with nothing to do comes back to its poll unchanged |
| SpiTransfer.DroppedIffOverwritten | exchange_buf/CM4/Core/Src/main.c:474-483 | over every run a request is dropped if and only if some poll handles another message after a request |
| SpiTransfer.DropOccurs | exchange_buf/CM4/Core/Src/main.c:474-483 | right after power-on a request followed by another message in its poll is dropped with nothing else in progress |
| SpiTransfer.StepKeepsOrder | exchange_buf/CM4/Core/Src/main.c:196-239 | unless a request is taken in early, every step keeps the loop in order, wherever the callback comes: nothing is lost or swallowed, the firmware does not halt, and a request is dropped exactly when a message of its poll overwrites it |
| SpiTransfer.TransfersStayInOrder | exchange_buf/CM4/Core/Src/main.c:196-239 | over every run in which no request is taken in early and no transfer fails: the firmware does not halt, so DMA is never started while running; no completion is overwritten; there are at most as many starts, completions and transmissions as requests not dropped, and at most one fewer; and the k-th transmission carries 64 letters 'a' + k mod 26 and then the bytes that the k-th completed transfer received |
| SpiTransfer.EarlyRequestOutcome | exchange_buf/CM4/Core/Src/main.c:196-214 | over every course of the loop's next four steps after an early request: halted if and only if no completion comes; a completion lost if and only if it comes before the request is taken in or between the switch and the store; the request swallowed if and only if it comes between the request's being taken in and the switch; two transfers on record if and only if it comes right before the start |
| SpiTransfer.EarlyRequestsOccur | exchange_buf/CM4/Core/Src/main.c:196-214 | from power-on an early request can come, both while the first transfer is running and after it completed |
| SpiTransfer.EveryOutcomeOccurs | exchange_buf/CM4/Core/Src/main.c:196-214 | whenever a request comes early in a running transfer, each of the five outcomes has a course that leads to it |
| SpiTransfer.OverlapOutcome | exchange_buf/CM4/Core/Src/main.c:206-239 | two transfers on record come back into order while no further request comes, and a completion is lost on the way if and only if the second one completes before the first was answered |
| SpiTransfer.BothOverlapsOccur | exchange_buf/CM4/Core/Src/main.c:206-239 | from two transfers on record both courses exist, with the second completion in time and not |
| SpiTransfer.FillBuffer | exchange_buf/CM4/Core/Src/main.c:217-223 | in place: aTxBuffer is the letter throughout, and the count moves on round the alphabet |
| SpiTransfer.FillAndPack | exchange_buf/CM4/Core/Src/main.c:215-226 | in place: the channel buffer starts with the letters and then the received bytes, and is otherwise unchanged |

## Left out

- The kernel's `kstrtol` is not part of this model: it is given its documented contract, with a 32-bit `long`.
- `eventfd_ctx_fdget` and `kmalloc` failing in SET_EFD: the source does not check for either.
- SdbSession.SessionsConserve: the allocations are the DMA buffers; the eventfd context that SET_EFD takes a reference to is never put by the source, and a second open also drops list entries, neither of which is counted.
- An entry's address before its first mmap is named Unset, whatever the fresh memory holds: freeing it counts as a wrong free. `dma_free_wc` is given its behaviour in Linux for NULL, which it ignores.
- The index of an entry does not overflow an `int`, and a `dma_addr_t` is 32 bits wide, as `%08x` and the 32-bit DMA mask assume.
- The mutex and calls of the driver that overlap: each call is one step.
- SdbDriver.Driver.Receive: a message whose id is accepted but which has no 'L' with two characters after it makes the source read past its end, and one that walks the list before the first open makes it follow NULL; both are excluded. Embedded terminators, and the one-byte delimiter array without a terminator given to `strsep`, are not modelled.
- SdbText.SendBufInfo: a message size of 0, with which the source loops for ever, is excluded; the result is ignored by mmap, as in the source.
- SdbDriver.Driver.GetDataSize: a request on an empty list, which dereferences NULL in the source, is excluded.
- SdbCoprocessor.Coprocessor.TreatAnnouncement: an announcement that would be accepted when the table is full, with which the source leaves the array, and an empty one, after which the source looks at the message before, are excluded.
- SdbApp.SetUp: all calls succeed (a failing mmap is FailedSetUpThenClose), a message holds 30 characters or more, so that it carries any announcement, and the coprocessor polls some time after the last one.
- Mailbox.Firmware.Poll: the drain is the OpenAMP receive loop with an endpoint for every message, so it empties the queue; interrupts during the call are the micro-step machine's.
- The IPCC's interrupt masks: a callback is enabled by the occupied bit, and acknowledging clears bit and mask in one step.
- The debug text of the mailbox, and `rproc_virtio_notified(NULL, …)` beyond its immediate return.
- BitOps.RorFormsAgree: for counts of 0 and of 32 and more C leaves the IAR form without a meaning.
- HeapBreak.BlockIsInside: `_end` and max_heap lie below 2^31, as in the linker scripts (RAM at 0x1002_0000); without that only BreakModuloWord and BreakNeverPassesLimit are stated. Address sums wrap mod 2^32.
- System exceptions below -8 (NMI, HardFault), which have no priority register, are excluded from the priority functions.
- The NVIC registers are values in memory: barriers and the hardware's unimplemented low bits are not modelled.
- The registers for enabling, pending and active interrupts, vector tables, SysTick, saturation, intrinsics, system clock and start-up code.
- Handover.AwaitedIsReported: every report has the same size, not 0 (mod 2^24, in Delivery), and a read of an eventfd returns once it was signalled.
- Sampling.StartsBalance: the byte counters and the error flag that sdb_thread keeps are not part of the machine, and a failing `poll` or `ioctl` is not modelled; the interleavings are on values, not on shared memory.
- SpiTransfer.EveryRequestAccounted: a request is a message after which the receive buffer begins with "ST"; a message of fewer than two bytes leaves part of the one before, so the buffer and not the message decides, as in the source.
- SpiTransfer.TransfersStayInOrder: `HAL_SPI_TransmitReceive_DMA` refuses only while a transfer is running, transmissions on the virtual UART succeed, and the endless debug loop on ttyRPMSG0 is left out; the interleavings are on values.
- The other states of the coprocessor's transfer machine in the large-buffer example, its command parser, and its memory-to-memory DMA.
- sysfs, tty, signals, remoteproc and the other kernel modules: plumbing without an algorithm.
- `exchange_large_buf`'s copies of the mailbox and the trace log, which are the same code.
