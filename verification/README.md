# Ten algorithms of the emulators, and what they keep

Basilisk II, SheepShaver and cxmon share a number of self-contained algorithms: a Time Manager with
two threads, an expression evaluator, a SCSI manager that interprets programs that rewrite
themselves, an LZSS decoder, the Mac's drive queue, CD audio playback from raw images, accelerated
drawing, a picture writer, a table of file identifiers, and the ROM's trap table. This project models
them in Dafny and proves what they are relied on for.

Run `dafny verify dfyconfig.toml`.

| files | what they model |
|---|---|
| `TimerSteps`, `MacTimer`, `TimerRuns`, `TimerPeriods`, `TimeManagement` | the Time Manager: two threads step by step; its arithmetic and its calls on values; the calls as runs; periodic tasks; the linked list of tasks |
| `MonWords`, `MonTokens`, `MonParser`, `MonLines`, `MonitorLine` | cxmon's expressions: machine words; tokens; parser and expression trees; whole lines; the scanner and parser on a line |
| `ScsiTib`, `ScsiManagement`, `ScsiHistory` | TIB programs and the scatter/gather table; the bus and the manager's calls; what the calls so far say about the bus and the request |
| `Lzss` | the ring decoder, the history decoder and an encoder |
| `DriveQueue`, `MacTime`, `MacMemory` | queues in Mac memory, the time conversion, memory |
| `BinCueRead`, `BinCuePlay`, `BinCueScan`, `BinCueScanEnd`, `CdPlayer` | reading data tracks; playback and scanning on values; whether a scan's loop ends; the player |
| `QuickDraw` | filling, inverting and copying rectangles |
| `PictRle`, `Pict`, `PictReader` | run-length packing, pictures, and reading them back |
| `CnidTable`, `CnidPaths`, `ExtFs` | the table of identifiers; their paths; the linked list of items |
| `TrapTable` | the trap table and its encoding |
| `Bytes`, `Options`, `Arithmetic` | machine integers, and what several models share |

Code that works in place is modelled in place: objects with the original's fields, arrays, and loops.
Each such method is proved against a function of the old state, and what the program promises is
proved of these functions. Two threads are a state machine whose events are the program's steps.

Constants are those of the headers: queue offsets from `SheepShaver/src/include/macos_util.h`, task
record offsets from `BasiliskII/src/timer.cpp`, and the first user identifier from
`BasiliskII/src/include/extfs_defs.h`. `uintptr` is 64 bits wide.

## Where the code does less than it says

* `MoveDrivesFromDriverToFront`: the comment at `SheepShaver/src/macos_util.cpp:183` holds unless the
  first two entries both belong to the driver. Then all that is left is the second entry and those of
  the driver behind it, or nothing at the head if the third is the driver's as well; otherwise the
  result is the stable partition (`LoopEnd`).
* `PrimeTime` with 0 is to continue a delay that `RmvTime` saved. It adds the upper half of the saved
  count to the last wakeup time, which after the task was inserted again is uninitialised memory. So
  the task wakes up at the same time whenever it is primed (`ContinuedDelay`, `ContinuedAtOneTime`).
* Merging scatter/gather entries wraps at 2^32 bytes. The table stands for the blocks of a command
  unless a stretch of blocks that follow each other in memory is as long (`ScsiManagement.EveryRun`,
  `MergedLengthWraps`).
* `do_invrect` and `do_fillrect` take a byte off an empty row at an odd address, and their 32-bit
  length wraps around (`RowIsRight`, `InvertedRowIsRight`).
* A CD play that is 2^31 bytes long or more without its pregap is silent, and one that is as long with
  its pregap is cut off at position 2^31, whether or not the image is that long (`WholePlayIsRight`;
  `PlayCanBeSilent` shows one from an image of 400 million bytes).
* A scan that comes to where the file has ended can loop for ever (`LoopEndsIffFinishes` says when,
  `ScanCanHang` shows one).
* A scan leaves the pregap of a track out of account, so that it begins a pregap too far on
  (`ScanSkipsPregap`).
* A guest name of more than 31 characters is never found again: each lookup makes another item
  (`FindItemGuestAgain`, `LongNameTwice`).
* Renaming a directory leaves the identifiers of its contents at the old path
  (`RenameLeavesContentsBehind`).
* `CompressUsingRLE` with more room than its query asks for can write a one-byte prefix that is too
  small (`EncodedIfPrefixFits` says when, `PrefixTooShort` shows a row).
* `cxmon/README` says that all numbers are 32-bit values. The code computes with `uintptr`, which the
  model follows.
* The test for a zero byte in the one-byte deltas of the trap table can never succeed.

## Model

| member | source | states |
|---|---|---|
| TimerSteps.EveryRun | BasiliskII/src/timer.cpp:338-676 | In every interleaving of guest calls, the interrupt, the timer thread, stray signals and the clock, from the start: each active task wakes no earlier than `wakeup_time`, or its interrupt is pending, on its way or being served, or its own priming is not complete; and the timer thread is never suspended while it holds the lock. |
| TimerSteps.StepKeepsInv | BasiliskII/src/timer.cpp:338-676 | The invariant behind `EveryRun` for one step: place of the lock and of the suspension, no lost wakeup, the sleeper's deadline, distinct tasks, and the interrupt's saved place in the list. |
| TimerSteps.StepKeepsCovered | BasiliskII/src/timer.cpp:375-411 | No step of either thread leaves an active task with nothing that will call it. |
| TimerSteps.StepKeepsLock | BasiliskII/src/timer.cpp:235-256 | Who holds the lock and whether the timer thread is suspended follow from where both threads are in their code. |
| TimerSteps.StepKeepsSleep | BasiliskII/src/timer.cpp:582-586 | A timer thread that sleeps and is not suspended sleeps until exactly `wakeup_time`, because a resumed thread does not go on sleeping. |
| TimerSteps.StepKeepsNext | BasiliskII/src/timer.cpp:609-617 | The list entry that the interrupt has saved as its next one stays in the list. |
| TimerSteps.WakeupIsOverwritten | BasiliskII/src/timer.cpp:588-596 | The interrupt is needed: from any state where the timer thread has made up its mind, a task can be primed for a later time and that time is then replaced by the maximum, with the interrupt still to come. |
| TimerSteps.CallRuns | BasiliskII/src/timer.cpp:493-526 | Lock, suspend, update, unlock and resume, with no step of the timer thread between them, do exactly the update and leave a sleeping thread awake. |
| TimerSteps.ThreadComesNearer | BasiliskII/src/timer.cpp:582-601 | When a task is due and no interrupt pending, the timer thread can step, and comes nearer to raising it. |
| TimerSteps.ThreadDelivers | BasiliskII/src/timer.cpp:582-601 | A task that is due has its interrupt raised within nine steps of the timer thread, none of which waits. |
| TimerSteps.EveryScheduleDelivers | BasiliskII/src/timer.cpp:582-601 | However steps of the timer thread, stray signals and the clock follow one another: with the emulator thread outside the Time Manager, the interrupt is raised once the timer thread has made nine steps. |
| TimerSteps.EmulatorGoesOn | BasiliskII/src/timer.cpp:375-426 | Inside a call the emulator thread can step, or else the timer thread can that holds the lock. |
| TimerSteps.CallEnds | BasiliskII/src/timer.cpp:375-426 | Neither thread blocks the other for good: from every reachable state a call ends within eight steps. |
| TimerSteps.PassServes | BasiliskII/src/timer.cpp:609-640 | The interrupt's walk over the list makes exactly the active tasks inactive that have expired, each called once, and changes no other. |
| TimerSteps.DueTaskIsCalled | BasiliskII/src/timer.cpp:582-676 | From a due task to its call: there is a run, without the clock moving, that raises the interrupt, serves it, calls that task and every other expired one, and ends outside the Time Manager. |
| TimerSteps.Earliest | BasiliskII/src/timer.cpp:389-393 | The recomputed wakeup time is the least one of the active tasks, or the maximum. |
| TimerPeriods.NoDrift | BasiliskII/src/timer.cpp:338-676 | A task that is inserted, primed, and primes itself again in each interrupt that calls it, while guest code and other routines do what they like with other tasks: an extended task wakes at its first time plus a whole number of delays however late it is called, and is called in just the interrupts that find that time past; another task always wakes one delay after it last primed itself. |
| TimerPeriods.FirstPriming | BasiliskII/src/timer.cpp:338-480 | A task that has not been scheduled before, or is not extended, wakes when its delay is over from the moment at which it is primed, whatever its new descriptor contains. |
| TimerPeriods.InterruptPrimes | BasiliskII/src/timer.cpp:609-640 | One interrupt: the task is called if and only if its time is not after it, and its next time is then counted from that one, or, if it is not extended, from the moment at which it primes itself. |
| MacTimer.InsertedKind | BasiliskII/src/timer.cpp:341 | Inserting never makes a task active, and makes it extended exactly for the InsXTime trap. |
| MacTimer.ContinuedDelay | BasiliskII/src/timer.cpp:358-480 | A task that was primed, is removed, inserted again with InsXTime and primed with 0 is to go on for what remained. It wakes when it should if and only if what its new descriptor happens to contain and the upper half of the saved count make up for each other. |
| MacTimer.ContinuedAtOneTime | BasiliskII/src/timer.cpp:358-480 | So it wakes at the same time whenever it is primed, and no more than one moment is right. |
| MacTimer.ContinuedTooLong | BasiliskII/src/timer.cpp:358-480 | Half a second left, and the descriptor as it was before: the task wakes after more than a minute. |
| MacTimer.HalfIsWhole | BasiliskII/src/timer.cpp:454-460 | The upper half of a saved count is the same delay if and only if the count is 0 or one other value. |
| TimerRuns.InsTimeIsStep | BasiliskII/src/timer.cpp:338-351 | InsTime as a whole is one step of the two-thread machine. |
| TimerRuns.PrimeTimeIsRun | BasiliskII/src/timer.cpp:433-528 | PrimeTime as a whole is a run of the machine with the time that it computes. |
| TimerRuns.RmvTimeIsRun | BasiliskII/src/timer.cpp:358-426 | RmvTime as a whole is a run of the machine, including the freed descriptor. |
| TimerRuns.InterruptIsRun | BasiliskII/src/timer.cpp:609-676 | The whole interrupt, with routines that insert, prime and remove tasks but none still to come, is a run of the machine from taking the flag to the new wakeup time. |
| TimerRuns.CallsAreRun | BasiliskII/src/timer.cpp:338-528 | All the calls of a routine are a run of the machine that keeps the interrupt's place in the list. |
| TimerRuns.CallKeepsOthers | BasiliskII/src/timer.cpp:338-528 | A call about one task leaves everything the interrupt looks at in any other task as it was. |
| TimerRuns.PassCallsExpired | BasiliskII/src/timer.cpp:609-640 | With routines that call the Time Manager only for their own task, the interrupt calls each task that had expired when it began and has a routine, once, in the order of the list, and leaves all that had not expired as they were. |
| TimerRuns.InterruptCallsExpired | BasiliskII/src/timer.cpp:609-676 | The same for the whole interrupt, after which no active task wakes before `wakeup_time`. |
| TimeManagement.TimeManager.FindDesc | BasiliskII/src/timer.cpp:111-120 | Finds the first descriptor of the task in the linked list. |
| TimeManagement.TimeManager.FreeDesc | BasiliskII/src/timer.cpp:92-104 | Unlinks exactly that descriptor, and keeps the others in order. |
| TimeManagement.TimeManager.SetWakeupTime | BasiliskII/src/timer.cpp:389-393 | The loop over the linked list sets `wakeup_time` to the earliest active time. |
| TimeManagement.TimeManager.InsTime | BasiliskII/src/timer.cpp:338-351 | The new list, task record and wakeup time are those of the call on values. |
| TimeManagement.TimeManager.RmvTime | BasiliskII/src/timer.cpp:358-426 | The same; also what remains of the delay, and when `wakeup_time` is left alone. |
| TimeManagement.TimeManager.PrimeTime | BasiliskII/src/timer.cpp:433-528 | The same; with the three ways to compute a wakeup time. |
| TimeManagement.TimeManager.TimerInterrupt | BasiliskII/src/timer.cpp:609-676 | The walk with its saved next pointer, during which routines insert, prime and remove tasks, gives the list, records, wakeup time and sequence of calls of the walk on values. |
| TimeManagement.TimeManager.VisitAll | BasiliskII/src/timer.cpp:614-640 | The loop of that walk. |
| TimeManagement.TimeManager.VisitDesc | BasiliskII/src/timer.cpp:613-637 | One task of that walk: inactive before its routine runs, and called only if there is a routine. |
| MacTimer.RemainingTime | BasiliskII/src/Unix/timer_unix.cpp:189-237 | The remaining time that is saved reads back as the time that remains, to the microsecond, or to the millisecond where microseconds do not fit. |
| MacTimer.OverdueTime | BasiliskII/src/Unix/timer_unix.cpp:215-224 | A task that was overdue when it was removed has nothing left. |
| MonLines.LineParses | cxmon/src/mon.cpp:319-802 | An expression written with parentheses only where the C precedences need them, with any spelling of its numbers and any space, is evaluated to the value of its tree, and fails exactly if a name is undefined or there is a division or modulo by 0; the parser stops at the first token after it. |
| MonLines.EveryExpressionHasLine | cxmon/src/mon.cpp:319-802 | Every expression tree whose names are names has such a line. |
| MonLines.ThreeOperands | cxmon/src/mon.cpp:319-723 | A line of three numbers and any two operators: of the two the one comes first that binds more tightly in C, and the left one of two that bind alike. |
| MonLines.SignedOperand | cxmon/src/mon.cpp:730-802 | A line of a sign and a number. |
| MonLines.PlainOperand | cxmon/src/mon.cpp:730-802 | Lines of a name, of `.` and of `:`. |
| MonLines.PrintedSeparated | cxmon/src/mon.cpp:319-802 | In a printed expression two numbers or names never meet, so that no space is ever needed. |
| MonLines.TextReadsBack | cxmon/src/mon.cpp:398-437 | Hexadecimal and decimal digits of any machine word read back as that word. |
| MonParser.ParsesPrinted | cxmon/src/mon.cpp:526-802 | At every level of the grammar: the parser, which keeps no tree, computes the tree's value and goes on with the operators that follow; so all operators group from the left. |
| MonParser.OperatorPrinted | cxmon/src/mon.cpp:526-723 | The induction step for a binary operator and its two sides. |
| MonTokens.LineScans | cxmon/src/mon.cpp:319-515 | A line of written tokens is scanned as these tokens, and what follows as it is alone. |
| MonTokens.WrittenScans | cxmon/src/mon.cpp:319-515 | Each way to write a token is scanned as the token, to its last character. |
| MonTokens.NumberScans | cxmon/src/mon.cpp:367-455 | Plain and `$` hexadecimal digits, `_` and decimal digits, and quoted characters, as numbers. |
| MonTokens.NotHex | cxmon/src/mon.cpp:490-515 | A name that begins like a hexadecimal number is still a name. |
| MonTokens.DigitsAre | cxmon/src/mon.cpp:398-421 | The value of each hexadecimal digit, in either case. |
| MonTokens.CharsAreBytes | cxmon/src/mon.cpp:444-457 | The characters of a constant are the bytes of its word, the last one the lowest, for eight of them. |
| MonTokens.StringScans | cxmon/src/mon.cpp:459-488 | A string goes up to the next quote, and is an error without one. |
| MonTokens.Tokens | cxmon/src/mon.cpp:319-391 | A line gives finitely many tokens, of which only the last is the end of the line or an error. |
| MonWords.BitsAreBitwise | cxmon/src/mon.cpp:526-602 | Inclusive OR, exclusive OR and AND work on each bit by itself. |
| MonWords.BitwiseMeans | cxmon/src/mon.cpp:526-602 | What `&#124;`, `^` and `&` give for each pair of bits. |
| MonWords.ShiftsMean | cxmon/src/mon.cpp:610-638 | A shift by less than 64: each bit of the result is the operand's bit that many places away, and 0 where there is none. |
| MonWords.ArithmeticMeans | cxmon/src/mon.cpp:645-673 | `+`, `-` and `*` are those of the integers modulo 2^64. |
| MonWords.DivisionMeans | cxmon/src/mon.cpp:680-723 | `/` and `%` give the quotient and the remainder, and fail exactly for 0. |
| MonWords.UnaryMeans | cxmon/src/mon.cpp:730-802 | `-` is the difference from 0, and `~` turns each bit around. |
| Arithmetic.SameBits | cxmon/src/mon.cpp:526-638 | Words with the same bits are the same, so that these laws leave no result open. |
| MonitorLine.Monitor.GetChar | cxmon/src/mon.cpp:299-302 | A character is taken from the line; the zero at its end may be read, and nothing beyond it ever is. |
| MonitorLine.Monitor.GetHexNumber | cxmon/src/mon.cpp:398-421 | Value of the digits in a machine word, rejected if a letter follows. |
| MonitorLine.Monitor.GetDecNumber | cxmon/src/mon.cpp:423-442 | The same to base 10. |
| MonitorLine.Monitor.GetCharNumber | cxmon/src/mon.cpp:444-457 | The characters up to the quote as bytes of a word; an error without a closing quote. |
| MonitorLine.Monitor.GetString | cxmon/src/mon.cpp:459-488 | The characters up to the closing quote, read twice. |
| MonitorLine.Monitor.GetHexOrName | cxmon/src/mon.cpp:490-515 | A hexadecimal number if the whole word is one, and else the word as a name. |
| MonitorLine.Monitor.GetToken | cxmon/src/mon.cpp:319-391 | The token at the line's current place, and the tokens still to come. |
| MonitorLine.Monitor.NextToken | cxmon/src/mon.cpp:319-391 | May only be called while there is a next token: the parser never asks for one after the end of the line or an error. |
| MonitorLine.Monitor.MonExpression | cxmon/src/mon.cpp:526-547 | The loop over the OR operator computes what the grammar says of the token stream, leaves the rest of it, and ends. |
| MonitorLine.Monitor.EorExpr | cxmon/src/mon.cpp:554-575 | The same for `^`. |
| MonitorLine.Monitor.AndExpr | cxmon/src/mon.cpp:582-603 | The same for `&`. |
| MonitorLine.Monitor.ShiftExpr | cxmon/src/mon.cpp:610-638 | The same for shifts. |
| MonitorLine.Monitor.AddExpr | cxmon/src/mon.cpp:645-673 | The same for `+` and `-`. |
| MonitorLine.Monitor.MulExpr | cxmon/src/mon.cpp:680-723 | The same for `*`, `/` and `%`, which fail on 0. |
| MonitorLine.Monitor.Factor | cxmon/src/mon.cpp:730-802 | Numbers, names, `.`, `:`, signs and parentheses. |
| ScsiTib.RecordExact | BasiliskII/src/scsi.cpp:119-131 | A recorded block appends exactly its addresses to the flattened scatter/gather table if and only if it is not merged or the merged length fits 32 bits. |
| ScsiTib.RecordStands | BasiliskII/src/scsi.cpp:119-131 | While no stretch of adjacent blocks comes to 2^32 bytes, a table that is the blocks recorded before stays so with one more; once one has, the table is shorter than the blocks for good. |
| ScsiTib.StandsExactly | BasiliskII/src/scsi.cpp:116-132 | So the flattened table is the blocks if and only if no stretch of adjacent blocks comes to 2^32 bytes. |
| ScsiTib.InMemoryFits | BasiliskII/src/scsi.cpp:116-132 | None does where every block ends inside the address space. |
| ScsiTib.MergedLengthWraps | BasiliskII/src/scsi.cpp:120-121 | Two blocks of 2^31 bytes: the merged entry has length 0. |
| ScsiTib.AddBlockFaithful | BasiliskII/src/scsi.cpp:116-132 | INC and NOINC keep the flattened table what `RecordStands` says of the recorded blocks in order, the length the sum of theirs, and the entries at most 1024. |
| ScsiTib.StepFaithful | BasiliskII/src/scsi.cpp:92-163 | So does every TIB instruction. |
| ScsiTib.RunFaithful | BasiliskII/src/scsi.cpp:90-163 | So does every TIB program, also one that writes over itself. |
| ScsiTib.MoreFuel | BasiliskII/src/scsi.cpp:90-163 | A program that ends gives the same result under every larger bound on its steps. |
| ScsiTib.BlockStep | BasiliskII/src/scsi.cpp:116-132 | INC and NOINC record the block of their operands, or fail with a full table; INC also moves its first operand to the block's end, and nothing else in memory changes. |
| ScsiTib.DataStep | BasiliskII/src/scsi.cpp:134-140 | ADD adds to the word at its first operand; MOVE copies the word there to its second; nothing else changes. |
| ScsiTib.JumpStep | BasiliskII/src/scsi.cpp:142-146 | LOOP, with any operands: a counter of 0 stands for 2^32 rounds; one is counted down, and it jumps unless it was the last. |
| ScsiTib.OtherStep | BasiliskII/src/scsi.cpp:148-163 | NOP does nothing, STOP ends without an error, and all else with one. |
| ScsiTib.IncStep | BasiliskII/src/scsi.cpp:116-132 | INC records its block and moves the pointer in its own instruction. |
| ScsiTib.LoopStep | BasiliskII/src/scsi.cpp:142-146 | LOOP counts down in its own instruction and jumps while the count is not used up. |
| ScsiTib.RecordTwice | BasiliskII/src/scsi.cpp:119-131 | Recording a block and then the block after it is recording both as one. |
| ScsiTib.CountedLoopRuns | BasiliskII/src/scsi.cpp:90-163 | The program INC p, len; LOOP -10, n; STOP ends for every n >= 1 without overflow, records p..p + n * len, and leaves p + n * len and 0 in its own instructions. |
| ScsiTib.CountedLoopFromEmpty | BasiliskII/src/scsi.cpp:90-163 | From an empty table: one entry (p, n * len) and a total of n * len. |
| ScsiManagement.ApplyKeepsInv | BasiliskII/src/scsi.cpp:170-326 | Every call keeps: the status word is a function of the bus phase, the table is empty while arbitrated or selected, and outside the free phase it is to the recorded blocks what `RecordStands` says. |
| ScsiManagement.EveryRun | BasiliskII/src/scsi.cpp:170-326 | Over every sequence of calls from the start: the status word and the empty table as above, at most 1024 entries, the total as the sum of the lengths, and the flattened table is the recorded blocks in order if and only if no stretch of adjacent ones comes to 2^32 bytes. |
| ScsiHistory.ReadingIfRead | BasiliskII/src/scsi.cpp:186-326 | Over every sequence of calls: the direction is "read" if and only if SCSIRead was accepted since the bus was last got. |
| ScsiHistory.TargetSelected | BasiliskII/src/scsi.cpp:205-226 | The target of a command is the last one selected for it, which was there. |
| ScsiHistory.PhaseFromCalls | BasiliskII/src/scsi.cpp:170-326 | The bus phase is that of the last call that was not refused. |
| ScsiHistory.FreeAtFirst | BasiliskII/src/scsi.cpp:170-326 | It is free until a call is accepted. |
| ScsiHistory.CallOrder | BasiliskII/src/scsi.cpp:170-326 | A call is accepted if and only if the last accepted one is one that it has to follow: get, select, command, any reads and writes, complete. |
| ScsiHistory.CompletedRequest | BasiliskII/src/scsi.cpp:310-326 | What the device is asked on completion: the direction as above, a table that stands for the blocks recorded since the bus was got unless a stretch is too long, and the sum of their lengths. Its answer is the caller's result and status word. |
| ScsiManagement.BlocksGrowUntilFree | BasiliskII/src/scsi.cpp:170-326 | Until the bus is free again blocks are only ever appended. |
| ScsiManagement.RunAppendsBlocks | BasiliskII/src/scsi.cpp:90-163 | A TIB program only appends blocks. |
| ScsiManagement.ScsiManager.AddToTable | BasiliskII/src/scsi.cpp:119-131 | Merging with the last entry or a new one in the two arrays, or an error if the table is full. |
| ScsiManagement.ScsiManager.ExecTib | BasiliskII/src/scsi.cpp:90-163 | The interpreter loop on memory and arrays does what the machine on values does. |
| ScsiManagement.ScsiManager.SCSIReset | BasiliskII/src/scsi.cpp:170-179 | Whole new state, as on values. |
| ScsiManagement.ScsiManager.SCSIGet | BasiliskII/src/scsi.cpp:186-198 | The same. |
| ScsiManagement.ScsiManager.SCSISelect | BasiliskII/src/scsi.cpp:205-226 | The same. |
| ScsiManagement.ScsiManager.SCSICmd | BasiliskII/src/scsi.cpp:233-272 | The same. |
| ScsiManagement.ScsiManager.SCSIRead | BasiliskII/src/scsi.cpp:279-288 | The same. |
| ScsiManagement.ScsiManager.SCSIWrite | BasiliskII/src/scsi.cpp:295-304 | The same. |
| ScsiManagement.ScsiManager.SCSIComplete | BasiliskII/src/scsi.cpp:310-326 | The same, and what the device is asked to transfer. |
| Lzss.DecodeLzss | SheepShaver/src/rom_patches.cpp:80-120 | The decoder with its 4096-byte ring writes exactly what the decoder writes that copies from its own output so far, whatever was in the ring; the rest of the destination is untouched. |
| Lzss.RingPush | SheepShaver/src/rom_patches.cpp:94-118 | After each byte the ring holds the last 4096 bytes of the history, at the places that the start index 0xfee gives. |
| Lzss.CopyFromDictionary | SheepShaver/src/rom_patches.cpp:104-113 | A copy out of the ring while it is being written is a copy from the output, also when it overlaps itself. |
| Lzss.CopyBackRepeats | SheepShaver/src/rom_patches.cpp:104-113 | Such a copy repeats with the period of its distance. |
| Lzss.DecodeLength | SheepShaver/src/rom_patches.cpp:83-119 | How many bytes a source decodes to. |
| Lzss.DecodeIsExpand | SheepShaver/src/rom_patches.cpp:83-119 | A source whose matches do not reach before the start decodes to its LZ77 expansion, whatever was in the ring. |
| Lzss.BodyReadsBack | SheepShaver/src/rom_patches.cpp:100-106 | Index and length of a packed match read back as its distance and length. |
| Lzss.TokensOfEncoding | SheepShaver/src/rom_patches.cpp:83-119 | The bit-packed form of a token list, with its flag bytes, reads back as that list. |
| Lzss.RoundTrip | SheepShaver/src/rom_patches.cpp:83-119 | Packing any well-formed token list and decoding gives its expansion. |
| Lzss.DecodePrefix | SheepShaver/src/rom_patches.cpp:83-119 | From any state, cutting the source short cuts the output short. |
| Lzss.TruncatedSource | SheepShaver/src/rom_patches.cpp:83-119 | Decoding a truncated source yields a prefix of the output. |
| Lzss.Example | SheepShaver/src/rom_patches.cpp:83-119 | The bytes 03 a b ee f1 decode to ababab. |
| DriveQueue.MacQueues.MoveDrivesFromDriverToFront | SheepShaver/src/macos_util.cpp:163-190 | In place, the queue becomes its stable partition (the driver's entries first) if and only if not both of the first two entries match; if both do, what is left is the second entry and the driver's later ones, or nothing at the head if the third matches as well. |
| DriveQueue.LeftIsQueue | SheepShaver/src/macos_util.cpp:163-190 | What is left in that case, as a queue with its links and tail. |
| DriveQueue.LoopEnd | SheepShaver/src/macos_util.cpp:163-190 | What the loop's invariant comes to at its end, in both cases. |
| DriveQueue.PartitionKeepsElements | SheepShaver/src/macos_util.cpp:163-190 | The partition loses and doubles nothing. |
| DriveQueue.MoveInQueue | SheepShaver/src/macos_util.cpp:177-184 | Taking an entry out and putting it back further in front rewrites the links to just that order. |
| DriveQueue.SecondMatchCutsOff | SheepShaver/src/macos_util.cpp:177-184 | With two matches in front, moving the second one leaves the first outside the queue. |
| DriveQueue.CutOffLosesFirst | SheepShaver/src/macos_util.cpp:163-190 | Nothing that the loop does later brings the first entry back. |
| DriveQueue.CutOffIsNotPartition | SheepShaver/src/macos_util.cpp:163-190 | So no arrangement of all entries is in the queue. |
| DriveQueue.InsertIntoQueue | SheepShaver/src/macos_util.cpp:110-118 | Writing two links, and the tail at the end of the list, inserts into the queue. |
| DriveQueue.RemoveFromQueue | SheepShaver/src/macos_util.cpp:120-135 | Writing two links, and the tail at the end of the list, removes from the queue. |
| DriveQueue.AppendToQueue | SheepShaver/src/macos_util.cpp:98-108 | Enqueue appends, and disturbs no field of any entry. |
| DriveQueue.MacQueues.Enqueue | SheepShaver/src/macos_util.cpp:98-108 | The same for the memory of the machine. |
| DriveQueue.MacQueues.InsertQueueEntry | SheepShaver/src/macos_util.cpp:110-118 | The memory afterwards. |
| DriveQueue.MacQueues.RemoveQueueEntry | SheepShaver/src/macos_util.cpp:120-135 | The memory afterwards. |
| DriveQueue.MacQueues.IsDriveNumberFree | SheepShaver/src/macos_util.cpp:141-151 | Whether an entry of the queue has the number. |
| DriveQueue.MacQueues.FindFreeDriveNumber | SheepShaver/src/macos_util.cpp:153-158 | The least free number that is not below the given one. |
| MacTime.DayCountIsCalendar | SheepShaver/src/macos_util.cpp:403-414 | The closed form is the day of the year plus the lengths of all Gregorian years since 1904. |
| MacTime.MacTimeCountsSeconds | SheepShaver/src/macos_util.cpp:387-422 | Without offsets the result is the number of seconds since 1904, modulo 2^32. |
| MacTime.SecondsIncrease | SheepShaver/src/macos_util.cpp:403-418 | That number grows strictly with calendar time. |
| MacTime.MacTimeOrders | SheepShaver/src/macos_util.cpp:403-418 | So do the results, as long as the number fits 32 bits. |
| MacTime.DayOffsetClips | SheepShaver/src/macos_util.cpp:414-418 | What a day offset preference does, and that it clips at the start of 1904. |
| MacTime.YearOffsetClips | SheepShaver/src/macos_util.cpp:406-406 | A year offset moves the year, but never before 1904. |
| QuickDraw.DoInvrect | SheepShaver/src/gfxaccel.cpp:72-137 | The aligned loops with their unrolled body invert exactly the whole pixels of the row, for every alignment and every 32-bit length, 0 included, of which an odd address makes 2^32. |
| QuickDraw.DoFillrect | SheepShaver/src/gfxaccel.cpp:185-251 | The same for filling, with the colour's bytes in phase, on hosts of both byte orders. |
| QuickDraw.InvertWords | SheepShaver/src/gfxaccel.cpp:94-113 | The unrolled loop, entered in its middle, does all whole words. |
| QuickDraw.FillWords | SheepShaver/src/gfxaccel.cpp:207-227 | The same for filling. |
| QuickDraw.InvertTwice | SheepShaver/src/gfxaccel.cpp:72-137 | Inverting twice is the identity. |
| QuickDraw.RowIsRight | SheepShaver/src/gfxaccel.cpp:72-137 | The row is painted as it should be if and only if it is not an empty row at an odd address whose prologue takes a byte off, so that the 32-bit length wraps around and 4 GB are painted; or if none of these look different. |
| QuickDraw.InvertedRowIsRight | SheepShaver/src/gfxaccel.cpp:79-93 | An inversion is right if and only if its prologue does not overrun. |
| QuickDraw.RowsPaintRectangle | SheepShaver/src/gfxaccel.cpp:158-177 | Row by row, each byte of the rectangle is painted once, in the phase of its row. |
| QuickDraw.RowsPaintOnlyRectangle | SheepShaver/src/gfxaccel.cpp:158-177 | No other byte is. |
| QuickDraw.PatternOfByte | SheepShaver/src/gfxaccel.cpp:253-300 | At 8 bits per pixel a rectangle is filled with the low byte of the colour, on hosts of both byte orders. |
| QuickDraw.RectangleLooks | SheepShaver/src/gfxaccel.cpp:72-251 | Every bit of an inverted rectangle is turned around, and each row of a filled one has the four bytes of the colour in turn. |
| QuickDraw.InvertRectangleTwice | SheepShaver/src/gfxaccel.cpp:140-178 | Inverting a rectangle twice restores every byte. |
| QuickDraw.NqdInvrect | SheepShaver/src/gfxaccel.cpp:140-178 | The whole operation paints the rows. |
| QuickDraw.NqdFillrect | SheepShaver/src/gfxaccel.cpp:253-292 | The whole operation paints the rows, for each depth. |
| QuickDraw.CopyOneMore | SheepShaver/src/gfxaccel.cpp:336-361 | One more row, in an order that is safe, keeps the copy simultaneous. |
| QuickDraw.CopiedIsUnique | SheepShaver/src/gfxaccel.cpp:336-361 | There is only one result of a simultaneous copy. |
| QuickDraw.OverlapIsSafe | SheepShaver/src/gfxaccel.cpp:336-361 | With equal strides and rows no wider, copying down is safe when the destination is not above the source, and up when it is not below, for any overlap. |
| QuickDraw.NqdBitblt | SheepShaver/src/gfxaccel.cpp:321-361 | In a safe order the result is the copy from a snapshot, and bytes outside the rectangle are unchanged. |
| QuickDraw.MemMove | SheepShaver/src/gfxaccel.cpp:336-361 | One row, which may overlap itself. |
| PictRle.CompressUsingRLE | BasiliskII/src/pict.c:66-154 | The query is an upper bound. A call answers with exactly the packed size, the uncompressed one where the packets do not fit, or -1 where neither does; the bytes after the prefix unpack (PackBits, section 9 of TIFF 6.0) to the row on both paths; and the prefix is right exactly as `EncodedIfPrefixFits` says, always with the size that the query reports. |
| PictRle.EncodedIfPrefixFits | BasiliskII/src/pict.c:66-154 | Where the encoder answers with a length, the row is encoded with the right prefix if and only if it has more than 250 bytes, or its packets take at most 255, or they do not fit the buffer, so that the row is written as it is. |
| PictRle.EnoughIsRight | BasiliskII/src/pict.c:66-154 | With a buffer of the size that the query reports, the encoder does not fail and the prefix is right. |
| PictRle.PrefixTooShort | BasiliskII/src/pict.c:66-154 | A row of 250 bytes in which one byte and two of another take turns packs to 334 in a larger buffer, and its prefix says 78. |
| PictRle.AlternatingGrows | BasiliskII/src/pict.c:82-121 | That row takes four bytes for every three. |
| PictRle.PutPacket | BasiliskII/src/pict.c:82-121 | One packet has the size that the packed size says, or there is no room for it. |
| PictRle.UnpackAppend | BasiliskII/src/pict.c:66-154 | What is packed in two parts unpacks to both parts. |
| PictRle.UnpackRun | BasiliskII/src/pict.c:86-99 | A run packet adds a run. |
| PictRle.UnpackLiterals | BasiliskII/src/pict.c:100-119 | A literal packet adds its bytes. |
| PictRle.PutUncompressed | BasiliskII/src/pict.c:123-142 | The fallback when there is no room: literal packets only, which do fit. |
| Pict.ConvertRGBAToPICT | BasiliskII/src/pict.c:156-268 | Up to a width of 8191: with a buffer as large as its own query says it does not fail or exceed it, and reading the rows back gives every pixel. |
| Pict.UnplanePlanes | BasiliskII/src/pict.c:238-243 | The four planes of a row give back its pixels. |
| PictReader.PictureReads | BasiliskII/src/pict.c:156-268 | A reader of PICT pictures finds one image of the given width and height, unclipped and at its size, with four bytes a pixel and 32 bits, and in it the pixels of the image; in front is the size of the picture or 65535. |
| Pict.PlaceInPlanes | BasiliskII/src/pict.c:238-243 | Alpha, red, green and blue, each in a stretch of its own. |
| Pict.ReadRowsAppend | BasiliskII/src/pict.c:233-251 | One more encoded row is one more row read. |
| Pict.WriteRow | BasiliskII/src/pict.c:233-251 | What writing a row keeps of the picture so far. |
| Pict.SplitRow | BasiliskII/src/pict.c:238-243 | A row of pixels split into planes. |
| CnidTable.CreateKeepsInv | BasiliskII/src/extfs.cpp:229-245 | A new item keeps identifiers distinct and below the next one, parent identifiers equal to the parents', and parents before their children. |
| CnidTable.SwapIdsKeepsInv | BasiliskII/src/extfs.cpp:309-319 | Exchanging the identifiers of two items, and correcting their children, keeps all of that. |
| CnidTable.SwapIdsKeepsPaths | BasiliskII/src/extfs.cpp:309-319 | It changes the path of no item. |
| CnidTable.SwapIdsResolves | BasiliskII/src/extfs.cpp:2045-2048 | Each of the two identifiers then resolves to the other's path, and every other one to the path it had. |
| CnidTable.RenameResolves | BasiliskII/src/extfs.cpp:2013-2051 | After a rename the old identifier resolves to the new path, and after an error nothing is changed. |
| CnidTable.MoveResolves | BasiliskII/src/extfs.cpp:2054-2098 | The same for a move, whose target item may be new. |
| CnidTable.FindItemKeepsInv | BasiliskII/src/extfs.cpp:250-263 | Finding or creating an item keeps the table in order and every path as it was. |
| CnidTable.FindItemGuestKeepsInv | BasiliskII/src/extfs.cpp:267-281 | The same by guest name. |
| CnidTable.FindItemFinds | BasiliskII/src/extfs.cpp:250-263 | A lookup gives the first item with the name in the directory and changes nothing; where there is none it adds exactly one, with the next identifier. |
| CnidTable.FindItemGuestFinds | BasiliskII/src/extfs.cpp:267-278 | The same by guest name. |
| CnidTable.FindItemAgain | BasiliskII/src/extfs.cpp:250-263 | A second lookup gives the same item and the same table. |
| CnidTable.FindItemGuestAgain | BasiliskII/src/extfs.cpp:229-278 | By guest name it does so if and only if the name was there already or has at most 31 characters. |
| CnidTable.LongNameTwice | BasiliskII/src/extfs.cpp:229-278 | Two lookups of a guest name of 32 characters give two items with different identifiers. |
| CnidTable.LookupsKeepNames | BasiliskII/src/extfs.cpp:250-278 | However many names are looked up, a name keeps its item and its identifier. |
| CnidTable.RunKeepsInv | BasiliskII/src/extfs.cpp:214-319 | Over every sequence of lookups, creations, renames and moves. |
| CnidTable.EveryRun | BasiliskII/src/extfs.cpp:214-319 | From the table after initialization. |
| CnidPaths.PathIsJoined | BasiliskII/src/extfs.cpp:286-303 | A path is that of the root directory and, each after one slash, the names on the way down, for every root path. |
| CnidPaths.PathsDiffer | BasiliskII/src/extfs.cpp:286-303 | Two items have one path only if they are the same, where no two items of a directory have one name. |
| CnidPaths.RunKeepsSiblings | BasiliskII/src/extfs.cpp:250-321 | No two do after any lookups by host name, renames and moves. |
| CnidPaths.IdsResolveApart | BasiliskII/src/extfs.cpp:214-321 | So over every such sequence of operations from the start two identifiers resolve to one path if and only if they are the same. |
| CnidPaths.GuestLookupKeepsSiblings | BasiliskII/src/extfs.cpp:267-278 | A lookup by guest name keeps this if and only if it finds an item, or the host name it makes is new in the directory. |
| CnidTable.RenameLeavesContentsBehind | BasiliskII/src/extfs.cpp:2035-2050 | When a directory is renamed, the identifiers of what is in it go on resolving to below the old path, which is right if and only if the path did not change. |
| ExtFs.ItemList.FindById | BasiliskII/src/extfs.cpp:214-223 | The first item with the identifier. |
| ExtFs.ItemList.CreateItem | BasiliskII/src/extfs.cpp:229-245 | Appends to the linked list what the table appends. |
| ExtFs.ItemList.FindItem | BasiliskII/src/extfs.cpp:250-263 | Finds or creates, as the table does. |
| ExtFs.ItemList.FindItemGuest | BasiliskII/src/extfs.cpp:267-281 | Finds or creates, as the table does. |
| ExtFs.ItemList.GetPath | BasiliskII/src/extfs.cpp:291-305 | Following the parents builds the path, and ends. |
| ExtFs.ItemList.SwapParents | BasiliskII/src/extfs.cpp:309-319 | The loop that exchanges parent identifiers in place. |
| ExtFs.ItemList.SwapItemIds | BasiliskII/src/extfs.cpp:2045-2048 | The exchange in place. |
| ExtFs.ItemList.FsRename | BasiliskII/src/extfs.cpp:2013-2051 | The new table and the result code, for whatever the host answers. |
| ExtFs.ItemList.FsCatMove | BasiliskII/src/extfs.cpp:2054-2098 | The new table and the result code, for whatever the host answers. |
| BinCuePlay.FillNormalPlays | BasiliskII/src/bincue.cpp:962-1091 | A callback's bytes are the next bytes of the play: pregap silence, file data, end silence; and the player is just past them or at its end. |
| BinCuePlay.AnySplitPlaysTheSame | BasiliskII/src/bincue.cpp:962-1091 | However a play is cut into callbacks, the concatenated bytes are the same. |
| BinCuePlay.PlayIsAbsolute | BasiliskII/src/bincue.cpp:826-897 | A play started at any frame of a track gives the disc's bytes at their absolute positions. |
| BinCuePlay.PlaysAgree | BasiliskII/src/bincue.cpp:826-897 | Two plays started at different frames of one track with the same end agree at every position that both reach. |
| BinCuePlay.PlayNeedsAudio | BasiliskII/src/bincue.cpp:826-897 | A play from a data track, or without audio output, is refused, and nothing is played. |
| BinCuePlay.EndByFrames | BasiliskII/src/bincue.cpp:1022-1025 | The end test in frames is the end in bytes. |
| BinCuePlay.WholePlayIsRight | BasiliskII/src/bincue.cpp:962-1091 | A play gives the right bytes, in callbacks of any sizes, if and only if the range is shorter than 2^31 bytes or all that is cut off is silent: everything if it is as long without its pregap, and else all from position 2^31 on; whether or not the file is that long. |
| BinCuePlay.LongPlayIsSilent | BasiliskII/src/bincue.cpp:1037-1064 | If the play is 2^31 bytes or more without its pregap, no callback is heard, nor is one after the play was cut off. |
| BinCuePlay.CallbackCutsOff | BasiliskII/src/bincue.cpp:1066-1075 | Otherwise the callback in which the position reaches 2^31 plays its bytes and ends the play, or the next one does because the file has ended. |
| BinCueScan.BlocksOneCycleApart | BasiliskII/src/bincue.cpp:989-1018 | Successive blocks of a scan are exactly one cycle of 196 frames apart, or of 144 in reverse. |
| BinCueScan.StaysInPlay | BasiliskII/src/bincue.cpp:989-1018 | From a block that is played a scan only ever comes to blocks that are played. |
| BinCueScan.StartsInPlay | BasiliskII/src/bincue.cpp:1003-1018 | A callback begins in a block that is played. |
| BinCueScan.ScanStartIs | BasiliskII/src/bincue.cpp:1010-1025 | Which block that is: forward, the first position from here on that is played; in reverse from a gap, the block one cycle before, and none exactly in the first cycle. |
| BinCueScan.OrbitInBlock | BasiliskII/src/bincue.cpp:1045-1077 | Bytes inside a block follow one another, and the jump is at its end. |
| BinCueScan.TurnScans | BasiliskII/src/bincue.cpp:1021-1078 | A turn of the loop plays at least one byte, all inside its block and the range, so that the loop ends. |
| BinCueScanEnd.LoopEndsIffFinishes | BasiliskII/src/bincue.cpp:1021-1078 | A scan that has come to where the file has ended: the fill loop ends if and only if a condition on the room in the buffer, what is left of the range, the jump and the limit holds. |
| BinCueScanEnd.EndsIffFinishes | BasiliskII/src/bincue.cpp:1021-1078 | That condition, in numbers: at the range's end or with no room to jump back; or the first turn reaches its limit, and then jumps lead to the end, back into the file with room for a block, or to a turn that fills the buffer. |
| CdPlayer.ScanCanHang | BasiliskII/src/bincue.cpp:899-937 | CDScan does come to such a place: with a file that lacks its data, the loop never ends. |
| CdPlayer.PlayCanBeSilent | BasiliskII/src/bincue.cpp:825-897 | A play of 1,151,999 frames from the first one of an image of 400,000,000 bytes whose first byte is not silent: no callback is heard. |
| CdPlayer.MsfRoundTrip | BasiliskII/src/bincue.cpp:196-207 | Each frame number has one proper time, which the conversions go to and come from. |
| CdPlayer.OneRegion | BasiliskII/src/bincue.cpp:912-919 | The region of audio tracks around a track is determined. |
| CdPlayer.ScanBegins | BasiliskII/src/bincue.cpp:921-929 | A scan begins at the frame it is told to, inside its range. |
| CdPlayer.ScanCovers | BasiliskII/src/bincue.cpp:899-937 | The range of a scan begins and ends in its first and last audio track, and has every frame of those between. |
| CdPlayer.ScanSkipsPregap | BasiliskII/src/bincue.cpp:826-937 | A scan begins with the byte that a play from the same frame of the region's first track begins with, whatever the file, if and only if the track has no pregap. |
| CdPlayer.CDPlayer.PositionToTrack | BasiliskII/src/bincue.cpp:210-223 | The first track that holds the frame, or the track count. |
| CdPlayer.CDPlayer.CDPlay | BasiliskII/src/bincue.cpp:825-897 | The player afterwards, as on values. |
| CdPlayer.CDPlayer.CDScan | BasiliskII/src/bincue.cpp:899-937 | The two loops find the whole region of audio tracks; the player afterwards, or no change for a data track. |
| CdPlayer.CDPlayer.FillTurn | BasiliskII/src/bincue.cpp:1021-1077 | A turn of the loop on the buffer does what the turn on values does. |
| CdPlayer.CDPlayer.EnterCycle | BasiliskII/src/bincue.cpp:989-1019 | Where in its cycle a callback begins, and the limits it reads by. |
| CdPlayer.CDPlayer.FillPlaying | BasiliskII/src/bincue.cpp:1021-1088 | Not scanning: the callback on values. |
| CdPlayer.CDPlayer.FillScanning | BasiliskII/src/bincue.cpp:1021-1088 | Scanning, with the range in the file: the loop ends; each byte is the file's at the scan's next position, all of them in range and in blocks that are played; and the scan ends only at the range's end or where it cannot jump back, never at a negative position. |
| CdPlayer.CDPlayer.FillBuffer | BasiliskII/src/bincue.cpp:962-1091 | The whole callback, in each of the three cases. |
| BinCueRead.ReadBincue | BasiliskII/src/bincue.cpp:597-645 | Exactly the cooked bytes from the offset on, and as many as asked for unless a raw sector is not in the image in full. |
| TrapTable.FindRomTrap | BasiliskII/src/rom_patches.cpp:123-155 | The nested loops compute the search on values. |
| TrapTable.EntryReadsBack | BasiliskII/src/rom_patches.cpp:132-148 | Each encoded entry reads back as its effect on the offset. |
| TrapTable.SearchFrom | BasiliskII/src/rom_patches.cpp:123-155 | From any place in an encoded table the search comes to the trap's own entry. |
| TrapTable.SearchFindsTabled | BasiliskII/src/rom_patches.cpp:123-155 | For every table the search returns what is tabled for the trap, 0 if it is unimplemented. |
| TrapTable.AssembleIsRight | BasiliskII/src/rom_patches.cpp:123-155 | Every list of offsets has a table of valid deltas. |
| TrapTable.RoundTrip | BasiliskII/src/rom_patches.cpp:123-155 | So encoding any 2048 offsets and searching gives them back. |
| TrapTable.Example | BasiliskII/src/rom_patches.cpp:123-155 | A table of ten bytes with entries of each kind, and what the search finds for its first traps. |
| TrapTable.TrapsInOrder | BasiliskII/src/rom_patches.cpp:123-155 | The table has the 1024 Toolbox traps first, then those of the operating system. |

## Left out

Of the algorithms that are modelled:

- TimerSteps.EveryRun: reads and writes of `wakeup_time` are single steps (a torn read of its two words is not modelled), routines that the interrupt calls do not remove the task whose place it has saved, and no second interrupt begins inside the first.
- TimerRuns.PassCallsExpired: only for routines that call the Time Manager for their own task; `TimerInterrupt` itself is proved for all routines that do not remove tasks still to come.
- TimerPeriods.NoDrift: for a task that primes itself with one delay other than 0, and that no one else inserts, removes or primes.
- TimeManagement.TimeManager.InsTime: task records do not overlap each other in Mac memory, and a new descriptor's wakeup time, which the code does not initialise, is a parameter.
- TimeManagement.TimeManager.PrimeTime: the Time Manager queue in Mac memory, which is compiled out, is not modelled; times are whole nanoseconds, and the clock is a parameter.
- MonLines.LineParses: a shift by 64 or more, which C leaves undefined, gives whatever a symbolic function gives; error messages are not modelled.
- MonitorLine.Monitor.constructor: variables, `.` and `:` are fixed while a line is evaluated; the "set" command is not part of this model.
- MonTokens.Tokens: character classes are those of the C locale.
- ScsiManagement.ScsiManager.ExecTib: a TIB program runs under a bound on its steps, since it may loop for ever; `MoreFuel` says that the bound does not matter to programs that end.
- ScsiManagement.ScsiManager.SCSIComplete: the device's answer is a parameter.
- Lzss.DecodeLzss: the destination has room for the whole output, as its callers provide it.
- DriveQueue.MacQueues.MoveDrivesFromDriverToFront: entries do not overlap; where the first four all match, the long word at address 0 is taken to hold 0, since only then does the loop follow the nil pointer.
- MacTime.SecondsIncrease: leap seconds are not proper times.
- QuickDraw.DoFillrect: whether the host allows unaligned access, and its byte order, are parameters.
- QuickDraw.NqdInvrect: widths that are negative, or whose byte length leaves its 16 bits (8192 pixels at 32 bits); empty rectangles with a row that begins where the prologue overruns, for which `DoInvrect` and `RowIsRight` say what such a row comes to.
- QuickDraw.NqdFillrect: likewise widths that are negative or whose byte length leaves its 16 bits.
- QuickDraw.NqdBitblt: the order of rows is the sign of the row bytes; how coordinates become addresses is not modelled.
- PictRle.CompressUsingRLE: a buffer of 65536 bytes or more for a row whose packets are as long, with which the 16-bit cursor would wrap around.
- Pict.ConvertRGBAToPICT: rows wider than 8191 pixels, where the row bytes no longer fit the field.
- ExtFs.ItemList.GetPath: a path is not cut at the system's maximum length.
- CnidTable.CreateKeepsInv: the next identifier does not wrap around at 2^32.
- CnidPaths.IdsResolveApart: for lookups by host name; what lookups by guest name do to it is `GuestLookupKeepsSiblings`.
- CdPlayer.ScanSkipsPregap: for the first track of a region of audio tracks.
- ExtFs.ItemList.FsRename: what the host's file system answers is a parameter; resolving the two names to items is not modelled, nor are the caches of modification times.
- ExtFs.ItemList.FsCatMove: likewise for the item and the directory.
- BinCuePlay.WholePlayIsRight: ranges of 2^32 bytes or more.
- CdPlayer.CDPlayer.FillBuffer: the buffer is the caller's (the code keeps one and enlarges it); a scan must have its range in the file (`LoopEndsIffFinishes` is about where it has not), be less than 2^31 bytes long and fill a buffer that is not empty.
- CdPlayer.CDPlayer.CDPlay: pausing another drive that is playing is not modelled.
- BinCuePlay.PlaysAgree: for ranges whose byte positions fit C's integers.

Of the repository:

- Patches to ROMs and resources, drivers, thunks and preferences: constants and pokes.
- The control and status calls of the disk, CD, floppy, video, audio and serial drivers: branches over host calls.
- Cue sheets as text, and files, sockets, signals and windows of the host.
- The BeOS and Mach variants of the Time Manager's thread, which hold the lock throughout.
- The monitor's commands and its disassemblers.
