# Verified models of the RCE boot and cluster-manager code

This project models the parts of the RCE generation-3 software that keep state in a
loop or a small machine, and proves what they do for every input and every run:

- **Memory test** (`Rotate.dfy`, `MemTest.dfy`, `MemCoverage.dfy`, `MemVerdict.dfy`,
  `MemReports.dfy`): the
  32-, 16- and 8-bit destructive tests on a memory with decoder faults (several indices
  selecting one cell) and stuck data bits. The main results say exactly which faults each
  subtest and the whole test find, whatever the memory held, and what a passing test leaves
  behind, and what a failing one reports and where it stops.
- **I2C capture decoder** (`I2cCapture.dfy`): a 64-bit window on 32-bit capture words,
  shown to read the capture itself, and the split of the stream into tokens, shown to lose
  and repeat nothing.
- **Boot fallback** (`ImageSearch.dfy`, `Fallback.dfy`, `BootRuns.dfy`, `BootEnds.dfy`): the golden-image
  search, the header checksum and the recursion of fallback, load and handoff, over all
  behaviours of loads, hooks and loaded programs.
- **Log rings** (`DtmLog.dfy`, `MessageRing.dfy`) and **hexadecimal words** printed and read
  back (`MessageRing.dfy`, `HexReader.dfy`).
- **Port monitor** (`GlitchFilter.dfy`): the glitch filter over whole runs of readings, and
  the table the monitor prints for two switches, entry by entry.
- **Switch masks** (`Switch.dfy`), **spanning-tree priorities** (`PriorityOrder.dfy`; IEEE 802.1D-2004, sections 9.2.5, 17.5
  and 17.6) and **command dispatch** (`CommandTable.dfy`).

`Bits.dfy` defines C's unsigned bitwise operators on natural numbers, bit by bit; register
widths and wrap-around are written out with `% TWO32` and truncation to the data width.
Each loop and each updating method is verified against a specification function, and the
theorems are about those functions. The three memory-test functions differ only in data
width, default pattern and the 32-bit incrementing subtest; they are one model with the
width as a parameter.

## What the code does that its own text does not say

- The note in the memory test warns that patterns repeat. The walking tests only ever use
  one word per data bit at the start of the block and miss nothing there; the incrementing
  and inverse-address tests miss exactly the aliases at multiples of a period and the stuck
  bits that agree with their words (`MemVerdict.FullTestVerdict`). At 32 bits the incrementing test cannot fail: it reports
  and returns success (`MemVerdict.Increment32Reports`).
- The image search relies on the flash ending within the reach of the 13-bit multiboot
  field. A dual 1 Gbit QSPI flash (0x10000000 bytes) does not, and without a valid image
  the search goes round for ever (`ImageSearch.ErasedDualFlash`). On 1.0 silicon, or with
  such a flash, an image that is found but never loads is retried without end
  (`BootRuns.EndsAlwaysIff`, `BootRuns.RetryExamples`).
- As compiled, the main program overrides the boot mode with SD (`main.c:340`), so its device
  is `Other`, it has no image search, and a fallback halts at once. The search and retry
  results are about the NOR, NAND and QSPI modes, in builds without that override.
- The dump of a wrapped log prints nothing when the byte after the write position ends an
  old record, and never ends once the new lap has reached the old one's end, unless that
  byte is a terminator. Both happen with the 4096-byte buffer and records of the form the
  code writes (`DtmLog.SilentExample`, `DtmLog.CirclingExample`).
- After a character that is not a digit, the hexadecimal reader is content with seven
  digits, so of two words on two lines the second loses its last digit
  (`HexReader.ReadBackIff`). At the end of the file it reports success and leaves the
  caller's value as it was.
- The glitch filter removes readings that jump up for once. Its header comment also names
  readings that drop for once; those are reported as rises (`GlitchFilter.DipReported`), and
  each adds its depth to the sum of the reports (`GlitchFilter.GlitchyTotal`).
- The global counters print what the filter reports. The port table does not: for every port
  on which any counter rose it prints the entries of all counters that rose on some port, and
  an entry whose counter did not rise there is its last rise, on either switch since one
  table serves both, or uninitialised memory before the first
  (`GlitchFilter.PrintsRiseIff`, `GlitchFilter.StaleExample`).
- A scan list may name ports above 24: no row is written for them, so the cycle is cut
  there, and their bits are set in the rows of the unlisted ports (`Switch.ScanIsCycleIff`).
- `PriorityVector::operator<` holds of equal vectors. Local identifiers beyond 12 bits spill
  into the priority of a bridge identifier (`PriorityOrder.OrderKeptIff`).
- A subtest number above the last is caught by an assertion in the memory test; the model
  shows the `default` branch behind it, which returns -1.

## Model

| member | source | states |
|---|---|---|
| Rotate.RotateLeftBits | bootstrap/memTestX/src/xil_testmem.c:964-997 | bit k of a rotated word is the bit below it, cyclically, at every width from 1 to 32, including 32 where the mask wraps round |
| Rotate.RotateRightBits | bootstrap/memTestX/src/xil_testmem.c:1017-1052 | the same for the other direction |
| Rotate.RotateRightUndoesLeft | bootstrap/memTestX/src/xil_testmem.c:964-1052 | right after left gives back the low bits of the word |
| Rotate.RotateLeftUndoesRight | bootstrap/memTestX/src/xil_testmem.c:964-1052 | left after right gives back the low bits of the word |
| Rotate.RotateOneHotTimes | bootstrap/memTestX/src/xil_testmem.c:223-235 | k rotations take the single bit J to bit J + k modulo the width |
| MemTest.WalkStep | bootstrap/memTestX/src/xil_testmem.c:278-290 | one step of a walking word through the 32-bit complements and truncations of the code moves the bit up one place |
| MemTest.Tester.Write | bootstrap/memTestX/src/xil_testmem.c:157-160 | a write changes the selected physical cell and nothing else |
| MemTest.Tester.Read | bootstrap/memTestX/src/xil_testmem.c:175-176 | bit by bit, a read returns a one where the selected cell was last written with one or is stuck at one, unless stuck at zero there, and nothing beyond the data width |
| MemTest.Tester.Increment | bootstrap/memTestX/src/xil_testmem.c:152-203 | status, memory and reports of the incrementing subtest; at 32 bits all mismatches are reported and none fails |
| MemTest.Tester.Retry | bootstrap/memTestX/src/xil_testmem.c:178-196 | up to 20 rereads of a mismatching word leave one report |
| MemTest.Tester.WalkRow | bootstrap/memTestX/src/xil_testmem.c:217-257 | one row of a walking subtest: status, memory and first mismatch |
| MemTest.Tester.Walk | bootstrap/memTestX/src/xil_testmem.c:211-311 | the rows in order, stopping at the first failure |
| MemTest.Tester.InverseAddr | bootstrap/memTestX/src/xil_testmem.c:321-345 | status, memory and first mismatch of the inverse-address subtest; the words are those of `MemCoverage.InverseAddressBits` |
| MemTest.Tester.FixedPattern | bootstrap/memTestX/src/xil_testmem.c:352-393 | status, memory and first mismatch of the fixed-pattern subtest, with the default pattern of each width |
| MemTest.Tester.TestMem | bootstrap/memTestX/src/xil_testmem.c:124-408 | the selected subtest, or all of them falling through in order until one fails |
| MemCoverage.FillReadsBack | bootstrap/memTestX/src/xil_testmem.c:468-498 | for any pattern, decode map and stuck masks, filling and reading back finds nothing if and only if aliased indices expect the same word and each word survives the stuck bits of its cell |
| MemCoverage.FillCell | bootstrap/memTestX/src/xil_testmem.c:468-475 | a filled cell holds the word of the last index that selects it |
| MemCoverage.CountingBits | bootstrap/memTestX/src/xil_testmem.c:154-160 | index i is written the count i + 1, cut to the width, bit by bit |
| MemCoverage.WalkingBits | bootstrap/memTestX/src/xil_testmem.c:217-290 | the walking words bit by bit: the single one, or zero, at the row plus the index modulo the width |
| MemCoverage.InverseAddressBits | bootstrap/memTestX/src/xil_testmem.c:599-619 | every bit of the inverse-address word is the inverse of that bit of the byte address, at every width |
| MemCoverage.AddressSpared | bootstrap/memTestX/src/xil_testmem.c:321-345 | an inverse-address word survives if and only if no bit stuck at zero faces a zero of the address and none stuck at one a one |
| MemCoverage.SenseSpared | bootstrap/memTestX/src/xil_testmem.c:384-391 | a word reads back unchanged if and only if no one bit of it is stuck at zero and no zero bit stuck at one |
| MemCoverage.WalkCoverage | bootstrap/memTestX/src/xil_testmem.c:506-592 | walking ones, and walking zeros, pass if and only if the first W indices select distinct cells and no bit of those is stuck, at every width W |
| MemCoverage.IncrementCoverage | bootstrap/memTestX/src/xil_testmem.c:468-498 | without stuck bits the counting pattern misses exactly the aliases a multiple of 2^W words apart |
| MemCoverage.InverseAddrCoverage | bootstrap/memTestX/src/xil_testmem.c:599-619 | without stuck bits the inverse-address pattern misses exactly the aliases a multiple of 2^8 (8-bit), 2^15 (16-bit) or 2^30 (32-bit) words apart |
| MemCoverage.InverseAddr32Complete | bootstrap/memTestX/src/xil_testmem.c:321-345 | in a block that fits the 32-bit address space every alias is found |
| MemVerdict.FixedCoverage | bootstrap/memTestX/src/xil_testmem.c:626-666 | the fixed pattern finds exactly the stuck bits that contradict it, and no alias |
| MemVerdict.SubtestVerdict | bootstrap/memTestX/src/xil_testmem.c:462-673 | each subtest's verdict is a property of the faults alone, independent of the contents before |
| MemVerdict.Increment32Reports | bootstrap/memTestX/src/xil_testmem.c:174-203 | the 32-bit incrementing subtest always passes, and is silent if and only if nothing disturbs the pattern |
| MemVerdict.AllTestsIffEach | bootstrap/memTestX/src/xil_testmem.c:144-408 | the full test passes if and only if every subtest passes alone from any contents |
| MemVerdict.FullTestVerdict | bootstrap/memTestX/src/xil_testmem.c:144-408 | for every decode map and all stuck bits together, the full test passes if and only if the walked words are sound, all aliases are a multiple of the blind period apart, and every counting (below 32 bits), inverse-address and fixed word survives the stuck bits of its cell |
| MemVerdict.FullTestCoverage | bootstrap/memTestX/src/xil_testmem.c:114-121 | the decoder faults the full test misses are exactly the aliases a multiple of 2^8, 2^16 or 2^30 words apart that are not both among the walked words |
| MemVerdict.StuckCoverage | bootstrap/memTestX/src/xil_testmem.c:144-408 | with distinct cells, the stuck bits the full test misses are exactly those beyond the walked words that agree with the count from one (below 32 bits), with the inverted address bits and with the fixed word there |
| MemVerdict.LastWordBits | bootstrap/memTestX/src/xil_testmem.c:144-408 | the last words of each subtest bit by bit, with the pattern given or else 0xA5, 0xDEAD or 0xDEADBEEF |
| MemVerdict.SubtestAt | bootstrap/memTestX/src/xil_testmem.c:144-408 | over distinct cells a passing subtest leaves exactly those words in its range and the rest of the touched block as it was |
| MemVerdict.HealthyRun | bootstrap/memTestX/src/xil_testmem.c:144-408 | on healthy memory the full test passes and leaves the fixed pattern in the block, the last walking-zeros row in walked words beyond it, and every other cell as it was |
| MemReports.MismatchesAre | bootstrap/memTestX/src/xil_testmem.c:174-196 | the reports of a read-back are exactly the mismatching indices, in order, each with the expected word and the word read |
| MemReports.AllReported | bootstrap/memTestX/src/xil_testmem.c:174-203 | the 32-bit incrementing subtest reports them all and returns 0 |
| MemReports.FirstReported | bootstrap/memTestX/src/xil_testmem.c:332-344 | the others return -1 and report the first alone, everything before it having read back right |
| MemReports.WalkStopsAt | bootstrap/memTestX/src/xil_testmem.c:217-257 | a walking subtest fails in the first row, in ascending order, that the faults disturb |
| MemReports.SubtestStatus | bootstrap/memTestX/src/xil_testmem.c:396-408 | status 0 or -1, one report exactly on failure; a number that names no subtest gives -1 and touches nothing |
| MemReports.FullTestStops | bootstrap/memTestX/src/xil_testmem.c:124-408 | the full test stops at the first subtest, in the order of their numbers, that the faults fail, with its memory and report |
| I2cCapture.WindowBit | cm/cm_control/src/DtmShell.cc:783-790 | the bits the reader takes from its window are the captured bits at and after its address |
| I2cCapture.CrossingTest | cm/cm_control/src/DtmShell.cc:792-794 | the test on the low address bits fires if and only if the read ended in the next word |
| I2cCapture.I2CBus.constructor | cm/cm_control/src/DtmShell.cc:754-768 | the window starts as words 0 and 1 |
| I2cCapture.I2CBus.Load | cm/cm_control/src/DtmShell.cc:770-781 | the window slides up by one word |
| I2cCapture.I2CBus.Read | cm/cm_control/src/DtmShell.cc:783-797 | a read of 0 to 32 bits returns the capture's bits, first one most significant, and keeps the window on the new address |
| I2cCapture.I2CBus.Insert | cm/cm_control/src/DtmShell.cc:799-812 | the address ends at the later of itself and the target, and the text grows by the tokens of the bits between |
| I2cCapture.SplitShape | cm/cm_control/src/DtmShell.cc:800-811 | one byte and one acknowledge for every nine bits, and one remainder token for the 1 to 8 bits left, if any |
| I2cCapture.SplitMeaning | cm/cm_control/src/DtmShell.cc:799-812 | the tokens of a stretch stand for exactly its bits |
| I2cCapture.I2CBus.StartAt | cm/cm_control/src/DtmShell.cc:816 | the bits up to the mark, then the start mark |
| I2cCapture.I2CBus.StopAt | cm/cm_control/src/DtmShell.cc:817 | the bits up to the mark, the stop mark, and the line is printed |
| I2cCapture.I2CBus.Dump | cm/cm_control/src/DtmShell.cc:847-855 | for every command list, the text in order, as many lines printed as there are stops, a line ending at each stop and nowhere else, and the address reached |
| I2cCapture.CommandWord | cm/cm_control/src/DtmShell.cc:827-829 | bit 15 marks a start, bit 14 a stop, and the low fourteen bits are the address, for every word |
| I2cCapture.PlayedMarks | cm/cm_control/src/DtmShell.cc:849-855 | for every command list, the marks of the text in order are a start for each word with bit 15 and a stop for each with bit 14 only |
| I2cCapture.MarkPlace | cm/cm_control/src/DtmShell.cc:816-817 | each mark stands behind exactly the bits up to the farthest address reached by then |
| I2cCapture.FarthestIsMaximum | cm/cm_control/src/DtmShell.cc:849-855 | the address ends at the largest start or stop address seen |
| I2cCapture.PlayedMeaning | cm/cm_control/src/DtmShell.cc:847-855 | for every list of starts and stops the tokens rebuild the captured bits up to the address reached: none lost, repeated or read past it |
| I2cCapture.PlayedPrefix | cm/cm_control/src/DtmShell.cc:849-855 | after any number of commands the text so far is a prefix standing for the bits passed so far, so each mark stands at its place |
| ImageSearch.HeaderChecksum | bootstrap/bootLoader/src/main.c:1280-1312 | succeeds if and only if the header words and the stored word sum to 0xFFFFFFFF modulo 2^32 |
| ImageSearch.SingleWordDetected | bootstrap/bootLoader/src/main.c:1280-1312 | for any header length, changing any one covered word or the stored one turns a pass into a failure |
| ImageSearch.ValidImageIff | bootstrap/bootLoader/src/main.c:1280-1344 | an image is valid if and only if the word at 0x24 is "XLNX" and the ten words from 0x20 on and the one at 0x48 sum to 0xFFFFFFFF modulo 2^32 |
| ImageSearch.OneWordChanged | bootstrap/bootLoader/src/main.c:1280-1344 | changing one flash word leaves a valid image valid if and only if it is none of those eleven |
| ImageSearch.SlotPlus | bootstrap/bootLoader/src/main.c:1424-1435 | the masked register counts slots modulo 2^13 through the 32-bit wrap |
| ImageSearch.SearchEndsIff | bootstrap/bootLoader/src/main.c:1394-1435 | the search ends if and only if the flash ends within the field's reach or some slot holds a valid image |
| ImageSearch.SearchFindsLeast | bootstrap/bootLoader/src/main.c:1360-1437 | with the flash end in reach: success if and only if a slot from the current one up to the flash end is valid, and then the least such slot is selected |
| ImageSearch.StopKeepsRest | bootstrap/bootLoader/src/main.c:1394-1435 | at the stop the register holds the slot found, and above the 13-bit field what it held before |
| ImageSearch.SearchWrapsRound | bootstrap/bootLoader/src/main.c:1360-1437 | with a flash beyond reach: a search that ends succeeds, on the first valid slot going up from the current one and round |
| ImageSearch.ErasedDualFlash | bootstrap/bootLoader/src/main.c:1394-1435 | on an erased flash of 0x10000000 bytes the search never ends, from any register value |
| Fallback.Fsbl.NextValidImageCheck | bootstrap/bootLoader/src/main.c:1360-1437 | terminates with the register at the stop found, or untouched when nothing is found |
| Fallback.Fsbl.UpdateMultiBootRegister | bootstrap/bootLoader/src/main.c:973-996 | the register goes up by one in 32 bits, and so its slot by one round the field, except on 1.0 silicon |
| Fallback.Fsbl.ClearFsblIn | bootstrap/bootLoader/src/main.c:877-881 | the four failure bits end clear and the other 28 as they were |
| Fallback.Fsbl.FsblFallback | bootstrap/bootLoader/src/main.c:560-646 | whenever the chain of fallback rounds comes to an end, the recursion does too, at the same outcome and state |
| Fallback.Fsbl.LoadBootImage | xilinx/fsbl/src/image_mover.c:147-219 | selects the image by the register, or falls back when the load fails |
| Fallback.Fsbl.FsblHandoff | bootstrap/bootLoader/src/main.c:661-740 | hands off, or falls back when the hook fails or the loaded code returns |
| Fallback.Fsbl.LoadAndHandOff | bootstrap/bootLoader/src/main.c:518-538 | the end of the main program as one attempt and the fallbacks after it, whenever those end |
| BootRuns.FallbackTriesUpwards | bootstrap/bootLoader/src/main.c:560-646 | on silicon past 1.0, over every run and environment, the images tried are valid and at strictly ascending offsets, so none is tried twice |
| BootRuns.SearchTakesOne | bootstrap/bootLoader/src/main.c:973-996 | a search after an increment succeeds if and only if a valid image is left above the current slot; it stops on one, strictly higher, and leaves one fewer |
| BootRuns.BoundedRunEnds | bootstrap/bootLoader/src/main.c:560-740 | such a run ends after at most one fallback more than there are valid images left above the first, and after exactly that many when every attempt fails |
| BootRuns.RetriesForever | bootstrap/bootLoader/src/main.c:599-633 | where retries are not bounded, an image found and never loaded is retried any number of times |
| BootRuns.RetryExamples | bootstrap/bootLoader/src/main.c:560-740 | a 1.0 board with a NOR flash and a later one with two 1 Gbit QSPI parts, each holding one image, on which that happens |
| BootRuns.EndsAlwaysIff | bootstrap/bootLoader/src/main.c:560-740 | an e-fuse run ends in every environment if and only if retries are bounded (silicon past 1.0, flash within reach), or the flash is within reach and holds no valid image from the first slot searched up; and the searches end if and only if they do for some number of steps |
| BootRuns.RunOutcome | bootstrap/bootLoader/src/main.c:560-740 | a reset happens only without e-fuse encryption and leaves the failure mark set; a halt or handoff leaves it clear; control goes only to the last image loaded, its hook having succeeded |
| BootEnds.RunTold | bootstrap/bootLoader/src/main.c:560-740 | in every run the low 28 status bits are kept, an attempt that succeeds is the last and handed off to, all others failed, and each image tried is the one the register selects, or the fixed one on 1.0 silicon |
| BootEnds.ResetIff | bootstrap/bootLoader/src/main.c:581-645 | a run ends in a reset if and only if the device supports fallback and encryption is not by e-fuse; then nothing was tried, the mark is set and the register is one further, except on 1.0 silicon |
| BootEnds.HaltedAt | bootstrap/bootLoader/src/main.c:560-646 | a run that halts leaves the mark clear and the register untouched (no fallback), one further (no initialisation), or one past the last image tried, from where the search finds nothing |
| BootEnds.LoadingParts | xilinx/fsbl/src/image_mover.c:166-204 | the address a load takes its image from, and what it does to the failure mark on 1.0 silicon |
| BootEnds.AttemptEnds | bootstrap/bootLoader/src/main.c:661-740 | an attempt ends the run if and only if load and hook succeed and the program does not return |
| BootEnds.FindsOnDevice | bootstrap/bootLoader/src/main.c:1366-1383 | NOR is searched up to 32 MB, NAND up to 128 MB and QSPI up to its size, in steps of 32 KB |
| BootRuns.WholeBootTriesUpwards | bootstrap/bootLoader/src/main.c:516-538 | from the main program on, the whole list of images tried is strictly ascending and starts with the boot ROM's choice |
| DtmLog.Log.Format | cm/cm_control/src/BaliShell.cc:80-83 | a bounded print writes what fits and a terminator |
| DtmLog.Log.Printv | cm/cm_control/src/BaliShell.cc:72-89 | the exact buffer and position after a record that fits and after one that starts a new lap; the layout of both laps is kept over any number of wraps |
| DtmLog.FittedBytes | cm/cm_control/src/BaliShell.cc:80-88 | the buffer after a record that fits, byte by byte |
| DtmLog.WrappedBytes | cm/cm_control/src/BaliShell.cc:80-88 | the buffer after a record that wraps, byte by byte, with the record cut short at the end and whole at the front |
| DtmLog.FitLayout | cm/cm_control/src/BaliShell.cc:79-88 | appending keeps the current lap in front and the rest of the previous lap behind |
| DtmLog.WrapLayout | cm/cm_control/src/BaliShell.cc:84-88 | wrapping makes the current lap the previous one, its end marked |
| DtmLog.Log.Dump | cm/cm_control/src/BaliShell.cc:92-101 | before any wrap exactly the records in order; after wraps what is left of the previous lap, down to the cut record just below the mark, and then exactly the records since the last wrap; nothing if the next byte is a terminator |
| DtmLog.DumpWalk | cm/cm_control/src/BaliShell.cc:92-101 | the same of the walk itself: it stops, the part before the current lap is the previous lap's remaining bytes, and just below the mark it is the tail of the record cut by the wrap |
| DtmLog.DumpEndsIff | cm/cm_control/src/BaliShell.cc:92-101 | the dump ends if and only if the log has not wrapped, or its new lap is below the mark, or a terminator follows the write position |
| DtmLog.SilentIff | cm/cm_control/src/BaliShell.cc:92-101 | below the mark, the dump is silent if and only if the byte after the write position ends a record of the previous lap |
| DtmLog.LogAllLayout | cm/cm_control/src/BaliShell.cc:79-88 | any number of records that fit extend the lap and keep the layout |
| DtmLog.LongLapCircles | cm/cm_control/src/BaliShell.cc:84-101 | for every buffer, old lap and records: a wrap followed by records that carry the new lap to the old one's end leaves a log whose dump never ends |
| DtmLog.CirclingExample | cm/cm_control/src/BaliShell.cc:92-101 | a 4096-byte log of 102 records with time stamps, wrapped and followed by 101 more, whose dump never ends |
| DtmLog.SilentExample | cm/cm_control/src/BaliShell.cc:92-101 | the same log wrapped by another record, whose dump prints nothing |
| MessageRing.Printer.Put | bootstrap/common/src/print.c:31-38 | the write position is the character count modulo the size, holds the terminator, and the cells behind it hold the last characters |
| MessageRing.Printer.Print | bootstrap/common/src/print.c:28-39 | a string goes out whole and the ring keeps that invariant |
| MessageRing.Printer.Tail | bootstrap/common/src/print.c:28-39 | read backwards from the terminator the ring gives the last min(count, size - 1) characters of everything printed |
| MessageRing.Printer.PrintX | bootstrap/common/src/print.c:41-52 | prints the low n hexadecimal digits |
| MessageRing.HexDigitsAt | bootstrap/common/src/print.c:41-52 | the i-th character is the lower-case digit of its four bits |
| MessageRing.Printer.Println | bootstrap/common/src/print.c:60-63 | label, digits and line end in order |
| HexReader.ParameterFile.ReadHex | bootstrap/bootLoader/src/fsbl_hooks.c:277-295 | takes the shortest prefix `CompleteIff` describes and returns its value; otherwise runs to the end of the file with the caller's value |
| HexReader.CompleteIff | bootstrap/bootLoader/src/fsbl_hooks.c:284-292 | the reader is satisfied if and only if it has eight digits of either case and nothing else, or seven behind a character that is none |
| HexReader.DigitChars | bootstrap/bootLoader/src/fsbl_hooks.c:288-291 | the digits are the sixteen of either case, with their values, and no other character |
| HexReader.EightDigits | bootstrap/bootLoader/src/fsbl_hooks.c:284-293 | any eight digits, of either case, are taken as the number they spell |
| HexReader.SevenDigits | bootstrap/bootLoader/src/fsbl_hooks.c:284-293 | any other character resets the reader: seven digits behind it are taken as the number they spell, whatever came before |
| HexReader.UpperCaseExample | bootstrap/bootLoader/src/fsbl_hooks.c:289 | "0000000A" is read as 10 |
| HexReader.WordReads | bootstrap/common/src/print.c:41-52 | a printed word is read back from its 8 characters, whatever follows |
| HexReader.ParameterFile.LoadPair | bootstrap/bootLoader/src/fsbl_hooks.c:347-360 | of two printed words with any run of non-digits between, the first is read back, and the second if and only if the run is empty or the word is zero; else it comes shifted right by four |
| HexReader.SeparatedWordLosesDigit | bootstrap/bootLoader/src/fsbl_hooks.c:284-292 | a word after any separators that are not digits is read as the word shifted right by four |
| HexReader.ReadBackIff | bootstrap/bootLoader/src/fsbl_hooks.c:277-295 | a word behind a run of non-digits reads back if and only if the run is empty or the word is zero |
| Switch.Z2Scan | cm/cm_control/src/CimConsoleTask.cc:1433-1459 | every port's mask: the successor in the list, or all unlisted ports; for port numbers up to 30 |
| Switch.ScanIsCycle | cm/cm_control/src/CimConsoleTask.cc:1441-1459 | for every list of distinct ports, j hops from the i-th port lead to the (i+j)-th modulo the length, and nowhere else |
| Switch.ScanIsCycleIff | cm/cm_control/src/CimConsoleTask.cc:1441-1459 | the distinct listed ports form such a cycle if and only if none is above 24 |
| Switch.ScanSeparates | cm/cm_control/src/DtmConsoleTask.cc:1185-1211 | for every list, no number of hops leads from a listed to an unlisted port or back |
| Switch.CutThru | cm/cm_control/src/CimConsoleTask.cc:231-245 | the rows set by both loops, the CPU row untouched, and all ones when switched off |
| Switch.CutThroughIffSameClass | cm/cm_control/src/CimConsoleTask.cc:235-239 | bit j+1 of row k+1 is clear if and only if ports j and k are of one speed class |
| Switch.SafRowBits | cm/cm_control/src/CimConsoleTask.cc:235-239 | every bit of a row: the CPU's and those above the last port set, the others set for ports of another class |
| Switch.CutThroughIsEquivalence | cm/cm_control/src/CimConsoleTask.cc:235-239 | the cut-through relation is an equivalence for every assignment of classes |
| Switch.SnakeConsole.Enable | cm/cm_control/src/CimConsoleTask.cc:492-511 | the registers a snake sets, and the port list kept for disabling it |
| Switch.SnakeConsole.Disable | cm/cm_control/src/CimConsoleTask.cc:513-525 | resets the linked registers and no other |
| Switch.SnakeLink | cm/cm_control/src/CimConsoleTask.cc:502-507 | each port forwards to the one after its last place among the linked ones alone, and the entry port, unless linked itself, to the first and the host, for every list |
| Switch.SnakeDisabled | cm/cm_control/src/CimConsoleTask.cc:513-525 | disabling a snake leaves the linked ports and the entry port open to all and every other register as it was before the snake, whatever that was |
| Switch.SnakeUndone | cm/cm_control/src/CimConsoleTask.cc:513-525 | disabling a snake laid over open ports restores every register |
| GlitchFilter.PortCounterRef.Set | cm/cm_control/src/PortMonitor.cc:33-48 | per port, the mask bit and the stored rise, other entries left as they were |
| GlitchFilter.PortCounterRef.Report | cm/cm_control/src/PortMonitor.cc:49-71 | a row titled with its counter, with the entries of all ports of the given mask, if the counter's own mask is not empty |
| GlitchFilter.PortCounters.Report | cm/cm_control/src/PortMonitor.cc:95-128 | all rows set, then a table over the union of their masks cut to the ports up, or nothing |
| GlitchFilter.PortMonitor.UpdateCounters | cm/cm_control/src/PortMonitor.cc:283-305 | after any sequence of updates of the switches, the table of the rows so far, and every global counter's filtered rise, once and in order, if and only if it is not zero |
| GlitchFilter.RefsStored | cm/cm_control/src/PortMonitor.cc:33-48 | after any sequence of updates a row's own mask holds the ports with a filtered rise, and its entries are the stored values |
| GlitchFilter.StoredLast | cm/cm_control/src/PortMonitor.cc:42-45 | a stored value is the last rise of its counter and port on either switch |
| GlitchFilter.StoredZeroIff | cm/cm_control/src/PortMonitor.cc:42-45 | before any rise it is what the uninitialised memory held; it is zero only then, and if that was zero |
| GlitchFilter.PrintsIff | cm/cm_control/src/PortMonitor.cc:49-128 | exactly which values stand in a table and under which titles and headings: for every port that is up and on which any counter rose, the stored value of every counter that rose on any port, in that counter's row |
| GlitchFilter.TableShape | cm/cm_control/src/PortMonitor.cc:49-128 | headings ascend, every row stands in its counter's place, bears its title and has one value a heading |
| GlitchFilter.PrintsRiseIff | cm/cm_control/src/PortMonitor.cc:49-128 | a printed entry equals this update's filtered rise if and only if the counter rose on that port now, or never did on either switch and the memory held zero |
| GlitchFilter.SilentIff | cm/cm_control/src/PortMonitor.cc:111-114 | no table is printed if and only if no counter rose on a port that is up |
| GlitchFilter.AlternateRise | cm/cm_control/src/PortMonitor.cc:236-281 | as the monitor runs, an update's filtered rise is that of the readings four and two updates back and now, from the double first reading on |
| GlitchFilter.StaleExample | cm/cm_control/src/PortMonitor.cc:94-127 | two counters whose table prints a rise of 5 again a round later, and then for the other switch, on which that counter never moved |
| GlitchFilter.SteadyTotal | cm/cm_control/src/PortMonitor.cc:139-145 | for a global counter, or a port counter's rises on the ports of its own mask: on non-decreasing readings they sum to the last but one reading less the first |
| GlitchFilter.GlitchyTotal | cm/cm_control/src/PortMonitor.cc:139-145 | likewise with isolated spikes and dips: the sum is the true rise, less the rises next to glitches that are lost, plus the depth of every dip not followed by another two readings later |
| GlitchFilter.SpikyTotal | cm/cm_control/src/PortMonitor.cc:139-145 | with spikes alone nothing is added, so the sum falls short by exactly the true rise across each spike |
| GlitchFilter.SpikesUnreported | cm/cm_control/src/PortMonitor.cc:2-5 | exactly when the filter reports a rise, and which: never to or from a spike |
| GlitchFilter.DipReported | cm/cm_control/src/PortMonitor.cc:2-5 | a single low reading is reported later as a rise too large by its depth, if and only if the reading after has not fallen |
| GlitchFilter.DipExample | cm/cm_control/src/PortMonitor.cc:139-145 | a counter standing still and read low once is reported to have moved |
| PriorityOrder.MemCmpIsNumeric | cm/bpdu/src/BridgeId.cc:23-36 | byte-wise comparison is numeric order, and equality |
| PriorityOrder.BridgeNumber | cm/bpdu/src/BridgeId.cc:11-16 | with a 12-bit local identifier the number is priority, local identifier and address side by side, and the address is recovered |
| PriorityOrder.HeadBits | cm/bpdu/src/BridgeId.cc:11-16 | the first two bytes bit by bit for every local identifier, with the priority laid over bits 12 to 15 |
| PriorityOrder.OrderKeptIff | cm/bpdu/src/BridgeId.cc:11-36 | identifiers order by (priority, local identifier, address) over a range of local identifiers if and only if they have at most 12 bits |
| PriorityOrder.NotWorseIsNumeric | cm/bpdu/src/PriorityVector.cc:37-60 | the comparison is numeric <= on the concatenated 64, 32, 64 and 16 bits, and `==` is their equality |
| PriorityOrder.NotWorseIsTotalPreorder | cm/bpdu/src/PriorityVector.cc:37-65 | it is reflexive, total and transitive, and antisymmetric up to `==` |
| CommandTable.StrStrAtStart | cm/cm_control/src/BaliShell.cc:1229-1231 | a substring search answering with the very start is a prefix test |
| CommandTable.ParseCommand | cm/cm_control/src/BaliShell.cc:1212-1241 | the earliest row all of whose words have the typed words as prefixes runs with the untouched rest; else nothing runs, and "too few" is said if and only if some row was cut short |
| CommandTable.DispatchedOnce | cm/cm_control/src/BaliShell.cc:1212-1241 | every table and every line of words have one outcome |
| CommandTable.RunsFirstAbbreviated | cm/cm_control/src/BaliShell.cc:1212-1241 | it is the first row whose own words, each possibly cut short, were typed; failing that, more words are asked for if and only if those typed abbreviate the beginning of a longer row |

## Left out

- Hardware access, UART timing, cache and barrier instructions: replaced by array and field updates; capture, flash and counter reads are arbitrary functions or arguments, and memory reads are stable, so the rereads of the 32-bit incrementing test never recover.
- I2cCapture.I2CBus.Read: bit addresses stay below 2^32, where the code's address would wrap; commands carry 14-bit addresses.
- I2cCapture.I2CBus.Dump: a line is its list of tokens; their rendering as text and the 256-byte buffer it is written to are not modelled, so lines are assumed to fit.
- The retrieval of the command list from the capture unit and the debug ring walk of the I2C shell: register reads without a decision of their own.
- DtmLog.Log.Printv: records are non-empty, free of terminators and shorter than the buffer, which the "[seconds.nanoseconds]" prefix and the 4096-byte buffer guarantee.
- DtmLog.Log.Dump: a wrapped log whose write position is the buffer's last byte is excluded, since the code then reads one byte past the end.
- HexReader.ParameterFile.ReadHex: read errors of the file system other than the end of the file.
- Switch.Z2Scan: port numbers are at most 30, beyond which the signed shifts of the code overflow; the speed configuration of the listed ports is not modelled.
- The chain command of the DTM console, which lays the same links as a snake.
- Fallback.Fsbl.LoadBootImage: the loading of partitions is replaced by an arbitrary outcome per attempt; a reset ends the run, as the boot ROM's restart is not part of this model.
- ImageSearch.HeaderChecksum: flash words are read by byte address without error, since the code ignores the read status.
- Fallback.Fsbl.FsblHandoff: the JTAG exit for address 0 and the jump to any other address are one outcome, a handoff to that address; enabling the level shifters is not modelled.
- Boot-mode selection, watchdog, exception handlers and the hooks' own work.
- GlitchFilter.PortCounterRef.Report: the rendering of a value (blank for 0, `+` beyond six digits, `-` from 2^63 up) and of the headings.
- CommandTable.ParseCommand: the variant of the other two shells passes a null word to the search when the words run out; that is undefined and not modelled.
- The state machines of the spanning-tree protocol, of which only text remains in the sources.
