# Proofs about the MoteWorks tree

MoteWorks is a TinyOS 1.x tree for radio motes. This project models its algorithms in Dafny 4.11 and proves
what they are for: the CRC that protects radio packets, the `uisp` programmer that loads program images into
motes, the priority queue and task scheduler of the motes, and the accounting done by the smart pointer, the
energy script and the debug printf. `dafny verify dfyconfig.toml` checks everything.

## How it is built

| modules | what they model |
|---|---|
| `Gf2`, `Crc`, `CrcDetection`, `CrcPeriod`, `CrcTable` | the 16-bit CRC, bit by bit and by table, as division of polynomials over GF(2) |
| `Wrappers`, `HexText`, `Device`, `SRecord`, `IntelHex`, `MotIntl` | image files: Motorola S-records written and read, Intel HEX read |
| `DivMod`, `Chip`, `Pavr`, `Pages`, `AvrAtmel` | the serial programmer: host, firmware and the part |
| `AtmelRuns`, `PagedRuns`, `MixedRuns`, `LargeFlash` | whole runs of them: without and with page mode, with EEPROM mixed in, and on flash larger than addresses reach |
| `AvrDummy`, `DummyRuns` | the parallel-port and Stargate programmers (the two files have the same code here), with page mode and polling |
| `Images` | an image on its way out of one part, through a file, into another |
| `Stk500` | the block uploads and page-wise reads of the mib510 |
| `PQueue`, `Sched`, `RefCount` | the heap, the task ring and the counting pointer |
| `Energy`, `Printf`, `SplitJoin` | the energy integrator, the printf interpreter, split and join |

Code that changes fields, arrays or loop variables is a class or method with the same loops and branches; its
contract ties the new state to a function, and lemmas prove what that function amounts to. `Crc.CrcByte`, for
example, is the loop; `Crc.Byte` is what it computes; `CrcDetection` proves that this is a remainder and which
errors it catches. For the programmers, `AvrAtmel` says what a call does to host, firmware and part together,
and `AtmelRuns` proves that a run of calls does what a plain memory would do. `Printf.Render` is what the
interpreter prints; `Printf.RenderIsTexts` says, without it, what that is for a format made of pieces.

Conventions:

- Polynomials are finite sets of exponents; registers are bit vectors, and `RegPoly` connects the two.
- `int8_t`, `unsigned char`, 16- and 32-bit integers are modelled with their wrap-around where they can wrap.
- `x & ~(size - 1)` and `x & mask`, for the powers of two they are used with, are rounding down and remainder.
- Exceptions and error returns are values of datatypes. Device calls of the file readers are a trace of calls,
  which `Images.Deliver` carries out on a programmer object.
- The part shows what the serial programming instructions show of it: programming can only clear bits, EEPROM
  bytes are replaced, and a part with page mode collects bytes in a page buffer.
- Flash has any size. `Chip.Selected` is the byte that the 16-bit word address sent for an address selects; it is
  the address itself below `REACH`, 0x20000 bytes, and theorems about flat memory ask for addresses below that.
  EEPROM has at most 0x10000 bytes (the largest in the parts table has 4096), and page sizes divide `REACH`.
- Waiting loops with a clock are loops with a number of turns, at least one, that the caller gives.
- Energies, times and currents are reals.

## What the code does, where that is not what one expects

Each of these is proved, with the exact condition where there is one:

- The scheduler fills all its slots; its comment keeps one empty (`Sched.FillAllSlots`). Posting NULL is
  accepted and blocks the next task (`Sched.NullBlocks`); in the only free slot it makes the queue refuse the
  next task, and blocks a later one (`Sched.NullFillsQueue`).
- `pqueue_remove` returns the root's old element, not the removed one, and only sifts down: the result is a
  heap exactly if the removed slot is the root or its parent is not greater than the former last element
  (`PQueue.PQueue.Remove`, `PQueue.RemovalBreaksHeap`).
- The S-record writer keeps the length of a record in an int: segments of 2^31 bytes and more give the first
  record a negative length (`SRecord.LengthsRightIff`, `SRecord.FirstLengthOverflows`).
- EEPROM accesses advance the programmer's address but not the host's note of it, so a flash access after one
  can miss its word, reading the next one (`AtmelRuns.FlashReadAfterEeprom`) or programming it
  (`MixedRuns.FlashWriteAfterEeprom`). Which mixed runs go astray is decided from the calls alone
  (`MixedRuns.NeverAstrayIff`), and those that do not are right (`MixedRuns.MixedRunRefinesMemory`); a call that
  goes astray is still right when the place it reaches instead makes no difference (`MixedRuns.StepRightIff`).
- The ATmega2561 has 262144 bytes of flash, and word addresses are sent as 16 bits: an access at or above 0x20000
  reaches the byte that the low bits select (`LargeFlash.AccessRightIff`, `LargeFlash.RunSelects`), and pages
  above are committed below (`LargeFlash.CommitRightIff`). The host's initial note of the address, 0x10000, is a
  word of that part: a fresh host that reads there sends no address at all (`LargeFlash.FreshReadGoesAstray`,
  `LargeFlash.WriteAliases`). An uploaded image is right exactly if it has only 0xFF from 0x20000 on
  (`Images.FlashRestored`), and a cloned part likewise; but verifying the clone reports no error in any case
  (`Images.FlashCloned`).
- Neither a chip erase (`AtmelRuns.FlashReadAfterErase`) nor a flush (`PagedRuns.ReadAfterFlush`,
  `PagedRuns.FlushLeavesStaleByte`) drops the cached byte, so a read of it right after can be stale.
- In page mode a byte written again before its page is committed replaces the one that waits
  (`PagedRuns.RepeatedWrite`).
- In page mode a write that asks for a flush commits the page before it loads its byte. In `AvrAtmel` the byte
  comes with the next flush (`PagedRuns.FlushingWriteIsLate`); in `AvrDummy` it stays in the buffer and is
  programmed into whatever page is opened next (`DummyRuns.FlushingWriteIsLost`, `DummyRuns.StrayByte`). The
  upload path never asks for it.
- In `AvrDummy` two kinds of write break the polling invariant, and no other: 0xFF over the byte that is polled
  for, and any other byte with a flush asked for (`DummyRuns.PollByteKept`).
- The Intel HEX length check admits 58 data bytes, but the line end of such a record does not fit the line
  buffer (`IntelHex.LongestRecord`). A record with a wrong checksum has had its effect by the time it is
  reported (`SRecord.ChangedByteDetected`).
- A block upload leaves out the highest address when it would start a block (`Stk500.HighestSentIff`). A block is
  misaddressed when the lowest flash address is odd, and when it starts beyond what 16 bits of word address
  select (`Stk500.AddressedRightIff`, `Stk500.BlockWraps`); reads beyond that wrap as well (`Stk500.ReadWraps`).
- An event of a higher-numbered mote starts the charging of all motes below it, so adding one can change their
  totals (`Energy.InsertionNeutralIff`).
- `%u` and `%o` of a negative int index past the digits (`Printf.IndexInBounds`). A newline is sent as CR in
  `tos/interfaces/SOdebug.h` and as CR LF in `tos/platform/atm1281/SOdebug.h`; `Uart.newline` is either.

## Model

| member | source | states |
|---|---|---|
| Crc.CrcByte | tos/system/crc.h:20-34 | The do-while loop computes eight shift-and-fold steps of the register with the byte xored into its high half. |
| Crc.ByteDivides | tos/system/crc.h:24-31 | One call is one byte of long division over GF(2): (register + byte·x^8)·x^8 is the new register plus a multiple of x^16 + x^12 + x^5 + 1. |
| Crc.MessageDivides | tos/system/crc.h:20-34 | From any initial register, the register after a message is a remainder, of degree below 16, of M(x)·x^16 plus the shifted initial register. |
| CrcDetection.CrcIsRemainder | tos/system/crc.h:16-34 | Folded from 0, the register is the remainder of M(x)·x^16 by the generator, and the only one (ITU-T V.41, section 2). |
| CrcDetection.CollisionIff | tos/system/crc.h:20-34 | Two equally long messages fold to the same value, whatever the initial register, if and only if their difference is a multiple of the generator. |
| CrcDetection.BurstDetected | tos/system/crc.h:20-34 | Any nonzero error confined to 16 consecutive bits, at any bit position and across byte boundaries, changes the result. |
| CrcDetection.OddErrorDetected | tos/system/crc.h:20-34 | Any error that flips an odd number of bits changes the result. |
| CrcDetection.OwnCrcFoldsToZero | tos/system/crc.h:20-34 | A message followed by its own CRC, high byte first, folds to 0 (from any initial register). |
| CrcDetection.CheckIff | tos/system/crc.h:20-34 | A message and two more bytes fold to 0 if and only if the two bytes are its CRC. |
| CrcPeriod.TimesPower | tos/system/crc.h:26-31 | Stepping is multiplication by x modulo the generator: n steps of any register give its product with x^n. |
| CrcPeriod.PeriodIs | tos/system/crc.h:26-31 | The powers of x modulo the generator return to 1 exactly at the multiples of 32767. |
| CrcPeriod.TwoErrorsIff | tos/system/crc.h:20-34 | Two flipped bits go unnoticed if and only if their distance is a multiple of 32767. |
| CrcPeriod.ThreeErrorsDetected | tos/system/crc.h:20-34 | In a message of at most 4095 bytes every error of one, two or three bits changes the result. |
| CrcTable.EntryClosed | tos/platform/atm128/crc.h:11-44 | Each of the 256 table entries is, in 16 bits, t + t·x^5 + t·x^12 for the index folded onto itself, t. |
| CrcTable.EntryIsBitwise | tos/platform/atm128/crc.h:11-44 | Each of the 256 table entries is the bitwise CRC of its index. |
| CrcTable.TableByteRefines | tos/platform/atm128/crc.h:69-71 | The table form equals the bit loop for every register and byte. |
| CrcTable.TableMessageRefines | tos/platform/atm1281/crc.h:70-72 | Hence both forms fold every message to the same value, from every initial register. |
| HexText.FgetsConcat | tools/uisp/src/MotIntl.C:218-219 | Reading a file with the 128-byte line buffer gives back the lines it was written as, if each fits the buffer with its newline. |
| HexText.FgetsIs | tools/uisp/src/MotIntl.C:218-219 | Of any file the lines are pieces that give it again, none empty or longer than 127 characters, each ending at the first newline, or full, or the last. |
| HexText.UpperIff | tools/uisp/src/MotIntl.C:112 | Two characters are the same in upper case if and only if they are the same or differ in the case of one letter; what is no lower-case letter stays. |
| HexText.NibbleIff | tools/uisp/src/MotIntl.C:43-68 | A character is read as the digit n if and only if it is that digit, in either case. |
| HexText.DecodeHex | tools/uisp/src/MotIntl.C:43-68 | The two-digit reader gives back bytes printed in hexadecimal, up to the first character that is no digit. |
| MotIntl.TMotIntl.Htoi | tools/uisp/src/MotIntl.C:43-68 | Delivers the byte whose two digits stand at the position, upper or lower case, and adds it to the 8-bit checksum; nothing if either character is no digit. |
| MotIntl.TMotIntl.UploadMotorola | tools/uisp/src/MotIntl.C:97-220 | Over any lines, makes exactly the device calls, and ends with the exception, that the meaning of the records prescribes. |
| MotIntl.TMotIntl.MotorolaLine | tools/uisp/src/MotIntl.C:114-138 | The same for one line: every format check in the order the code makes it. |
| MotIntl.TMotIntl.MotorolaSwitch | tools/uisp/src/MotIntl.C:134-217 | The same for the part behind the length and the first two address bytes: each record type, the fall-through of S3 into S2 into S1, and the checksum test last. |
| MotIntl.TMotIntl.UploadBytes | tools/uisp/src/MotIntl.C:171-187 | The data loop writes and verifies consecutive bytes from the address on, stops at the first unreadable one, and keeps the checksum. |
| MotIntl.TMotIntl.UploadIntel | tools/uisp/src/MotIntl.C:222-337 | Over any lines, makes exactly the device calls, and ends with the exception, that the meaning of the Intel HEX records prescribes; the flush comes after the last line. |
| MotIntl.TMotIntl.IntelSwitch | tools/uisp/src/MotIntl.C:267-325 | The same for one record: data, base (02 and 04) and ignored records, and the checksum test. |
| MotIntl.TMotIntl.Read | tools/uisp/src/MotIntl.C:339-357 | The format is recognised by the first line: S0 (either case) or a colon. |
| MotIntl.FormatIs | tools/uisp/src/MotIntl.C:348-354 | A file is read as S-records if and only if it starts with S0 or s0, as Intel HEX if and only if it starts with a colon, and is otherwise of unknown format. |
| MotIntl.CaseDoesNotMatter | tools/uisp/src/MotIntl.C:112-248 | Two files that differ only in the case of letters have the same effect and the same exception. |
| MotIntl.AnySpellingRoundTrip | tools/uisp/src/MotIntl.C:97-458 | So what DownloadMotorola prints is read back in any spelling as the same segment, bytes and flush. |
| MotIntl.AnySpellingUpload | tools/uisp/src/MotIntl.C:222-354 | And a file of well-formed Intel HEX records in any spelling writes exactly its data bytes. |
| MotIntl.TMotIntl.SrecWrite | tools/uisp/src/MotIntl.C:359-372 | Prints one record whose checksum byte complements the sum of count and payload. |
| MotIntl.TMotIntl.DownloadMotorola | tools/uisp/src/MotIntl.C:374-458 | Prints, for any image of fewer than 2^31 bytes, the header, the data records of 16 bytes with the narrowest address type, the record count and the end record. |
| SRecord.RecordSays | tools/uisp/src/MotIntl.C:359-372 | A printed record is its mark, upper-case digits and CR LF; it holds its count, its payload and a checksum that fits. |
| SRecord.HeaderSays | tools/uisp/src/MotIntl.C:396-400 | The first line is an S0 record with two zero bytes and the first 16 bytes of the segment name. |
| SRecord.DataSays | tools/uisp/src/MotIntl.C:402-434 | Line 1+i is the record with the bytes from address 16i on, 16 or what is left, behind that address in the least of two, three or four bytes that hold it, and of type S1, S2 or S3 accordingly. |
| SRecord.TrailerSays | tools/uisp/src/MotIntl.C:436-452 | The last line but one is an S5 record with the number of data records, in 16 bits, high byte first; the last is S9, S8 or S7, when the address behind the data needs two, three or four bytes, with as many zeros. |
| SRecord.LengthsRightIff | tools/uisp/src/MotIntl.C:410-414 | The number of bytes meant for a record is an int: for segments of less than 2^32 bytes, it is the lesser of 16 and what is left at every record if and only if the segment has fewer than 2^31 bytes. |
| SRecord.FirstLengthOverflows | tools/uisp/src/MotIntl.C:410-414 | For 2^31 bytes the first record is to get -2^31 of them, and nothing caps that. |
| SRecord.AcceptedIff | tools/uisp/src/MotIntl.C:118-216 | A line is taken if and only if it starts with S, its type is known, its count is between the least for its type and 61, that many bytes are there, and their sum ends in 0xFF; then it has exactly its effect. |
| SRecord.ErrorIs | tools/uisp/src/MotIntl.C:114-216 | Which exception a line throws: its count is below 3 or above 62; its type is unknown; all its bytes are there and do not sum up; or it is malformed in some other way. |
| SRecord.TornRecord | tools/uisp/src/MotIntl.C:140-207 | A record that ends too soon has written the data bytes that are there, or flushed, before the exception; a header has named its segment only if nothing but the checksum is missing. |
| SRecord.StopsAt | tools/uisp/src/MotIntl.C:108-219 | Reading stops at the first line that is not taken; the lines before it and that one have had their effect. |
| SRecord.CStringIs | tools/uisp/src/MotIntl.C:140-153 | The segment name ends at its first NUL. |
| SRecord.ReadWholePayload | tools/uisp/src/MotIntl.C:134-216 | A record whose bytes are all there has its effect on the device whether or not the checksum fits; only then is a wrong checksum thrown. |
| SRecord.RoundTrip | tools/uisp/src/MotIntl.C:97-220 | What DownloadMotorola prints of an image of fewer than 2^31 bytes, UploadMotorola takes without exception: same segment, byte a written at address a once and in order through the S1, S2 and S3 ranges, one flush. |
| MotIntl.FileRoundTrip | tools/uisp/src/MotIntl.C:339-458 | The same through Read, which recognises the file. |
| SRecord.ChangedByteDetected | tools/uisp/src/MotIntl.C:209-216 | One changed byte behind the count of any accepted record is always reported as a checksum error, after the changed record took effect. |
| Device.UploadWritesEachByte | tools/uisp/src/MotIntl.C:171-187 | In an upload, call i of a data block writes byte i at its own address, modulo 2^32, and there are no other calls. |
| Device.VerifiesEachByte | tools/uisp/src/MotIntl.C:171-187 | With verification, each byte is compared right after it is written. |
| IntelHex.UploadMeaning | tools/uisp/src/MotIntl.C:222-337 | Every list of well-formed records, printed with right checksums, writes exactly its data bytes, at offset plus index plus the base of the latest 02 (times 16) or 04 (times 65536) record, in file order, modulo 2^32, and then flushes. |
| IntelHex.AcceptedIff | tools/uisp/src/MotIntl.C:250-325 | A line is taken if and only if it starts with a colon, its count is at most 58, its type at most 5, the bytes are there and their sum ends in 0; base records are read as two bytes whatever their count says. |
| IntelHex.ErrorIs | tools/uisp/src/MotIntl.C:250-325 | Which exception a line throws: its count is above 58; its type is above 5; all its bytes are there and do not sum up; or it is malformed in some other way. |
| IntelHex.EffectComesFirst | tools/uisp/src/MotIntl.C:267-325 | Taken or not, a data record has written the bytes that are there, and no other record any. |
| IntelHex.StopsAt | tools/uisp/src/MotIntl.C:240-330 | Reading stops at the first line that is not taken, without a flush; the lines before it and that one have had their effect. |
| IntelHex.LongestRecord | tools/uisp/src/MotIntl.C:257-259 | A data record printed on a line of its own with CR LF is taken if and only if it has at most 57 bytes, one less than the length check admits. |
| Pavr.TPavr.Command | tools/uisp/pavr/pavr.c:284-384 | Each command of the firmware loop (A, R, c, C, m, d, D, e), made of SPI instructions, has the stated effect on the part and on the 16-bit address and gives the stated answer. |
| AvrAtmel.TAvrAtmel.SetAddress | tools/uisp/src/AvrAtmel.C:185-190 | The programmer gets the low 16 bits, the host remembers the whole address. |
| AvrAtmel.TAvrAtmel.ReadByte | tools/uisp/src/AvrAtmel.C:201-222 | Host and firmware together do what the read function says: range check, cached odd byte, address only when needed, word read. |
| AvrAtmel.TAvrAtmel.WriteByte | tools/uisp/src/AvrAtmel.C:265-308 | The same for writes: range check, 0xFF skipped without page mode, page bookkeeping, address only when needed. |
| AvrAtmel.TAvrAtmel.WriteProgramMemoryPage | tools/uisp/src/AvrAtmel.C:192-196 | The open page is addressed and programmed. |
| AvrAtmel.TAvrAtmel.FlushWriteBuffer | tools/uisp/src/AvrAtmel.C:403-407 | An open page is programmed. |
| AvrAtmel.TAvrAtmel.ChipErase | tools/uisp/src/AvrAtmel.C:416-420 | The part is erased; the cached byte stays. |
| AvrAtmel.TAvrAtmel.constructor | tools/uisp/src/AvrAtmel.C:520-521 | The host starts with nothing cached and with an address that no word has whose number fits 16 bits. |
| AtmelRuns.AstrayIff | tools/uisp/src/AvrAtmel.C:185-190 | While the host's note of the address is right, a flash access reaches another byte than its own if and only if its address is 0x20000 or above (a write of 0xFF, left out, reaches none). |
| AtmelRuns.FlashRunRefinesMemory | tools/uisp/src/AvrAtmel.C:185-302 | Every run of flash reads and writes at addresses below 0x20000, in and out of range, on a part of any size without page mode gives the answers and the memory of a plain array programmed by AND; and no access reaches another byte than its own. |
| AtmelRuns.FreshRunRefinesMemory | tools/uisp/src/AvrAtmel.C:201-302 | The same from the state the host starts in, whatever address the programmer has. |
| MixedRuns.StepRightIff | tools/uisp/src/AvrAtmel.C:201-302 | One call in any state, at any address, gives what two plain memories give if and only if it reaches its own byte, or what it reaches instead makes no difference: a read finds the same byte, a write would change neither cell. |
| MixedRuns.FlashWriteAfterEeprom | tools/uisp/src/AvrAtmel.C:295-300 | A flash write right after an EEPROM access programs its own byte and no other if and only if it goes there, or the byte is 0xFF, or it changes neither its own cell nor the one reached; it goes there if and only if its address is below 0x20000 and its word is not the EEPROM address or there is no auto-increment. |
| MixedRuns.EepromReadSpoilsFlashWrite | tools/uisp/pavr/pavr.c:360-371 | A concrete part and state in which one EEPROM read makes the next flash write program the wrong word. |
| MixedRuns.NeverAstrayIff | tools/uisp/src/AvrAtmel.C:201-308 | Whether any access of a mixed run reaches another byte than its own can be told from the calls and the segment sizes alone, by following the shadow address and the cache. |
| MixedRuns.MixedRunRefinesMemory | tools/uisp/src/AvrAtmel.C:201-308 | Every mixed run that this test passes gives the answers and the memories of two plain memories. |
| MixedRuns.ApartRunRefinesMemory | tools/uisp/src/AvrAtmel.C:201-308 | In particular every mixed run below 0x20000 in which no flash access uses a word whose number was the address of an earlier EEPROM access. |
| AtmelRuns.SlowRunRefinesMemory | tools/uisp/src/AvrAtmel.C:212-222 | Without auto-increment every mixed run with flash addresses below 0x20000 is right. |
| AtmelRuns.FlashReadAfterEeprom | tools/uisp/src/AvrAtmel.C:217-222 | A flash read right after an EEPROM access is right if and only if it reaches its own byte or one that is the same; it reaches its own if and only if its address is below 0x20000 and its word is not the EEPROM address, or there is no auto-increment, or the byte is cached. |
| AtmelRuns.EepromReadSpoilsFlashRead | tools/uisp/pavr/pavr.c:360-371 | A concrete part and state in which one EEPROM read makes the next flash read wrong. |
| AtmelRuns.FlashReadAfterErase | tools/uisp/src/AvrAtmel.C:211-222 | A read right after a chip erase gives 0xFF if and only if it misses the cache or the cached byte was 0xFF. |
| AtmelRuns.EraseIs | tools/uisp/pavr/pavr.c:377-384 | An erase leaves 0xFF in every byte of flash and EEPROM and nothing in the page buffer; every EEPROM read after it gives 0xFF. |
| PagedRuns.UploadIsRight | tools/uisp/src/AvrAtmel.C:265-302 | Page mode: bytes that select distinct cells, in any order, leave flash as programmed byte by byte where they select, once the open page is committed; below 0x20000 that is where they belong. |
| PagedRuns.AscendingUpload | tools/uisp/src/AvrAtmel.C:265-302 | The same for an image of any length in ascending order, even where its end selects the cells of its start again. |
| PagedRuns.PagedUpload | tools/uisp/src/AvrAtmel.C:276-302 | From erased flash of any size, bytes at distinct addresses below 0x20000 and a flush leave each byte at its address and 0xFF elsewhere, and every read below 0x20000 after it is right. |
| PagedRuns.PagedRunIsRight | tools/uisp/src/AvrAtmel.C:201-302 | An upload below 0x20000 with reads and out-of-range accesses mixed in: until the flush, reads give flash as it is by then and do not disturb the upload. |
| PagedRuns.FlushedRunIsRight | tools/uisp/src/AvrAtmel.C:201-407 | The flush behind such a run programs every byte written; a read after it is right if and only if it misses the cache or the flush left the cached byte as it was, and every one is if the run ends with a write. |
| PagedRuns.ReadAfterFlush | tools/uisp/src/AvrAtmel.C:211-407 | In any state in page mode, a read after a flush is right if and only if it misses the cache or nothing that waited clears a bit of the cached byte. |
| PagedRuns.FlushLeavesStaleByte | tools/uisp/src/AvrAtmel.C:403-407 | A concrete part and state: a byte written, read, flushed and read again is returned as it was before. |
| PagedRuns.RepeatedWrite | tools/uisp/src/AvrAtmel.C:276-300 | A byte written again before its page is committed replaces the one that waits: the cell will be its present value AND the new byte, which is what programming both would give if and only if the waiting byte clears nothing that the new one leaves. |
| PagedRuns.FlushingWriteIsLate | tools/uisp/src/AvrAtmel.C:290-293 | In any state, a write that asks for a flush commits what waits before it loads its byte: flash is then what it was to become, the byte waits alone, and the next flush programs it. |
| LargeFlash.AccessRightIff | tools/uisp/src/AvrAtmel.C:185-190 | On a part of any size, once an address has been sent, an access gives what a plain memory gives if and only if its address is below 0x20000 or the byte that the low 16 bits of its word address select makes no difference. |
| LargeFlash.RunSelects | tools/uisp/src/AvrAtmel.C:185-302 | From then on every run of flash accesses is the run of a plain memory in which each address stands for the byte it selects. |
| LargeFlash.FreshReadGoesAstray | tools/uisp/src/AvrAtmel.C:520-521 | A part of 0x40000 bytes: a fresh host that reads at 0x20000 sends no address and returns a byte of whatever word the programmer is at. |
| LargeFlash.WriteAliases | tools/uisp/src/AvrAtmel.C:185-190 | A part of 0x40000 bytes: what is written to 0x20002 is programmed at 2. |
| LargeFlash.CommitRightIff | tools/uisp/src/AvrAtmel.C:192-196 | The open page is committed to its own place if and only if it starts below 0x20000 or no bit would be cleared there or where it is committed instead. |
| Pages.Commit | tools/uisp/src/AvrAtmel.C:192-196 | Committing the open page makes its pending bytes actual and leaves nothing pending. |
| Pages.ReplaceCell | tools/uisp/src/AvrAtmel.C:295-300 | Loading a byte of the open page replaces what waits for that cell and no other. |
| Pages.FillCell | tools/uisp/src/AvrAtmel.C:295-300 | Loading a byte of the open page for which nothing is pending programs that cell and no other. |
| Pages.ProgrammedBytes | tools/uisp/src/AvrAtmel.C:265-302 | Programming bytes at distinct addresses one by one leaves each cell ANDed with its own byte, and the others alone. |
| Pages.AgreedCell | tools/uisp/src/AvrAtmel.C:265-302 | Programming a cell several times with the same byte is programming it once. |
| AvrDummy.TAvrDummy.ReadByte | tools/uisp/src/AvrDummy.C:144-156 | The instruction selects the flash byte of the address. |
| AvrDummy.TAvrDummy.WriteProgramMemoryPage | tools/uisp/src/AvrDummy.C:89-137 | The open page is programmed, the page and the polling byte are forgotten, and the wait ends early if and only if the part shows the polling byte. |
| AvrDummy.TAvrDummy.WriteByte | tools/uisp/src/AvrDummy.C:331-476 | New state and answer are those of the write function: range check, byte already there, page bookkeeping, load, polling byte, and the polling error. |
| AvrDummy.TAvrDummy.FlushWriteBuffer | tools/uisp/src/AvrDummy.C:478-484 | An open page is programmed. |
| DummyRuns.UploadByteIsRight | tools/uisp/src/AvrDummy.C:357-394 | One uploaded byte programs the cell it selects and keeps the page and polling invariants: a polling byte other than 0xFF waits in the buffer of the open page at its address. |
| DummyRuns.PollByteKept | tools/uisp/src/AvrStargate.C:378-392 | A write keeps the polling invariant if and only if, when it asks for a flush, it is 0xFF, and otherwise, it is not 0xFF over the byte that is polled for. |
| DummyRuns.UploadIsRight | tools/uisp/src/AvrStargate.C:357-394 | Bytes that select distinct cells of flash of any size, in any order, leave flash as programmed byte by byte where they select, once the open page is committed. |
| DummyRuns.PagedUpload | tools/uisp/src/AvrStargate.C:357-394 | From erased flash of any size, bytes at distinct addresses below 0x20000 in any order and then a flush leave each byte at its address and 0xFF elsewhere. |
| DummyRuns.CommitIsSeen | tools/uisp/src/AvrDummy.C:113-121 | During an upload of bytes that select distinct cells of an erased part of any size, a page committed with a polling byte shows that byte, so the wait ends by seeing it. |
| DummyRuns.FlushingWriteIsLost | tools/uisp/src/AvrDummy.C:368-375 | In any state, a write that asks for a flush programs what waits and leaves no page open behind its byte: the flush after it does nothing, and the byte stays in the buffer. |
| DummyRuns.StrayByte | tools/uisp/src/AvrDummy.C:368-383 | That byte is then programmed with whatever page is opened next, at its own offset there. |
| DummyRuns.PolledWrite | tools/uisp/src/AvrDummy.C:337-349 | Without page mode a polled write leaves a byte that is there alone, and otherwise fails if and only if programming would have to set a cleared bit; all at the cell the address selects. |
| DummyRuns.AnswerIs | tools/uisp/src/AvrDummy.C:331-476 | In any state, a write answers a range error, and does nothing, if and only if the address is beyond flash; a polling error if and only if there is no page mode, polling is on and programming cannot reach the value; and otherwise that it is done. |
| DummyRuns.UploadNeverThrows | tools/uisp/src/AvrStargate.C:331-476 | So no byte of a page-mode upload within flash throws. |
| Images.Deliver | tools/uisp/src/MotIntl.C:171-187 | The calls of a file reader, carried out on the programmer object, end in the session the session function describes. |
| Images.PassOfFile | tools/uisp/src/Avr.C:339-348 | A pass over a printed file selects the segment its header names, or keeps the active one if it names neither; then come its byte calls, then the flush. |
| Images.FlashRestored | tools/uisp/src/MotIntl.C:97-220 | A flash dump uploaded to an erased part of any size, with or without page mode and with nothing waiting to be committed: nothing throws if and only if it fits, and then flash is the image followed by 0xFF if and only if the image has only 0xFF from 0x20000 on. |
| Images.EepromRestored | tools/uisp/src/AvrAtmel.C:303-308 | An EEPROM dump uploaded in any state: nothing throws if and only if it fits, and then EEPROM starts with the image and is unchanged behind it. |
| Images.VerifyReports | tools/uisp/src/MotIntl.C:174-181 | A verify pass over a dump reports exactly the addresses, in order, at which what the segment shows differs; none if and only if it starts with the image. EEPROM, and flash of up to 0x20000 bytes, shows what it holds; larger flash shows at each address the byte selected. |
| Images.ReadFromIsRight | tools/uisp/src/MotIntl.C:412-430 | The reads of a download, byte after byte, give what the segment shows. |
| Images.FlashCloned | tools/uisp/src/MotIntl.C:374-458 | A part dumped, the dump uploaded to an erased part of the same size and verified there: flash is the same below 0x20000 and 0xFF from there on, so it is the same throughout if and only if the original has only 0xFF there; no error is reported in any case. |
| PQueue.PQueue.Enqueue | tos/interfaces/pqueue.h:38-52 | Fails if and only if the queue is full; otherwise keeps the heap and adds exactly the element. |
| PQueue.PQueue.SiftUp | tos/interfaces/pqueue.h:42-50 | The hole moves up until the element fits: a heap again, the same elements. |
| PQueue.PQueue.DequeueIdx | tos/interfaces/pqueue.h:54-77 | Removes the element of slot i, returns the root, and leaves a heap if and only if i is the root or its parent is not greater than the former last element. |
| PQueue.PQueue.Dequeue | tos/interfaces/pqueue.h:79-81 | Removes and returns a minimum and keeps the heap. |
| PQueue.PQueue.Remove | tos/interfaces/pqueue.h:83-91 | Removes one occurrence of the element if and only if it is there, and says exactly when the heap survives. |
| PQueue.PQueue.Peek | tos/interfaces/pqueue.h:93-98 | Returns a minimum, or -1 if there is none. |
| PQueue.RemovalBreaksHeap | tos/interfaces/pqueue.h:83-91 | A concrete heap and element whose removal breaks the heap. |
| PQueue.Sort | tos/interfaces/pqueue.h:38-81 | Any list that fits, enqueued and drained, comes out sorted and complete. |
| PQueue.HoleUp | tos/interfaces/pqueue.h:44-49 | A greater parent moved into the hole leaves a hole that still fits the rest. |
| PQueue.HoleDown | tos/interfaces/pqueue.h:63-74 | The smaller child moved into the hole leaves a hole that still fits the rest. |
| PQueue.FillHole | tos/interfaces/pqueue.h:75 | A value above its children, put into the hole, makes a heap if and only if it is not below its parent. |
| Sched.Scheduler.TOS_post | tos/system/sched.c:82-104 | A task other than NULL is appended to the pending ones, and refused if and only if every slot is occupied. |
| Sched.Scheduler.TOSH_run_next_task | tos/system/sched.c:116-137 | Takes the oldest pending task; NULL if and only if none is pending. |
| Sched.PostHolds | tos/system/sched.c:90-94 | The ring holds the pending tasks in the cyclic interval from the full to the free index, before and after a post, also when the last free slot is taken. |
| Sched.TakeHolds | tos/system/sched.c:123-132 | The same for taking a task. |
| Sched.RunsAcceptedInOrder | tos/system/sched.c:82-137 | Over every interleaving of posts and turns of the main loop, the tasks run followed by those pending are the accepted posts, each once and in order. |
| Sched.Drive | tos/system/sched.c:82-137 | The ring, driven through any interleaving, accepts and runs what a bounded queue with as many places as slots does. |
| Sched.FillAllSlots | tos/system/sched.c:43-66 | All slots can be occupied, against the comment at lines 32-33. |
| Sched.MaxTasksDoubles | tos/system/sched.c:43-52 | The number of slots is 1 for logarithm 0 and doubles with each further one. |
| Sched.NullBlocks | tos/system/sched.c:92-94 | With two free slots, posting NULL is accepted and so is the task posted next; the tasks pending before run, and then nothing more does, with that task in the queue. |
| Sched.NullFillsQueue | tos/system/sched.c:82-137 | NULL posted into the only free slot is accepted and the task posted next is refused; the tasks pending before run; a task posted after them is accepted and does not run. |
| RefCount.TPt.FromRec | tools/uisp/src/Global.h:46-50 | Construction from an object keeps the invariant: counts of live objects are the numbers of their holders, an object once held lives exactly as long as it has one, and no pointer holds a deleted object. |
| RefCount.TPt.FromPt | tools/uisp/src/Global.h:51 | The same for copying. |
| RefCount.TPt.Destroy | tools/uisp/src/Global.h:47-52 | The same for destruction: the object goes with its last holder. |
| RefCount.TPt.AssignPt | tools/uisp/src/Global.h:54-55 | The same for assignment from a pointer, also to itself and to another holder of the same object. |
| RefCount.TPt.AssignRec | tools/uisp/src/Global.h:56-57 | The same for assignment from an object. |
| RefCount.CountUpdate | tools/uisp/src/Global.h:54-57 | Redirecting one pointer lowers the count of its old target and raises that of the new one by one. |
| Energy.Accounting.handle_event | make/scripts/PowerTOSSIM/postprocess.py:472-502 | After every POWER line, each mote's totals are voltage times the integral of the current in force, for all six components. |
| Energy.Accounting.update_totals | make/scripts/PowerTOSSIM/postprocess.py:416-421 | Every mote seen is charged for the time since its last update. |
| Energy.Accounting.update_currents | make/scripts/PowerTOSSIM/postprocess.py:423-428 | Every mote seen gets the currents of its state. |
| Energy.RadioMeaning | make/scripts/PowerTOSSIM/postprocess.py:304-343 | The radio is on unless last turned off, sends if last told to, at the level last set since it was turned on. |
| Energy.CurrentMeaning | make/scripts/PowerTOSSIM/postprocess.py:185-246 | The currents of all six components follow from the last events that decide them: the LEDs last switched on are counted, the sensors last switched on are added up, and the board draws its own current if and only if there is one. |
| Energy.SensorSwitched | make/scripts/PowerTOSSIM/postprocess.py:188-197 | Switching a sensor changes the board's current by that sensor's own if and only if it changes the sensor. |
| Energy.OthersMeaning | make/scripts/PowerTOSSIM/postprocess.py:268-360 | CPU state, cycle count, converter and EEPROM are what the last event deciding them said. |
| Energy.JouleIs | make/scripts/PowerTOSSIM/postprocess.py:407-421 | A second of unit current at unit voltage is one unit of energy, and energy is proportional to time, current and voltage and inversely to the clock. |
| Energy.CycleEnergyIs | make/scripts/PowerTOSSIM/postprocess.py:523 | The summary's energy of active cycles is that of the active CPU for the cycles last reported. |
| Energy.InForceIff | make/scripts/PowerTOSSIM/postprocess.py:472-502 | A mote is charged once a recognised event has come and, up to it, an event of a mote whose number is no smaller. |
| Energy.ClockIs | make/scripts/PowerTOSSIM/postprocess.py:472-502 | Motes are charged up to the last recognised event. |
| Energy.InsertionNeutral | make/scripts/PowerTOSSIM/postprocess.py:416-428 | A recognised event of another mote, inserted at any place, leaves a mote's totals unchanged from the next recognised event on, if it does not put the mote in force. |
| Energy.InsertionStartsCharging | make/scripts/PowerTOSSIM/postprocess.py:481-482 | An event whose mote number is the first to cover a mote charges it from then on. |
| Energy.InsertionNeutralIff | make/scripts/PowerTOSSIM/postprocess.py:472-502 | So an insertion changes nothing if and only if it does not put the mote in force, or the mote draws no energy in the time added. |
| Printf.Uart.printf | tos/interfaces/SOdebug.h:121-289 | For every format made of pieces (plain characters, %% and the like, %c, %s, numbers with and without l) with their arguments, the call ends and sends the texts of the pieces in order; what stands behind the first NUL, and further arguments, do not matter. |
| Printf.HasMeaningIff | tos/interfaces/SOdebug.h:121-289 | The interpreter has a rendering of a format exactly if it is made of such pieces. |
| Printf.RenderIsTexts | tos/interfaces/SOdebug.h:121-289 | And that rendering is the texts of the pieces in order. |
| Printf.PiecesRendered | tos/interfaces/SOdebug.h:121-289 | In particular any list of pieces, spelled out, is a format with a meaning, and it is their texts. |
| Printf.CTextIs | tos/interfaces/SOdebug.h:156-161 | The text of a %s is its argument up to the first NUL. |
| Printf.EmittedAsIs | tos/interfaces/SOdebug.h:105-118 | A text without a newline is sent as it is. |
| Printf.NewlineEmitted | tos/interfaces/SOdebug.h:105-118 | For a newline in a text the newline of the version is sent, before the rest. |
| Printf.NumberIff | tos/interfaces/SOdebug.h:230-283 | A number is printed as its one numeral: a minus sign exactly for a negative %d or %i; digits of its base with the value of the argument; no leading zero for %d and %i, and otherwise exactly 5, 6 or 4 digits for u, o or x, or 10, 11 or 8 with l. |
| Printf.Uart.Directive | tos/platform/atm1281/SOdebug.h:129-267 | One directive (character, string, number, or the l prefix) sends its part of the rendering and leaves the rest to be sent. |
| Printf.Uart.EmitDigits | tos/interfaces/SOdebug.h:277-282 | The division loop prints the numeral of the value in its base, most significant digit first, in as many digits as the divisor asks for. |
| Printf.NumberEvaluates | tos/interfaces/SOdebug.h:230-283 | A printed number has a minus sign if and only if it is a negative %d or %i; its digits are below the base and evaluate to the argument; %d and %i have no leading zero. |
| Printf.FixedEvaluates | tos/interfaces/SOdebug.h:277-282 | The last w digits of a number below base^w evaluate to it. |
| Printf.DecimalIsFixed | tos/interfaces/SOdebug.h:271-282 | The numeral without leading zeros is the one of the least width that holds the number. |
| Printf.IndexInBounds | tos/interfaces/SOdebug.h:257-278 | For %u and %o of an int the first digit's index is below the base if and only if the argument is not negative. |
| Stk500.TStk500.WriteByte | tools/uisp/src/Stk500.C:394-413 | The buffer holds the last value written to each address and 0xFF elsewhere, and the range covers the addresses written. |
| Stk500.TStk500.FlushWriteBuffer | tools/uisp/src/Stk500.C:417-464 | Sends the blocks from the lowest to the highest address. |
| Stk500.SentExactlyOnce | tools/uisp/src/Stk500.C:440-462 | Every address from the lowest to below the highest is sent in exactly one block, with its buffered value. |
| Stk500.HighestSentIff | tools/uisp/src/Stk500.C:440 | The highest address is sent if and only if its distance from the lowest is no multiple of the block size. |
| Stk500.WrittenIsSent | tools/uisp/src/Stk500.C:394-464 | In a session, every address written is sent once with its last value, except the highest if it starts a block. |
| Stk500.AddressedRightIff | tools/uisp/src/Stk500.C:441-444 | A block arrives where it belongs if and only if the lowest address starts a word and the block starts within 65536 words. |
| Stk500.AllAddressedRightIff | tools/uisp/src/Stk500.C:440-446 | So all blocks do if and only if the lowest address starts a word and the last block starts within 65536 words. |
| Stk500.BlockWraps | tools/uisp/src/Stk500.C:237-446 | On the ATmega2561 the block for 0x20000 is sent to 0. |
| Stk500.TStk500.ReadByte | tools/uisp/src/Stk500.C:334-355 | A byte is the one the memory held when its page was last fetched, at its address modulo 65536 words; the page is fetched unless it was the last one. |
| Stk500.TStk500.ReadMemPage | tools/uisp/src/Stk500.C:783-815 | A page of 256 bytes is fetched from the word address sent, which is its own modulo 65536 words. |
| Stk500.ReadSession | tools/uisp/src/Stk500.C:334-355 | Over any sequence of reads of an unchanging memory every byte is the one at its address modulo 65536 words, its own if and only if the address is below that. |
| Stk500.ReadWraps | tools/uisp/src/Stk500.C:801-811 | On the ATmega2561 the byte read for 0x20000 is the one at 0. |
| SplitJoin.Split | tools/motelist/motelist.cpp:279-296 | The loop delivers the pieces between the separators. |
| SplitJoin.Join | tools/motelist/motelist.cpp:261-268 | The loop delivers the pieces with the separator between them. |
| SplitJoin.SplitJoin | tools/motelist/motelist.cpp:261-296 | Joining what was split gives the string back; no piece holds the separator; there is one piece more than there are separators. |
| SplitJoin.JoinSplit | tools/motelist/motelist.cpp:261-296 | Splitting what was joined gives a non-empty list of separator-free pieces back. |

## Left out

- PagedRuns.PagedRunIsRight: page-mode writes of a run are to distinct addresses within reach and ask for no flush; what a repeated write, a flushing write and an upload beyond reach do is stated by RepeatedWrite, FlushingWriteIsLate and AscendingUpload.
- AtmelRuns.FlashRunRefinesMemory: parts without page mode, since with it a read does not see what is pending; AT89 parts are not modelled.
- AvrAtmel.TAvrAtmel.ChipErase: the re-initialisation of the device behind the erase command (signature, part selection) is not part of this model.
- AvrAtmel.TAvrAtmel.ReadByte: the fuse segment, lock bits and locked devices are not part of this model.
- AvrDummy.TAvrDummy.WriteByte: flash only; EEPROM goes through the same polling loop with another instruction, fuses through tables of instructions.
- AvrDummy.TAvrDummy.WriteProgramMemoryPage: a part that is still busy while it is polled, and what it returns then, is not modelled.
- Images.Deliver: TAvrAtmel only; a file that names the fuse segment is treated like one that names an unknown segment.
- MotIntl.TMotIntl.UploadMotorola: a last line that is the single character S, without a newline, makes the code read what an earlier line left in the buffer; here it is a format error.
- MotIntl.TMotIntl.Read: opening the file, text mode and NUL characters in it; for an empty file the code looks at an unfilled buffer, here the format is unknown.
- MotIntl.TMotIntl.DownloadMotorola: segments of 2^31 bytes and more, for which the code reads outside its buffer; LengthsRightIff says that these are exactly the ones whose record lengths go wrong.
- PQueue.PQueue.constructor: sizes above 127, for which the 8-bit indices wrap, and comparisons that do not order the elements.
- Sched.Drive: running the task taken; it may post again, and any such posts are further events. Posts of NULL are covered by NullBlocks and NullFillsQueue only.
- RefCount.World: pointers inside counted objects, whose destruction lets go of further objects, and `operator==`.
- Energy.Accounting.handle_event: parsing of trace and energy model, keys missing from the model, the data files with their `total` column, motes beyond the configured number, and floating-point rounding.
- Printf.Uart.printf: formats that are not made of the pieces (a trailing percent sign, an l before anything but a conversion, arguments that do not suit), the UART set-up, a NULL format and the disabled `%t`.
- Stk500.TStk500.FlushWriteBuffer: the block size is a parameter, as the expression that computes it gives only 128 or 256; blocks that reach beyond the segment and replies that do not fit are not modelled.
- Stk500.TStk500.ReadByte: one segment, of whole pages; reads and writes are separate sessions, as the code never refreshes what it has read.
- SplitJoin.SplitJoin: one separator character; Split itself is modelled for any set of them. The join of registry values is not part of this model.
- The assembly form of the table CRC; serial, TCP, parallel-port and SSP transports; command line, terminal, progress output and statistics.
