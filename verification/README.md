# U-Boot's stateful command algorithms, modelled and proved in Dafny

The project models the byte-level algorithms inside U-Boot 1.2's commands and proves what they keep, over all inputs
and over whole runs. `dafny verify dfyconfig.toml` checks all of it. What prints, polls or drives chip registers is not
modelled.

| files | component |
|---|---|
| `NandEcc`, `NandEccTheorems` | the NAND error-correcting code: table, parities, interleave, correction |
| `NandPage`, `NandTransfer`, `NandRw`, `NandDevice` | pages with their out-of-band bytes, bad blocks, the transfer loop |
| `EnvMap`, `EnvTheorems`, `EnvStore` | the environment: ordered map, runs of commands, flat byte array |
| `Kermit`, `KermitPackets`, `KermitTransfer`, `KermitCheck`, `KermitReceiver` | the Kermit receiver: checkpoints, packet bytes, encoding, block check, state |
| `SRecord`, `SRecordKinds`, `SRecordConsole` | S-record upload, decoding and loading |
| `Basics`, `Words` | bytes, sums, overwritten sequences and 32-bit words, shared by the others |
| `MemoryTest` | the alternate memory test against faulty memory |
| `Assembler`, `AssemblerOperands` | operand fields, operand kinds, branch targets and opcode search of the PowerPC (dis)assembler |
| `FlashRange` | sector ranges of flash banks and their protection |
| `LogBuffer` | the log ring and the level tags of its lines |
| `CircularBuffer` | the queue of the latest bytes |
| `Eeprom` | EEPROM transfers cut at pages |

How it is built: what the source updates in place is a class or an array here, and each such method is proved equal to a
specification function (`Finish`, `Set`, `After`, `Load`, `Choose`, `Stream`, ...). The theorems are lemmas about those
functions, stated against an independent definition: column and line parity for the code, an ordered list of pairs for the
environment, "one payload per run of equal sequence numbers" for Kermit, wiring faults for the memory test.

## What was found

Each of these is a lemma with the exact condition.

- ECC: two flipped bits are always reported, except a data bit together with one of the two constant bits of the third
  code byte; there the block is still put right (`DoubleFlipDetected`).
- Environment: `serial#` and `ethaddr` are protected against every command exactly unless the name is written with an
  equals sign behind it (`serial#=x`): the search stops at the `=`, the protection compares the whole name
  (`WriteOnceStep`). A value that does not fit leaves the old pair deleted (`FailureChanges`) and the checksum as it
  was (`DoSetenv`).
- NAND: a skipping transfer without enough good blocks ahead runs past the end of the device until its 32-bit address
  turns round, and comes to pages before its start exactly if a good page lies there (`SkipComesBackExactly`); its loop
  ends exactly if some block is good (`SkipEndsExactly`). A write looks at up to 511 bytes too many of the caller's
  memory, and programs them, exactly if its length is not one of whole pages and its part in the last block is a page
  or longer (`MemoryByLength`).
- Kermit: an error in a packet's length or sequence character takes back the packet before it although that was
  acknowledged, exactly if that packet brought data (`EarlyErrorLosesPacket`). Nothing is lost in the end if the next
  packet has the number that was asked for again (`AfterEarlyError`).
- Flash: behind a bank that reaches the top of the address space the search goes on at address 0. Sectors outside the
  range can be chosen exactly if a later bank is mapped there (`WrapExactly`).
- Log: two calls log what one call with both strings would log, exactly unless a level tag is cut between them
  (`StreamJoin`).
- Circular buffer: over any run of pushes and pops first in is first out without loss exactly if every push finds room
  (`FirstInFirstOut`).
- EEPROM: a write page larger than 256 bytes is misjudged from its second 256 bytes on, and a write can cross its end
  exactly from those places there that are nearer to the end than the bus length of 128 bytes (`LargePagesCrossed`,
  `LargePageExample`). No board of this version sets such a page: `CFG_EEPROM_PAGE_WRITE_BITS` is at most 6.
- Assembler: the text of a register is put in small letters before it is looked up, and all names of the table
  (`include/bedbug/tables.h:483-582`) are in capitals: no register name is ever accepted, only numbers are
  (`CapitalsNeverFound`, `XerExample`). A name is read and prints back exactly if it is in small letters
  (`SprNameBack`).
- Assembler: a relative branch target prints back as itself exactly if it is word-aligned and within reach; the
  assembler accepts the others silently (`AddressBack`).

## Assumptions

- `char` is unsigned, `ulong` and `size_t` have 32 bits, the assembler's machine is big-endian (`htonl` does nothing).
- NAND: pages have 512 bytes; transfers start at a page; programming only clears bits; `erasesize` is a power of two,
  so `pos & -erasesize` is rounding down; nothing allocates `data_cache`, so there is no page cache. `NanD_WaitReady`
  always returns 0, so reading an out-of-band byte cannot fail. `worn` stands for the pages whose program operation
  reports failure.
- Kermit: reception returns only if the line holds a complete session, and memory is large enough for what arrives.
- S-records: loading ends, and no data record is shorter than its own address and checksum.

## Model

| member | source | states |
|---|---|---|
| NandEcc.PrecalcIsParity | u-boot-v1.2/common/cmd_nand.c:1488-1505 | every entry of the table is the column parities and the parity of its byte, for all 256 bytes and all 8 bits |
| NandEcc.LinePairs | u-boot-v1.2/common/cmd_nand.c:1551-1580 | the even line parity, which is never accumulated, is the odd one added to the parity of the block |
| NandEcc.Accumulate | u-boot-v1.2/common/cmd_nand.c:1560-1571 | one byte more: both registers hold the parities of the bytes so far |
| NandEcc.BuildParity | u-boot-v1.2/common/cmd_nand.c:1556-1571 | after all bytes the registers hold the column parities and the odd line parities of the block |
| NandEcc.TransResult | u-boot-v1.2/common/cmd_nand.c:1511-1546 | the two line-parity bytes interleave the two registers, and nothing else is written |
| NandEcc.CodeOfRegisters | u-boot-v1.2/common/cmd_nand.c:1573-1580 | inverted and interleaved, the registers are the Hamming code defined by line and column parities |
| NandEcc.CalculateEcc | u-boot-v1.2/common/cmd_nand.c:1551-1580 | the three bytes written are the Hamming code of the block |
| NandEcc.CountOnes | u-boot-v1.2/common/cmd_nand.c:1637-1652 | the shifting loop counts the bits that are set |
| NandEcc.Address | u-boot-v1.2/common/cmd_nand.c:1603-1619 | the gathering loops collect the odd bits of two code bytes into the byte address |
| NandEcc.CorrectData | u-boot-v1.2/common/cmd_nand.c:1585-1669 | status, block and read code after the call are the decision on the difference of the two codes; nothing outside them changes |
| NandEccTheorems.CodeOfToggle | u-boot-v1.2/common/cmd_nand.c:1551-1580 | flipping bit k of byte j changes one bit of each pair of code bits, chosen by the bits of j and k |
| NandEccTheorems.ChangeDecodes | u-boot-v1.2/common/cmd_nand.c:1594-1631 | such a change is recognised as a single error and decodes to byte j and bit k |
| NandEccTheorems.NoFlipNoChange | u-boot-v1.2/common/cmd_nand.c:1588-1596 | an undisturbed block reads with status 0 and unchanged |
| NandEccTheorems.SingleFlipRepaired | u-boot-v1.2/common/cmd_nand.c:1585-1669 | any one flipped data bit: status 1 and the block restored; any one flipped code bit: status 2, block untouched, code mended |
| NandEccTheorems.DoubleFlipDetected | u-boot-v1.2/common/cmd_nand.c:1585-1669 | any two distinct flips: status -1 and nothing touched, except a data bit with a constant code bit, which is still repaired |
| NandPage.ImageHalf | u-boot-v1.2/common/cmd_nand.c:988-1005 | a half that the data fills is written with its own code |
| NandPage.ImageMark | u-boot-v1.2/common/cmd_nand.c:994-1004 | the two nibbles of the valid mark written agree with the two tests made on reading |
| NandPage.CodedNibble | u-boot-v1.2/common/cmd_nand.c:866-887 | a half counts as written with a code exactly if not all bits of its nibble are set |
| NandPage.MarkSurvives | u-boot-v1.2/common/cmd_nand.c:866-887 | a flipped bit in the mark of a whole page does not keep its halves from being corrected |
| NandPage.ProgramErased | u-boot-v1.2/common/cmd_nand.c:1019-1021 | programming an erased page leaves the image in every byte that is used |
| NandPage.MarkKept | u-boot-v1.2/common/cmd_nand.c:972-1017 | writing a page never changes its bad-block mark |
| NandPage.PageRoundTrip | u-boot-v1.2/common/cmd_nand.c:855-919 | a written page, with at most one flipped bit in each half or its code, reads back as what was written, without failure |
| NandPage.HalfVerdict | u-boot-v1.2/common/cmd_nand.c:866-904 | a half written with its code and hit by up to two flips is reported exactly if they are a fatal pair; otherwise its data is as written |
| NandPage.PageVerdict | u-boot-v1.2/common/cmd_nand.c:866-904 | a whole page whose halves have each suffered up to two flips is reported exactly if one of them, whichever it is, has suffered a fatal pair |
| NandPage.LostHalfReported | u-boot-v1.2/common/cmd_nand.c:872-904 | a fatal pair in either half is reported whatever has become of the other half |
| NandDevice.NandChip.CorrectPage | u-boot-v1.2/common/cmd_nand.c:870-909 | both halves of the buffer are corrected where the mark says they carry a code, and failures are counted |
| NandDevice.NandChip.ReadEcc | u-boot-v1.2/common/cmd_nand.c:819-956 | the caller gets exactly the corrected data of the pages, reading goes on after a failure, and the status reports it; past the end nothing is read |
| NandDevice.NandChip.WritePage | u-boot-v1.2/common/cmd_nand.c:961-1089 | the page becomes itself with the padded, coded image programmed over it; all other pages stay |
| NandDevice.NandChip.WriteEcc | u-boot-v1.2/common/cmd_nand.c:1091-1163 | pages are programmed with consecutive chunks up to the first one whose operation fails; nothing is written past the end or to a protected device |
| NandDevice.NandChip.CheckBlock | u-boot-v1.2/common/cmd_nand.c:390-412 | true exactly for a block outside the device or with a byte other than 0xff at the place of the mark in its first or second page, as bytes of the pages |
| NandDevice.NandChip.MovePart | u-boot-v1.2/common/cmd_nand.c:483-491 | one part in a good block is read or written as a whole |
| NandDevice.NandChip.Rw | u-boot-v1.2/common/cmd_nand.c:432-503 | pages, memory and return value are those of the transfer block by block in its mode: a bad block ends it, is skipped, or reads as ones; the count is that of the bytes moved before a failure, and 0 means all were |
| NandTransfer.WriteChunksAt | u-boot-v1.2/common/cmd_nand.c:1123-1152 | each page gets its own chunk and no page outside the range changes |
| NandTransfer.WriteStops | u-boot-v1.2/common/cmd_nand.c:1140-1152 | the first page whose operation fails is the last one programmed |
| NandTransfer.ChunkAt | u-boot-v1.2/common/cmd_nand.c:1131-1137 | a write of a page or more puts whole pages of the caller's memory into its pages |
| NandTransfer.ReadReports | u-boot-v1.2/common/cmd_nand.c:844-955 | every read that covers a page with a fatal pair of flips in a half, in whichever place, reports failure |
| NandTransfer.BadBytes | u-boot-v1.2/common/cmd_nand.c:390-412 | a block is bad exactly if it is outside the device or one of its first two pages has a byte other than 0xff at the place of the mark |
| NandTransfer.MarkingMakesBad | u-boot-v1.2/common/cmd_nand.c:403-409 | marking either of the first two pages makes every place of the block bad; a mark in any other page changes no answer |
| NandTransfer.PlanAscends | u-boot-v1.2/common/cmd_nand.c:448-498 | the parts of a complete course make up its length, and they go upwards from the start exactly if there are enough good blocks ahead |
| NandTransfer.PlanInGoodBlocks | u-boot-v1.2/common/cmd_nand.c:454-481 | no part of a transfer touches a bad block, in any mode |
| NandTransfer.PlanKept | u-boot-v1.2/common/cmd_nand.c:448-498 | a transfer takes the same course as long as the marks are the same |
| NandTransfer.WritePartsFrame | u-boot-v1.2/common/cmd_nand.c:432-503 | writing changes no mark and no page outside its course |
| NandTransfer.PartsRoundTrip | u-boot-v1.2/common/cmd_nand.c:432-503 | reading along an ascending course returns what was written along it, whatever the code can bear has happened since |
| NandRw.PartsGoThrough | u-boot-v1.2/common/cmd_nand.c:1091-1163 | a write goes through exactly if no page of its course is worn out |
| NandRw.TransferReports | u-boot-v1.2/common/cmd_nand.c:483-491 | a transfer that reads, in any mode, returns -1 if a page on its course has a fatal pair of flips in a half |
| NandRw.MemoryExactly | u-boot-v1.2/common/cmd_nand.c:1131-1137 | a write looks at more of the caller's memory than its length exactly if its last part is longer than a page and does not end with one, and then at the rest of that page |
| NandRw.MemoryByLength | u-boot-v1.2/common/cmd_nand.c:1131-1137 | for a transfer that ends, in terms of its start and length: exactly if the length is not one of whole pages and the part in the last block is a page or longer, and then up to the end of that page |
| NandRw.MemoryWhole | u-boot-v1.2/common/cmd_nand.c:1131-1137 | a write of whole pages looks at no more of the caller's memory than its length |
| NandRw.FinishBad | u-boot-v1.2/common/cmd_nand.c:454-480 | at a bad block a transfer ends with 1, or ends as it would from the same place in the next block |
| NandRw.FinishFilled | u-boot-v1.2/common/cmd_nand.c:455-460 | a read that fills puts 0xff for the rest of a bad block and goes on behind it |
| NandRw.FinishRead | u-boot-v1.2/common/cmd_nand.c:483-498 | a part read either fails with its status or the transfer ends as it would from behind the part |
| NandRw.FinishWrite | u-boot-v1.2/common/cmd_nand.c:483-498 | the same for a part written: the blocks still to come are judged the same afterwards |
| NandRw.SkipRoundTrip | u-boot-v1.2/common/cmd_nand.c:432-503 | with enough good blocks from the start on (their number times their size, less the place in the first), erased and sound, a skipping write returns 0, and a skipping read from the same start returns 0 and the same bytes across bad blocks |
| NandRw.SkipEndsExactly | u-boot-v1.2/common/cmd_nand.c:448-474 | some number of rounds brings the loop of a skipping transfer to its end exactly if there is nothing to transfer or a good block on the device, and that is when its course counts as complete |
| NandRw.SkipComesBackExactly | u-boot-v1.2/common/cmd_nand.c:461-474 | a skipping transfer comes to pages before its start exactly if there are not enough good blocks ahead and a good page lies before the start |
| NandRw.SkipWriteStaysAhead | u-boot-v1.2/common/cmd_nand.c:467-474 | otherwise a skipping write changes no page before its start, whatever becomes of it |
| NandRw.WriteSparesBadBlocks | u-boot-v1.2/common/cmd_nand.c:432-503 | whatever becomes of a write in any mode: all marks stay, no page of a bad block is programmed, and every later transfer takes the course it would have taken before |
| EnvMap.EntryKey | u-boot-v1.2/common/cmd_nvedit.c:306-314 | the entry appended has the name's text up to its first '=' as name; a name without '=' gets exactly the joined values |
| EnvMap.NoPairOfNuls | u-boot-v1.2/common/cmd_nvedit.c:288-291 | inside the entries no terminator follows another, so the first pair is their end |
| EnvMap.RepresentsOne | u-boot-v1.2/common/cmd_nvedit.c:171-177 | the same bytes never represent two environments |
| EnvTheorems.SetUpdatesMap | u-boot-v1.2/common/cmd_nvedit.c:151-320 | a command that returns 0 removes the old pair, appends the new one with the values joined by single spaces, and keeps all others in order |
| EnvTheorems.SetReplaces | u-boot-v1.2/common/cmd_nvedit.c:251-317 | by place: the old pair goes, the pairs in front of it and behind it stay, the new pair stands behind them all |
| EnvTheorems.SetAdds | u-boot-v1.2/common/cmd_nvedit.c:279-317 | a name that is not there is added behind all pairs |
| EnvTheorems.JoinedBySpaces | u-boot-v1.2/common/cmd_nvedit.c:308-314 | values are joined in their order by single spaces |
| EnvTheorems.BytesOfEntries | u-boot-v1.2/common/cmd_nvedit.c:306-317 | the bytes are name, equals sign, value and null character, one entry behind the other |
| EnvTheorems.LookupAfterSet | u-boot-v1.2/common/cmd_nvedit.c:151-320 | afterwards a lookup finds the new value for its name, and the old answer for every other name, also when the command failed |
| EnvTheorems.OverflowExactly | u-boot-v1.2/common/cmd_nvedit.c:292-305 | overflow is reported exactly if the new environment does not fit; then the old pair is gone and the rest intact |
| EnvTheorems.FailureChanges | u-boot-v1.2/common/cmd_nvedit.c:251-305 | a failing command changes the environment exactly if the variable existed and was not protected |
| EnvTheorems.RefusedExactly | u-boot-v1.2/common/cmd_nvedit.c:182-249 | a command for a variable that is present is refused without a change exactly for `serial#` and `ethaddr` where overwriting is off, for a console that is to be deleted or cannot be assigned, and for an unsupported baud rate; one that is absent only for want of space |
| EnvTheorems.RunKeeps | u-boot-v1.2/common/cmd_nvedit.c:151-320 | over every run of commands names stay unique, entries valid, and the bytes within the store |
| EnvTheorems.WriteOnceStep | u-boot-v1.2/common/cmd_nvedit.c:182-198 | `serial#` or `ethaddr` survives every command with a name exactly if the name is not its own followed by '=' |
| EnvTheorems.KeptExactly | u-boot-v1.2/common/cmd_nvedit.c:182-198 | without overwriting, a variable survives every command spelled like it exactly if it is `serial#` or `ethaddr` |
| EnvTheorems.WriteOnceOverRuns | u-boot-v1.2/common/cmd_nvedit.c:182-198 | over every run without such names it keeps its value, whatever else is deleted, shifted or overflows |
| EnvStore.Store.constructor | u-boot-v1.2/common/env_common.c:230-252 | zeros, the defaults and their terminators represent the default environment, with its checksum |
| EnvStore.Store.Envmatch | u-boot-v1.2/common/cmd_nvedit.c:550-560 | the place of the value if the names match up to the first '=', else -1 |
| EnvStore.Store.Find | u-boot-v1.2/common/cmd_nvedit.c:168-177 | finds the first entry with the name, where it starts and ends |
| EnvStore.Store.Getenv | u-boot-v1.2/common/cmd_nvedit.c:479-499 | returns the place of the looked-up value, a terminated string in the store, and none exactly if the map has none |
| EnvStore.Store.MoveDown | u-boot-v1.2/common/cmd_nvedit.c:257-264 | the shifting loop moves the rest of the environment down in place and stops at its end |
| EnvStore.Store.Delete | u-boot-v1.2/common/cmd_nvedit.c:251-266 | deleting first, middle, last or only entry leaves the bytes of the others in order, properly ended |
| EnvStore.Store.EndOfData | u-boot-v1.2/common/cmd_nvedit.c:288-291 | the scan for two terminators finds the end of the entries, also in an empty store |
| EnvStore.Store.SizeNeeded | u-boot-v1.2/common/cmd_nvedit.c:297-301 | the size tested is that of the new entry with both terminators |
| EnvStore.Store.Append | u-boot-v1.2/common/cmd_nvedit.c:306-317 | appends the entry in place, inside the store |
| EnvStore.Store.DoSetenv | u-boot-v1.2/common/cmd_nvedit.c:151-320 | the bytes represent the map's result, the return value is the map's, and the checksum is that of the data whenever 0 is returned |
| EnvStore.Store.Setenv | u-boot-v1.2/common/cmd_nvedit.c:379-383 | the same for one value or a null value |
| Kermit.CharacterBits | u-boot-v1.2/common/cmd_load.c:558-566 | the arithmetic on characters is the masking the program does, for all bytes |
| Kermit.ReceiverContent | u-boot-v1.2/common/cmd_load.c:789-965 | checkpoint and rollback compute, for every sequence of packets and errors, one payload per run of equal numbers: that of its last packet if good, else none |
| Kermit.RepeatsAndRetries | u-boot-v1.2/common/cmd_load.c:869-886 | repeated packets add nothing, damaged attempts take nothing away |
| Kermit.EarlyErrorLosesPacket | u-boot-v1.2/common/cmd_load.c:854-863 | an error before the sequence number takes back the packet before it, without loss exactly if that brought no data |
| Kermit.AfterEarlyError | u-boot-v1.2/common/cmd_load.c:854-886 | once the next packet has arrived, such an error costs exactly what an empty packet before it would: nothing if the next number is the same, all its data if the next packet has another number and no data |
| KermitPackets.PacketParses | u-boot-v1.2/common/cmd_load.c:852-943 | a packet of either length format with correct checks reads as what it was built from (section 6 of the Kermit Protocol Manual) |
| KermitTransfer.FeedEncoded | u-boot-v1.2/common/cmd_load.c:679-695 | decoding undoes control quoting, for every file and every legal quote |
| KermitTransfer.LineParses | u-boot-v1.2/common/cmd_load.c:840-943 | from a line of packets with anything else between them the receiver sees exactly the packets |
| KermitTransfer.FileArrives | u-boot-v1.2/common/cmd_load.c:789-965 | a file cut into packets anywhere, even between a quote and its character, arrives as it was |
| KermitTransfer.SurvivorsContent | u-boot-v1.2/common/cmd_load.c:789-965 | the content of any session is the decoding of what is left when only the last packet of each run is kept, if it is good |
| KermitTransfer.FileArrivesDespiteErrors | u-boot-v1.2/common/cmd_load.c:789-965 | a file arrives whatever is repeated, damaged or lost on the way, if what is left of each packet's attempts carries it |
| KermitTransfer.AnswersParse | u-boot-v1.2/common/cmd_load.c:586-611 | every answer is itself a good packet if the sender wants a carriage return |
| KermitCheck.CheckBits | u-boot-v1.2/common/cmd_load.c:569-577 | the block check is what the program's shifts and masks make of every 32-bit sum |
| KermitCheck.CheckNoticesUpperBits | u-boot-v1.2/common/cmd_load.c:569-577 | a sum that is off by the two upper bits of a byte has another check |
| KermitCheck.HeaderBytes | u-boot-v1.2/common/cmd_load.c:852-914 | the characters in front of the data of both formats, as numbers (section 6 of the Kermit Protocol Manual) |
| KermitCheck.BreakPacketExample | u-boot-v1.2/common/cmd_load.c:888-961 | the packet that ends a transmission, byte by byte |
| KermitCheck.DamagedPacket | u-boot-v1.2/common/cmd_load.c:936-950 | a wrong check character, or an end of line other than a carriage return, makes a packet damaged after its number |
| KermitCheck.UnreadableHeader | u-boot-v1.2/common/cmd_load.c:852-893 | a control character as length or number leaves the packet without a number, as type it is an error behind the number |
| KermitCheck.WishesTaken | u-boot-v1.2/common/cmd_load.c:705-752 | padding, padding character, end of line and quote are taken from the parameters as a sender writes them, and the defaults for those not given |
| KermitCheck.OfferBytes | u-boot-v1.2/common/cmd_load.c:715-773 | the parameters offered in answer, as many as were given |
| KermitCheck.AnswerNumbers | u-boot-v1.2/common/cmd_load.c:861-958 | an answer carries the number of the packet it answers, or before that was read the number of the packet before |
| KermitCheck.AnswerExamples | u-boot-v1.2/common/cmd_load.c:586-611 | the answers to a good packet, a damaged one and an unreadable one, byte by byte |
| KermitCheck.LineInterrupted | u-boot-v1.2/common/cmd_load.c:838-850 | an interrupt between packets ends reception without a result |
| KermitReceiver.Receiver.SendBuilt | u-boot-v1.2/common/cmd_load.c:587-598 | a framed answer is built inside its 24 bytes and sent with padding |
| KermitReceiver.Receiver.HandleSendPacket | u-boot-v1.2/common/cmd_load.c:702-786 | the sender's wishes are taken from the parameters, as far as given, and answered one for one, inside both buffers |
| KermitReceiver.Receiver.KeepParm | u-boot-v1.2/common/cmd_load.c:929-935 | the parameter buffer keeps the first parameters and never overflows |
| KermitReceiver.Receiver.KDataChar | u-boot-v1.2/common/cmd_load.c:679-695 | one character of decoding, written to memory above the checkpoint only |
| KermitReceiver.Receiver.GetData | u-boot-v1.2/common/cmd_load.c:918-946 | data, check and end of line are consumed as a packet; the bytes below the checkpoint never change |
| KermitReceiver.Receiver.GetKind | u-boot-v1.2/common/cmd_load.c:888-946 | type and extended length are read and checked |
| KermitReceiver.Receiver.GetPacket | u-boot-v1.2/common/cmd_load.c:850-946 | a new number moves the checkpoint, a repeated one goes back to it |
| KermitReceiver.Receiver.KPacket | u-boot-v1.2/common/cmd_load.c:850-963 | one packet takes the receiver where the abstract machine goes and sends its answer |
| KermitReceiver.Receiver.KRecv | u-boot-v1.2/common/cmd_load.c:789-965 | memory holds the content of the session, the result is its length or 0 if interrupted, and the answers are those of its events |
| SRecord.RecordFits | u-boot-v1.2/common/cmd_load.c:325-334 | every record fits its 48 bytes, and its bytes add up to 0xff |
| SRecord.RecordBack | u-boot-v1.2/common/s_record.c:30-170 | what was written as a record decodes to its address and data |
| SRecord.WrittenAt | u-boot-v1.2/common/cmd_load.c:175-177 | memory holds the data where it was put and is unchanged elsewhere |
| SRecord.OutputLoads | u-boot-v1.2/common/cmd_load.c:139-211 | loading what was saved, at any offset, puts exactly those bytes at their addresses plus the offset and returns 0 |
| SRecord.ReadNext | u-boot-v1.2/common/cmd_load.c:222-249 | a carriage return or newline ends a line, a null character or an interrupt aborts, and a full buffer cuts the line off |
| SRecordKinds.LongLine | u-boot-v1.2/common/cmd_load.c:214-250 | a line that is too long is cut off behind 516 characters |
| SRecordKinds.SavedRecordExample | u-boot-v1.2/common/cmd_load.c:325-327 | a record of one byte, character by character |
| SRecordKinds.OutputLoadsAt | u-boot-v1.2/common/cmd_load.c:139-211 | at any offset, every 32-bit address holds the byte saved for it, or what it held before |
| SRecordKinds.BuiltDecodes | u-boot-v1.2/common/s_record.c:30-170 | a record of any type decodes to its address and data if its bytes add up to 0xff, and is refused for its checksum otherwise |
| SRecordKinds.LineLoads | u-boot-v1.2/common/cmd_load.c:155-205 | data of each kind goes to its address plus the offset in 32 bits; the address of the end record of each kind is the result; start and count records do nothing; a wrong checksum or an unknown type ends loading with all ones |
| SRecordConsole.Console.ReadRecord | u-boot-v1.2/common/cmd_load.c:214-250 | reads one line, cut off when the buffer is full, or reports an abort |
| SRecordConsole.Console.DumpRecord | u-boot-v1.2/common/cmd_load.c:353-372 | formats length, address, data and checksum in the buffer and sends the record |
| SRecordConsole.Console.SaveSerial | u-boot-v1.2/common/cmd_load.c:329-400 | any piece of memory is sent as a start line, its records of sixteen bytes and an end line; an interrupt ends this with -1 exactly behind the record after which it is seen |
| SRecordConsole.Console.SrecDecode | u-boot-v1.2/common/s_record.c:30-170 | decodes every kind of record, with the error of the first thing that is wrong |
| SRecordConsole.Console.LoadSerial | u-boot-v1.2/common/cmd_load.c:139-211 | memory and result are those of the records up to the first end, error or abort |
| MemoryTest.PassedFine | u-boot-v1.2/common/cmd_mem.c:785-810 | if the pass finds nothing, no cell of the region has a stuck bit |
| MemoryTest.PassedApart | u-boot-v1.2/common/cmd_mem.c:778-793 | if the pass finds nothing, no two offsets share a cell |
| MemoryTest.PassesExactlySound | u-boot-v1.2/common/cmd_mem.c:772-810 | for every region below 2^32 words the pass finds nothing exactly if all cells are distinct and without stuck bits |
| MemoryTest.PassedEndsZero | u-boot-v1.2/common/cmd_mem.c:800-810 | the region ends all zero and cells outside it are untouched |
| MemoryTest.Memory.IntegrityPass | u-boot-v1.2/common/cmd_mem.c:772-810 | the three loops return 0 exactly on a sound region, and leave it zero |
| MemoryTest.LineBit | u-boot-v1.2/common/cmd_mem.c:721-723 | the loops stop behind the lowest run of set bits of the mask |
| MemoryTest.Memory.AddressLinePass | u-boot-v1.2/common/cmd_mem.c:710-756 | on any memory, 0 is returned exactly if every address line reads the pattern while another tested offset is under test, its cell having been written with the other pattern if it is shared and with the pattern if not |
| MemoryTest.SilentIsDistinct | u-boot-v1.2/common/cmd_mem.c:721-756 | where the tested cells can hold both patterns, that is so exactly if offset 0 and the offset of every tested line have cells of their own |
| MemoryTest.HealthySilent | u-boot-v1.2/common/cmd_mem.c:710-756 | on a healthy region the address-line pass reports nothing |
| Assembler.FieldPut | u-boot-v1.2/common/bedbug.c:828-919 | a clear field holds the lowest bits of what is put into it |
| Assembler.OperandsRecovered | u-boot-v1.2/common/bedbug.c:797-838 | with separate fields, clear in the opcode, every operand's lowest bits are found in the assembled word |
| Assembler.AssembledMatches | u-boot-v1.2/common/bedbug.c:797-838 | an assembled word matches its opcode under its mask |
| Assembler.AddressBack | u-boot-v1.2/common/bedbug.c:865-880 | a relative target prints back as the same address modulo 2^32 exactly if it is aligned and in range |
| AssemblerOperands.BranchBack | u-boot-v1.2/common/bedbug.c:865-880 | every branch over a whole number of words within reach, forwards or backwards, prints back as its target |
| AssemblerOperands.FieldIsDistance | u-boot-v1.2/common/bedbug.c:865-880 | the field of a relative target is the distance in words in two's complement |
| AssemblerOperands.AbsoluteBack | u-boot-v1.2/common/bedbug.c:865-880 | an absolute target prints back as itself exactly if it is word-aligned and near enough to address 0 |
| AssemblerOperands.RegisterOperand | u-boot-v1.2/common/bedbug.c:882-897 | a general register is a number up to 31, with or without its letter |
| AssemblerOperands.TimeBaseOperand | u-boot-v1.2/common/bedbug.c:608-645 | the time base registers are 268 and 269, by name or number, and nothing else is accepted |
| AssemblerOperands.LineError | u-boot-v1.2/common/bedbug.c:797-830 | the error of a line is that of the first word that is not accepted, or that there are too few; there is none exactly if each written operand has a word that is accepted |
| AssemblerOperands.AssembleEnds | u-boot-v1.2/common/bedbug.c:797-830 | assembling succeeds exactly if the line has no error, and ends with its error otherwise; words left over are ignored |
| Assembler.SprAccepted | u-boot-v1.2/common/bedbug.c:530-563 | a register operand is accepted exactly if it is a number that is not 0 in its ten bits, or the table has its text in small letters as a name |
| Assembler.CapitalsNeverFound | u-boot-v1.2/include/bedbug/tables.h:483-582 | in a table whose names all have a capital, as the program's, no name is ever found: every text that is no number is answered with the error for registers |
| Assembler.SprNameBack | u-boot-v1.2/common/bedbug.c:492-563 | a register name is read and prints back as itself exactly if the table has its text in small letters with the same number and no earlier entry has that number; where no number occurs twice, exactly if it is in small letters |
| Assembler.XerExample | u-boot-v1.2/include/bedbug/tables.h:484 | the first entry is printed as XER, but accepted neither in capitals nor in small letters |
| Assembler.FindOpcode | u-boot-v1.2/common/bedbug.c:419-442 | the binary search returns a matching entry, and entry t for every instruction that matches it if the table is in order around t |
| Assembler.GetOperandValue | u-boot-v1.2/common/bedbug.c:375-401 | returns the first operand with the number, and its field |
| Assembler.AsmPpc | u-boot-v1.2/common/bedbug.c:755-838 | the loop assembles the operands of the first opcode with the name, with the error of the first bad one; a blank line gives 0 without an error |
| FlashRange.ChoiceCovers | u-boot-v1.2/common/cmd_flash.c:107-184 | a successful choice covers exactly the addresses from the first one up to where the search stops, never past the last, and counts its sectors, unless a bank at address 0 comes behind one that reaches the top of memory |
| FlashRange.WholeExactly | u-boot-v1.2/common/cmd_flash.c:107-184 | with banks one behind the other in the order of the table, the search fails exactly if the range does just one of the two: begin with a sector and be flash all through, or end with a sector; it covers all of the range exactly if it does both |
| FlashRange.WrapExactly | u-boot-v1.2/common/cmd_flash.c:107-184 | with disjoint banks no range ever chooses an address outside itself, exactly if no bank at address 0 comes behind one that reaches the top of memory |
| FlashRange.ScanBank | u-boot-v1.2/common/cmd_flash.c:138-153 | the loop finds the sector that starts at the first address and the one that ends at the last |
| FlashRange.FillSectRanges | u-boot-v1.2/common/cmd_flash.c:107-184 | return value, count and marks of every bank are those of the choice |
| FlashRange.FlashSectProtect | u-boot-v1.2/common/cmd_flash.c:454-501 | exactly the chosen sectors change their protection, none if the choice fails or is empty |
| FlashRange.InRangeIsChosen | u-boot-v1.2/common/cmd_flash.c:471-484 | the sectors whose protection changes are those that hold the chosen addresses |
| LogBuffer.StreamJoin | u-boot-v1.2/common/cmd_log.c:216-264 | line state is carried over: two calls log what one would, exactly unless a tag is cut between them |
| LogBuffer.LineTagged | u-boot-v1.2/common/cmd_log.c:228-244 | a line with a digit from 0 to 7 in angle brackets at its start is logged as it is, any other gets `<4>` in front, the rest of a line is logged as it is |
| LogBuffer.LinesApart | u-boot-v1.2/common/cmd_log.c:245-258 | what follows a newline starts a line |
| LogBuffer.StreamAgain | u-boot-v1.2/common/cmd_log.c:228-244 | every line logged has a tag, so logging the log changes nothing |
| LogBuffer.Log.PutLog | u-boot-v1.2/common/cmd_log.c:245-251 | the ring holds the last characters logged, as many as fit, and the count is kept modulo the word |
| LogBuffer.Log.StartLine | u-boot-v1.2/common/cmd_log.c:228-242 | a line without a tag gets the default one, written over bytes already logged |
| LogBuffer.Log.LogbuffPrintk | u-boot-v1.2/common/cmd_log.c:216-264 | a call logs its string with the default tag at exactly the line starts that lack one |
| CircularBuffer.LastJoin | u-boot-v1.2/common/circbuf.c:81-110 | in how many pieces bytes are pushed makes no difference to what is kept |
| CircularBuffer.PushesKeepLatest | u-boot-v1.2/common/circbuf.c:81-110 | over every run of pushes, however much they overflow, the latest bytes are left in order |
| CircularBuffer.FirstInFirstOut | u-boot-v1.2/common/circbuf.c:54-110 | over every run, what was popped and what is left are what was there and what was pushed, in order, exactly if every push finds room |
| CircularBuffer.Ring.BufInit | u-boot-v1.2/common/circbuf.c:27-41 | the new buffer is empty |
| CircularBuffer.Ring.BufPop | u-boot-v1.2/common/circbuf.c:54-79 | the oldest bytes, as many as there are and are asked for, go to the caller in order and leave the queue |
| CircularBuffer.Ring.BufPush | u-boot-v1.2/common/circbuf.c:81-110 | the queue becomes the last bytes, as many as fit, of itself and those pushed, however the ring turns round |
| Eeprom.WritesStayInPage | u-boot-v1.2/common/cmd_eeprom.c:193-230 | writes are not empty, not longer than the bus allows and never cross a page that divides 256 bytes |
| Eeprom.LargePagesCrossed | u-boot-v1.2/common/cmd_eeprom.c:194-226 | with larger pages and any bus length, no write from an offset crosses its page exactly if the offset lies in the first 256 bytes of the page or a bus length or more before its end |
| Eeprom.LargePageExample | u-boot-v1.2/include/i2c.h:47 | with the bus length of 128 bytes and pages of 512, exactly the last 127 places of a page are unsafe, and a write from place 400 does cross |
| Eeprom.Device.EepromWrite | u-boot-v1.2/common/cmd_eeprom.c:174-328 | any range is written as a whole and nothing else changes, although the device's counter turns round in its page |
| Eeprom.Device.EepromRead | u-boot-v1.2/common/cmd_eeprom.c:114-163 | any range is read as a whole |

## Left out

- NAND chip identification, erasing, 256-byte pages, unaligned transfers, partial-page read-back, write verification and `jffs2` argument parsing: not part of this model.
- NAND page cache: nothing allocates it, so both tests of `cache_page` are dead.
- NandDevice.NandChip.ReadEcc: starts at a page; a start inside one, where the source leaves a gap of the column's length in the buffer, is not modelled.
- NandDevice.NandChip.WriteEcc: starts at a page.
- NandDevice.NandChip.WritePage: writes from the start of the page and without `CONFIG_MTD_NAND_VERIFY_WRITE`.
- NandDevice.NandChip.Rw: starts at a page, and excludes a skipping transfer on a device without any good block, which never returns (`SkipEndsExactly`).
- `getenv_r`, printing, prompting and saving the environment.
- EnvStore.Store.DoSetenv: console assignment and the choice of a baud rate are answers given from outside; `bd` and network settings are not kept; `CONFIG_OVERWRITE_ETHADDR_ONCE` is off.
- The checksum itself is an uninterpreted function.
- KermitReceiver.Receiver.KRecv: `os_data_state`, `os_data_count` and the saved packet type have no effect and are dropped; reception that waits for ever is not modelled.
- SRecordConsole.Console.LoadSerial: writes to memory only, not to flash; does not set `filesize` or print; does not say what a data record with a negative length copies.
- Assembler.AsmPpc: takes the words of a line; splitting it, and reading and printing numbers, are left to the outside, and the results hold for every opcode and register table that meets their hypotheses.
- FlashRange: erasing the chosen sectors is a call into a flash driver.
- FlashRange.FlashSectProtect: the protection flags in memory; with `CFG_FLASH_PROTECTION` the source asks the flash driver instead.
- LogBuffer.Log.LogbuffPrintk: does not model what is printed on the console.
- CircularBuffer.Ring.BufPush: a push of something into a buffer of capacity 0, which writes outside it, is excluded; `buf_free` is not modelled.
- Eeprom.Device.EepromWrite: every transfer on the bus is acknowledged, so the return value is always 0.
- Eeprom.Device.EepromRead: the same.
- SRecordConsole.Console.ReadRecord: the interrupt test made after each character when the console is not the serial line is not modelled.
- The data-line part of the memory test and the EEPROM's control register.
- Register-level drivers, command parsing, booting and all console output.
