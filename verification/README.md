# The state-carrying core of the factory-test daemon

A Dafny model of the parts of the daemon that keep state or transform bytes, with the file,
device and ioctl calls cut away, and proofs of what those parts promise. `dafny verify
dfyconfig.toml` checks everything.

## What is modelled

**AT channel** (`AtChannel`, `AtCommand`, specified by `LineSplit`). `readline` keeps a 512-byte
buffer and a cursor across calls; `AtReader` keeps the same array and cursor and performs the same
steps: skipping line ends, compacting a partial line, ditching a full buffer, reading, putting a NUL
over the line end. `LineSplit.Split` is an independent definition of the lines of a text, one
character at a time. Each call is proved to return the next line of everything pending or delivered, or
to return nothing and lose nothing, and to return nothing only when the stream is at its end or a read
failed. Sessions of calls are then proved to return exactly the lines of the stream, however `read()`
cuts it up and whichever reads fail; `ReadLines`, which has no counterpart in the source, is the loop
that makes such a session. `AtCommand` is the command loop of `sendATCmd` on top of it.

**AT tokenizer** (`AtTok`). The C string is an array that `strsep` cuts in place. `Next` says what one
token is. Tokens already handed out are proved to keep their text through all later calls, and lists
of bare and quoted fields and of printed integers are proved to come back.

**Diag link** (`Crc16Table`, `Crc16`, `CrcErrors`, `CrcTwoBits`, `Framing`, `PhaseCheck`, `TraceDump`). The table
loop is proved to be division by the polynomial 0x8005 that the header documents, bit order reversed.
From that follow which corruptions the CRC notices, and so which damaged phase-check requests are
rejected without touching the store. The byte-stuffed framing has an independent decoder (the
transparency rule is that of section 4.2 of RFC 1662). The trace dump is a state machine over calls.

**Crystal calibration** (`Dcxo`). The registers of the PMIC as 16-bit values, the comparator as a
predicate on the low byte of CTRL5. The two-phase search is modelled register write by register write
and summarised as a function of the comparator; the mode switch is a state machine over commands.

**Misc partition** (`MiscStore`, `ProductCtrl`) and **address store** (`MacText`, `MacFiles`, `BtWifi`).
A byte store behind seek-and-transfer or behind a rewritten NAND image, the commands on it, and the
Bluetooth and WiFi address files with the diag command that writes and reads them.

Each object of the source whose fields change is a class, and each loop is a loop. Every handler is
proved equal to a function from the old state and the request to the new state and the reply (`Step`,
`Serve`, `AfterMode`, ...); the lemmas about whole runs are about those functions.
The modules `AtLaws`, `DiagLaws`, `DcxoLaws`, `StoreLaws` and `MacLaws` pin those functions down from
outside: each law says in literal characters, bytes, bits and numbers what goes in and what comes out,
without the definitions it is about.
`Framing.Sent` says that exactly one frame was put at the front of the reply buffer and the rest of the
buffer is as before, or that the buffer was not touched.

## What the proofs found

- `hp_amp_cali` does not find the greatest accepted code for every comparator with a threshold. It
  does exactly when the threshold is at most 31, or lies between 64 and 254 and is not the last code
  of a bucket of 32 (`Dcxo.FindsGreatest`). For thresholds 32 to 62 and for 255 it ends with code 31;
  for 63, 95, ..., 223, and when nothing is accepted, it never ends. The back-off goes one bucket up
  whenever the sweep stopped above the lowest bucket, including from the topmost one. For comparators
  without a threshold `Dcxo.SearchOutcome` says what is found, and when the search never ends.
- `lp_amp_cali` backs off to bucket one wherever its sweep stopped. For a comparator with a threshold it
  always ends, but with no code above 31 (`Dcxo.LpFindsAtMost31`).
- The values saved on leaving low-power mode are never used (`Dcxo.LpValuesUnused`), and entering low
  power leaves CTRL5 alone. So a low-power code is back on the next entry exactly when high power ends
  with it in CTRL5 (`Dcxo.LowPowerCodeReturns`); without a calibration in between, what is there instead
  is the code saved when high power was left before (`Dcxo.LowPowerCodeReplaced`).
- `sendATCmd` returns what `select` returned when the modem falls silent. The value returned is the
  length stored exactly when the first deciding line (OK, ERROR or one line too many) is an OK, or when
  no line decides and `select` returned just that number (`AtCommand.ReturnsStoredLength`).
- A caller who loops while `at_tok_hasmore` says so loses the last field of a list when it is empty and
  stands without quotes, and only then (`AtTok.LoopReturnsFields`).
- The end of a trace dump, a read error and a short read all look the same to the host: status 0
  (`TraceDump.StatusZeroIsNotEnough` gives the exact condition for having the whole file).
- A phase-check request damaged in two bits is accepted exactly when the bits lie a multiple of 32767
  apart, which takes more than 4096 bytes (`PhaseCheck.TwoBitDamage`).
- Replies framed without stuffing are told apart by their length fields, not by the flags: read that way,
  a stream gives back exactly the replies it was made from if every one of them counts itself
  (`Framing.SplitExactlyCounted`). All replies of the phase check and of the address command do. A reply
  of `eng_diag_product_ctrl_ex` does exactly when it is not a successful read of 65520 bytes or more,
  whose length does not fit the 16-bit field (`ProductCtrl.ReplyIsCounted`); such a reply can look
  like two others (`ProductCtrl.WrappedReadLooksLikeTwo`).
- On NAND a short read of the image still reports success; it erases what lies behind it unless that
  was zero or is being overwritten (`MiscStore.ShortImageReadErases`).
- A write of one address keeps the other exactly when the stored one is plain text of at most 31
  characters and at least as long as the generated fallback (`MacFiles.BtWriteKeepsWifi`). A positive
  return value says nothing about the WiFi file (`MacFiles.ReportedSuccess`).
- A request with address bits and other bits is passed on to the modem with exactly its other bits
  only if it is a write whose WiFi address was not refused; a read arrives with subtype 1, which is a
  different command (`BtWifi.ForwardsTheRest`).

## Assumptions

- 32-bit little-endian ABI. `MSG_HEAD_T` is not part of the sources; it is taken as 8 bytes, a 4-byte
  sequence number, a 16-bit length, type and subtype (compare `modules/libmiscdata/bt_wifi_mac.h:13`).
- `readline` writes a NUL at index 512 of its 512-byte buffer when a read fills it
  (`factorytest_radio.c:151`); the model's buffer has that extra cell.
- The full promise of `ReadLine` needs a stream in which every run of line ends with the line after it
  is shorter than 512 characters (`LineSplit.Fits`), without NULs and without an SMS prompt where a
  line starts (`LineSplit.Safe`). Without `Fits` only the integrity of the buffer is promised.
- `direct_phschk` relies on a length field of at least 10 that the receive buffer covers and on a
  reply room of at least an SP15 record and its framing; `eng_diag_product_ctrl_ex` on a length that
  is not negative and does not overflow the sum it is compared in.
- The registers are 16 bits wide: no field of them in `modules/libdcxcali/sc2730_glb.h` goes beyond bit
  15, and of a wider value written the upper half is lost.
- `select` is interrupted only finitely often (`AtCommand.AwaitModem`); the source would go on waiting.
- The comparator answers from the low byte of CTRL5 alone, not from the level in CTRL4.
- What the operating system does (short transfers, failures, the contents of fresh memory) is a
  parameter of each call and arbitrary.

## Model

| member | source | states |
|---|---|---|
| Crc16Table.TableEntry | modules/libmiscdata/crc16.c:7-37 | every one of the 256 entries is eight bit steps with polynomial 0xA001 applied to its index |
| Crc16.Crc16 | modules/libmiscdata/crc16.c:48-54 | the table loop computes the bit-serial CRC of the buffer from any starting value |
| Crc16.TableStep | modules/libmiscdata/crc16.c:51 | one table access is eight bit steps |
| Crc16.CrcChains | modules/libmiscdata/crc16.c:39-54 | the CRC of a buffer split in two is the CRC of the second part started from that of the first |
| Crc16.CrcIsDivision | modules/libmiscdata/crc16.c:7-54 | the CRC, bits reversed, is the remainder register of dividing the message, low bit of each byte first, by 0x8005 |
| Crc16.ResidueIsZero | modules/libmiscdata/phasecheck.c:34-39 | the CRC over data and a little-endian trailer is zero exactly when the trailer is the CRC of the data |
| DiagLaws.CheckValue | modules/libmiscdata/crc16.c:39-54 | the CRC of the digits 1 to 9 is 0xBB3D |
| CrcErrors.CrcDifference | modules/libmiscdata/crc16.c:48-54 | two buffers of one length have the same CRC exactly when the polynomial divides the pattern of differing bits |
| CrcErrors.BurstChangesCrc | modules/libmiscdata/crc16.c:48-54 | a difference confined to 16 consecutive bits always changes the CRC |
| CrcErrors.OddErrorChangesCrc | modules/libmiscdata/crc16.c:48-54 | a difference in an odd number of bits always changes the CRC |
| CrcErrors.AdjacentBytesAreABurst | modules/libmiscdata/crc16.c:48-54 | a difference inside two adjacent bytes is such a burst |
| CrcTwoBits.OrderOfX | modules/libmiscdata/crc16.c:7-8 | x to the n is 1 modulo the polynomial exactly when n is a multiple of 32767 |
| CrcTwoBits.TwoBitErrorUnnoticed | modules/libmiscdata/crc16.c:48-54 | a difference in exactly two bits leaves the CRC the same if and only if the bits lie a multiple of 32767 apart |
| DiagLaws.BitOrder | modules/libmiscdata/crc16.c:51 | bit 8 * i + m of a message is bit m of its byte i |
| DiagLaws.BurstNoticed | modules/libmiscdata/crc16.c:48-54 | two different messages that agree outside 16 consecutive bits have different CRCs |
| DiagLaws.OddNoticed | modules/libmiscdata/crc16.c:48-54 | so have two messages that differ in an odd number of bits |
| DiagLaws.TwoBitsNoticed | modules/libmiscdata/crc16.c:48-54 | messages that differ in exactly the bits i and j have one CRC if and only if j - i is a multiple of 32767 |
| Framing.TranslatePacketEncode | modules/libmiscdata/translate_packet.c:7-25 | puts the byte-stuffed frame of the payload at the front of the buffer, changes nothing behind it, returns its length |
| Framing.TranslatePacket | modules/libmiscdata/translate_packet.c:27-35 | the same for the frame without stuffing |
| Framing.SplitExactlyFrames | modules/libmiscdata/translate_packet.c:7-25 | the decoder accepts exactly the concatenations of encoded frames and returns their payloads, so they are unique |
| Framing.FrameLength | modules/libmiscdata/translate_packet.c:7-25 | a frame is two longer than the payload plus one for each 0x7E or 0x7D in it, hence at most 2 * size + 2 |
| Framing.NoFlagInside | modules/libmiscdata/translate_packet.c:13-22 | no 0x7E occurs between the flags |
| Framing.PlainFrameDecodes | modules/libmiscdata/translate_packet.c:27-35 | an unstuffed frame decodes to its payload exactly when there was nothing to stuff |
| Framing.SplitExactlyCounted | modules/libmiscdata/translate_packet.c:27-35 | a stream of unstuffed frames, read by the length fields of the messages, gives exactly the messages it was made from if and only if each of them counts itself |
| DiagLaws.StuffedBytes | modules/libmiscdata/translate_packet.c:11-23 | 0x7E goes out as 0x7D 0x5E, 0x7D as 0x7D 0x5D, every other byte as itself, between two bytes 0x7E |
| DiagLaws.SentMeans | modules/libmiscdata/translate_packet.c:27-35 | `Sent`: the frame is at the front, its length is returned, and what lies behind it is as before |
| TraceDump.TraceDumper.constructor | modules/libtracedump/diag_trace_dump.c:51-53 | idle, no file open |
| TraceDump.TraceDumper.Dump | modules/libtracedump/diag_trace_dump.c:111-212 | one call is one step of the state machine and sends the stuffed frame of its reply, or nothing |
| TraceDump.Step | modules/libtracedump/diag_trace_dump.c:127-211 | keeps the invariant that a file is open exactly while the state is dumping, and that no other state than idle and dumping occurs |
| TraceDump.FillAck | modules/libtracedump/diag_trace_dump.c:160-198 | the reply buffer after all field writes, with three bytes of it never written |
| TraceDump.SendAck | modules/libtracedump/diag_trace_dump.c:198-208 | sends the stuffed frame of that reply |
| TraceDump.AckFields | modules/libtracedump/diag_trace_dump.c:173-198 | status, data, command and length read back out of a reply are those put in |
| TraceDump.DumpRun | modules/libtracedump/diag_trace_dump.c:159-196 | a run of full reads ended by a short one sends one reply per call whose data are consecutive pieces of the file, status 1 on all but the last, and ends idle |
| TraceDump.OpenUntilTheEnd | modules/libtracedump/diag_trace_dump.c:159-196 | before the last call of a dump the state is dumping |
| TraceDump.WholeFileArrives | modules/libtracedump/diag_trace_dump.c:132-208 | from idle, with reads that fill when data remain, length / 4096 + 1 replies carry the whole file, status 1 on all but the last and 0 on the last; so do the replies decoded from the frames sent |
| TraceDump.StatusZeroIsNotEnough | modules/libtracedump/diag_trace_dump.c:98-189 | when the last read comes up short for any reason the replies look complete; the file is complete exactly when that read returned all that was left |
| TraceDump.UnknownCommandsIgnored | modules/libtracedump/diag_trace_dump.c:127-130 | calls with unknown commands can be deleted from any run without changing state or replies |
| DiagLaws.DumpRequest | modules/libtracedump/diag_trace_dump.c:122-123 | the command is the word behind flag and header |
| DiagLaws.OtherCommands | modules/libtracedump/diag_trace_dump.c:127-130 | every command but 1 and 2 changes nothing and gets no reply |
| DiagLaws.DumpNotStarted | modules/libtracedump/diag_trace_dump.c:132-157 | a first call is not answered exactly when the archive of command 2 cannot be made or the file does not open, given memory |
| DiagLaws.OutOfMemory | modules/libtracedump/diag_trace_dump.c:160-166 | without memory for the reply there is none, without memory for the data it has status 2; the dump is over |
| DiagLaws.OnePiece | modules/libtracedump/diag_trace_dump.c:175-198 | a call in the middle sends up to 4096 bytes from where the last one ended, with status 1 for a full piece and 0 for a short one, a failed read counting as an empty one |
| DiagLaws.ReplyBytes | modules/libtracedump/diag_trace_dump.c:167-198 | the layout of a reply byte by byte |
| DiagLaws.WholeDump | modules/libtracedump/diag_trace_dump.c:132-208 | by commands 1 or 2 from idle, with nothing failing: one reply for each full piece with status 1, then one with status 0 and what is left |
| PhaseCheck.DirectPhschk | modules/libmiscdata/phasecheck.c:19-125 | store and framed reply are those of Serve; on a CRC error nothing is sent and the request's length and error fields are patched |
| PhaseCheck.WriteMode | modules/libmiscdata/phasecheck.c:50-85 | the payload is stored from offset zero and acknowledged, or refused with the error that says why |
| PhaseCheck.ReadMode | modules/libmiscdata/phasecheck.c:86-119 | answers with the sealed record, or refuses |
| PhaseCheck.Seal | modules/libmiscdata/phasecheck.c:99-113 | the reply buffer holds header, as much of the record as its magic number says, and the CRC of that |
| PhaseCheck.IntactIsZeroResidue | modules/libmiscdata/phasecheck.c:34-39 | the trailer comparison passes exactly when the CRC over payload and trailer is zero |
| PhaseCheck.DamageIsRejected | modules/libmiscdata/phasecheck.c:33-64 | a request damaged in one burst of at most 16 bits or in an odd number of bits leaves the store as it was and gets no reply |
| PhaseCheck.AdjacentDamageIsRejected | modules/libmiscdata/phasecheck.c:33-64 | the same for anything that happens to two adjacent payload bytes |
| PhaseCheck.TwoBitDamage | modules/libmiscdata/phasecheck.c:33-64 | a request damaged in exactly two bits is accepted if and only if the bits lie a multiple of 32767 apart, hence never when it has at most 4096 bytes |
| PhaseCheck.SealedReplyIsIntact | modules/libmiscdata/phasecheck.c:99-116 | a sealed reply passes the comparison requests are put to, carries the record and counts itself |
| PhaseCheck.ReadReplyIsIntact | modules/libmiscdata/phasecheck.c:86-116 | every reply to a read that the store served is such a message |
| PhaseCheck.RepliesAreCounted | modules/libmiscdata/phasecheck.c:73-116 | the length field of every reply is its length |
| PhaseCheck.RecordRoundTrip | modules/libmiscdata/phasecheck.c:50-116 | after an accepted write of an SP09 or SP15 record at least as long as its structure, a served read returns exactly the structure and its CRC |
| DiagLaws.PhaseRequest | modules/libmiscdata/phasecheck.c:31 | the message lies behind one flag byte, with its length at offset 4 |
| DiagLaws.IntactRequest | modules/libmiscdata/phasecheck.c:34-39 | eight header bytes, the payload, and its CRC with the low byte first |
| DiagLaws.WriteRequests | modules/libmiscdata/phasecheck.c:39-85 | subtype 0 is refused with error 2, subtypes 1 to 0x7F store the payload from offset zero or are refused with error 3, a damaged request gets no answer |
| DiagLaws.ReadRequests | modules/libmiscdata/phasecheck.c:86-116 | subtypes from 0x80 on read: 256 bytes for the magic word 0x53503039, 492 for 0x53503135, none for any other, and their CRC |
| MiscStore.MiscData.ReadWithOffset | modules/libmiscdata/miscdata.c:104-169 | status and bytes of a read at an offset on the seeking build, for every failing step |
| MiscStore.MiscData.WriteWithOffset | modules/libmiscdata/miscdata.c:171-239 | status and store after a write at an offset on the seeking build |
| MiscStore.MiscData.NandReadWithOffset | modules/libmiscdata/miscdata.c:120-140 | the same read on the NAND build |
| MiscStore.MiscData.NandWriteWithOffset | modules/libmiscdata/miscdata.c:187-208 | the same write on the NAND build, with the volume ruined if the rewrite does not complete |
| MiscStore.NandAgreesWithSeek | modules/libmiscdata/miscdata.c:187-235 | when nothing fails both builds leave the same store and read the same bytes; the status differs only for an empty transfer |
| MiscStore.ShortImageReadErases | modules/libmiscdata/miscdata.c:187-208 | after a short image read the NAND write succeeds, and is right exactly when everything not reached and not overwritten was zero |
| MiscStore.FailedImageReadIsHarmless | modules/libmiscdata/miscdata.c:200-208 | a failed image read leaves the store unchanged and gives an error |
| StoreLaws.StatusCodes | modules/libmiscdata/miscdata.c:113-168 | -1, -3, -4 and -2 for the property, open, lseek and the transfer, in this order; 0 otherwise |
| StoreLaws.Transferred | modules/libmiscdata/miscdata.c:222-228 | a transfer moves as much as was asked for, as there is, and as the system call says, from the offset on |
| StoreLaws.NothingTransferred | modules/libmiscdata/miscdata.c:146-165 | when a step fails nothing is read or written |
| StoreLaws.ImageRead | modules/libmiscdata/miscdata.c:120-140 | the NAND read by failing step; the bytes are zero from where a short image read ended |
| StoreLaws.ImageWrite | modules/libmiscdata/miscdata.c:187-208 | the NAND write by failing step |
| StoreLaws.ImageWritten | modules/libmiscdata/miscdata.c:199-208 | with a complete image read and rewrite exactly the written range changes |
| ProductCtrl.ProductCtrlEx | modules/libmiscdata/miscdata.c:331-405 | store and framed reply are those of Serve |
| ProductCtrl.ReadEx | modules/libmiscdata/miscdata.c:357-374 | answers with header, arguments and data, or with header, arguments and the error |
| ProductCtrl.WriteEx | modules/libmiscdata/miscdata.c:375-396 | reads first, then writes; store and reply for every failing step |
| ProductCtrl.ReplyIsCounted | modules/libmiscdata/miscdata.c:362-395 | the length field of a reply is its length if and only if the command is not a successful read of which header and data together reach 65536 bytes |
| ProductCtrl.WrappedReadLooksLikeTwo | modules/libmiscdata/miscdata.c:362-371 | a read of 65536 bytes that finds two flags and a message of 65534 bytes is framed like a 16-byte message followed by that message |
| ProductCtrl.ServeWrites | modules/libmiscdata/miscdata.c:331-405 | a command changes the store only by writing a prefix of its data at its offset |
| ProductCtrl.HistoryIsLatest | modules/libmiscdata/miscdata.c:331-405 | after any sequence of commands with any failures every position holds the latest byte written there, or its initial content |
| ProductCtrl.ReadSeesLatest | modules/libmiscdata/miscdata.c:357-374 | a successful read reply carries the latest bytes of its range, then zeros if the transfer was short |
| StoreLaws.ParsedFromBytes | modules/libmiscdata/miscdata.c:338-343 | flag, header, offset, length, data: the words are read from there, the offset as a signed number |
| StoreLaws.NoReply | modules/libmiscdata/miscdata.c:347-400 | with too little room for the reply, or another subtype than 0x12 and 0x13, nothing happens |
| StoreLaws.ErrorBytes | modules/libmiscdata/miscdata.c:368-391 | the return codes as they stand in the subtype byte |
| StoreLaws.FailedRead | modules/libmiscdata/miscdata.c:362-371 | a failed read is answered with the error and the arguments of the request |
| StoreLaws.FailedWrite | modules/libmiscdata/miscdata.c:378-395 | a write that fails in either transfer is answered with the error of that transfer |
| StoreLaws.ReadOnBytes | modules/libmiscdata/miscdata.c:357-374 | a whole read, from the bytes of the request to those of the reply |
| StoreLaws.WriteOnBytes | modules/libmiscdata/miscdata.c:375-396 | a whole write, from the bytes of the request to the bytes of store and reply |
| StoreLaws.NegativeOffset | modules/libmiscdata/miscdata.c:341-395 | an offset with its top bit set is refused with 0xFC and the store is as it was |
| StoreLaws.WriteIsLatest | modules/libmiscdata/miscdata.c:375-396 | one more write request, as bytes: its data are the latest in its range, everything else is what it was |
| StoreLaws.ReadSeesLatestOnBytes | modules/libmiscdata/miscdata.c:357-374 | a read request, as bytes, is answered after any history with the latest byte of every position it asks for |
| AtChannel.AtReader.SkipNewlines | modules/libFactoryRadioTest/factorytest_radio.c:118-120 | drops the leading line ends of the buffered text |
| AtChannel.AtReader.FindNextEol | modules/libFactoryRadioTest/factorytest_radio.c:86-96 | the first line end of the buffered text, or none; a lone prompt is taken for a line |
| AtChannel.AtReader.Compact | modules/libFactoryRadioTest/factorytest_radio.c:124-132 | moves the buffered text to the front without changing it |
| AtChannel.ReadAgain | modules/libFactoryRadioTest/factorytest_radio.c:146-148 | repeats an interrupted read; what it delivers comes off the front of the stream; when it brings nothing, nothing is taken, and either the stream is at its end or a read failed |
| AtChannel.AtReader.ReadMore | modules/libFactoryRadioTest/factorytest_radio.c:146-158 | appends what was read to the buffered text; brings nothing only at the end of the stream or when a read failed |
| AtChannel.AtReader.Begin | modules/libFactoryRadioTest/factorytest_radio.c:109-135 | everything before the loop loses no character |
| AtChannel.AtReader.ReadAndLook | modules/libFactoryRadioTest/factorytest_radio.c:138-162 | one round of the loop loses no character and really reads |
| AtChannel.AtReader.TakeLine | modules/libFactoryRadioTest/factorytest_radio.c:164-169 | returns the text up to the line end and leaves the text behind it |
| AtChannel.AtReader.ReadLine | modules/libFactoryRadioTest/factorytest_radio.c:98-170 | returns the first line of all that was pending or delivered and leaves the rest; returns NULL only at the end of the stream or when a read failed, and then leaves everything but leading line ends |
| AtChannel.SessionKeepsText | modules/libFactoryRadioTest/factorytest_radio.c:98-170 | over any calls, the lines returned and then the lines of the text still pending or to come are the lines of all the text |
| AtChannel.NullsAreFailures | modules/libFactoryRadioTest/factorytest_radio.c:98-170 | with reads enough for the stream, each NULL is owed to a failed read or tells that no line is left |
| AtChannel.AllLinesReturned | modules/libFactoryRadioTest/factorytest_radio.c:98-170 | for every stream, every way reads cut it up and every failed read in between: once NULL has come back more often than reads fail, the lines returned are exactly the lines of the stream, in order, the stream is at its end and its unfinished line is pending |
| AtChannel.ChunkingDoesNotMatter | modules/libFactoryRadioTest/factorytest_radio.c:98-170 | two sessions over one text, cut up in any two ways with any failures, return the same lines |
| AtChannel.ReadLines | modules/libFactoryRadioTest/factorytest_radio.c:98-170 | calling readline until NULL has come back that often yields such a session, and so the lines of the stream |
| AtLaws.EndedLine | modules/libFactoryRadioTest/factorytest_radio.c:93 | CR ends a line and so does LF: what follows is split on its own |
| AtLaws.EmptyLine | modules/libFactoryRadioTest/factorytest_radio.c:118-120 | an empty line is none |
| AtLaws.NoEndNoLine | modules/libFactoryRadioTest/factorytest_radio.c:95 | text with neither CR nor LF has no line |
| AtLaws.FitsExactly | modules/libFactoryRadioTest/factorytest_radio.c:139-147 | `Fits` says exactly that no run of CR and LF with the line after it is longer than 511 characters |
| AtLaws.FailedReads | modules/libFactoryRadioTest/factorytest_radio.c:146-161 | a failed read and an empty one count as failures, an interrupted one does not |
| AtLaws.EagerReadsAreAmple | modules/libFactoryRadioTest/factorytest_radio.c:146-150 | reads that each deliver something, one for each character, are reads enough, and none of them fails |
| AtCommand.AwaitModem | modules/libFactoryRadioTest/factorytest_radio.c:198-219 | waits on while select is interrupted, gives up on failure or timeout |
| AtCommand.SendAtCmd | modules/libFactoryRadioTest/factorytest_radio.c:172-252 | return value and stored text are those the delivered lines determine and, unless a read failed during the call, those the whole stream determines; if an OK comes behind lines that fit, those lines and their length; no more than buf_len characters of the buffer change |
| AtCommand.CollectResponse | modules/libFactoryRadioTest/factorytest_radio.c:221-251 | the accumulation loop: the answer for the delivered lines is, unless a read failed, the answer for the whole stream |
| AtCommand.Accept | modules/libFactoryRadioTest/factorytest_radio.c:230-248 | one line: accept, fail, skip, overflow or append behind what is stored |
| AtCommand.OkResponse | modules/libFactoryRadioTest/factorytest_radio.c:230-232 | OK after lines that fit: the buffer holds them one after another and their total length is returned |
| AtCommand.FailedResponse | modules/libFactoryRadioTest/factorytest_radio.c:233-245 | ERROR first, or a line too many: -1 whatever comes later |
| AtCommand.SilentResponse | modules/libFactoryRadioTest/factorytest_radio.c:225-228 | no verdict before the modem falls silent: everything is stored but select's value is returned |
| AtCommand.ReturnsStoredLength | modules/libFactoryRadioTest/factorytest_radio.c:221-251 | the value returned is the length stored if and only if the first deciding line is an OK, or no line decides and select returned just that length |
| AtCommand.LaterLinesDoNotMatter | modules/libFactoryRadioTest/factorytest_radio.c:230-245 | lines behind a deciding one, be it OK, ERROR or one too many, change neither return value nor buffer |
| AtCommand.OkIsFinal | modules/libFactoryRadioTest/factorytest_radio.c:230-232 | once the OK line is there, no text behind it changes the answer |
| AtCommand.AnswerForEveryChunking | modules/libFactoryRadioTest/factorytest_radio.c:98-251 | two responses with one text, read in any two ways without a failed read, get the same answer; with an OK behind lines that fit it is those lines and their length |
| AtLaws.OkAnywhere | modules/libFactoryRadioTest/factorytest_radio.c:230-232 | a line with the letters OK at any position ends the response with the length stored so far |
| AtLaws.ErrorAnywhere | modules/libFactoryRadioTest/factorytest_radio.c:233-235 | a line with ERROR at any position and OK at none ends it with -1 |
| AtLaws.OtherLine | modules/libFactoryRadioTest/factorytest_radio.c:236-248 | a line with neither word is appended if it fits, ends the response with -1 if it does not, and is passed over when nothing is kept |
| AtLaws.WholeResponse | modules/libFactoryRadioTest/factorytest_radio.c:198-251 | data lines and then OK, each ended by CR and LF, however read in pieces and whatever follows: the data are stored and their length is returned |
| AtLaws.AllRead | modules/libFactoryRadioTest/factorytest_radio.c:221-251 | when the stream has been read to its end the answer is that for all the text, even after failed reads |
| AtLaws.WaitDecides | modules/libFactoryRadioTest/factorytest_radio.c:203-218 | interrupted waits are passed over; the first other answer of select decides |
| AtTok.Tokenizer.SkipWhiteSpace | modules/libFactoryRadioTest/at_tok.c:47-53 | the cursor skips leading white space only |
| AtTok.Tokenizer.SkipNextComma | modules/libFactoryRadioTest/at_tok.c:55-65 | the cursor goes behind the next comma, or to the end |
| AtTok.Tokenizer.StrSep | modules/libFactoryRadioTest/at_tok.c:74-79 | strsep: token, remaining text, and no cell before the cursor changed |
| AtTok.Tokenizer.NextTok | modules/libFactoryRadioTest/at_tok.c:67-83 | takes the next token, moves the cursor forward, writes only from the cursor on, and every token handed out before keeps its text |
| AtTok.Tokenizer.NextStr | modules/libFactoryRadioTest/at_tok.c:165-173 | 0 and the token, or -1 at a NULL cursor |
| AtTok.Tokenizer.NextInt | modules/libFactoryRadioTest/at_tok.c:91-131 | the number of the next token in base 10; -1 without digits, with the number stored all the same; tokens handed out before stay on record |
| AtTok.Tokenizer.HasMore | modules/libFactoryRadioTest/at_tok.c:176-178 | whether the cursor is not NULL and text is left |
| AtTok.Tokenizer.FlagStart | modules/libFactoryRadioTest/at_tok.c:180-192 | the cursor goes behind the first flag character, or becomes NULL |
| AtTok.JoinComesApart | modules/libFactoryRadioTest/at_tok.c:47-83 | any list of bare and quoted fields joined with commas is tokenized into those fields with no more tokens left |
| AtTok.NextTokens | modules/libFactoryRadioTest/at_tok.c:165-178 | asking for more tokens as long as there are more returns the tokens TakeAll says and leaves none |
| AtTok.LoopReturnsFields | modules/libFactoryRadioTest/at_tok.c:165-178 | such a caller gets all fields of a joined list if and only if the last one is not empty and bare |
| AtTok.BareExactly | modules/libFactoryRadioTest/at_tok.c:67-83 | a field can stand without quotes exactly when it has no comma and starts neither with white space nor with a quote |
| AtTok.PrintedComesBack | modules/libFactoryRadioTest/at_tok.c:107-118 | a printed decimal in int range is read as the same number |
| AtTok.PrintedFieldComesBack | modules/libFactoryRadioTest/at_tok.c:67-131 | the same for a printed number as a field in a list |
| AtTok.NextShrinks | modules/libFactoryRadioTest/at_tok.c:67-83 | every call strictly shortens what is left |
| AtLaws.SpaceSkipped | modules/libFactoryRadioTest/at_tok.c:50-52 | blank, tab, line feed, vertical tab, form feed and carriage return before a token are skipped |
| AtLaws.BareToken | modules/libFactoryRadioTest/at_tok.c:79 | a token without a quote goes up to the next comma, or to the end and leaves NULL |
| AtLaws.QuotedToken | modules/libFactoryRadioTest/at_tok.c:74-77 | a quoted token goes up to the next quote; what stands between that and the next comma is lost |
| AtLaws.DigitBehind | modules/libFactoryRadioTest/at_tok.c:110 | one digit more makes the number ten times as large plus the digit |
| AtLaws.TooLarge | modules/libFactoryRadioTest/at_tok.c:110 | a number out of range is 2147483647 or -2147483648 |
| AtLaws.SignBefore | modules/libFactoryRadioTest/at_tok.c:110 | a sign in front of the digits |
| AtLaws.OtherBehind | modules/libFactoryRadioTest/at_tok.c:110-117 | what is not a digit ends the number; without a digit there is none |
| Dcxo.Driver.FlagSet | modules/libdcxcali/dcx_cali.c:78 | the flag bit read from CTRL4 is the comparator's answer |
| Dcxo.Driver.DcxoAmpInit | modules/libdcxcali/dcx_cali.c:63-76 | the registers after the initialisation, with the bits used in high-power or low-power mode |
| Dcxo.Driver.CoarseSweep | modules/libdcxcali/dcx_cali.c:88-92 | ends, with the code CoarseEnd says, and changes CTRL5 only |
| Dcxo.Driver.LeaveCoarse | modules/libdcxcali/dcx_cali.c:94-102 | one bucket up exactly when the sweep stopped above the lowest bucket with the flag set |
| Dcxo.Driver.FineSearch | modules/libdcxcali/dcx_cali.c:108-112 | ends at the first accepted code of the fine sequence |
| Dcxo.Driver.HpAmpCali | modules/libdcxcali/dcx_cali.c:82-118 | the code found is in CTRL5 and returned, CTRL3 has AML_CAL_EN cleared, CTRL4 changes its AML_CTRL field, every other register but the write protection is as before |
| Dcxo.FindsGreatest | modules/libdcxcali/dcx_cali.c:82-118 | the greatest accepted code is found if and only if the threshold is at most 31, or between 64 and 254 and not the last of its bucket |
| Dcxo.SearchOutcome | modules/libdcxcali/dcx_cali.c:82-118 | for every comparator: the greatest accepted code of the bucket the fine search starts in; if there is none, the greatest from 0xE0 on with the upper byte of CTRL5 full of ones; if there is none there either the calibration never ends |
| Dcxo.StartByComparator | modules/libdcxcali/dcx_cali.c:88-106 | where the fine search starts, by the comparator at 0xFF, 0xDF, ..., 0x3F |
| Dcxo.LpSearchOutcome | modules/libdcxcali/dcx_cali.c:146-170 | the same outcome in low power, where the fine search starts at 31 or at 15 |
| Dcxo.LpFindsAtMost31 | modules/libdcxcali/dcx_cali.c:146-170 | for a threshold the low-power calibration always ends, with 31, with 15, or with a threshold below 15 |
| Dcxo.FindsThirtyOne | modules/libdcxcali/dcx_cali.c:94-112 | thresholds 32 to 62 and 255 give code 31 |
| Dcxo.NeverEnds | modules/libdcxcali/dcx_cali.c:94-112 | thresholds 63, 95, ..., 223 give a search that never ends |
| Dcxo.NothingAcceptedNeverEnds | modules/libdcxcali/dcx_cali.c:108-112 | nor does it end when no code is accepted |
| Dcxo.ThresholdBelow | modules/libdcxcali/dcx_cali.c:78-112 | a comparator that accepts everything below an accepted code, and accepts something, has a threshold |
| Dcxo.OneResult | modules/libdcxcali/dcx_cali.c:82-118 | the code found is unique |
| Dcxo.Driver.LpCoarseSweep | modules/libdcxcali/dcx_cali.c:146-151 | ends, with the code LpCoarseEnd says, and changes CTRL5 only |
| Dcxo.Driver.LpLeaveCoarse | modules/libdcxcali/dcx_cali.c:153-165 | the constant back-off and the clearing at the bottom |
| Dcxo.Driver.LpAmpCali | modules/libdcxcali/dcx_cali.c:138-176 | CTRL10 is restored, CTRL11 and CTRL14 are not touched, CTRL3 has AML_CAL_EN cleared, CTRL4 changes its AML_CTRL field |
| Dcxo.Driver.SetAfcMode | modules/libdcxcali/dcx_cali.c:285-318 | registers, mode and saved values after a mode command, and its status |
| Dcxo.Driver.SetAfcCdac | modules/libdcxcali/dcx_cali.c:352-357 | the value goes to CTRL10 in high-power mode and to CTRL11 in low-power mode |
| Dcxo.Driver.AmpCali | modules/libdcxcali/dcx_cali.c:369-376 | which calibration runs depends on the mode |
| Dcxo.AlwaysConsistent | modules/libdcxcali/dcx_cali.c:285-357 | over every run from high power with LP_CAL_EN clear: CTRL14 is its initial value with LP_CAL_EN as the mode says, and CTRL10 is zero in low power |
| Dcxo.FlagTellsMode | modules/libdcxcali/dcx_cali.c:285-307 | in every reachable state low-power mode holds exactly when LP_CAL_EN is set, and the other bits of CTRL14 never changed |
| Dcxo.ReturnRestores | modules/libdcxcali/dcx_cali.c:287-306 | returning to high power restores CTRL5 and the low byte of CTRL10 as they were on leaving, whatever was commanded in between |
| Dcxo.LowPowerCodeReturns | modules/libdcxcali/dcx_cali.c:286-306 | entering low power leaves CTRL5 as it is, so a code left in low power is there on the next entry if and only if high power ends with it |
| Dcxo.LowPowerCodeReplaced | modules/libdcxcali/dcx_cali.c:286-306 | without calibration in high power, the next entry to low power finds the code saved when high power was left before |
| Dcxo.LpValuesUnused | modules/libdcxcali/dcx_cali.c:299-300 | with any other values saved on leaving low power, every run goes on in the same registers and the same mode |
| DcxoLaws.Ctrl3InBits | modules/libdcxcali/dcx_cali.c:114 | after either calibration bit 3 of CTRL3 is clear and every other bit is as before |
| DcxoLaws.Ctrl4InBits | modules/libdcxcali/dcx_cali.c:104-105 | bits 7:4 of CTRL4 are 6 after the high-power and 1 after the low-power calibration, the others as before |
| DcxoLaws.InitBits | modules/libdcxcali/dcx_cali.c:63-76 | what the initialisation sets in CTRL3, CTRL4 and CTRL5 |
| DcxoLaws.RepeatedMode | modules/libdcxcali/dcx_cali.c:285-307 | commanding the mode that is already there touches the write protection only |
| DcxoLaws.EntersLowPower | modules/libdcxcali/dcx_cali.c:286-295 | CTRL10 is cleared, bit 11 of CTRL14 set, nothing else changes, and both codes are remembered |
| DcxoLaws.EntersHighPower | modules/libdcxcali/dcx_cali.c:296-306 | CTRL10 and CTRL5 get the remembered codes, bit 11 of CTRL14 is cleared, nothing else changes |
| DcxoLaws.LpCalEnTellsMode | modules/libdcxcali/dcx_cali.c:285-307 | over every run bit 11 of CTRL14 is set exactly in low power |
| DcxoLaws.OtherBitsStay | modules/libdcxcali/dcx_cali.c:82-376 | over every run the bits of CTRL3, CTRL4 and CTRL14 that are not the driver's keep their values |
| DcxoLaws.LevelStays | modules/libdcxcali/dcx_cali.c:104-376 | from one calibration to the next, through all other commands, the enable bit is clear and the level stays |
| DcxoLaws.HighPowerCdacHolds | modules/libdcxcali/dcx_cali.c:352-357 | a value set in high power is in CTRL10 at every later state until the next value or a change of mode, and CTRL11 is not touched |
| DcxoLaws.LowPowerCdacHolds | modules/libdcxcali/dcx_cali.c:352-357 | a value set in low power is in CTRL11, across mode changes and calibrations, until the next one set in low power |
| DcxoLaws.CdacComesBack | modules/libdcxcali/dcx_cali.c:286-306 | the low byte of a value set in high power is back after an excursion into low power |
| MacText.Char2Hex | modules/libmiscdata/bt_wifi_mac.c:481-497 | one byte per colon-separated field is written, and nothing else changes |
| MacText.MacComesBack | modules/libmiscdata/bt_wifi_mac.c:481-497 | an address printed as the write prints it (lines 96-98, 105-108) is read back |
| MacText.FieldCount | modules/libmiscdata/bt_wifi_mac.c:486-492 | the number of bytes written is one more than the number of colons |
| MacLaws.HexCharacters | modules/libmiscdata/bt_wifi_mac.c:96-98 | the two characters of a printed byte, letters in lower case |
| MacLaws.PrintedAddress | modules/libmiscdata/bt_wifi_mac.c:105-108 | six pairs with colons between them, in the order of the bytes |
| MacLaws.HexDigits | modules/libmiscdata/bt_wifi_mac.c:488 | the value of every hexadecimal digit in both cases, and no other character is one |
| MacLaws.HexDigitBehind | modules/libmiscdata/bt_wifi_mac.c:488 | one digit more makes the number sixteen times as large plus the digit |
| MacLaws.PlainNumber | modules/libmiscdata/bt_wifi_mac.c:492 | a number with or without a sign, saturated |
| MacLaws.FieldBytes | modules/libmiscdata/bt_wifi_mac.c:486-492 | a field before a colon gives the number in its first two digits, the last field that of all its digits |
| MacText.ImeiConvStr2NV | modules/libmiscdata/bt_wifi_mac.c:591-601 | the eight packed bytes |
| MacText.ImeiConvNV2Str | modules/libmiscdata/bt_wifi_mac.c:603-612 | the fifteen unpacked characters |
| MacText.ImeiTextComesBack | modules/libmiscdata/bt_wifi_mac.c:591-618 | packing then unpacking gives the text back if and only if every character is a digit or one of the six behind '9' |
| MacText.ImeiBytesComeBack | modules/libmiscdata/bt_wifi_mac.c:591-618 | unpacking then packing gives the bytes back if and only if the filler nibble is 0x0A |
| MacLaws.PackedDigits | modules/libmiscdata/bt_wifi_mac.c:594-599 | each even digit above the odd one before it, the first one above 0xA |
| MacLaws.UnpackedDigits | modules/libmiscdata/bt_wifi_mac.c:603-612 | upper and lower nibbles as digits |
| MacFiles.MacStore.Read | modules/libmiscdata/bt_wifi_mac.c:436-479 | at most 31 characters of the primary file, or of the other if there is none, over the buffer; -1 if there were none |
| MacFiles.MacStore.WriteMac2File | modules/libmiscdata/bt_wifi_mac.c:360-401 | the files and the return value, for every failing step |
| MacFiles.MacStore.Write | modules/libmiscdata/bt_wifi_mac.c:403-434 | an address not given is the stored one read over a generated one |
| MacFiles.ResolvedIsStored | modules/libmiscdata/bt_wifi_mac.c:403-468 | reading over the fallback gives the stored text if and only if it is plain text, not longer than a read and not shorter than the fallback |
| MacFiles.BtWriteKeepsWifi | modules/libmiscdata/bt_wifi_mac.c:360-434 | a Bluetooth-only write keeps the WiFi address under exactly that condition |
| MacFiles.WifiWriteKeepsBt | modules/libmiscdata/bt_wifi_mac.c:360-434 | and a WiFi-only write the Bluetooth address |
| MacFiles.ReportedSuccess | modules/libmiscdata/bt_wifi_mac.c:365-400 | what a positive return value says about the two files, and what it does not |
| MacLaws.FileRead | modules/libmiscdata/bt_wifi_mac.c:442-462 | the primary file if there is one, else the fallback file, for both addresses |
| MacLaws.CharactersRead | modules/libmiscdata/bt_wifi_mac.c:464-476 | how many characters a read delivers |
| MacLaws.TextResolved | modules/libmiscdata/bt_wifi_mac.c:411-420 | what is written for an address not given: the text read and behind it the rest of the generated one |
| MacLaws.FilesWritten | modules/libmiscdata/bt_wifi_mac.c:365-400 | the four files after every failing step, the fallback Bluetooth file removed |
| MacLaws.BothGiven | modules/libmiscdata/bt_wifi_mac.c:403-434 | with both addresses given nothing is read and both files hold them |
| MacLaws.FallbackFilesCount | modules/libmiscdata/bt_wifi_mac.c:442-462 | an address that stands only in the fallback file is kept as well |
| BtWifi.CheckCrc | modules/libmiscdata/bt_wifi_mac.c:20-33 | 0 exactly for a message whose trailer is the CRC of its payload |
| BtWifi.BtWifiImei | modules/libmiscdata/bt_wifi_mac.c:65-221 | files, framed reply and the subtype left in the request are those of Serve |
| BtWifi.WriteCommand | modules/libmiscdata/bt_wifi_mac.c:84-152 | the same for a write |
| BtWifi.ReadCommand | modules/libmiscdata/bt_wifi_mac.c:153-212 | the same for a read |
| BtWifi.ServeHolds | modules/libmiscdata/bt_wifi_mac.c:92-123 | a command replaces the addresses it carries and keeps the other; a read, a damaged request and a refused address change nothing |
| BtWifi.HistoryHolds | modules/libmiscdata/bt_wifi_mac.c:65-221 | over any sequence of commands the files hold the latest accepted addresses |
| BtWifi.ReadSeesLatest | modules/libmiscdata/bt_wifi_mac.c:92-182 | after any sequence of commands a read answers with the latest addresses byte for byte, so the reversal on write and the swaps on read cancel |
| BtWifi.ReplyPassesCheck | modules/libmiscdata/bt_wifi_mac.c:196-211 | every read reply, in its frame, passes btwifi_checkCRC (lines 20-33) |
| BtWifi.RepliesAreCounted | modules/libmiscdata/bt_wifi_mac.c:111-211 | the length field of every reply is its length |
| BtWifi.DamagedWriteStoresNothing | modules/libmiscdata/bt_wifi_mac.c:84-92 | a write damaged in one burst of at most 16 bits or in an odd number of bits stores nothing |
| BtWifi.TwoBitDamageStoresNothing | modules/libmiscdata/bt_wifi_mac.c:84-92 | nor does a write damaged in any two bits |
| BtWifi.ForwardsTheRest | modules/libmiscdata/bt_wifi_mac.c:106-217 | the modem gets exactly the other bits of the request if and only if it is a write whose WiFi address was not refused |
| MacLaws.SubtypeBits | modules/libmiscdata/bt_wifi_mac.c:84-104 | which subtypes read, which concern which address, and what is left of them for the modem |
| MacLaws.WriteFromBytes | modules/libmiscdata/bt_wifi_mac.c:79-86 | a write request: flag, header, 106 bytes of structure, CRC |
| MacLaws.NothingToWrite | modules/libmiscdata/bt_wifi_mac.c:92-152 | a damaged write, or one without address bits, stores nothing and is answered with 0, or forwarded |
| MacLaws.RefusedWrite | modules/libmiscdata/bt_wifi_mac.c:111-119 | a WiFi address with bit 0 or bit 1 of its first byte set: nothing is stored and the answer is 0, forwarded or not |
| MacLaws.AcceptedWrite | modules/libmiscdata/bt_wifi_mac.c:92-152 | any other write hands on the bytes at offsets 16 and 66 as text, the first six turned round, and answers 1 for a positive result, else 0 |
| MacLaws.NextAddresses | modules/libmiscdata/bt_wifi_mac.c:92-122 | which bytes of a request become the latest addresses |
| MacLaws.ReadAnswer | modules/libmiscdata/bt_wifi_mac.c:196-211 | a read answers with length 116, subtype 1, the structure and its CRC |
| MacLaws.AddressesInPlace | modules/libmiscdata/bt_wifi_mac.c:156-182 | the addresses at offsets 16 and 66 of the structure, zeros everywhere else |
| MacLaws.HeldIsAnswered | modules/libmiscdata/bt_wifi_mac.c:156-211 | addresses held by the files are in the answer |
| MacLaws.OtherTexts | modules/libmiscdata/bt_wifi_mac.c:159-180 | what a text that is no address puts into the structure |

## Left out

- AtChannel.AtReader.ReadLine: promises only an intact buffer when a run of line ends and the line after it do not fit into 512 characters; the prompt branch, NULs inside lines and over-long lines are outside its promise, as is the text lost when a full buffer is ditched.
- Dcxo.Driver.LpAmpCali: promises no best code, because the back-off assigns a constant; that its fine search ends is a precondition, and LpSearchOutcome says exactly when it does and with what.
- Dcxo.Driver.HpAmpCali: that its fine search ends is a precondition, since it does not always; SearchOutcome says for every comparator exactly when.
- BtWifi.BtWifiImei: models the call its handler makes, with `ap_cali` zero; the IMEI commands that read and write files are not part of it.
- MacFiles.MacStore.Write: the generated addresses are parameters; the randomness of `mac_rand` and its file are not modelled, nor are the properties set afterwards.
- MiscStore.MiscData.NandWriteWithOffset: what is left on the volume by a rewrite that does not complete is an arbitrary parameter.
- AtTok.Tokenizer.NextInt: `strtol` is specified for base 10 only; hexadecimal and boolean tokens are not modelled.
- `btwifi_checkValid` and the handler tables: easy branching on bits around the modelled functions.
- The reply messages of the DCXO commands, and loading and saving calibration data: fixed layouts around the modelled state changes.
- `eng_diag_product_ctrl` with 16-bit offsets: it patches its buffer at the offset but reads and writes the front of the store.
- `readURCThread`, threads, sleeps, sockets, sysfs, ioctl and property plumbing, reboots.
- Copies of modelled code: `modules/libap_opt/translate_packet.c`, `modules/libnpipropsrv/eng_attok_test.c`, `modules/libftmode/miscdata.c`.
- Charger, GPIO, temperature, CPU, clock, FM, chip id and efuse modules: no state or arithmetic of interest.
