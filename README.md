# MIFARE data-access layer of a PN532 reader, in Dafny

This project models `Mifare.cpp`, the MIFARE layer of a PN532 NFC reader driver, and proves properties of the model.

The layer does three things:

- It builds PN532 command frames in a shared 64-byte packet buffer: SAMConfiguration, InListPassiveTarget, and InDataExchange carrying MIFARE authenticate, read and write commands.
- It sends each frame through the reader and decides success from fixed offsets of the reply.
- It writes a zero-terminated payload to a card: 16-byte blocks on a MIFARE Classic card, 4-byte pages on an Ultralight card.

The modules are:

- `Base` (base.dfy): bytes, `Option`, zero padding, and `strlen` stored in a `uint8_t` (`Strlen8`).
- `Frames` (frames.dfy): the command frames as pure functions, with a parser that inverts them. It also has the reply checks (status pair `0x41 0x00`, the SAMConfiguration response code `0x15`) and the decoding of an InListPassiveTarget reply.
- `Transport` (transport.dfy): the reader link, `Board`. It sends a frame and reports whether the reader acknowledged it, then reads a reply of fixed length. The reader's answers are a script given to the constructor. Any sequence of acknowledgements and replies is therefore one initial state, and every proof covers all of them. `Transact` is the pure function the driver's contracts are stated with.
- `Payload` (payload.dfy): the plans.
  - `ClassicPlan(p)` is every block write the Classic chunker makes for payload `p`, in order. From block 4 on, each sector gets three data blocks cut from the zero-padded payload, then the trailer with the NFC Forum footer.
  - `UltralightPlan(p)` is every page write of the Ultralight chunker, from page 4 on.
  - Lemmas state the plans' layout.
- `ReadBack` (readback.dfy): the round trips. Reading back the written blocks in order gives the payload followed by zeros.
- `Driver` (driver.dfy): the `Mifare` class.
  - The packet buffer and the UID buffer are arrays. Each routine fills them in place, with the source's loops as `while` loops.
  - A ghost `log` records every block or page write the card confirmed.
  - Each chunker is proved against its plan. The log grows by a prefix of the plan, and the chunker returns true exactly when the log has grown by the whole plan.

Both chunkers measure the payload with `strlen` and store the result in a `uint8_t` (Mifare.cpp:153 and 215). The model keeps both effects. `CStrlen` counts the bytes before the first zero byte, and `Strlen8` takes that count modulo 256. A chunker is given the caller's whole buffer as a byte sequence and writes the plan of its first `Strlen8(payload)` bytes. So everything from the first zero byte on is never written, and a string of 256 bytes or more is silently cut to its length modulo 256. A Classic plan of fewer than 256 bytes spans at most 6 sectors, below block 28, so no block counter of the source overflows.

## Model

| member | source | states |
|---|---|---|
| Base.CStrlen | Mifare.cpp:153 | `strlen`: the bytes it counts are all non-zero, and the byte after them, if any, is zero; so it is the index of the first zero byte |
| Base.Strlen8 | Mifare.cpp:153 | The length stored in `uint8_t len`: never more than `strlen`, and equal to it below 256 |
| Base.CStrlenStops | Mifare.cpp:153 | Bytes after the terminator never change the length |
| Frames.DecodeEncode | Mifare.cpp:277-287 | Every well-formed authenticate, read or write command is recovered from its InDataExchange frame (fixed offsets: command, target 1, MIFARE command, block, then key and UID or data) |
| Frames.EncodeDecode | Mifare.cpp:324-327 | Every frame the parser accepts is exactly the encoding of a well-formed command, so the frame layout is unambiguous |
| Frames.Encode | Mifare.cpp:377-384 | Frames start with InDataExchange and target 1. An authentication frame is 10 + UID-length bytes, a read frame 4, a write frame 4 + data length |
| Frames.AuthFrame | Mifare.cpp:277-285 | The authentication frame: InDataExchange, target 1, the command of the key slot, the block, then the key and the UID; 4 + key + UID bytes long |
| Frames.ReadFrame | Mifare.cpp:323-326 | The 4-byte read frame: InDataExchange, target 1, the read command, the block |
| Frames.WriteFrame | Mifare.cpp:376-383 | The write frame: InDataExchange, target 1, the write command, the block, then the data; 4 + data bytes long |
| Frames.ExchangeOk | Mifare.cpp:293 | InDataExchange success: reply byte 6 is 0x41 and byte 7 is 0x00 (the same test at 346, 398 and 488) |
| Frames.PageReadOk | Mifare.cpp:438 | Ultralight read success: only reply byte 7 is tested, for 0x00 |
| Frames.SamConfigured | Mifare.cpp:28 | SAMConfiguration success: reply byte 5 is 0x15 |
| Frames.DecodeTarget | Mifare.cpp:84-102 | A target is reported iff byte 7 is 1. Then SENS_RES is bytes 9-10, SEL_RES byte 11, and the UID the byte-12 many bytes from 13 |
| Frames.DecodeTargetReply | Mifare.cpp:66-81 | Decoding the reply a reader gives for one target returns that target |
| Frames.DecodeClassicExample | Mifare.cpp:84-106 | A concrete reply (ATQA 00 04, SAK 08, UID DE AD BE EF) decodes to that target and packs to type code 0x000408 |
| Frames.TypeCode | Mifare.cpp:104-106 | The 24-bit packing of SENS_RES and SEL_RES keeps bytes 9, 10 and 11 recoverable |
| Transport.Transact | Mifare.cpp:22-26 | Defines one command over the scripted reader: the frame is sent and logged, the next acknowledgement is consumed, and only an acknowledged command reads the next reply, cut or zero-padded to the requested length, and consumes it |
| Transport.Board.SendCommandCheckAck | Mifare.cpp:22 | Logs the frame and reports the next scripted acknowledgement |
| Transport.Board.ReadData | Mifare.cpp:25 | Puts the next scripted reply in the front of the buffer and leaves the rest untouched |
| Payload.Sectors | Mifare.cpp:193-208 | A payload of `len` bytes occupies the fewest sectors of 48 data bytes that hold it, and at least one |
| Payload.SectorsOf | Mifare.cpp:161-191 | When the chunker's loop ends in sector `q` with data in it (or with an empty payload), the payload occupies exactly `q + 1` sectors |
| Payload.ClassicWrite | Mifare.cpp:161-208 | Write `k` of the Classic chunker goes to block `4 + k`: the footer in slot 3 of each sector, otherwise the next 16 bytes of the zero-padded payload |
| Payload.ClassicPlan | Mifare.cpp:149-208 | Every block write of the Classic chunker in order: four per sector, for `Sectors(len)` sectors |
| Payload.ClassicPlanAt | Mifare.cpp:161-208 | Write `4q + r` of the plan goes to block `4 + 4q + r`. It is a trailer exactly when `r == 3` and then carries the footer; otherwise it carries payload bytes `48q + 16r` onward, zero past the end |
| Payload.ClassicLayout | Mifare.cpp:155-208 | Blocks 4, 5, 6, ... are written once each and in order, ending on a trailer. Exactly the blocks at `k % 4 == 3` are trailers, and each gets the footer |
| Payload.ClassicPlanShort | Mifare.cpp:153-158 | A payload shorter than 256 bytes writes at most 24 blocks |
| Payload.ClassicDataBlock | Mifare.cpp:164-174 | A buffer holding the 16 payload bytes of data block `r` of sector `q` is exactly the plan's write to block `4 + 4q + r` |
| Payload.ClassicTrailer | Mifare.cpp:182-186 | The plan closes every sector with the footer at its trailer |
| Payload.ClassicTenBytes | Mifare.cpp:193-208 | A 10-byte payload writes block 4 (10 bytes and 6 zeros), zero blocks 5 and 6, and the footer at 7 |
| Payload.ClassicEmpty | Mifare.cpp:198-208 | An empty payload writes zeros to blocks 4-6 and the footer to 7 |
| Payload.Pages | Mifare.cpp:244-248 | The page count is the payload length divided by 4, rounded up |
| Payload.UltralightPlan | Mifare.cpp:224-248 | Pages 4, 5, ... in order, ceil(len/4) of them; page `k` holds payload bytes `4k` to `4k + 3`, zero past the end |
| Payload.UltralightPage | Mifare.cpp:225-235 | A buffer holding the 4 payload bytes of page `k` is exactly the plan's write to page `4 + k` |
| ReadBack.ClassicRoundTrip | Mifare.cpp:161-208 | The non-trailer blocks of the Classic plan, read back in order, are the payload zero-padded to whole sectors, and begin with the payload |
| ReadBack.ClassicDataArea | Mifare.cpp:161-208 | The data blocks of all sectors lay down the first `48 * sectors` bytes of the zero-padded payload |
| ReadBack.SectorsData | Mifare.cpp:161-191 | The first `n` sectors lay down the first `48n` bytes of the zero-padded payload |
| ReadBack.UltralightRoundTrip | Mifare.cpp:224-248 | The pages read back in order are the payload zero-padded to a multiple of 4 bytes, and an empty payload writes no page |
| Driver.Mifare.constructor | Mifare.cpp:3-7 | A fresh 64-byte packet buffer, a zeroed 7-byte UID buffer, UID length 0 and an empty write log |
| Driver.Mifare.Key | Mifare.cpp:282 | The key the authentication frame carries: key A for key slot A, key B otherwise |
| Driver.Mifare.PutUid | Mifare.cpp:282-284 | Copies the UID after the key, and leaves the frame header, the key and the rest of the buffer alone |
| Driver.Mifare.PutData | Mifare.cpp:381-383 | Copies the block after the 4-byte command header, and leaves the header and the rest of the buffer alone |
| Driver.Mifare.TakeBlock | Mifare.cpp:337-338 | Copies reply bytes 8-23 into the first 16 bytes of the block and nothing else |
| Driver.Mifare.Exchange | Mifare.cpp:287-291 | Sends the buffer's first `n` bytes. An acknowledged command has its `m`-byte reply read into the buffer |
| Driver.Mifare.SamConfig | Mifare.cpp:16-29 | Sends SAMConfiguration (normal mode, timeout 0x14, IRQ). Succeeds iff acknowledged and reply byte 5 is 0x15 |
| Driver.Mifare.ReadTarget | Mifare.cpp:39-118 | Sends InListPassiveTarget for one Type A target. Finds a card iff acknowledged and byte 7 is 1, and then the UID is the decoded one; otherwise the UID is untouched |
| Driver.Mifare.ClassicAuthenticateBlock | Mifare.cpp:270-298 | Sends the frame of key slot, block, selected key and UID (10 + UID length bytes). Succeeds iff acknowledged and the status pair is 0x41 0x00 |
| Driver.Mifare.ClassicReadBlock | Mifare.cpp:314-351 | Address 64 or more fails with no I/O. A failed authentication stops before the read. An acknowledged read copies reply bytes 8-23 into the block even when the status fails. Success is the status pair |
| Driver.Mifare.ClassicWriteBlock | Mifare.cpp:367-403 | Address 64 or more fails with no I/O. It authenticates first, then sends the 16 bytes. Succeeds iff both replies carry the status pair, and only then is the write logged |
| Driver.Mifare.UltralightReadBlock | Mifare.cpp:418-452 | Address 64 or more fails with no I/O. Success is an acknowledged read with a zero error byte 7, and only then are reply bytes 8-11 copied |
| Driver.Mifare.UltralightWriteBlock | Mifare.cpp:465-492 | Address 64 or more fails with no I/O. Sends the 4 bytes without authentication. Succeeds iff the status pair is 0x41 0x00, and only then is the write logged |
| Driver.Mifare.ClassicPlannedWrite | Mifare.cpp:174 | A block write that is write `k` of the plan extends a log holding the first `k` writes to the first `k + 1`, or leaves it |
| Driver.Mifare.ClassicDataByte | Mifare.cpp:162-180 | Stores the next payload byte. When the buffer is full it writes the block of the plan, clears the buffer and moves to the next block |
| Driver.Mifare.ClassicFlush | Mifare.cpp:169-179 | A full buffer is written as the plan's data block and cleared on success |
| Driver.Mifare.ClassicCloseTrailer | Mifare.cpp:182-190 | The footer is written as the plan's trailer and the buffer cleared on success |
| Driver.Mifare.ClassicCloseSector | Mifare.cpp:192-208 | After the loop: the partial block, the zero fill and the footer keep the log a prefix of the plan, complete iff all succeed |
| Driver.Mifare.ClassicFillSector | Mifare.cpp:198-208 | The zero-filled blocks up to the trailer and the final footer are the rest of the plan |
| Driver.Mifare.ClassicWritePayload | Mifare.cpp:149-211 | The confirmed writes always extend the log with a prefix of `ClassicPlan` of the `uint8_t`-length payload; the result is true iff they are the whole plan |
| Driver.Mifare.UltralightPlannedWrite | Mifare.cpp:235 | A page write that is write `k` of the plan extends the log by it, and succeeds only below address 64 |
| Driver.Mifare.UltralightFlush | Mifare.cpp:230-240 | A full 4-byte buffer is written as the plan's page and cleared on success |
| Driver.Mifare.UltralightWritePayload | Mifare.cpp:212-251 | The confirmed writes always extend the log with a prefix of `UltralightPlan`, and the result is true iff they are the whole plan. So a payload needing pages past 63 always fails; the log is then the prefix of the plan the card confirmed |
| Driver.Mifare.WritePayload | Mifare.cpp:131-146 | Looks for a card first. No card found fails after that one command and writes nothing; an unknown card type fails after the card lookup and sends nothing more. Otherwise the chunker of the configured type keeps its guarantee: the log grows by a prefix of its plan, and the result is true iff by the whole plan |

## Left out

- The `readstatus` busy-wait in `readTarget` (Mifare.cpp:56-59) is timing only. The reader is taken as ready when the reply is read.
- `Serial` debug output, including the unconditional prints at Mifare.cpp:319 and 372, is output only and has no effect on state.
- The transport (`sendCommandCheckAck`, `readdata`) is outside this file. It is replaced by the scripted `Board`, which answers from a script of acknowledgements and replies; a reader that stops answering never acknowledges and reads zeros.
- Mifare.h is not part of this model. The command codes are the PN532 User Manual's values (section 7 of the PN532 User Manual): SAMConfiguration 0x14, InListPassiveTarget 0x4A, InDataExchange 0x40, MIFARE authenticate A/B 0x60/0x61, read 0x30, write 0xA0, 106 kbps Type A 0x00. `PN532_PACKBUFFSIZE` is taken as 64. `keyA`, `keyB` and `useKey` are constructor parameters.
- The member `cardType` is never assigned in the source; `readTarget` computes a local of that name and discards it. The model takes `cardType` as a constructor parameter, and `TypeCode` models the discarded computation.
- The file-static `packetbuffer`, `uid` and `uidLength` are fields of the `Mifare` object.
- `ultralight_writePayload` clears its 4-byte buffer with a 16-byte `memcpy` (Mifare.cpp:239), which overruns it. The model clears the 4 bytes.
- `readTarget` copies `packetbuffer[12]` UID bytes into the 7-byte `uid` array unchecked. `ReadTarget` and `WritePayload` require that a reported UID length is at most 7, which also keeps the UID within the 20 bytes read.
- Driver.Mifare.ClassicWritePayload: the contract states the write log, not the frames sent or the reader's state after a run of writes.
- Driver.Mifare.UltralightWritePayload: the contract states the write log, not the frames sent or the reader's state after a run of writes.
- Driver.Mifare.WritePayload: beyond the card lookup, the contract states the write log, not the frames sent by the chunkers.
- Driver.Mifare.ReadTarget: the contract does not state the packet buffer's contents after the reply, which no caller reads.
- Driver.Mifare.SamConfig, Driver.Mifare.ClassicAuthenticateBlock, Driver.Mifare.ClassicReadBlock, Driver.Mifare.ClassicWriteBlock, Driver.Mifare.UltralightReadBlock, Driver.Mifare.UltralightWriteBlock: the scratch packet buffer's contents after the routine are not modelled beyond the reply bytes the routine reads; no caller reads them.
- Driver.Mifare.Exchange: the contract does not state the packet buffer after an unacknowledged command.
- A payload buffer with no zero byte: `strlen` at Mifare.cpp:153 and 215 reads past its end, which is undefined behaviour. The model takes the end of the sequence as the terminator.
- `classic_authenticateBlock` takes a 32-bit block number and stores its low byte in the frame. Every caller passes a `uint8_t`, so the model takes a byte.
