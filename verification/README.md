# gLogger Mini core, modelled in Dafny

gLogger Mini is AVR firmware that reads NMEA 0183 sentences from a GPS receiver over a serial line and appends them to an SD card. The card has no file system. This project models four parts of the firmware and proves properties about them:

- **NoFS** (`nofs.dfy`, module `NoFs`). It is an append-only byte stream written straight onto 512-byte card sectors.
  - An ETX byte (0x03) marks the end of the data.
  - `nofs_init` resumes at the first ETX found by scanning sectors upward.
  - `nofs_writeString` copies a string into the one-sector working buffer. When the buffer is full it rolls over: it writes the sector, reads the next one, stamps ETX at its byte 0 and writes it back. It then stamps ETX after the data in memory and flushes on every 11th call.
  - The class `Log` holds `fCurrentSector`, `fCurrentByte`, `fWriteCount` and `sectorBuf`, the last as an array.
  - The card is an abstract block device: a map from sector index to 512 bytes.
- **UART rings** (`uart.dfy`, module `Uart`). These are the receive and transmit FIFOs.
  - Each has a 256-slot array with pre-incremented `uint8_t` read and write indices.
  - The class `UartBuffers` holds the arrays, the indices and a ghost queue per ring.
  - `Ring` ties each queue to its array slots `read+1 .. write`.
  - The two interrupt handlers are atomic methods (`RxReceive`, `TxReady`).
- **GPS framing** (`gps.dfy`, module `Gps`):
  - `gps_calculateCS` is an XOR fold.
  - `gps_setParam` serialises a SkyTraq binary message: `0xA0 0xA1`, the big-endian payload length, the message id, the data, the checksum, CR LF. It is a pure `Frame` function plus the `uart_setChar` calls that queue it.
  - `gps_getNMEA` consumes the receive ring up to `$`, then copies the sentence into an output array.
- **SD/MMC over SPI** (`sdmmc.dfy`, module `SdMmc`):
  - the six-byte command frame of section 7.3.1.1 (Command Format) of the SD Physical Layer Simplified Specification;
  - the 256-read response poll;
  - the single-block read and write transactions with the start token 0xFE and the data-response check of section 7.3.3 (Data Response Token) of the same SD Physical Layer Simplified Specification;
  - `sdmmc_changeBlockLength`;
  - the CMD0/CMD1 retry loops of `sdmmc_init`.

  The bus is the class `SdCard`. `sent` records every byte written. `incoming` is the script of the card's answers to successive reads; once it runs out, reads return 0xFF because MISO has its pull-up enabled (`src/protocols/spi.c:28-29`). `selected` is chip select.

`bytes.dfy` (module `Bytes`) holds the shared byte type, ETX/CR/LF/NUL and a first-occurrence search.

Where a description of the firmware disagrees with its code, the model follows the code:

- The binary frame is `|data| + 8` bytes, not `+ 7`. Its fields sum to 2 + 2 + 1 + data + 1 + 2 (gps.c:71-93).
- The retry and polling loops make 256 attempts, not 255, because the counter check follows the attempt.
- An exhausted response poll returns 0, the "ready" response, not a failure (sdmmc.c:91-93).
- `nofs_writeString` ignores the results of its `sdmmc` calls and always returns TRUE. The model's card never fails inside its domain, so the effect of a failed card access on the log is not modelled (see Left out).
- A string of 256 bytes or more never finishes appending: the `uint8_t` index wraps and the loop starts over. So no single call can append 600 bytes.
- The resume scan starts at the current sector, not at sector 0. That sector is 0 at power-on, and the resume properties are stated for that case.
- Sentence classification and checksum validation are described for the framer but do not exist in the code (gps.c:131-135), so they are not modelled.

## Model

| member | source | states |
|---|---|---|
| Bytes.IndexOf | src/modules/nofs.c:35-39 | the result is the index of the first occurrence: nothing before it matches, it matches when in range, and it is the length exactly when the byte is absent |
| NoFs.ResumePointUnique | src/modules/nofs.c:31-47 | a card has at most one resume point (first sector holding ETX, all earlier sectors ETX-free, offset of its first ETX), so the scan's result is determined by the card |
| NoFs.ScanGuardMeansNoEtx | src/modules/nofs.c:44 | the scan's loop guard holds exactly when the sector holds no ETX, and its second conjunct is implied by its first |
| NoFs.CopyCursor | src/modules/nofs.c:58-76 | for a string under 256 bytes, the only strings the `uint8_t` loop finishes, the offset after the copy loop as written stays in 0..512, is unchanged by an empty string and is positive after a non-empty one, because a full buffer rolls over only when another byte is waiting |
| NoFs.CopyCursorClosedForm | src/modules/nofs.c:60-76 | after copying n > 0 bytes from offset cur, the loop as written leaves the offset at (cur + n - 1) mod 512 + 1 |
| NoFs.StampIndexOutOfBounds | src/modules/nofs.c:80 | the ETX stamp index as written is 512, one past the buffer, exactly when cur + n is a multiple of 512 |
| NoFs.StampOutOfBoundsWitness | src/modules/nofs.c:80 | a 12-byte string appended at byte 500 of a sector ends the loop at offset 512, so the stamp indexes past the buffer |
| NoFs.Log.constructor | src/modules/nofs.c:22-26 | the log starts at sector 0, byte 0, write count 0, with a 512-byte buffer |
| NoFs.Log.ReadSector | src/modules/nofs.c:33 | a sector read succeeds exactly when the card has the sector; the buffer then equals it, otherwise it is unchanged |
| NoFs.Log.WriteSector | src/modules/nofs.c:66 | a sector write succeeds exactly when the card has the sector and replaces that sector alone with the buffer |
| NoFs.Log.Init | src/modules/nofs.c:28-53 | with the card up, the scan stops at the first sector holding ETX: every sector passed over is ETX-free, the extra increment is undone, the buffer equals that sector and the cursor is its first ETX; from sector 0 this is the card's resume point and the crash invariant holds; with the card down nothing changes and FALSE is returned |
| NoFs.Log.FindEtx | src/modules/nofs.c:35-39 | the byte scan leaves the cursor at the first ETX of the buffer, or at 512 when there is none |
| NoFs.Log.Rollover | src/modules/nofs.c:64-76 | the full buffer goes to sector k, sector k+1 is read, stamped with ETX at byte 0 and written back, and the cursor moves to byte 0 of k+1; the card now shows ETX at byte 0 of k+1; no other sector changes and the crash invariant is kept |
| NoFs.Log.WriteString | src/modules/nofs.c:55-89 | the string's bytes occupy the next stream positions in order, earlier stream bytes and sectors before the entry sector are untouched, the buffer holds ETX at the cursor, the call count cycles 0..10 with a flush exactly when it was 10, at most one rollover happens, and without a flush the card's copy of a newly entered sector is its old contents with ETX at byte 0, TRUE is returned, and after a flush of ETX-free data the cursor is the card's resume point |
| NoFs.Log.CopyAll | src/modules/nofs.c:58-77 | the copy loop places every byte at consecutive stream positions, leaves the cursor at CopyCursor, rolls over at most once for a string under 256 bytes, leaving ETX at byte 0 of the new sector on the card, writes only the entry sector and that next sector, and keeps the crash invariant for ETX-free input |
| NoFs.Log.Step | src/modules/nofs.c:61-76 | one pass copies the next byte when the buffer has room and rolls over otherwise, without losing any byte already placed; a rollover moves to the next sector and leaves it on the card with ETX at byte 0 |
| NoFs.Log.CopyStep | src/modules/nofs.c:61-63 | a byte is stored at the cursor, the cursor advances, and every earlier stream byte is unchanged |
| NoFs.Log.RolloverStep | src/modules/nofs.c:64-76 | a rollover keeps the stream position and every stream byte before it, changes only sectors k and k+1, and leaves sector k+1 on the card as it was with ETX at byte 0 |
| NoFs.Log.StampAndCount | src/modules/nofs.c:79-86 | ETX is stamped at the cursor without disturbing earlier stream bytes; the count wraps from 10 to 0 with a flush of the current sector, otherwise it grows by one and the card is untouched |
| Uart.NextIsUint8Increment | src/protocols/uart.c:41 | the pre-increment of an index is `(i + 1) mod 256`, the uint8_t wrap-around |
| Uart.Count | src/protocols/uart.c:47-49 | the number of unread bytes is below 256 and is 0 exactly when the read index equals the write index |
| Uart.CountIsUint8Difference | src/protocols/uart.c:20-21 | the number of unread bytes is `(write - read) mod 256` |
| Uart.AgreePush | src/protocols/uart.c:94 | storing at the pre-incremented write index of a ring that is not full keeps the unread slots and makes the new byte readable after them |
| Uart.RingPush | src/protocols/uart.c:94 | a store at write+1 followed by the index advance appends the byte to the queue |
| Uart.RingPop | src/protocols/uart.c:41 | the slot at read+1 holds the oldest unread byte, and advancing the read index removes exactly that byte |
| Uart.Next | src/protocols/uart.c:41 | the pre-incremented index stays a uint8_t value, 0..255 |
| Uart.FullAsWritten | src/protocols/uart.c:93 | whenever the int-evaluated test reports the ring full, the ring is full: the test never rejects a byte that fits |
| Uart.Full | src/protocols/uart.c:93 | the wrapped full test holds exactly when 255 bytes are unread |
| Uart.FullAsWrittenMisses | src/protocols/uart.c:93 | the int-evaluated test `write + 1 != read` differs from the wrapped one exactly at write 255, read 0 |
| Uart.OverrunEmptiesRing | src/protocols/uart.c:93-94 | at write 255, read 0 the ring holds 255 bytes, the test as written accepts another byte, and the advanced write index meets the read index, so the ring reads as empty |
| Uart.UartBuffers.constructor | src/protocols/uart.c:19-25 | both rings start empty with all indices 0 |
| Uart.UartBuffers.HasData | src/protocols/uart.c:47-49 | true exactly when read differs from write, and exactly when the receive queue is non-empty |
| Uart.UartBuffers.GetChar | src/protocols/uart.c:39-45 | on an empty ring it returns NUL and changes nothing; otherwise it returns the oldest received byte, removes it and advances the read index by one mod 256 |
| Uart.UartBuffers.RxReceive | src/protocols/uart.c:91-99 | a received byte is appended to the queue exactly when fewer than 255 bytes are unread; otherwise it is dropped with contents and indices unchanged; the read index never changes |
| Uart.UartBuffers.ClearBuf | src/protocols/uart.c:86-88 | the read index becomes the write index, the queue empties and the write index is kept |
| Uart.UartBuffers.SetChar | src/protocols/uart.c:68-77 | the byte is appended to the transmit queue, the write index advances by one mod 256, the read index is kept and the transmit interrupt is enabled |
| Uart.UartBuffers.SetString | src/protocols/uart.c:79-84 | every byte before the NUL is queued, in order |
| Uart.UartBuffers.TxReady | src/protocols/uart.c:101-109 | with bytes queued it emits the oldest and advances the read index; on an empty ring it disables itself and leaves the indices; bytes leave in the order they were queued |
| Uart.UartBuffers.CopyLine | src/protocols/uart.c:51-58 | copies at least one and at most `size` bytes, the oldest first, stopping after an LF, when the ring runs empty or at `size`; on an empty ring it copies a single NUL |
| Uart.UartBuffers.GetString | src/protocols/uart.c:51-66 | as CopyLine, and the last copied byte is replaced by NUL, as is a CR just before it; the count returned is the number of bytes copied, 1 on an empty ring |
| Gps.Checksum | src/modules/gps.c:61-67 | the XOR of the payload bytes folded from the front: 0 for an empty payload, the byte itself for one byte |
| Gps.ChecksumFromBack | src/modules/gps.c:61-67 | folding the XOR from the back gives the same checksum as the loop's front-to-back fold |
| Gps.ChecksumAppend | src/modules/gps.c:61-67 | the checksum of a concatenation is the XOR of the parts' checksums, so the fold may be split anywhere |
| Gps.ChecksumSelfCancels | src/modules/gps.c:89 | a payload followed by its checksum has checksum 0, the receiver's check |
| Gps.JoinSplit | src/modules/gps.c:75-76 | the high and low bytes of a uint16_t join back to it |
| Gps.SplitJoin | src/modules/gps.c:75-76 | two bytes joined into a uint16_t split back into themselves |
| Gps.Frame | src/modules/gps.c:69-96 | a frame with d data bytes is d + 8 bytes long |
| Gps.FrameHeader | src/modules/gps.c:70-81 | the frame starts 0xA0 0xA1, then the big-endian length of message id plus data, then the message id |
| Gps.FrameBody | src/modules/gps.c:83-93 | after the header come the data bytes, then the XOR of the message id and data, CR and LF |
| Gps.FrameLayout | src/modules/gps.c:69-93 | the whole layout: sync bytes, length, id, data, checksum, CR, LF |
| Gps.ParseFrameRoundTrip | src/modules/gps.c:69-96 | reading back a serialised message gives its id and data |
| Gps.ParseFrameOnlyFrames | src/modules/gps.c:69-96 | every byte sequence that reads back as a message is that message's serialisation, so the layout is unambiguous |
| Gps.SendBytes | src/modules/gps.c:84-86 | consecutive uart_setChar calls append the bytes to the transmit queue in order and leave the receive ring alone |
| Gps.SetParam | src/modules/gps.c:69-96 | the transmit queue grows by exactly Frame(cmd, data) and GPS_ACK is returned |
| Gps.SkipToDollar | src/modules/gps.c:100-103 | every received byte up to and including the first `$` is consumed, and nothing after it |
| Gps.CopySentence | src/modules/gps.c:106-129 | out[1..m] are the next m received bytes in order, the copy stops right after the first LF or when the index reaches maxLen - 1 (never before one byte), out[m + 1] is NUL, and exactly those m bytes are consumed |
| Gps.ReadInto | src/modules/gps.c:117-124 | one pass moves the oldest received byte to out[i] and keeps every other output byte |
| Gps.Terminate | src/modules/gps.c:129 | out[i] becomes NUL and nothing else changes |
| Gps.GetNmea | src/modules/gps.c:98-136 | out[0] is `$`, the bytes after the first received `$` are copied up to and including the LF (or to the length limit), the string is NUL-terminated within bounds, and the ring keeps what follows |
| SdMmc.CommandByte | src/modules/sdmmc.c:63-65 | bit 7 of the first frame byte is clear, bit 6 set, and the six low bits are the command's |
| SdMmc.CrcByte | src/modules/sdmmc.c:70 | bit 0 of the last frame byte is set and the other bits are the CRC's |
| SdMmc.ArgumentBytes | src/modules/sdmmc.c:79-82 | the argument goes out as exactly four bytes; ArgumentRoundTrip and ArgumentBytesRoundTrip show they are its big-endian encoding |
| SdMmc.ArgumentRoundTrip | src/modules/sdmmc.c:79-82 | the four argument bytes, most significant first, reassemble into the argument |
| SdMmc.ArgumentBytesRoundTrip | src/modules/sdmmc.c:79-82 | every four bytes are the encoding of exactly one argument |
| SdMmc.CommandFrame | src/modules/sdmmc.c:57-83 | six bytes: 01 then the six-bit command, the big-endian argument, and the CRC with its end bit set |
| SdMmc.CommandBytesLayout | src/modules/sdmmc.c:72-83 | a command puts seven bytes on the bus: the dummy 0xFF, then 01 and the six-bit command, four bytes that reassemble into the argument, and the CRC with its end bit set |
| SdMmc.SectorToByte | src/modules/sdmmc.h:34 | the byte address is the sector times 512, modulo 2^32 |
| SdMmc.SectorToByteExact | src/modules/sdmmc.h:34 | below 2^23 sectors the byte address gives back the sector |
| SdMmc.SectorToByteWraps | src/modules/sdmmc.h:34 | sector 2^23 has the same byte address as sector 0 |
| SdMmc.PollFrom | src/modules/sdmmc.c:86-97 | the poll reads at least once and at most 256 times and never returns 0xFF |
| SdMmc.Poll | src/modules/sdmmc.c:86-97 | the response poll reads 1 to 256 bytes and never returns 0xFF |
| SdMmc.PollFromSkipsIdle | src/modules/sdmmc.c:86-97 | every read before the last was 0xFF; the value is the last read unless that was the 256th read, in which case it is 0 |
| SdMmc.PollTimeout | src/modules/sdmmc.c:91-95 | a card silent for 255 reads yields 0, indistinguishable from the "ready" response |
| SdMmc.PollDropsLastRead | src/modules/sdmmc.c:91-95 | a response arriving on the 256th read is replaced by 0 |
| SdMmc.TokenFrom | src/modules/sdmmc.c:153-160 | the start token is found exactly when 0xFE is among the first 255 reads; then it is the first 0xFE and its position is returned |
| SdMmc.RetryFrom | src/modules/sdmmc.c:27-49 | a retry loop sends the command 1 to 256 times and fails only after all 256 attempts |
| SdMmc.Continue | src/modules/sdmmc.c:28-35 | after a response the loop gives up on the 256th attempt, accepts the wanted response, or retries; the attempt bounds carry over |
| SdMmc.FirstWantedIsFirstResponse | src/modules/sdmmc.c:86-97 | counting successive polls from 0, FirstWanted is the index of the first response equal to `want`: no earlier response is, and that one is when it is in range |
| SdMmc.RetryStopsAtFirstWanted | src/modules/sdmmc.c:27-49 | a retry loop, k attempts in, succeeds exactly when the first wanted response comes before its 256th attempt, and its attempt count is then one past that response's index |
| SdMmc.RetryAcceptsFirstMatch | src/modules/sdmmc.c:27-49 | a retry loop succeeds exactly when one of the responses to its first 255 attempts is the wanted one; it stops at the first of them, every earlier response differs, and a wanted response on the 256th attempt is not taken |
| SdMmc.SilentCardNeverIdle | src/modules/sdmmc.c:27-36 | a card that never answers never passes CMD0 |
| SdMmc.SilentCardPassesOpCond | src/modules/sdmmc.c:42-49 | a card that answers CMD0 once and then falls silent passes CMD1 on the first attempt, because the poll's timeout value equals "ready" |
| SdMmc.SdCard.constructor | src/modules/sdmmc.c:10 | nothing sent, card deselected, block length 512 |
| SdMmc.SdCard.ReadByte | src/modules/sdmmc.c:90 | a read returns the next scripted answer, or 0xFF once the script is exhausted, and consumes it |
| SdMmc.SdCard.WriteByte | src/modules/sdmmc.c:78 | a write appends the byte to the bus trace |
| SdMmc.SdCard.PollResponse | src/modules/sdmmc.c:86-97 | the polling loop returns Poll's value and consumes exactly Poll's count of bytes |
| SdMmc.SdCard.WriteCommand | src/modules/sdmmc.c:57-98 | sends 0xFF then the six-byte frame, leaves the card selected, and returns the polled response |
| SdMmc.SdCard.AwaitToken | src/modules/sdmmc.c:150-160 | succeeds exactly when the token is found in time, consuming up to it, otherwise all 256 reads |
| SdMmc.SdCard.ReadBlock | src/modules/sdmmc.c:162-165 | out[0..blockLength) receive the next blockLength answers in order; the rest of out is untouched |
| SdMmc.SdCard.ReceiveBlock | src/modules/sdmmc.c:150-169 | with the token found the block follows it and two CRC bytes are discarded; without it out is untouched |
| SdMmc.SdCard.ReadSector | src/modules/sdmmc.c:141-173 | sends CMD17 with the sector's byte address; fails on a non-zero response or a missing token and leaves out untouched; otherwise out[0..blockLength) are exactly the bytes after the token; chip select is released on every path |
| SdMmc.SdCard.SkipBytes | src/modules/sdmmc.c:167-169 | n reads consume exactly n answers |
| SdMmc.SdCard.SendBlock | src/modules/sdmmc.c:117-120 | data[0..blockLength) go onto the bus in order |
| SdMmc.SdCard.AwaitReady | src/modules/sdmmc.c:132-135 | the busy wait consumes answers up to and including the first 0xFF |
| SdMmc.SdCard.Accepted | src/modules/sdmmc.c:127 | a data response counts as accepted only when its low five bits read 0x05, so an idle bus (0xFF) never does |
| SdMmc.SdCard.SendData | src/modules/sdmmc.c:109-130 | 100 dummy reads, then 0xFE, the block and 0xFF 0xFF are sent; accepted exactly when the next answer's low five bits are 0x05 |
| SdMmc.SdCard.WriteSector | src/modules/sdmmc.c:100-139 | sends CMD24 with the sector's byte address; on a non-zero response nothing more is sent; otherwise token, block and CRC follow; TRUE exactly when the response is 0 and the data response is accepted; chip select is released on every path |
| SdMmc.SdCard.ChangeBlockLength | src/modules/sdmmc.c:176-190 | 0 means 512; CMD16 is sent with that length, and the block length changes to it exactly when the response is 0, otherwise it keeps its value |
| SdMmc.SdCard.Attempt | src/modules/sdmmc.c:28-35 | one pass sends the command once and moves the loop's outcome one step along RetryFrom |
| SdMmc.SdCard.RetryCommand | src/modules/sdmmc.c:27-36 | the loop's result, the commands sent and the script consumed are exactly RetryFrom's, and the card is left selected exactly on success |
| SdMmc.SdCard.Init | src/modules/sdmmc.c:12-55 | 20 dummy bytes, then CMD0 retried until idle and CMD1 retried until ready, with results, traffic and consumed script as RetryFrom gives them; the card ends deselected |

## Left out

- SPI register setup, clock rates and the SPIF busy-waits (`src/protocols/spi.c`), `spi_highspeed`, and `spi_init`, which always succeeds. The bus is the `sent` trace plus the `incoming` script.
- The main loop, LEDs, power reduction and `_delay_ms`/`_delay_s`, including the delay between sector writes at nofs.c:67. They are timing and glue.
- `gps_init` and `uart_init`. They only configure devices.
- Interleaving of the interrupt handlers with the main flow, and `volatile`. Each handler is an atomic step.
- `error()` in `sdmmc_init`. It halts the processor; here it is a FALSE result with chip select released.
- Sentence classification and validity checking in `gps_getNMEA`. The code has only a TODO, and its return value `GPS_NMEA_UNKOWN` is not defined in any header. The comma counter is counted but never used.
- `UART_BUFFER_SIZE` is not defined (uart.h:42-43 define other sizes). Both ring arrays are 256 long, the range of the `uint8_t` indices.
- NoFs.Log.Init: the scan is not modelled as running forever when no sector holds ETX. The caller names a sector `last` holding ETX, and every sector up to it must exist.
- NoFs.Log: sector numbers are unbounded, so the `uint32_t` wrap of `fCurrentSector` is not modelled.
- NoFs.Log.ReadSector: NoFS calls `sdmmc_init` as a boolean and the sector functions with three arguments, which the SD driver does not declare. The card is therefore an abstract map, and this member is not tied to SdMmc.SdCard.ReadSector.
- NoFs.Log.WriteString: only the corrected end-of-call stamp is modelled (see Findings). The string must be under 256 bytes and free of NUL. Every sector it reaches must exist.
- NoFs.Log.WriteString, NoFs.Log.Rollover: card failures are not modelled. The card fails only on a missing sector, and these members require every sector they reach to exist. The source ignores every `sdmmc` result at nofs.c:64-76 and :84. A failed read of sector k+1 would leave the old data in the buffer, and a failed write-back would leave no ETX on the card. The preserved crash invariant `Clean()` depends on every card access succeeding.
- Uart.UartBuffers.SetChar, Uart.UartBuffers.SetString, Gps.SendBytes, Gps.SetParam: the source spins while the transmit ring is full and the interrupt drains it. Here the caller must leave room.
- Uart.UartBuffers.RxReceive: the corrected wrapped full test is modelled (see Findings).
- Gps.SkipToDollar, Gps.CopySentence, Gps.GetNmea: the source waits for bytes to arrive. Here the receive ring must already hold the `$` and enough of the sentence.
- Gps.Frame: gps_setParam never returns for 256 or more data bytes, because its `uint8_t` index cannot reach the length. So the frame is defined for up to 255 bytes.
- SdMmc.SdCard.AwaitReady: the source's ready wait is unbounded. It ends here because the script is finite and an exhausted script reads 0xFF.

## Findings

| source | as written | input that shows it | evidently intended | confidence | as-written member | corrected member |
|---|---|---|---|---|---|---|
| src/modules/nofs.c:80 | the copy loop rolls over only when another byte is waiting, so a string ending on a sector boundary leaves `fCurrentByte` at 512 and the stamp writes `sectorBuf[512]`, past the buffer | a 12-byte string appended at byte 500 of a sector | roll over before stamping, so the ETX goes to byte 0 of the next sector | high; not executed | NoFs.StampOutOfBoundsWitness | NoFs.Log.WriteString |
| src/protocols/uart.c:93 | the full test `write + 1 != read` is computed in int, so it holds at write 255, read 0 with 255 bytes unread; the byte is stored and write wraps onto read, so the ring reads as empty and 256 bytes are lost | write index 255, read index 0, one more byte received | compare the wrapped index `(uint8_t)(write + 1)` with read | high; not executed | Uart.OverrunEmptiesRing | Uart.UartBuffers.RxReceive |
| src/protocols/uart.c:71 | the same int test in `uart_setChar` does not wait at write 255, read 0, so the new byte wraps write onto read and the 255 queued bytes are never sent | transmit write index 255, read index 0, one more byte queued | wait on the wrapped index | high; not executed | Uart.FullAsWrittenMisses | Uart.UartBuffers.SetChar |
