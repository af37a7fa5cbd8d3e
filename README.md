# Modbus RTU master, modelled in Dafny

This project models the Modbus RTU master driver of an ESP32 firmware
(`slave/main/libraries/esp32-modbus/modbus.cpp`). The driver talks to one
slave over a half-duplex RS-485 line. Two GPIO pins switch the transceiver
between transmitting and receiving: Driver Enable (DE) and Receiver Enable
(RE). The driver:

- builds one-register read requests (functions 3 and 4) and one-register write requests (function 16, Write Multiple Registers, quantity 1);
- seals each request with a table-driven CRC-16/MODBUS;
- sends a request between two guard delays, with the line held by the master;
- polls the UART up to ten times for a reply;
- checks the reply's CRC and decodes it;
- makes at most three attempts per transaction, so at most two retries, and retries only when the reply fails its CRC.

The model has four modules, one per part of the driver:

- `Crc` (`crc.dfy`): the bitwise CRC-16/MODBUS as the reference definition (seed 0xFFFF, reflected polynomial 0xA001). Also the driver's 256-entry table as a constant, the table step, and the driver's loop `Crc.Compute` over an array. Each table entry is proved equal to eight bitwise rounds. Hence the table CRC equals the bitwise CRC on every input.
- `Frame` (`frame.dfy`): the frame layouts. A frame is sealed when its last two bytes are the CRC of the rest, low byte first. `BuildReadRequest` and `BuildWriteRequest` fill an array index by index, as the driver does. The model also gives the replies a well-behaved slave sends.
- `Response` (`response.dfy`): the decoding of the 16-byte zero-initialised receive buffer. The pure `Decode` is the specification. `DecodeBuffer` is the driver's code on the array: a CRC check low byte then high byte, then a big-endian shift-and-add loop for functions 3 and 4, the value 1 for function 16, and INT32_MIN otherwise. A CRC mismatch gives INT32_MIN + 1.
- `Master` (`master.dfy`): the class `Modbus` with the driver's fields, its receive buffer `rx`, and a log `trace` of line events. Line events are DE/RE levels, waits, flushes of the receive buffer, transmitted bytes and read results. The slave is a scripted sequence of replies `bus`, one per read. Each reply lists the bytes that arrive during each of the ten 10 ms polls. The retry loop shared by `request` and `set` is `Transact`. It is proved against the pure function `Exchange`, and the lemmas about `Exchange` state the retry and line-direction properties.

Notes on the code, which the model follows:

- The Modbus Application Protocol Specification V1.1b3 defines Write Single Register as function 6. The driver's `set` instead sends function 16, Write Multiple Registers, with quantity 1 and byte count 2 (`modbus.cpp:266-272`).
- A reply with a valid CRC whose function byte is not 3, 4 or 16 is decoded as INT32_MIN (`modbus.cpp:130-148`), the same value that stands for no reply.
- `set` and `request` compute their guard delay with integer division, so it is zero for every accepted baud rate (`modbus.cpp:261` and `modbus.cpp:330`). The model uses this delay; the intended one is given under "## Findings".

## Model

| member | source | states |
|---|---|---|
| Crc.TableCrcIsBitwise | slave/main/libraries/esp32-modbus/modbus.cpp:185-214 | The table-driven CRC equals the bitwise CRC-16/MODBUS (seed 0xFFFF, polynomial 0xA001) on every byte string. |
| Crc.TableEntry | slave/main/libraries/esp32-modbus/modbus.cpp:186-204 | Every one of the 256 table entries is eight bitwise rounds applied to its index. |
| Crc.StepAgrees | slave/main/libraries/esp32-modbus/modbus.cpp:209-211 | One table step `(crc >> 8) ^ table[(b ^ crc) & 0xFF]` equals eight bitwise rounds after XOR-ing the byte in. |
| Crc.Compute | slave/main/libraries/esp32-modbus/modbus.cpp:182-215 | The driver's loop over the first `length` bytes of an array returns the bitwise CRC of exactly those bytes. |
| Crc.SingleByteChangeDetected | slave/main/libraries/esp32-modbus/modbus.cpp:207-212 | Two equal-length strings that differ in exactly one byte have different CRCs, under both the table and the bitwise definitions. |
| Crc.DivergesFrom | slave/main/libraries/esp32-modbus/modbus.cpp:207-212 | Once two CRC states differ, equal suffixes keep them different. |
| Crc.ReadRequestVector | slave/main/libraries/esp32-modbus/modbus.cpp:182-215 | The CRC of 01 03 00 00 00 01 is 0x0A84. |
| Crc.ReadResponseVector | slave/main/libraries/esp32-modbus/modbus.cpp:182-215 | The CRC of 01 03 02 00 64 is 0xAFB9. |
| Frame.WordRoundTrip | slave/main/libraries/esp32-modbus/modbus.cpp:268-269 | A 16-bit word split into high and low bytes is rebuilt exactly from them. |
| Frame.SealedIff | slave/main/libraries/esp32-modbus/modbus.cpp:276-278 | Appending low-then-high CRC bytes yields a sealed frame, and a sealed frame is exactly its body plus that trailer. |
| Frame.TrailerIsCrc | slave/main/libraries/esp32-modbus/modbus.cpp:341-343 | The two trailer bytes, read high then low, spell the body's CRC. |
| Frame.ReadRequestLayout | slave/main/libraries/esp32-modbus/modbus.cpp:335-343 | The read request is 8 bytes: id, function, address high, address low, 0, 1, CRC low, CRC high; it is sealed. |
| Frame.WriteFrameLayout | slave/main/libraries/esp32-modbus/modbus.cpp:266-278 | The write request is 11 bytes: id, 16, address high and low, 0, 1, 2, the two data bytes, CRC low, CRC high; it is sealed. |
| Frame.WriteRequestLayout | slave/main/libraries/esp32-modbus/modbus.cpp:273-274 | The two data bytes of a write carry the written value modulo 2^16, high byte first. |
| Frame.WriteKeepsLowHalf | slave/main/libraries/esp32-modbus/modbus.cpp:273-274 | Two values give the same write request if and only if they agree modulo 2^16: only the low 16 bits reach the wire. |
| Frame.WriteFrameInjective | slave/main/libraries/esp32-modbus/modbus.cpp:266-278 | Two write frames for the same slave and address are equal if and only if their data bytes are. |
| Frame.ValueBytes | slave/main/libraries/esp32-modbus/modbus.cpp:273-274 | The stored bytes `value >> 8` and `value & 0xFF` (arithmetic shift, truncated to 8 bits) give `value mod 2^16` as high*256 + low. |
| Frame.ValueBytesAgree | slave/main/libraries/esp32-modbus/modbus.cpp:273-274 | Two values store the same two data bytes if and only if they agree modulo 2^16. |
| Frame.AppendCrc | slave/main/libraries/esp32-modbus/modbus.cpp:276-278 | Filling the last two array slots with the CRC of the first n bytes, low byte first, seals the body and leaves it unchanged. |
| Frame.BuildReadRequest | slave/main/libraries/esp32-modbus/modbus.cpp:332-343 | The array filled index by index is exactly the read request frame. |
| Frame.BuildWriteRequest | slave/main/libraries/esp32-modbus/modbus.cpp:263-278 | The array filled index by index is exactly the write request frame. |
| Frame.SingleByteChangeBreaksSeal | slave/main/libraries/esp32-modbus/modbus.cpp:128 | Changing any one byte of a sealed frame, trailer included, yields an unsealed frame. |
| Response.Fill | slave/main/libraries/esp32-modbus/modbus.cpp:107-115 | The receive buffer holds the bytes read, followed by zeros up to 16 bytes. |
| Response.CrcMatchesIffSealed | slave/main/libraries/esp32-modbus/modbus.cpp:116-128 | The driver's check (CRC low byte at `lgt-2`, high byte at `lgt-1`) accepts exactly the sealed `lgt`-byte frames. |
| Response.BigEndianBound | slave/main/libraries/esp32-modbus/modbus.cpp:136-139 | A big-endian value of k bytes is below 256^k. |
| Response.BigEndianPair | slave/main/libraries/esp32-modbus/modbus.cpp:136-139 | Two data bytes decode to the 16-bit value they were made from. |
| Response.DecodeErrors | slave/main/libraries/esp32-modbus/modbus.cpp:128-153 | Decoding gives INT32_MIN+1 if and only if the frame is not sealed. It gives INT32_MIN if and only if the frame is sealed and its function is not 3, 4 or 16. Otherwise it gives a value in [0, 2^24). |
| Response.DecodeReadResponse | slave/main/libraries/esp32-modbus/modbus.cpp:130-140 | A slave's one-register read reply decodes to the register value modulo 2^16. |
| Response.DecodeWriteResponse | slave/main/libraries/esp32-modbus/modbus.cpp:141-145 | A slave's write acknowledgement decodes to 1. |
| Response.CorruptedReplyIsCrcError | slave/main/libraries/esp32-modbus/modbus.cpp:150-154 | A sealed reply with any one byte changed decodes to INT32_MIN+1. |
| Response.ReplyVector | slave/main/libraries/esp32-modbus/modbus.cpp:128-148 | The reply 01 03 02 00 64 B9 AF decodes to 100. |
| Response.Assemble | slave/main/libraries/esp32-modbus/modbus.cpp:135-139 | The shift-and-add loop over `bff[2]` data bytes from index 3 computes their big-endian value. |
| Response.DecodeBuffer | slave/main/libraries/esp32-modbus/modbus.cpp:115-153 | The driver's decoding of the receive array equals `Decode` of its contents. |
| Master.EventsAppend | slave/main/libraries/esp32-modbus/modbus.cpp:283-303 | Replaying, half-duplex checking, transmitted bytes and read counts all compose over concatenated event logs. |
| Master.AttemptFacts | slave/main/libraries/esp32-modbus/modbus.cpp:283-294 | One attempt raises DE and RE together to (1,1) before sending and lowers both to (0,0) before reading. It keeps the half-duplex discipline from any start, transmits exactly the frame, reads once, and moves the two pins in lockstep. |
| Master.SendFacts | slave/main/libraries/esp32-modbus/modbus.cpp:78-83 | Sending flushes the receive buffer and then transmits exactly the frame. It needs the master to hold the line, leaves the pins alone and reads nothing. |
| Master.PinsMoveOnlyWithPinEvents | slave/main/libraries/esp32-modbus/modbus.cpp:283-291 | Only DE and RE events move the pins: a DE event sets DE only, an RE event sets RE only, and every other event leaves every pin state unchanged. |
| Master.LockstepAt | slave/main/libraries/esp32-modbus/modbus.cpp:283-291 | In a lockstep log, every DE(l) is directly followed by RE(l), and every RE(l) directly follows DE(l). |
| Master.LockstepLevels | slave/main/libraries/esp32-modbus/modbus.cpp:283-291 | A lockstep log that starts with DE and RE equal ends with them equal. |
| Master.LockstepAppend | slave/main/libraries/esp32-modbus/modbus.cpp:281-304 | Two lockstep logs concatenated form a lockstep log. |
| Master.Search | slave/main/libraries/esp32-modbus/modbus.cpp:109-113 | Polling stops as ready only with more than five bytes buffered. |
| Master.PollOutcome | slave/main/libraries/esp32-modbus/modbus.cpp:109-158 | The read finds nothing if and only if the buffered bytes stay at or below five through all ten waits, and it then keeps everything gathered. Otherwise it stops at the first wait after which more than five bytes are buffered, with exactly the bytes gathered up to then. |
| Master.QuietFrom | slave/main/libraries/esp32-modbus/modbus.cpp:109-113 | From any wait on, polling stays quiet exactly when no later wait takes the buffer past five bytes. |
| Master.StopsAt | slave/main/libraries/esp32-modbus/modbus.cpp:109-113 | From any wait on, polling stops at the first later wait that takes the buffer past five bytes. |
| Master.SilenceIsQuiet | slave/main/libraries/esp32-modbus/modbus.cpp:109-158 | With nothing arriving, none of the ten polls becomes ready. |
| Master.PollFound | slave/main/libraries/esp32-modbus/modbus.cpp:113-149 | The poll where the buffer passes five bytes is where the driver reads and decodes, and what it reads is what `Listen` says. |
| Master.PollPassed | slave/main/libraries/esp32-modbus/modbus.cpp:109-113 | A poll at or below five buffered bytes moves on to the next poll. |
| Master.Drain | slave/main/libraries/esp32-modbus/modbus.cpp:115-153 | Reading up to 16 buffered bytes into a zeroed buffer and decoding them gives `Decode` of that buffer, and leaves the remaining bytes buffered. |
| Master.SilenceHeard | slave/main/libraries/esp32-modbus/modbus.cpp:158 | A silent slave is heard as INT32_MIN. |
| Master.ListenOnce | slave/main/libraries/esp32-modbus/modbus.cpp:113-149 | A reply of 6 to 16 bytes arriving in the first poll is read whole and decoded. |
| Master.ExchangeDiscipline | slave/main/libraries/esp32-modbus/modbus.cpp:345-371 | Whatever the slave does, a transaction never returns the CRC-error code. It keeps DE/RE at (1,1) for every transmitted byte and at (0,0) for every read. It reads at least once and at most as many times as the attempt budget (three in the driver), and transmits the frame exactly once per read. |
| Master.ExchangeAnswered | slave/main/libraries/esp32-modbus/modbus.cpp:359-368 | If reads 0..k-1 give CRC errors and read k does not, the transaction returns read k's value after k+1 attempts, with the lines left at (1,1). |
| Master.ExchangeLockstep | slave/main/libraries/esp32-modbus/modbus.cpp:345-369 | In every transaction, whatever the slave does, each DE(l) is directly followed by RE(l) and no RE is logged on its own. So DE and RE are equal after the transaction whenever they were equal before it. |
| Master.ExchangeExhausted | slave/main/libraries/esp32-modbus/modbus.cpp:361-362 | If every read gives a CRC error, the transaction returns INT32_MIN after all three attempts, with the lines left at (0,0). |
| Master.ProgressRetry | slave/main/libraries/esp32-modbus/modbus.cpp:296-297 | Retrying after a CRC error keeps the loop's account of the whole transaction. |
| Master.ProgressDone | slave/main/libraries/esp32-modbus/modbus.cpp:300-303 | Stopping on any other result completes the transaction after i+1 attempts. |
| Master.ProgressExhausted | slave/main/libraries/esp32-modbus/modbus.cpp:281-307 | Leaving the loop after three CRC errors completes the transaction. |
| Master.CorrectReadReply | slave/main/libraries/esp32-modbus/modbus.cpp:113-148 | The master hears a correct read reply as the register value modulo 2^16. |
| Master.CorrectWriteReply | slave/main/libraries/esp32-modbus/modbus.cpp:141-145 | The master hears a correct write acknowledgement as 1. |
| Master.RequestAnswered | slave/main/libraries/esp32-modbus/modbus.cpp:345-371 | A read answered correctly the first time returns the register after one attempt, having transmitted the request frame exactly once. |
| Master.WriteAcknowledged | slave/main/libraries/esp32-modbus/modbus.cpp:280-309 | A write acknowledged the first time gives 1 after one attempt. |
| Master.SilentSlave | slave/main/libraries/esp32-modbus/modbus.cpp:359-368 | A slave that does not answer ends the transaction after one attempt with INT32_MIN: no retry on silence. |
| Master.CorruptedReplyHeard | slave/main/libraries/esp32-modbus/modbus.cpp:150-154 | A reply with one byte damaged in transit is heard as a CRC error. |
| Master.RetryAfterCorruption | slave/main/libraries/esp32-modbus/modbus.cpp:359-368 | A damaged first reply followed by a correct one gives the register after exactly two attempts. |
| Master.SecondReplyUsed | slave/main/libraries/esp32-modbus/modbus.cpp:359-368 | A CRC error on the first read and none on the second gives the second read's value after two attempts. |
| Master.DelayAsWrittenVanishes | slave/main/libraries/esp32-modbus/modbus.cpp:261 | The guard delay as written is 0 for every baud rate except 1 and -1, so it is 0 at 4800 and 115200 baud. |
| Master.GuardDelayIsCeiling | slave/main/libraries/esp32-modbus/modbus.cpp:260-261 | The intended guard delay is the least whole number of microseconds at least as long as 40 bit times. |
| Master.GuardDelayExamples | slave/main/libraries/esp32-modbus/modbus.cpp:329-330 | The intended guard delay is 8334 us at 4800 baud and 348 us at 115200 baud. |
| Master.Modbus.constructor | slave/main/libraries/esp32-modbus/modbus.h:42-49 | A fresh driver has an empty receive buffer, an empty log and zeroed configuration. |
| Master.Modbus.Init | slave/main/libraries/esp32-modbus/modbus.cpp:15-56 | A baud rate below 4800 or a buffer below 129 changes nothing. Otherwise the configuration is stored, then DE=0 and RE=1 are logged, and then the flush is logged and the receive buffer emptied. |
| Master.Modbus.SetDe | slave/main/libraries/esp32-modbus/modbus.cpp:240-243 | Logs the DE level; only DE changes. |
| Master.Modbus.SetRe | slave/main/libraries/esp32-modbus/modbus.cpp:230-233 | Logs the RE level; only RE changes. |
| Master.Modbus.Flush | slave/main/libraries/esp32-modbus/modbus.cpp:220-223 | The receive buffer becomes empty and the flush is logged. Pins, replies and configuration are unchanged. |
| Master.Modbus.Write | slave/main/libraries/esp32-modbus/modbus.cpp:74-84 | The log gains a flush and then exactly the first `size` bytes, in order. The receive buffer ends empty. |
| Master.Modbus.Read | slave/main/libraries/esp32-modbus/modbus.cpp:104-159 | The driver's read returns what `Listen` gives for the buffered bytes and the next reply, leaves the unread bytes buffered, and consumes that reply. |
| Master.Modbus.Try | slave/main/libraries/esp32-modbus/modbus.cpp:283-294 | One attempt logs, in this order: DE(1), RE(1), a wait, the flush, the frame, a wait, DE(0), RE(0) and the read result. |
| Master.Modbus.Transact | slave/main/libraries/esp32-modbus/modbus.cpp:280-304 | For a given guard delay, the retry loop's result, log, buffer and consumed replies are those of `Exchange` over the slave's replies. |
| Master.Modbus.Request | slave/main/libraries/esp32-modbus/modbus.cpp:322-372 | A function other than 3 or 4 gives -1 and touches nothing. Otherwise the read request is exchanged in up to three attempts, with the guard delay as the code computes it. |
| Master.Modbus.Set | slave/main/libraries/esp32-modbus/modbus.cpp:256-310 | The write request for the value's low 16 bits is exchanged in up to three attempts, with the guard delay as the code computes it. The result is 1 exactly when the final read gave 1, and 0 otherwise. |

## Left out

- UART and GPIO driver calls are not modelled: the pin setup, the UART configuration and driver installation in `init`, `uart_wait_tx_done`, and the driver's own buffering. A GPIO write becomes a logged event. The UART receive buffer is the sequence `rx`.
- `set_baudrate` is not modelled: it only forwards to the UART driver.
- `available` is not a member: the read loop compares the length of `rx` with 5 directly.
- Timing is not modelled. The 10 ms poll waits are the ten slots of a reply's `arrivals`. `ets_delay_us` is a logged `Wait` event. `uart_read_bytes` returns whatever is buffered, up to 16 bytes; its 2-tick timeout is not modelled.
- Logging (`ESP_LOG*`) and the debug `printf` blocks are not modelled: they do not affect results.
- `slave/main/main.cpp` (Wi-Fi, ESP-NOW, sensor, tasks) is not part of this model. `modbus.h` holds declarations only.
- Response.Decode: requires at most 3 data bytes when a reply with a valid CRC has function 3 or 4. This bound is a modelling choice that keeps the value within 32 bits without modelling the wrap. The driver's sum is still well defined for four bytes whose first byte is below 0x80. Only a byte count of 5 or more shifts by 32 bits or more, and only a count of 14 or more reads past `bff[15]`. Replies to the model's own requests carry 2.
- Master.Modbus.Read: a negative return from `uart_read_bytes` (a driver error) is not modelled.
- Master.Modbus.Transact: `request` and `set` contain the same retry loop twice. The model shares it and passes the delay in.
- Master.Modbus.Request: requires a nonzero baud rate for functions 3 and 4, because the driver computes `1/_baud`. The driver object is a global (`slave/main/main.cpp:40`), so `_baud` starts at 0, and a call before a successful `init` divides by zero.
- Master.Modbus.Set: requires a nonzero baud rate, for the same reason.
- Concurrency is not modelled: the driver assumes a single in-flight transaction.

## Findings

| source | as written | input that shows it | evidently intended | confidence | as-written member | corrected member |
|---|---|---|---|---|---|---|
| slave/main/libraries/esp32-modbus/modbus.cpp:261 | `ceil((1/_baud)*10.0*4.0*1000000.0)`: `1/_baud` is C integer division on `int32_t`, so the guard delay is 0 | any accepted baud rate, e.g. 115200 (or 4800) gives `dly == 0` | a guard time of 40 bit times, ceil(40 000 000 / baud) microseconds (348 us at 115200 baud); the driver model keeps the delay as written, and `GuardDelay` is the corrected delay | high; not executed | Master.DelayAsWrittenVanishes | Master.GuardDelayIsCeiling |
