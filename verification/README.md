# A verified model of a Modbus-RTU slave

This project models the firmware of a small Modbus-RTU slave (device id 1) in
Dafny. The firmware runs on a microcontroller UART. It collects bytes from the
master in an interrupt handler. A polling loop in `main` looks through the
bytes it has received for a Read Holding Registers request (function code
0x03) addressed to this slave. It answers the first such request in the
buffer from a fixed table of ten 16-bit holding registers, and then discards
the whole buffer, including any later request already received.

The project has three files:

- `modbus_driver.dfy` (module `ModbusDriver`) holds the helpers of `modbus_driver.h`:
  - the CRC-16 of Modbus over serial line (initial value 0xFFFF, reflected polynomial 0xA001);
  - the check of an 8-byte request;
  - the builder of the reply;
  - the register table.

  Each helper is a method that loops over arrays as the C code does. It is proved against a specification function (`Crc`, `ChecksumOk`, `Response`). Lemmas state what those functions promise:
  - the CRC is a left fold that can be split anywhere;
  - a sealed request passes the check, and a damaged CRC fails it;
  - the layout of the reply.
- `frame_scanner.dfy` (module `FrameScanner`) states one pass of the polling loop on values. `Scan` gives the verdict of the scan from a cursor. `StepSpec` gives the state after a pass and the reply it sends, if any. The lemmas cover the properties of the scan:
  - an error forces a reset;
  - a short buffer is left alone;
  - a false match does not hide a later request;
  - waiting is bounded;
  - a buffer with no candidate is dropped.
- `modbus_slave.dfy` (module `ModbusSlave`) has the class `Session`.
  - Its fields are the globals of `modbus_slave.c` and `uart_driver.h`.
  - `Step` is one iteration of the polling loop, written as the C loop is written. It is proved to end in `StepSpec`'s state.
  - Each kind of UART interrupt is a method of its own.
  - Two ghost sequences record the line: every frame handed to `UART_transmit`, and every byte written to the transmit register.

Bytes and 16-bit words are subset types of `int`. The C bit operations (`^`, `>>`, `&`, `|`, the `uint8_t` casts) are written out as integer arithmetic. The session's invariant (`Session.Valid`) bounds `uiRxIndex` by 100 and `uiWaitCount` by 1000, so no `uint8_t` or `uint16_t` wrap-around can occur on the session's counters.

## Model

| member | source | states |
|---|---|---|
| ModbusDriver.Word | modbus_driver.h:95-96 | the word built from a high and a low byte gives back those bytes |
| ModbusDriver.WordOfBytes | modbus_driver.h:109-110 | splitting a 16-bit word into its low and high bytes and joining them again loses nothing |
| ModbusDriver.XorBitsBit | modbus_driver.h:187 | the integer function that models `^` is bitwise exclusive or: bit `i` of the result is the sum of the operands' bits `i` modulo 2 below `n`, and 0 above |
| ModbusDriver.CrcEmpty | modbus_driver.h:184 | the CRC of no bytes is 0xFFFF |
| ModbusDriver.CrcFromAppend | modbus_driver.h:185-199 | the CRC is a left fold of a per-byte step: the CRC of `a + b` is `b` folded from the register left by `a` |
| ModbusDriver.CrcFromSnoc | modbus_driver.h:187-198 | appending one byte XORs it into the low byte of the register and applies eight shift/XOR-0xA001 rounds |
| ModbusDriver.GetCheckSum | modbus_driver.h:182-202 | the nested byte/bit loops return the CRC of `buf[0..len)`; a negative length reads nothing and returns 0xFFFF; the result is a 16-bit value |
| ModbusDriver.Seal | modbus_driver.h:107-110 | a body followed by its CRC, low byte first, is sealed, two bytes longer and starts with the body |
| ModbusDriver.SealedIsSeal | modbus_driver.h:107-110 | every sealed frame is its own body followed by the body's CRC |
| ModbusDriver.ChangedCrcBreaksSeal | modbus_driver.h:153-162 | changing either CRC byte of a sealed frame, in any bit, leaves it unsealed |
| ModbusDriver.ChecksumOkIsSealed | modbus_driver.h:151-168 | the request check accepts the candidate at `i` exactly when its eight bytes form a sealed frame; no other byte of the buffer matters |
| ModbusDriver.SealedRequestPasses | modbus_driver.h:153-162 | round trip: six request bytes followed by their CRC, low byte then high byte, pass the check |
| ModbusDriver.CorruptedRequestFails | modbus_driver.h:153-162 | changing byte 6 or 7 of a passing candidate to any other value makes the check fail |
| ModbusDriver.VerifyChecksum | modbus_driver.h:148-170 | returns true exactly when `rx[i+7]*256 + rx[i+6]` equals the CRC of `rx[i..i+6)`; the buffer is not modified |
| ModbusDriver.RegisterBytesLength | modbus_driver.h:101-105 | `n` registers take `2n` bytes |
| ModbusDriver.RegisterBytesAt | modbus_driver.h:101-105 | register `start+k` sits at bytes `2k` (high) and `2k+1` (low) of the data |
| ModbusDriver.ResponseLayout | modbus_driver.h:92-110 | the reply is `2n+5` bytes long; it copies the request's id and function code, carries the byte count `(n mod 256)*2 mod 256` and register `start+k` big-endian as data word `k`, and ends in a CRC the request check would accept |
| ModbusDriver.ResponseDataWord | modbus_driver.h:101-105 | data word `k` of the reply is register `start+k` |
| ModbusDriver.PutRegisters | modbus_driver.h:101-105 | the register loop writes the requested registers high byte first from `tx[3]` on, returns the index past them and leaves the other bytes of `tx` alone |
| ModbusDriver.PrepareResponse | modbus_driver.h:87-113 | when the registers named exist and the reply fits, writes exactly `Response(request)` into `tx`, returns `2*len+5` and touches nothing past the reply |
| ModbusDriver.ReadThreeRegistersExample | modbus_driver.h:60-61 | reading three registers from address 2 yields data bytes 55 66 77 88 99 00 and an 11-byte reply |
| ModbusDriver.ZeroCountReply | modbus_driver.h:98-112 | a request for 0 registers is in range whatever its start address (the register loop runs zero times), and its reply is the 5-byte frame of id, function code, byte count 0 and CRC |
| FrameScanner.Scan | modbus_slave.c:55-104 | the verdict of a scan from `c` is the first position from `c` on where a request or an incomplete candidate starts, and what is found there; no frame is reported only when no such position exists |
| FrameScanner.InRangeIsAnswerable | modbus_driver.h:60-61 | with the slave's own ten registers, every in-range request has a reply that fits the 100-byte transmit buffer |
| FrameScanner.StepSpec | modbus_slave.c:46-111 | a pass keeps the "any answer is in range" precondition for the next pass; a pass that replies sends a sealed frame of 5 to 100 bytes for this device with function code 3, and leaves the session empty |
| FrameScanner.StepKeepsBounds | modbus_slave.c:46-111 | a pass keeps `rxIndex <= 100`, `checkIndex <= rxIndex` and `waitCount <= 1000` |
| FrameScanner.Receive | uart_driver.h:80-90 | a byte is appended while fewer than 100 are stored; at 100 the buffer stays the same and the error flag is raised; the bounds are kept |
| FrameScanner.Run | modbus_slave.c:40-114 | any number of passes with no interrupt between them keeps the "any answer is in range" precondition |
| FrameScanner.ErrorFlagForcesReset | modbus_slave.c:46-49 | with the error flag set, a pass resets the session before any scanning and sends nothing |
| FrameScanner.ShortBufferUntouched | modbus_slave.c:52 | with fewer than 8 bytes and no error, a pass changes nothing |
| FrameScanner.ScanRespondsIff | modbus_slave.c:55-98 | a pass answers exactly when some complete request has no incomplete candidate before it (both directions) |
| FrameScanner.PassesOver | modbus_slave.c:74-103 | the prefix of the buffer holding no stop grows past a position that starts neither a request nor an incomplete candidate (the scan loop's invariant step) |
| FrameScanner.ScanFindsFirstStop | modbus_slave.c:55-98 | a scan stops at the first position where a request or an incomplete candidate starts |
| FrameScanner.FirstRequestAnswered | modbus_slave.c:55-81 | a false match (id with another function code or a bad CRC) before the first complete request does not hide it: the scan answers that request |
| FrameScanner.StepAnswersFirstRequest | modbus_slave.c:63-72 | the pass that sees the buffer's first request transmits exactly `Response` of its header and resets the session |
| FrameScanner.ScanAt | modbus_slave.c:55-98 | when nothing before `c` stops the scan, a request at `c` is answered and an incomplete candidate at `c` is waited on |
| FrameScanner.ScanFindsNothing | modbus_slave.c:106-110 | a scan that meets neither a request nor an incomplete candidate finds no frame |
| FrameScanner.StepWaitsOnFirstCandidate | modbus_slave.c:84-97 | on a first stop at an incomplete candidate the pass counts one more wait and leaves the cursor on it, or resets once the count has reached 1000 |
| FrameScanner.NoCandidateResets | modbus_slave.c:106-110 | a pass whose cursor reaches the end of the buffer resets the session and sends nothing |
| FrameScanner.PendingWaits | modbus_slave.c:89-94 | below the limit, `n` passes over an incomplete candidate keep the buffer, raise the count by `n` and leave the error flag clear |
| FrameScanner.PendingTimesOut | modbus_slave.c:16 | waiting is bounded: with no new byte, an incomplete candidate is dropped and the session reset after at most 1001 passes |
| FrameScanner.RunSplit | modbus_slave.c:40-114 | `a + b` passes are `a` passes followed by `b` passes |
| FrameScanner.CompletedCandidateAnswered | modbus_slave.c:84-97 | if bytes that arrive later complete the awaited candidate into a valid request, the next scan answers it |
| FrameScanner.ExtensionKeepsNonStop | modbus_slave.c:55-81 | a position the scan passed over does not become a request when more bytes arrive |
| ModbusSlave.SameCandidate | modbus_driver.h:153-160 | the candidate's header and CRC check read the same in the whole receive array and in the bytes received so far |
| ModbusSlave.Session.constructor | uart_driver.h:15-21 | the receive index, cursor, wait count, transmit index, transmit length and `uiTxLength` start at zero, the error flag clear, with an empty line and the fixed register table |
| ModbusSlave.Session.ResetState | modbus_driver.h:128-135 | the receive index, cursor and wait count become 0 and the error flag false; nothing else changes (so a second reset changes nothing more) |
| ModbusSlave.Session.Transmit | uart_driver.h:50-57 | sets the length, writes `txBuff[0]` to the line, leaves `uiTxIndex = 1` and records the frame `txBuff[0..len)`; the receive side is untouched |
| ModbusSlave.Session.RxInterrupt | uart_driver.h:80-90 | below 100 bytes the byte is stored at `uiRxBuff[uiRxIndex]` and the index grows by one; at 100 only the error flag is raised; agrees with `Receive` and keeps `uiRxIndex <= 100` |
| ModbusSlave.Session.LineErrorInterrupt | uart_driver.h:105-113 | parity and overrun errors only raise the error flag |
| ModbusSlave.Session.TxInterrupt | uart_driver.h:92-103 | while bytes remain, the next byte of `txBuff` goes to the line and the index grows by one; otherwise index and length become 0; the receive side is untouched |
| ModbusSlave.Session.ReplyOnWire | uart_driver.h:92-103 | once every byte of a reply has been sent, the line ends with that reply, in order |
| ModbusSlave.Session.Answer | modbus_slave.c:65-72 | prepares `Response` for the request at the cursor, transmits it exactly once and resets the session |
| ModbusSlave.Session.ExamineRequest | modbus_slave.c:61-82 | a complete candidate is answered exactly when it is a valid read request; otherwise the cursor moves by one and nothing is sent |
| ModbusSlave.Session.Wait | modbus_slave.c:86-97 | an incomplete candidate counts one more wait, or resets the session once the count has reached 1000 |
| ModbusSlave.Session.Examine | modbus_slave.c:57-103 | one turn of the scan loop ends the pass exactly when the cursor is on a request or an incomplete candidate; otherwise the cursor moves by one |
| ModbusSlave.Session.ScanBuffer | modbus_slave.c:54-104 | the scan loop from cursor 0 does what `Scan`'s verdict says: it answers the first request, waits on the first incomplete candidate, or stops with the cursor at the end of the buffer |
| ModbusSlave.Session.ProcessPackets | modbus_slave.c:52-111 | with at least 8 bytes and no error, the session ends in `StepSpec`'s state and the line gains exactly `StepSpec`'s reply, if any |
| ModbusSlave.Session.Step | modbus_slave.c:46-111 | one loop iteration ends in `StepSpec`'s state, transmits exactly `StepSpec`'s reply (or nothing) and keeps every bound of `Valid` |

## Left out

- Hardware set-up (`SYSCFG_DL_init`, the `NVIC_*` calls) and the infinite `while (1)` are not modelled: `Step` is one iteration and `Run` is a finite sequence of them.
- The memory-mapped UART registers (`TXDATA`, `RXDATA`), the `STAT` busy-wait in `UART_transmit` and `DL_UART_Main_getPendingInterrupt` are not modelled. A received byte is a parameter of `RxInterrupt`, and each interrupt kind is a method of its own. Bytes written to the transmit register are appended to the ghost `wire`.
- Interrupts run atomically between passes of the polling loop. The firmware lets them preempt a pass mid-scan, and `volatile` effects are not modelled.
- `WRITE_COMMAND` (0x04) is declared but never handled. It takes the `default` branch of the switch like any other unknown function code, and no write semantics are modelled.
- Requests that read registers past the end of the table (a non-zero count with start + count > 10) are out of scope. The firmware reads past `uiModbusRegister` for them, so `Step`, `ProcessPackets` and `ScanBuffer` require `Serviceable`: any request the pass would answer reads only existing registers, and its reply fits the buffer. A request for 0 registers reads none and is answered whatever its start address.
- ModbusDriver.PrepareResponse: under the same precondition, the `uint8_t` truncation of the write index `uiTempIndex` cannot occur and is not modelled.
- The CRC's bitwise operations are integer functions (`XorBits`, `/ 2`, `% 2`) that compute the same values on 16-bit operands.
- The "changing one bit of the CRC field makes the check fail" property is stated for any change of either CRC byte (`CorruptedRequestFails`), which includes every single-bit change.
- After a reply the C loop leaves because the reset makes its test `0 < 0` false. `ScanBuffer` returns at that point instead, which has the same effect.
- The trailing `if (uiCheckIndex == uiRxIndex)` reset after a reply or a timed-out wait repeats a reset that already happened. `ProcessPackets` performs it as written.
