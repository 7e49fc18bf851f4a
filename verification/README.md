# DFRobot MatrixLidar protocol engine in Dafny

This project models the protocol engine of the DFRobot MatrixLidar driver
(`DFRobot_MatrixLidar.cpp`). The engine talks to a matrix ranging sensor over
I2C or UART with request/response command packets, and the model proves
properties of it. It covers:

- **Command packets.** A packet is the marker `0x55`, the argument count
  `len(args) + 1` high byte first, the command id, then the arguments
  (module `Packet`).
- **Transports.** The I2C and UART `sendPacket` and `recvData` primitives
  (module `Transport` for what they do, class `Lidar.MatrixLidar` for the
  loops). I2C writes go out in pieces of at most 32 bytes inside one bus
  transaction. The UART writes one byte at a time. I2C reads one byte per
  request, each after an empty write transaction to the device, and stores
  0 for a byte that does not arrive. The UART reads chunks
  of at most 32 bytes until it has enough or its attempts run out.
- **`recvPacket`, the response parser** (module `Engine`, method
  `MatrixLidar.RecvPacket`). It works in these steps:
  - It refuses a command above 8 (error 0x01) before reading anything.
  - It polls for a status byte (0x53 SUCCESS or 0x63 FAILED). Every other
    byte is skipped, 0xFF included, until the 8000 ms budget is spent
    (error 0x04). A reply that comes after the budget is spent is never read.
  - It checks the echoed command (error 0x02).
  - It reads the payload length, low byte first.
  - A length of 1000 or more returns NULL and leaves the error code unwritten.
  - A failed allocation gives error 0x03.
  - Otherwise it returns the four header bytes followed by the payload
    (error 0x00).
- **The three commands** (module `Facade` for what they make of a response,
  the methods of `MatrixLidar` for the calls themselves):
  - `setRangingMode` sends SET_MODE `[0,0,0,matrix]`. On SUCCESS it waits
    5000 ms to let the device settle.
  - `getAllData` keeps the 16-bit payload length in a `uint8_t`. It fails when
    that byte is below 32. Otherwise it copies `min(length, 128)` bytes.
  - `getFixedPointData` reads two payload bytes as a little-endian distance.
    It returns 1 on every failure.
  - A FAILED response is never freed. The ghost counter `outstanding` records
    this leak.

The device is a byte sequence `rx` read through a cursor `pos`. The bus
traffic the driver issues is logged in `sent` as events (`Begin(addr)`,
`Write(bytes)`, `End(stop)`): the command packets, and on I2C the empty write
transaction before each byte read (`Transport.Probes`). A reception records
how many bytes it requested (`asked`), so each command states all of its
traffic. Time is counted only by the delays `recvPacket` issues: 17 ms
per poll, plus 10 ms after a byte that is neither 0xFF nor a status byte.
Whether `malloc` succeeds is a boolean parameter.

The device side of the protocol is not in this repository. Two definitions
stand in for it: `DecodeCommand` reads a command packet and `EncodeResponse`
frames a response. They serve as partners in round-trip proofs.

Some behaviour of the code is easy to miss. The model keeps it as written:

- **Buffer release.** A response buffer is freed only when its status is
  SUCCESS. A FAILED response is never freed (`Facade.Leaks`, `outstanding`).
- **Device error byte.** On a FAILED response the commands copy the device's
  error byte into a local variable that nothing reads, and return 1.
- **Valid commands.** Only command ids above 8 are refused with 0x01. Command
  0 goes through to polling.
- **getAllData length check.** Only the low byte of the payload length is
  compared with 32 and used as the copy length:
  - a 300-byte payload copies 44 bytes;
  - a 256-byte payload is refused.

## Model

| member | source | states |
|---|---|---|
| Packet.EncodeCommand | DFRobot_MatrixLidar.cpp:76-89 | A command packet is 4 + n bytes: 0x55, the count bytes, the command id, then the arguments verbatim |
| Packet.CountFieldRoundTrip | DFRobot_MatrixLidar.cpp:79-80 | The high/low count bytes read back as n + 1 while n + 1 fits in 16 bits |
| Packet.CommandRoundTrip | DFRobot_MatrixLidar.cpp:47-53 | The receiving side decodes every encoded packet back to its command and arguments |
| Packet.DecodedCommandReencodes | DFRobot_MatrixLidar.cpp:47-53 | Every packet the receiving side accepts is the encoding of what it decodes to (the converse direction) |
| Packet.FacadePackets | DFRobot_MatrixLidar.cpp:76-165 | The three commands send exactly `55 00 05 01 00 00 00 m`, `55 00 01 02` and `55 00 03 03 x y` |
| Bytes.LittleEndian16 | DFRobot_MatrixLidar.cpp:171 | `hi << 8 \| lo` is below 65536 and has lo as its low byte and hi as its high byte |
| Bytes.LittleEndian16RoundTrip | DFRobot_MatrixLidar.cpp:171 | Every 16-bit value is rebuilt from its own two bytes |
| Packet.PayloadLength | DFRobot_MatrixLidar.cpp:224-225 | The response length is `lenH << 8 \| lenL`, the `LittleEndian16` of header bytes 2 and 3: below 65536, with lenL its low byte and lenH its high byte |
| Packet.EncodeResponse | DFRobot_MatrixLidar.cpp:55-61 | A response frame carries status, command, a low-byte-first length that reads back as the payload size, then the payload |
| Packet.EncodedResponseWellFormed | DFRobot_MatrixLidar.cpp:55-61 | A frame with a recognised status and a payload under 1000 bytes is one the parser can hand out |
| Transport.I2CChunks | DFRobot_MatrixLidar.cpp:184-195 | Definition without a contract of its own: the I2C write loop's events, pieces of at most 32 bytes with a non-stop end after each; its properties are `I2CChunksFacts` |
| Transport.UartBytes | DFRobot_MatrixLidar.cpp:317-326 | Definition without a contract of its own: one write per packet byte; its properties are `UartTransmission` |
| Transport.Transmission | DFRobot_MatrixLidar.cpp:179-197 | Definition without a contract of its own: what `sendPacket` emits on each link, nothing for an empty packet; its properties are `I2CTransmission`, `UartTransmission` and `TransmissionCarriesPacket` |
| Transport.I2CPendingStep | DFRobot_MatrixLidar.cpp:184-195 | One turn of the I2C write loop emits a write of the next min(remaining, 32) bytes, and an end without stop exactly when bytes remain |
| Transport.I2CChunksFacts | DFRobot_MatrixLidar.cpp:184-195 | The I2C write loop carries the packet exactly: ceil(n/32) writes of 1 to 32 bytes, separated only by non-stop ends |
| Transport.I2CTransmission | DFRobot_MatrixLidar.cpp:179-197 | An I2C send is one transaction: Begin(addr) first, writes of at most 32 bytes whose concatenation is the packet, and the stop issued exactly once, last |
| Transport.UartTransmission | DFRobot_MatrixLidar.cpp:317-326 | A UART send writes the packet one byte per write, in order |
| Transport.TransmissionCarriesPacket | DFRobot_MatrixLidar.h:100-110 | On either transport the written bytes are exactly the packet; an empty packet writes nothing |
| Transport.UartSendAsWritten | DFRobot_MatrixLidar.cpp:321 | Definition without a contract of its own: the UART send loop with its `uint8_t` counter wrapping from 255 to 0, run for a bounded number of iterations; its properties are `UartCounterNeverExits` and `UartAsWrittenAgreesBelow256` |
| Transport.UartCounterNeverExits | DFRobot_MatrixLidar.cpp:321 | With the `uint8_t` counter, the UART send loop never exits for a packet of 256 bytes or more, however many iterations it runs |
| Transport.UartAsWrittenAgreesBelow256 | DFRobot_MatrixLidar.cpp:317-326 | Below 256 bytes the `uint8_t` loop as written writes the same bytes as the corrected loop, and exits |
| Transport.Taken | DFRobot_MatrixLidar.cpp:260-359 | One receive takes no more bytes than requested or available; I2C takes min(requested, available) |
| Transport.Fill | DFRobot_MatrixLidar.cpp:260-359 | The buffer keeps its size and the stream position only moves forward, never past the end; what lands in the buffer is stated by `FillDelivers` and by the `recvData` methods proved against `Fill` |
| Transport.FillDelivers | DFRobot_MatrixLidar.cpp:260-359 | When the stream holds the bytes (and the UART has attempts for them), a receive stores exactly the next `len` stream bytes in the window, advances by `len` and returns `len` |
| Transport.Probes | DFRobot_MatrixLidar.cpp:269-271 | Definition without a contract of its own: the empty I2C write transactions `recvData` issues, one per byte requested; none on UART |
| Transport.ProbesAppend | DFRobot_MatrixLidar.cpp:269-271 | The probes of two reads in a row are those of one read of both lengths |
| Transport.ProbesAfter | DFRobot_MatrixLidar.cpp:269-271 | The same after any earlier traffic |
| Transport.I2CProbes | DFRobot_MatrixLidar.cpp:269-271 | An I2C read of n bytes issues 2n events, Begin(addr) and a stop alternating, and writes no data byte |
| Engine.Body | DFRobot_MatrixLidar.cpp:224-242 | Definition without a contract of its own: the length ceiling, the allocation and the payload read after the header; its properties are `BodySound`, `CeilingLeavesErrorUnset`, `AllocFailureReported` and `ResponseRoundTrip` |
| Engine.Frame | DFRobot_MatrixLidar.cpp:214-243 | Definition without a contract of its own: the status branch of the poll loop, the echo check, the length read, then `Body`; its properties are `FrameSound` and `MismatchStops` |
| Engine.Poll | DFRobot_MatrixLidar.cpp:210-252 | Definition without a contract of its own: the poll loop with the budget left and the bytes requested so far; its properties are `PollSound`, `SkipsNonStatus`, `SkipsNoise`, `BudgetSpentTimesOut` and `NoStatusTimesOut` |
| Engine.BodySound | DFRobot_MatrixLidar.cpp:224-242 | After a header for `cmd`: a packet is handed out only if well formed, and then the error is 0x00; without a packet the error is not 0x00; 0x01 is never reported |
| Engine.FrameSound | DFRobot_MatrixLidar.cpp:214-243 | After a status byte: a packet is handed out only if it is well formed for `cmd` (status, echoed cmd, length < 1000, 4 + length bytes), and then the error is 0x00; without a packet the error is not 0x00; 0x01 is never reported |
| Engine.PollSound | DFRobot_MatrixLidar.cpp:210-257 | The poll loop only hands out well-formed packets for `cmd`, with error 0x00; it never reports 0x01; it only moves forward in the stream |
| Engine.Receive | DFRobot_MatrixLidar.cpp:199-258 | `recvPacket` reports 0x01 exactly when cmd > 8 (command 0 is polled for), and then reads nothing and returns NULL; a packet handed out is well formed with error 0x00 |
| Engine.NoStatusTimesOut | DFRobot_MatrixLidar.cpp:210-253 | If no status byte is in the stream, polling ends in NULL with 0x04 (this covers idle 0xFF bytes, noise, I2C zero fill and stale UART header bytes) |
| Engine.ReceiveTimesOut | DFRobot_MatrixLidar.cpp:199-257 | For any valid command, a stream without a status byte gives NULL with error 0x04 |
| Engine.SkipsNonStatus | DFRobot_MatrixLidar.cpp:212-251 | A byte other than 0x53/0x63 is consumed, costs 17 ms (0xFF) or 27 ms (other), and polling continues |
| Engine.HeaderRead | DFRobot_MatrixLidar.cpp:213-225 | The three header reads store the status byte, the echoed command and both length bytes in stream order, one stream byte each |
| Engine.PayloadRead | DFRobot_MatrixLidar.cpp:238-240 | The payload read behind the header fills the buffer with the next `length` stream bytes and leaves the header as it was |
| Engine.MismatchStops | DFRobot_MatrixLidar.cpp:217-223 | A wrong echoed command gives NULL with 0x02 after exactly two bytes requested and read; no allocation, no further reads |
| Engine.CeilingLeavesErrorUnset | DFRobot_MatrixLidar.cpp:224-230 | A declared length of 1000 or more gives NULL after four bytes, with or without memory, and leaves the error code unwritten |
| Engine.AllocFailureReported | DFRobot_MatrixLidar.cpp:232-237 | A failed allocation gives NULL with 0x03 after the four header bytes |
| Engine.ResponseRoundTrip | DFRobot_MatrixLidar.cpp:238-242 | A framed response comes back as header + exactly its payload bytes in stream order, with 0x00, the stream read just past it and 4 + n bytes requested; a zero length reads no payload |
| Engine.SkipsNoise | DFRobot_MatrixLidar.cpp:210-252 | A run of non-status bytes only uses budget (17 ms or 27 ms each): with budget left, polling from its start gives the same result as polling from just after it |
| Engine.BudgetSpentTimesOut | DFRobot_MatrixLidar.cpp:210-253 | When the polls of a run of non-status bytes cost at least the budget left, polling ends in NULL with 0x04 inside the run; nothing after it, a valid reply included, is read |
| Engine.ReceiveBudgetSpent | DFRobot_MatrixLidar.cpp:199-257 | The same for `recvPacket` with any valid command |
| Engine.IdleRunCost | DFRobot_MatrixLidar.cpp:250-251 | n idle 0xFF bytes cost 17 ms each |
| Engine.LateReplyTimesOut | DFRobot_MatrixLidar.cpp:210-257 | With the default 8000 ms budget, 471 idle bytes (8007 ms) before a reply give NULL with 0x04, and the reply is never read |
| Facade.RangingModeResult | DFRobot_MatrixLidar.cpp:91-99 | `setRangingMode` returns 0 exactly when a packet came back with status SUCCESS, and 1 otherwise |
| Facade.AllDataLength | DFRobot_MatrixLidar.cpp:121 | The 16-bit length stored in a `uint8_t` is the low length byte |
| Facade.AllDataCopyLength | DFRobot_MatrixLidar.cpp:127-141 | Copying happens exactly when the low length byte is at least 32; then it copies 32 to 128 bytes, never more than the payload holds, and min(length, 128) when length < 256 |
| Facade.AllDataResult | DFRobot_MatrixLidar.cpp:118-146 | `getAllData` returns 0 exactly on SUCCESS with an accepted length, and the copied bytes are the first payload bytes; otherwise it returns 1 and copies nothing |
| Facade.FixedPointAsWritten | DFRobot_MatrixLidar.cpp:171 | Definition without a contract of its own: `buf[1] << 8 \| buf[0]` read from the memory that starts at the payload, whatever the declared length; its properties are `FixedPointOverRead` and `FixedPointValueAgrees` |
| Facade.FixedPointOverRead | DFRobot_MatrixLidar.cpp:171 | With a payload under 2 bytes, the value as written depends on bytes after the response buffer |
| Facade.FixedPointValue | DFRobot_MatrixLidar.cpp:171 | The distance is the first two payload bytes little-endian, or 1 when the payload is shorter (the corrected reading) |
| Facade.FixedPointValueAgrees | DFRobot_MatrixLidar.cpp:171 | With two or more payload bytes, the corrected value equals the one as written, whatever follows the payload |
| Facade.FixedPointResult | DFRobot_MatrixLidar.cpp:167-176 | `getFixedPointData` returns 1 on every failure, and on SUCCESS a value whose low and high bytes are the first two payload bytes |
| Facade.FixedPointFailureAmbiguous | DFRobot_MatrixLidar.cpp:169-176 | A measured distance of 1 and a timeout both return 1 |
| Facade.RangingModeFromResponse | DFRobot_MatrixLidar.cpp:91-99 | For a framed reply, `setRangingMode` succeeds exactly for SUCCESS, and the buffer leaks exactly for FAILED |
| Facade.AllDataOfResponse | DFRobot_MatrixLidar.cpp:118-146 | For a received SUCCESS response of n payload bytes, `getAllData` yields the first min(n mod 256, 128) bytes when n mod 256 ≥ 32, and fails with nothing copied otherwise |
| Facade.AllDataFromResponse | DFRobot_MatrixLidar.cpp:118-146 | For a SUCCESS reply of n bytes, `getAllData` copies the first min(n mod 256, 128) bytes when n mod 256 ≥ 32, and otherwise fails |
| Facade.AllDataSizes | DFRobot_MatrixLidar.cpp:125-130 | For a received SUCCESS response, 32- and 128-byte payloads are copied whole; an 8-byte payload is refused and nothing is copied |
| Facade.AllDataLengthWraps | DFRobot_MatrixLidar.cpp:104-129 | A received 300-byte payload yields only its first 44 bytes, because the length is kept in 8 bits |
| Facade.FixedPointFromResponse | DFRobot_MatrixLidar.cpp:167-174 | A SUCCESS reply with payload `[lo, hi]` gives `hi*256 + lo`; `[0x34, 0x12]` gives 0x1234 |
| Lidar.BuildCommand | DFRobot_MatrixLidar.cpp:76-85 | The allocated and filled command packet is exactly `EncodeCommand(cmd, args)` |
| Lidar.MatrixLidar.constructor | DFRobot_MatrixLidar.cpp:63-65 | A new driver has the 8000 ms timeout, nothing read, nothing sent and no buffers outstanding |
| Lidar.MatrixLidar.SendPacket | DFRobot_MatrixLidar.h:100-110 | `sendPacket` appends the transport's transmission of the first `length` bytes; NULL appends nothing |
| Lidar.MatrixLidar.I2CSendPacket | DFRobot_MatrixLidar.cpp:179-197 | The `remain`/`pBuf` loop appends Begin, 32-byte-capped writes with non-stop ends between them, then a stop |
| Lidar.MatrixLidar.UartSendPacket | DFRobot_MatrixLidar.cpp:317-326 | The UART loop, with an `int` counter, appends one write per byte of the packet |
| Lidar.MatrixLidar.RecvData | DFRobot_MatrixLidar.h:112-120 | `recvData` changes the buffer, the stream position and the return value exactly as `Fill` says, touches nothing outside the window, and appends its `Probes` to the bus log |
| Lidar.MatrixLidar.I2CRecvData | DFRobot_MatrixLidar.cpp:260-289 | Per byte an empty write transaction, then a one-byte request: stores the next stream bytes and 0 where none arrived, logs the `Probes` of `len` bytes, returns `len` |
| Lidar.MatrixLidar.UartRecvData | DFRobot_MatrixLidar.cpp:328-359 | Chunked reads store min(len, available, 32 × attempts) stream bytes; the rest of the window is untouched; returns that count |
| Lidar.MatrixLidar.ReadBytes | DFRobot_MatrixLidar.cpp:347 | `readBytes` takes min(chunk, available) stream bytes into the buffer at the offset |
| Lidar.MatrixLidar.RecvPacket | DFRobot_MatrixLidar.cpp:199-258 | The poll loop returns exactly `Receive`'s packet (fresh), error code and stream position, and logs the probes of exactly the bytes it requested; one buffer becomes outstanding per packet handed out |
| Lidar.MatrixLidar.RecvFrame | DFRobot_MatrixLidar.cpp:214-243 | The status-byte branch computes exactly `Frame`, bus traffic included |
| Lidar.MatrixLidar.RecvBody | DFRobot_MatrixLidar.cpp:224-242 | The ceiling, allocation, header copy and payload read compute exactly `Body`, bus traffic included |
| Lidar.MatrixLidar.CopyPayload | DFRobot_MatrixLidar.cpp:130 | The `memcpy` puts the first `copyLen` payload bytes at the front of the caller's buffer and leaves the rest of it |
| Lidar.MatrixLidar.SetRangingMode | DFRobot_MatrixLidar.cpp:72-100 | Sends the SET_MODE packet, then only the read probes of `recvPacket`; returns `RangingModeResult`; on success waits 5000 ms; a FAILED buffer stays outstanding; a failed packet allocation sends nothing and returns 1 |
| Lidar.MatrixLidar.GetAllData | DFRobot_MatrixLidar.cpp:103-147 | Sends GET_ALL, then only the read probes of `recvPacket`; returns `AllDataResult` and writes exactly its copied bytes to the front of `buf`, leaving the rest; a FAILED buffer stays outstanding |
| Lidar.MatrixLidar.GetFixedPointData | DFRobot_MatrixLidar.cpp:149-177 | Sends GET_POINT `[x, y]`, then only the read probes of `recvPacket`; returns `FixedPointResult`; a FAILED buffer stays outstanding |

## Left out

- The Arduino `Wire` and `Stream` calls (`beginTransmission`, `requestFrom`, `available`, `readBytes`, `write`). Their libraries are not part of this model. The bus is an event log, and the device is a fixed byte sequence whose bytes are all available from the start.
- Wall-clock time (`millis()`, `delay`) is left out. The receive budget counts only the 17 ms and 10 ms delays of the poll loop, not the time spent inside `recvData`.
  - The UART 500 ms read cutoff is a number of read attempts (`readPolls`).
  - The I2C 10 ms per-byte wait becomes "the stream still has a byte".
  - The 1 ms pause after each UART byte written is not modelled.
  - The 5000 ms settling delay is the ghost counter `settledMs`.
- The I2C per-byte `requestFrom` and `read` calls are not events of the bus log. The model shows them only through the byte that arrives or the 0 stored.
- `yield()` and the ESP32 `endTransmission(true)` variant are platform details. The model follows the non-ESP32 branch.
- `begin()` and the two `init()` methods only check that the bus acknowledges.
- The `DBG` macro is debug printing.
- `malloc` and `free` are not modelled as memory management.
  - Allocation success is a boolean parameter.
  - Freeing a response buffer decrements the ghost counter `outstanding`.
  - Freeing the command packet is not tracked.
- Uninitialised memory reads as zero bytes in the model. This covers the stack header of `recvPacket` and a freshly allocated response buffer. Where a UART read delivers fewer bytes than asked, the real driver would see stale bytes there instead.
- A NULL `data` pointer in `recvData` and a NULL `errorCode` pointer are not modelled. `recvPacket` never passes the first, and the commands never pass the second.
- The FAILED path copies `buf[0]` into a local `errorCode` that nothing reads afterwards. That copy is not modelled. It would also read past a zero-length payload.
- Error codes 0x05 to 0x0A are defined but never produced by the code. Commands 4 to 8 have no command function.
- The Python examples only print little-endian pairs through a driver that is not part of this model.
- Lidar.MatrixLidar.GetAllData: requires a caller buffer of at least 128 bytes. The source writes up to 128 bytes through an unchecked pointer.

## Findings

| source | as written | input that shows it | evidently intended | confidence | as-written member | corrected member |
|---|---|---|---|---|---|---|
| DFRobot_MatrixLidar.cpp:321 | The UART `sendPacket` counts with `uint8_t i` against an `int` length, so `i` wraps from 255 to 0 and `i < remain` never becomes false | `sendPacket(pkt, 256, true)` on the UART driver | Write each of the `length` bytes once, then return | not executed; high | Transport.UartCounterNeverExits | Lidar.MatrixLidar.UartSendPacket |
| DFRobot_MatrixLidar.cpp:171 | `getFixedPointData` reads `buf[1]` and `buf[0]` whatever the declared payload length, past the end of the response buffer | a SUCCESS reply `53 03 00 00` (payload length 0) | Read only bytes inside the payload and report a short payload as a failure (1) | not executed; medium | Facade.FixedPointOverRead | Facade.FixedPointValue |
