# efr32fg13 serial bootloader: protocol engine, queues and timers in Dafny

This project models the serial bootloader of the EFR32FG13 together with
`btlctl`, its host-side flashing tool. Both ends exchange one frame format:

- `'#'`, a size byte, a command, a status and a 32-bit little-endian address;
- `size` payload bytes (at most 64);
- a CRC-8 over everything from the command to the end of the payload.

The model covers:

- **Frame layout and checksum** (`include/btlproto.h`).
  - Modules `Crc8` and `Packet`.
  - The checksum is CRC-8 with generator 0xD5, MSB first, initial value 0, no reflection and no final XOR. These are the CRC-8/DVB-S2 parameters of ETSI EN 302 307-1, clause 5.1.4.
  - The layout macros are functions over the size byte.
  - Encoding a frame is a function: `Frame`.
- **Device protocol engine** (`src/btlproto.c`, module `DeviceProto`).
  - `btl_if_t` is the class `Device`: a 73-byte `array` buffer, `len`, `reset` and `baud`.
  - `btl_read_byte` is `Device.ReadByte`, proved against the feed function `Feed`.
  - `btl_handle_packet` is `Device.HandlePacket`. It checks the checksum, runs the handler and rewrites the buffer in place into the reply.
  - The handlers are the `Cmd*` methods.
  - The switch with its handlers is specified by the function `Dispatch`. The resulting buffer is specified by `Reply`.
  - The flash is an abstract collaborator, the `Flash` module. It is a byte map plus a log of the write and erase calls, and whether each call succeeds is a nondeterministic choice recorded in its log entry.
  - The region guard `btl_area` is modelled exactly as written (`Area`). The intended guard is `Overlaps`, and `Dispatch` can be run with either one.
- **Ring buffer** (`src/queue.c`, module `RingBuffer`). A class over a byte `array`, with free-running `head`/`tail` and a ghost `Contents` sequence.
- **USART queue layer** (`src/usart.c`, module `UsartQueues`).
  - The receive and transmit queues sit on top of the ring buffer.
  - The three interrupt bodies are atomic methods.
  - What the code does to the peripheral is appended to an event log. Bytes the receiver holds are a `pending` sequence.
- **Cooperative timers** (`src/timer.c`, module `Scheduler`).
  - Each `struct etimer` is an object (`ETimer`).
  - The TAILQ is the sequence `entries` of the `Timer` object.
  - `timer_handle` is a loop proved against the functions `Tick` and `FiredBy`. The callbacks it runs are logged as `calls`.
- **Host codec** (`tools/src/btlproto.c`, module `HostProto`).
  - `btl_write` is `Write`. It fills a 73-byte array and hands the frame to an abstract serial port.
  - `btl_read_byte` and `btl_read` are `ReadByte` and `Read`. They are proved against the step function `ReadByteStep` and the decoder function `Decode` over a stream of read events.
- **Host client** (`tools/src/main.c`, module `HostClient`).
  - `btl_transfer`, `flash_erase`, `bootloader_set_baud`, `bootloader_reset` and the `flash_file` loop.
  - The image file is an abstract byte source (`File`).
  - The requests that go out are tracked as a ghost sequence of `Req` values whose frames are what the port has been sent.
- **Both ends together** (module `EndToEnd`):
  - a request from the host is assembled and read back by the device;
  - the device's reply is decoded by the host;
  - the set-baud request fails as written and works when corrected.

C integer widths are explicit in the model:

- `byte` is `bv8`.
- `u32` is an integer in `[0, 2^32)`.
- `Wrap32` is the modulo-2^32 reduction of every `uint32_t` sum.
- `ToByte` marks each narrowing to `uint8_t`.

## Model

| member | source | states |
|---|---|---|
| Crc8.CalcLoop | include/btlproto.h:55-67 | the eight-iteration loop of crc8_calc computes `Calc`: `crc ^ a` shifted eight times, with the generator XORed in whenever the top bit falls out |
| Crc8.CalcUnrolled | include/btlproto.h:55-67 | crc8_calc is exactly eight `Step`s of `crc ^ a` |
| Crc8.CalBuf | src/btlproto.c:11-21 | crc8_cal_buf over `n` bytes of the array from `start` returns the checksum of exactly those bytes, `CrcBuf(a[start..start+n])` |
| Crc8.StepsOfZero | include/btlproto.h:55-67 | a zero register stays zero through any number of shifts |
| Crc8.CalcSelfIsZero | include/btlproto.h:55-67 | `crc8_calc(c, c, poly) == 0` for every `c` and generator |
| Crc8.CrcFromAppend | src/btlproto.c:11-21 | the running checksum of `s + t` is the checksum of `t` continued from that of `s` |
| Crc8.CrcAppendedIsZero | include/btlproto.h:55-69 | the checksum of any bytes followed by their own checksum is 0 |
| Crc8.StepInjective | include/btlproto.h:59-65 | with an odd generator, one shift is injective |
| Crc8.StepsInjective | include/btlproto.h:59-65 | with an odd generator, any number of shifts is injective |
| Crc8.CalcInjectiveInCrc | include/btlproto.h:55-67 | for a fixed data byte, crc8_calc is injective in the running checksum |
| Crc8.CalcInjectiveInByte | include/btlproto.h:55-67 | for a fixed running checksum, crc8_calc is injective in the data byte |
| Crc8.CrcFromInjective | src/btlproto.c:11-21 | running the same bytes from two different checksums gives two different results |
| Crc8.SingleByteChangeDetected | src/btlproto.c:11-21 | two byte strings that differ in exactly one position have different checksums |
| Crc8.CheckValue | include/btlproto.h:55-69 | with generator 0xD5 the checksum of ASCII "123456789" is 0xBC, the CRC-8/DVB-S2 check value |
| Packet.Layout | include/btlproto.h:19-53 | the packed header is 1+1+1+1+4 = 8 bytes; `btl_size_pkt` is size+9; `btl_size_crc` is size+6 bytes from `cmd`, ending at the checksum at offset 8+size, the frame's last byte; `BTL_MAX_PKT_SIZE` is 73; a frame fits the buffer iff size ≤ 64 |
| Packet.U32RoundTrip | tools/src/main.c:95-103 | btl_set_u32's little-endian bytes decode back (btl_get_u32, src/btlproto.c:43-47) to the value, and every 4 bytes are the encoding of their decoded value |
| Packet.Frame | tools/src/btlproto.c:57-69 | the frame for a payload of at most 64 bytes is `btl_size_pkt` long |
| Packet.FrameFields | include/btlproto.h:19-33 | every field of an encoded frame reads back from its offset: prefix, size = payload length, cmd, status, addr, payload; the checksum covers exactly cmd..payload and is valid |
| Packet.FrameDetectsCorruption | src/btlproto.c:144-148 | a frame with a valid checksum and one covered byte changed fails the checksum test |
| Flash.ProgramOutside | src/flash.c:32-45 | programming leaves every address outside the written range unchanged |
| Flash.ProgramReadBack | src/flash.c:32-45 | reading back the programmed range gives the data written |
| Flash.Flash.Write | src/flash.c:32-45 | flash_write returns `len` or -1, logs the call with its outcome, and on success the memory is the data programmed at `addr` |
| Flash.Flash.Erase | src/flash.c:9-30 | flash_erase returns 0 or -1, logs the call, and on success the `len` bytes at `addr` read 0xFF |
| RingBuffer.Queue.CountIsLength | src/queue.c:7-43 | the count `head - tail` is the number of queued bytes and lies in [0, size]; empty iff nothing is queued; full iff `size` bytes are queued |
| RingBuffer.Queue.Init | src/queue.c:45-51 | queue_init gives an empty queue over the buffer with head == tail == 0 |
| RingBuffer.Queue.Read | src/queue.c:7-17 | on an empty queue -1 and nothing changes; otherwise the oldest byte is returned and removed, and tail advances by one |
| RingBuffer.Queue.Write | src/queue.c:35-43 | on a full queue -1 and nothing changes; otherwise the byte is stored at slot `head mod size`, appended to the contents, head advances and 0 is returned |
| RingBuffer.Queue.ReadBuf | src/queue.c:19-33 | copies the `min(len, count)` oldest bytes in order, leaves the rest of `buf`, removes them from the queue, and returns the count before the call |
| UsartQueues.Usart.constructor | src/usart.c:73-93 | usart_init: both queues empty over their buffers, no callbacks, nothing pending |
| UsartQueues.Usart.TxCompleteIrq | src/usart.c:23-29 | calls the transmit callback exactly when one was installed on entry, then disables the tx-complete interrupt; the callbacks, queues and receiver are unchanged |
| UsartQueues.Usart.TxIrq | src/usart.c:31-42 | with an empty transmit queue, disables the tx interrupt and sends nothing; otherwise sends exactly the oldest queued byte and removes it; the callbacks, the receive queue and the receiver are unchanged |
| UsartQueues.Usart.RxIrq | src/usart.c:44-53 | the received byte goes to the callback if one was installed on entry; otherwise it is queued when the receive buffer exists and has room, and silently dropped otherwise; the callbacks and the transmit queue are unchanged |
| UsartQueues.Usart.Write | src/usart.c:95-106 | on a full transmit queue -1, no interrupt enabled; otherwise the byte is queued, the tx interrupt enabled and 0 returned; the callbacks, the receive queue and the receiver are unchanged |
| UsartQueues.Usart.WriteBuf | src/usart.c:108-122 | queues the longest prefix of `buf` that fits, in order, enables the tx interrupt, and returns its length; the callbacks, the receive queue and the receiver are unchanged |
| UsartQueues.Usart.Read | src/usart.c:124-135 | returns the oldest queued byte, else the byte waiting in the receiver, else -1, and removes it; the callbacks, the transmit queue and the event log are unchanged |
| UsartQueues.Usart.ReadBuf | src/usart.c:137-157 | copies `min(len, available)` bytes in the order usart_read delivers them, stops at the first -1, returns the count, and leaves the rest of `buf`; the callbacks, the transmit queue and the event log are unchanged |
| Scheduler.TickChangesOnlyFired | src/timer.c:79-85 | a pass sets `last = now` on exactly the entries that fire and leaves every other entry unchanged |
| Scheduler.StoppedNeverFires | src/timer.c:60-85 | an entry whose `run` flag is clear never fires and is left as it was |
| Scheduler.FiredInOrder | src/timer.c:79-85 | the k-th callback run by a pass is that of the k-th due entry in list order |
| Scheduler.FiredCount | src/timer.c:76-86 | a pass runs one callback per due entry: the number run equals the number of due entries |
| Scheduler.WrapSafeQuietForPeriod | src/timer.c:80 | with the wrap-safe test `now - last >= period`, an entry that just fired stays quiet for a full period |
| Scheduler.AsWrittenRefiresAtWrap | src/timer.c:80 | with the test as written, an entry that fires at 0xFFFFFF00 with period 0x200 is due again at once, because `last + period` wraps |
| Scheduler.TestsAgreeWithoutWrap | src/timer.c:80 | when neither `last + period` wraps nor `now` is behind `last`, the two tests agree |
| Scheduler.ETimer.constructor | src/timer.c:35-41 | a new entry holds the given callback, argument, period, start time and run flag |
| Scheduler.ETimer.Run | src/timer.c:54-58 | timer_run sets `run` and `last = now`, nothing else |
| Scheduler.ETimer.Stop | src/timer.c:60-63 | timer_stop clears `run`, nothing else |
| Scheduler.ETimer.Set | src/timer.c:65-68 | timer_set changes the period, nothing else |
| Scheduler.Timer.constructor | src/timer.c:89-99 | timer_create gives an empty list |
| Scheduler.Timer.Add | src/timer.c:26-46 | on allocation failure null and no change; otherwise a fresh entry with the given fields and `last = now` is appended at the tail |
| Scheduler.Timer.Del | src/timer.c:48-52 | removes exactly the given entry and keeps the others in order |
| Scheduler.WithoutKeepsDistinct | src/timer.c:48-52 | removing an entry keeps the list free of duplicates |
| Scheduler.Timer.Destroy | src/timer.c:101-110 | no entries remain |
| Scheduler.Timer.Handle | src/timer.c:73-87 | one pass with `now` sampled once: every entry becomes its `TickOne` image, the callbacks of the due entries run in list order, and the result is their number |
| Scheduler.Timer.Visit | src/timer.c:80-84 | one entry: fires iff `run`, `period != 0` and `now >= last + period` (mod 2^32); on firing, its callback runs and `last = now` |
| DeviceProto.AreaWithoutWrap | src/btlproto.c:34-41 | while `addr + size` does not wrap, btl_area holds iff `addr + size` lies in the region; where the range starts does not matter |
| DeviceProto.OverlapsIff | src/btlproto.c:31-41 | the intended guard `Overlaps` holds iff some byte of the range lies in [0xFE10000, 0xFE14000) |
| DeviceProto.CorrectedKeepsBootloader | src/btlproto.c:31-41 | with the intended guard, no flash call any command makes addresses a byte of the bootloader region, and every byte of the region keeps its value unless a flash call failed |
| DeviceProto.AreaMissesTail | src/btlproto.c:36-37 | a 64-byte WRITE starting 32 bytes before the region's end passes btl_area and is handed to flash_write, though it covers the region's last byte |
| DeviceProto.AreaMissesEnclosingErase | src/btlproto.c:100-108 | a 64 KiB ERASE starting 4 KiB below the region passes btl_area, because the length is narrowed to its low byte 0, and erases bytes of the region |
| DeviceProto.AreaRefusesAdjacent | src/btlproto.c:36-37 | a 64-byte range ending exactly at the region's start touches none of it, yet btl_area refuses it |
| DeviceProto.Feed | src/btlproto.c:185-212 | btl_read_byte returns 0 or 1; it keeps the buffer plus the byte or drops it; on 0 fewer than 73 bytes are held; on 1 the header and `btl_size_pkt` bytes are present |
| DeviceProto.Replay | src/btlproto.c:185-212 | a caller that clears the buffer after each 1 never holds 73 bytes or more, and gets one 0/1 result per byte |
| DeviceProto.FeedNoise | src/btlproto.c:189-196 | from an empty buffer a byte other than '#' is dropped with result 0 |
| DeviceProto.FeedHeader | src/btlproto.c:198-199 | while the header is incomplete each byte is kept and 0 returned |
| DeviceProto.FeedOversize | src/btlproto.c:201-205 | once the header is complete, a size byte above 64 drops the frame with result 0 |
| DeviceProto.FeedFrame | src/btlproto.c:185-212 | feeding a frame of size ≤ 64 byte by byte keeps every byte, and returns 1 on the last byte and 0 before |
| DeviceProto.ReplayFrame | src/btlproto.c:185-212 | from an empty buffer a frame of size s ≤ 64 yields s+8 zeros and then a 1 on byte s+9 |
| DeviceProto.Dispatch | src/btlproto.c:150-174 | every command's outcome fits the buffer: size in [-1, 64] and, when positive, equal to the length of the data |
| DeviceProto.RefusedCommandsSkipFlash | src/btlproto.c:67-112 | when the guard refuses a WRITE, VERIFY or non-empty ERASE, the result is -1 with no flash call and no data |
| DeviceProto.FlashCalledOnlyPastGuard | src/btlproto.c:67-112 | flash_write is called iff the command is WRITE and the guard passes; flash_erase iff it is ERASE, the length is non-zero and the guard passes |
| DeviceProto.WriteOutcome | src/btlproto.c:67-78 | a WRITE the guard passes programs the payload at `addr` and returns 0 iff flash_write succeeds, -1 otherwise |
| DeviceProto.EraseOutcome | src/btlproto.c:97-112 | an ERASE of length 0 succeeds without a flash call; otherwise, once the guard passes, it erases the decoded length at `addr` and returns 0 iff the erase succeeds |
| DeviceProto.VerifyOutcome | src/btlproto.c:80-95 | a VERIFY the guard passes returns 0 iff the flash at `addr` holds the payload, -1 otherwise, with no flash call |
| DeviceProto.InfoAndReadOutcome | src/btlproto.c:52-65 | INFO returns the 9 bytes "BTL V1.0\0"; READ always returns the 64 bytes at `addr` |
| DeviceProto.BaudOutcome | src/btlproto.c:114-133 | BAUD returns 0 iff the little-endian payload value is one of the eight listed rates, else -1 |
| DeviceProto.ResetAndUnknownOutcome | src/btlproto.c:135-174 | RESET returns 0 and requests a reset; any other command code gives -1 with no effect |
| DeviceProto.WriteThenVerify | src/btlproto.c:67-95 | after a WRITE that succeeds, VERIFY of the same request succeeds on the new flash |
| DeviceProto.ReplyIsFrame | src/btlproto.c:176-182 | the reply's first `btl_size_pkt` bytes are the frame: cmd with the reply flag, status OK with the handler's data, or 0xFF with size 0 on error, the request's address, and a valid checksum |
| DeviceProto.Device.constructor | include/btl.h:12-17 | a zeroed `btl_if_t` with a 73-byte buffer |
| DeviceProto.Device.ReadByte | src/btlproto.c:185-212 | stores the byte at `buf[len]`, and the new held bytes and the result are those of `Feed` |
| DeviceProto.Device.MakeHeader | src/btlproto.c:23-29 | writes '#', the size, `cmd | 0x80` and the status over the first four bytes; the rest of the buffer is kept |
| DeviceProto.Device.CmdInfo | src/btlproto.c:52-59 | copies the version string to the payload and returns its length, 9 |
| DeviceProto.Device.CmdRead | src/btlproto.c:61-65 | copies the 64 flash bytes at `addr` to the payload and returns 64 |
| DeviceProto.Device.CmdWrite | src/btlproto.c:67-78 | -1 without a flash call when btl_area holds; otherwise one logged flash_write whose success gives 0 and the programmed memory |
| DeviceProto.Device.CmdVerify | src/btlproto.c:80-95 | -1 when btl_area holds or the flash differs from the payload, else 0 |
| DeviceProto.Device.CmdErase | src/btlproto.c:97-112 | 0 without a call for length 0; -1 without a call when btl_area (on the narrowed length) holds; otherwise one logged flash_erase whose success gives 0 and the erased memory |
| DeviceProto.Device.CmdBaud | src/btlproto.c:114-133 | 0 iff the payload value is an allowed rate, else -1 |
| DeviceProto.Device.CmdReset | src/btlproto.c:135-139 | sets `reset = 1` and returns 0 |
| DeviceProto.Device.RunCommand | src/btlproto.c:150-174 | the switch: its result, buffer, flash log, memory and reset flag are those of `Dispatch` with the guard as written; `baud` is never changed |
| DeviceProto.Device.RunFlashUpdate | src/btlproto.c:157-162 | the WRITE and ERASE cases of the switch agree with `Dispatch` and change only the flash |
| DeviceProto.Device.ReplyHeaderOf | src/btlproto.c:176-179 | the header becomes status 0xFF with size 0 when the result is negative, else OK with the result as size |
| DeviceProto.Device.PutCrc | src/btlproto.c:181-182 | stores the checksum of the reply's covered bytes at its checksum position and returns `btl_size_pkt` |
| DeviceProto.Device.SealReply | src/btlproto.c:176-182 | the buffer becomes `Reply`, and the reply's length is returned |
| DeviceProto.Device.HandlePacket | src/btlproto.c:141-183 | on a checksum mismatch -1 with buffer, flash and reset untouched; otherwise the buffer becomes the reply to `Dispatch`'s outcome, the flash calls are logged, and size+9 is returned |
| HostProto.Port.Write | tools/src/btlproto.c:74 | serial_write sends all the bytes or fails with -1 and sends nothing |
| HostProto.Port.Read | tools/src/btlproto.c:84-85 | serial_read delivers the next read event: a byte, or an error or end-of-input result |
| HostProto.ReadByteStep | tools/src/btlproto.c:77-117 | a failed read is returned as is; a byte gives at most 256, a positive length below 256 is one more than held, and 256 only for a complete frame with a valid checksum |
| HostProto.ReadByteStart | tools/src/btlproto.c:84-95 | at length 0, '#' gives 1 and any other byte 0; a failed read gives its own result |
| HostProto.ReadByteFrame | tools/src/btlproto.c:97-116 | inside a frame each byte gives the new length, and the last byte gives 256 iff the checksum is valid, else 0 |
| HostProto.HeldStep | tools/src/btlproto.c:97-116 | a new length while the header or the frame is incomplete, 256 for a complete valid frame, 0 otherwise |
| HostProto.Decode | tools/src/btlproto.c:119-138 | btl_read's loop ends with a frame that is complete and valid, a negative error, or an overrun |
| HostProto.DecodeStep | tools/src/btlproto.c:129-138 | one turn of the loop: negative results end it, zero restarts it with one more failure (the fourth ends it with -1), a length continues it, 256 completes it |
| HostProto.DecodeFrame | tools/src/btlproto.c:119-149 | a frame from btl_write, after any number of earlier zero results, is read completely on its last byte, and what follows is left unread |
| HostProto.BadFrameCounts | tools/src/btlproto.c:129-138 | a whole frame with a bad checksum is one zero result: reading restarts with the count one higher, or ends with -1 on the fourth |
| HostProto.DecodeNoiseFails | tools/src/btlproto.c:129-138 | bytes other than '#' each count as one failure, and the fourth makes btl_read return -1 |
| HostProto.DecodeOversizeOverruns | tools/src/btlproto.c:97-104 | a header with a size byte above 64 makes btl_read write past its 73-byte buffer |
| HostProto.Write | tools/src/btlproto.c:51-75 | more than 64 bytes: -1 and nothing sent; otherwise exactly the frame `Frame(cmd, 0, addr, payload)` is sent or nothing is, and the status argument is ignored |
| HostProto.PutHeader | tools/src/btlproto.c:57-61 | the header is '#', the size, cmd, status 0 and the address's little-endian bytes; the rest of the buffer is kept |
| HostProto.PutPayload | tools/src/btlproto.c:66-67 | the payload is copied after the header, which is kept |
| HostProto.PutCrc | tools/src/btlproto.c:69 | the checksum of the covered bytes is stored at `data[size]` and the frame length returned |
| HostProto.Seal | tools/src/btlproto.c:66-69 | the buffer's first `btl_size_pkt` bytes become the frame |
| HostProto.ReadByte | tools/src/btlproto.c:77-117 | one call of btl_read_byte: the byte is stored at `len` when it fits, and the result is `ReadByteStep` of the held bytes and the event |
| HostProto.Classify | tools/src/btlproto.c:97-116 | the length and checksum tests on the held bytes give `HeldStep` |
| HostProto.ReadTurn | tools/src/btlproto.c:129-138 | one loop turn, read and classified, advances `Decode` by one event |
| HostProto.Unpack | tools/src/btlproto.c:140-149 | copies size, cmd, status, addr and the `size` payload bytes out of a complete frame |
| HostProto.Read | tools/src/btlproto.c:119-150 | btl_read delivers what `Decode` gives for the input: for a frame its size, cmd, status, address and payload; otherwise the error or the overrun |
| HostClient.TransferResult | tools/src/main.c:78-93 | as written the result is -1 or a size in [0, 256): with `sz` a uint8_t, a failed read becomes a size |
| HostClient.FailedReadLooksLikeReply | tools/src/main.c:78-84 | `sz % 256` is never negative, so a read that fails with -1 passes as a 255-byte reply when cmd and status match |
| HostClient.TransferCheckedMeaning | tools/src/main.c:84-93 | the intended check returns -1 unless the read succeeded with the right command and status OK, and otherwise the reply size |
| HostClient.TransferAgreesOnSuccess | tools/src/main.c:84-93 | for every successful read the check as written and the intended check agree |
| HostClient.CheckReply | tools/src/main.c:84-93 | the reply is taken exactly when its command without the reply flag is the request's and its status is OK, and then the result is the read's result mod 256, never -1 for a failed read; otherwise -1 |
| HostClient.Transfer | tools/src/main.c:75-94 | -1 if the write fails, with nothing sent or read; otherwise the request frame is sent and the reply is read and checked as `TransferResult` says |
| HostClient.File.Read | tools/src/main.c:176 | read(2) on the image gives the next bytes of the file, 0 only at its end or for a 0-byte request, or -1 on failure |
| HostClient.Reset | tools/src/main.c:116-121 | bootloader_reset sends the RESET frame or nothing, and reads no reply |
| HostClient.SetBaudDropsRate | tools/src/main.c:105-114 | as written every rate gives the same request with an empty payload; with a 4-byte payload the rate reads back exactly |
| HostClient.SetBaud | tools/src/main.c:105-114 | sends the BAUD request as written or nothing; if it went out its reply is read from the input and checked, and the call succeeds exactly when it went out and that check passed |
| HostClient.FlashErase | tools/src/main.c:136-150 | sends an ERASE at `addr` whose payload is the file length as 4 little-endian bytes, or nothing; if it went out its reply is read and checked, and the call succeeds exactly when it went out and that check passed |
| HostClient.WriteChunk | tools/src/main.c:180-181 | sends one WRITE of the chunk at `addr`, or nothing; if it went out its reply is read and checked, and the call succeeds exactly when it went out and that check passed |
| HostClient.WriteAt | tools/src/main.c:172-184 | the i-th WRITE goes to `base` plus the length of the chunks before it (mod 2^32) |
| HostClient.WritesConsecutive | tools/src/main.c:172-184 | each WRITE's address is the previous one's plus its chunk length |
| HostClient.WritesCarryChunks | tools/src/main.c:172-184 | the first WRITE goes to `base`, and the payloads of the WRITEs concatenate to the chunks read |
| HostClient.ProgramOrder | tools/src/main.c:169-184 | the ERASE comes first unless `skip` is set, and every later request is a WRITE of 1 to 64 bytes |
| HostClient.AddrAfterOffset | tools/src/main.c:183 | the address after the chunks is `base` plus their total length (mod 2^32) |
| HostClient.WriteTurn | tools/src/main.c:175-190 | one iteration of the loop: a chunk is read and its WRITE succeeds, keeping the loop's invariant with every reply so far a success; or the file ends; or the WRITE fails, and then it is the last request sent and its result is the only failure, unless it could not be sent at all |
| HostClient.WriteImage | tools/src/main.c:172-190 | the chunks are pieces of the file's start, each 1 to 64 bytes; the WRITEs sent are those of the chunks, all of them on success or a prefix on failure; each WRITE sent read its reply in turn, every result but the last is a success, success means all succeeded, and failure means the last one failed or the next could not be sent; without a read failure, success means the whole file |
| HostClient.FlashFile | tools/src/main.c:152-194 | flash_file sends the ERASE (unless skipped), the WRITEs of the file's chunks at consecutive addresses, and then a RESET; each transfer reads its reply in turn from the input; success means every transfer succeeded, and a failed transfer is the last request sent, so no later WRITE and no RESET follows it |
| HostClient.EraseFirst | tools/src/main.c:169-170 | the ERASE of the whole file unless `skip`; success means it was skipped or its reply passed the check |
| HostClient.NothingAfterFailure | tools/src/main.c:180-181 | in a run of transfers a failed result can only be the last one, and then the run reports failure |
| HostClient.RefusedFirstReplyStops | tools/src/main.c:146-147 | when the reply to the first request is a frame with status ERROR, the run fails after that one request: a refused ERASE is followed by no WRITE and no RESET |
| HostClient.AnsweredAppend | tools/src/main.c:75-94 | replies read by consecutive transfers compose: two runs read one after the other are one run |
| EndToEnd.RequestReachesDevice | tools/src/btlproto.c:57-69 | a request of at most 64 bytes from btl_write is assembled by the device's btl_read_byte, which returns 1 exactly on its last byte; the device's checksum test passes; cmd, address and payload read back unchanged |
| EndToEnd.ReplyReachesHost | src/btlproto.c:176-182 | the device's reply is read by the host's btl_read as one complete frame, which delivers the reply's size, `cmd | 0x80`, status, address and data |
| EndToEnd.TransferAcceptsReply | tools/src/main.c:84-93 | btl_transfer takes the device's reply to a command below 0x80: -1 exactly when the device reported an error, else the reply size |
| EndToEnd.EraseLengthArrives | tools/src/main.c:145-146 | the device's btl_get_u32 reads flash_erase's length modulo 2^32, at the requested address |
| EndToEnd.StaleRateRefused | src/btlproto.c:114-133 | a rate made of one byte and three zero bytes is below 256 and is refused |
| EndToEnd.SetBaudAsWrittenRefused | tools/src/main.c:110-112 | the set-baud frame as written has no payload, so the device reads the checksum byte and stale bytes as the rate; with zero stale bytes it refuses every rate |
| EndToEnd.SetBaudFixedArrives | tools/src/main.c:110-112 | with the rate sent as a 4-byte payload the device reads exactly the requested rate and accepts it iff it is an allowed rate |

## Left out

- Flash hardware (src/flash.c). flash_read, flash_write and flash_erase are abstract operations over a byte map, and whether each call succeeds is a free choice. flash_erase's page alignment and page-granular erasing are not modelled: an erase clears exactly the requested bytes.
- Clock and sleeping (src/target.c). `timer_get_us` becomes a `now` parameter. The `timer_sleep_us(100)` in usart_write is not modelled.
- The peripheral registers. They are the abstract event log of `Usart`. Half-duplex, inversion, MSB, baud-rate and rx-enable setters (src/usart.c:159-204) only forward to the hardware and are not modelled.
- `usart_rx_set_callback` and `usart_tx_set_callback`. Whether a callback is installed is the `rxCb`/`txCb` flag.
- usart_init. Its hardware-init and allocation failures are not modelled: the constructor takes already allocated buffers. Selecting the port by `num` is dropped, so one object is one port.
- Interrupt preemption. Each interrupt body is one atomic step.
- UsartQueues.Usart.RxIrq: requires a byte to be pending, as the interrupt only fires when the receiver holds one.
- `queue_empty`, `queue_full` and `queue_count` live in queue.h, which is not part of this model. They are taken to be `head == tail`, `head - tail == size` and `head - tail`.
- The ring buffer's `head` and `tail` are unbounded naturals. Their wrap-around at the width of `size_t` is not modelled.
- Masking with `size - 1` is written as `mod size`. These agree for the power-of-two sizes that Queue.Init requires.
- The callbacks run by timer_handle are recorded, not executed. A callback that adds or deletes timers while the list is being walked is not modelled.
- Scheduler.Timer.Add: a failed malloc is a `mallocOk` parameter.
- The device's main loop (src/main.c). It only echoes bytes and never calls the protocol engine, so no device protocol loop is modelled. The reboot-cause magic, start.c and the application handoff are out of scope.
- DeviceProto.Device.ReadByte: requires `len` below 73. A caller that goes on feeding bytes after a 1 for a 64-byte frame, without resetting `len`, makes btl_read_byte store at `buf[73]`, past the buffer (src/btlproto.c:189). That undefined behaviour is not modelled; `Replay` describes callers that reset after each 1.
- DeviceProto.Device.HandlePacket: requires the size byte to be at most 64. btl_read_byte never completes a frame with a larger one, so the source relies on the same fact.
- The serial port is an abstract byte stream.
  - HostProto.Port.Write: a write either sends everything or fails. Partial writes are not modelled.
  - serial_read returning 0 is one read event with result 0, which btl_read counts as a failure.
- HostProto.Read: once the decoder would write past its 73-byte buffer (a size byte above 64), the model reports `BufferOverrun` and stops. The C code's behaviour from there on is undefined and is not modelled.
- HostClient.Transfer: after a failed read, btl_transfer compares the uninitialised `c` and `st`. The model leaves their values open, so the result is -1 or the failed size mod 256.
- `failure` exits the program. In the model a failed transfer makes FlashErase/SetBaud/WriteChunk report `false`, and FlashFile returns `false` at once, sending nothing more.
- bootloader_info only prints the version string. Its request is an ordinary `Transfer` of INFO and is not modelled separately.
- flash_file's `bytes` counter is uninitialised but only feeds the progress output. Printing and flushing are left out.
- HostClient.FlashFile: requires the file to be shorter than 2^31 bytes, so that `int len` holds its size. fstat and open failures end the program and are left out.
- The host's `main`, `usage` and option parsing (tools/src/main.c:196-240) are out of scope. So is the debug dump `btl_dump_pkt`.

## Findings

| source | as written | input that shows it | evidently intended | confidence | as-written member | corrected member |
|---|---|---|---|---|---|---|
| src/btlproto.c:36-37 | btl_area only tests where `addr + size` ends, so a range that starts inside the region and runs past its end is accepted | WRITE of 64 bytes at 0xFE13FE0 | refuse every range that shares a byte with [0xFE10000, 0xFE14000) | high, not executed | DeviceProto.AreaMissesTail | DeviceProto.CorrectedKeepsBootloader |
| src/btlproto.c:105 | the 32-bit ERASE length is passed to btl_area's `uint8_t size`, so only its low byte is checked | ERASE of 0x10000 bytes at 0xFE0F000 | check the full length | high, not executed | DeviceProto.AreaMissesEnclosingErase | DeviceProto.CorrectedKeepsBootloader |
| src/timer.c:80 | `now >= last + period` with a uint32 sum fires on every pass once `last + period` wraps | period 0x200, fired at now = 0xFFFFFF00 | `now - last >= period`, quiet for a full period after firing | high, not executed | Scheduler.AsWrittenRefiresAtWrap | Scheduler.WrapSafeQuietForPeriod |
| tools/src/main.c:84 | `sz` is uint8_t, so `btl_read(...) < 0` is never true and a failed read passes as a reply | btl_read returns -1 and the stale cmd/status match | keep `sz` signed so that a failed read fails the transfer | high, not executed | HostClient.FailedReadLooksLikeReply | HostClient.TransferCheckedMeaning |
| tools/src/main.c:112 | the set-baud request has payload length 0, so the rate is never sent; the device reads the checksum and stale bytes as the rate | any rate, e.g. 115200, with zero bytes after the frame | send the 4 rate bytes | high, not executed | EndToEnd.SetBaudAsWrittenRefused | EndToEnd.SetBaudFixedArrives |
