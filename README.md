# Simba: XBee client, NMEA decoder and NodeMCU pin names, in Dafny

This project models three pieces of the Simba embedded framework and proves
properties of them.

- **XBee client** (`src/drivers/network/xbee_client.c`). This is the request/response
  bookkeeping above the XBee API frame codec:
  - the 8-bit frame-id counter that skips the "no acknowledgement" sentinel;
  - the single pending-request slot (`rpc.rx`), which correlates a TX Request or AT
    Command with its TX Status or AT Command Response;
  - the inbound datagram queue `chin`, fed by RX Packet frames and drained by
    `xbee_client_read_from`;
  - the TX Request and AT Command frames the client builds;
  - the big-endian u16/u32 AT parameters;
  - the pin shadow register `pins.value`.

  Module `XBeeModel` (`xbee_model.dfy`) gives each operation as a function on an
  abstract `Client` value and proves the protocol's properties about those
  functions. Module `XBeeClient` (`xbee_client.dfy`) is the object itself: a class
  whose fields are the C struct's fields and whose methods update them in place.
  - The caller's response buffer is an `array`, and the handler copies into it with a
    `memcpy` loop.
  - Frame data is laid out with the same `memcpy` loop.
  - Each method is proved to move the object's abstract state `Model()` exactly as
    the matching `XBeeModel` function does.

- **NMEA 0183 decoder** (`src/encode/nmea.c`), module `Nmea` (`nmea.dfy`).
  - `calculate_crc` is the XOR loop, proved against the checksum function `Crc`.
  - `strsep` works in place on the NUL-terminated character buffer.
  - The six sub-decoders fill the sentence's field pointers (indices into the buffer,
    or NULL) with successive `strsep` calls. They are proved against a specification
    of the whole split (`FieldSplit`).
  - `nmea_decode` checks the framing ("$...*hh\r\n" and a NUL at `size`) and the
    transmitted checksum, then dispatches on the "GPxxx," header.
  - The lemmas restate acceptance on the text of the sentence: a known type is
    accepted exactly when its fields text holds that type's number of commas followed
    by a '*'.

- **NodeMCU pin names** (`src/boards/nodemcu/board.c`), module `NodeMcuBoard`
  (`board.dfy`). `board_pin_string_to_device_index` is a pure function from pin names
  to GPIO indices.

`common.dfy` holds what the three share:
- an `Option` type;
- the errno codes, with Linux numbering;
- `Low8`, the truncation of a character to the byte that C stores.

### How the XBee client's environment is modelled

`communicate` blocks on a condition variable until the dispatcher thread delivers a
response, or until the wait times out. The model makes these two things parameters:
- `writeRes`: what the transport's `xbee_write` returns.
- `arrivals`: the inbound frames the dispatcher handles while the caller waits, in
  arrival order.

A request that no arriving frame answers has timed out, and the call returns
`-ETIMEDOUT`. After a successful write the slot is always empty again on return.
What a failed write leaves behind is undefined in C; "## Left out" says how the
model idealises it.

## Model

| member | source | states |
|---|---|---|
| NodeMcuBoard.StrToL | src/boards/nodemcu/board.c:38-39 | the number parse fails (NULL) exactly when the text after 'd' does not start with a digit |
| NodeMcuBoard.DecimalRoundTrip | src/boards/nodemcu/board.c:38 | parsing the decimal representation of any n gives back n |
| NodeMcuBoard.PinStringToDeviceIndex | src/boards/nodemcu/board.c:37-73 | the result is -ENODEV or one of the eleven board indices; it is not -ENODEV exactly when the name is "led" or 'd' followed by a number at most 10; "led" gives table entry 0, "d<n>" gives table entry n |
| NodeMcuBoard.PinNameMaps | src/boards/nodemcu/board.c:41-63 | "d0".."d10" map to 16, 5, 4, 0, 2, 14, 12, 13, 15, 3, 1 |
| NodeMcuBoard.LedIsD0 | src/boards/nodemcu/board.c:67-68 | "led" maps to 16, the index of "d0" |
| NodeMcuBoard.PinNumberOutOfRange | src/boards/nodemcu/board.c:64-65 | 'd' followed by a number above 10 gives -ENODEV |
| NodeMcuBoard.PinNumberMissing | src/boards/nodemcu/board.c:38-39 | 'd' not followed by a digit gives -ENODEV |
| NodeMcuBoard.PinNamesDistinct | src/boards/nodemcu/board.c:41-63 | d0..d10 map to pairwise different indices |
| Nmea.CrcConcat | src/encode/nmea.c:40-42 | the checksum of a concatenation is the XOR of the two checksums |
| Nmea.CrcAppend | src/encode/nmea.c:41 | one more character XORs its low byte into the checksum |
| Nmea.CrcOfDoubled | src/encode/nmea.c:40-42 | a text repeated twice has checksum 0 |
| Nmea.CalculateCrc | src/encode/nmea.c:33-45 | the loop returns the XOR of the `size` characters from `start` (0 for an empty range) |
| Nmea.CrcDetectsOneChange | src/encode/nmea.c:324-326 | changing the low byte of one character changes the checksum, so the comparison rejects a sentence with one corrupted character |
| Nmea.HexByte | src/encode/nmea.c:308-318 | the "0x"+hi+lo parse succeeds exactly when both characters are hex digits, and its value is below 256 |
| Nmea.HexChar | src/encode/nmea.c:308-318 | each value below 16 has a hex digit that the parse reads back as that value |
| Nmea.HexRoundTrip | src/encode/nmea.c:308-326 | the two hex digits of any byte parse back to that byte, so the transmitted checksum is compared by its value |
| Nmea.StrSep | src/encode/nmea.c:61 | strsep in place: returns the cursor; the first separator before the NUL becomes NUL and the cursor moves past it, otherwise the cursor becomes NULL; the buffer stays NUL-terminated at the same place |
| Nmea.SplitKeepsCursor | src/encode/nmea.c:61-74 | any run of strsep calls keeps the buffer's terminating NUL and the cursor at or before it |
| Nmea.Field | src/encode/nmea.c:61-72 | one stored `strsep(&src_p, ",")` extends the split by one stored comma step |
| Nmea.SkipComma | src/encode/nmea.c:73 | a discarded `strsep(&src_p, ",")` extends the split by one unstored step |
| Nmea.StarField | src/encode/nmea.c:139 | the closing stored `strsep(&src_p, "*")` completes the split of GSA, GSV, VTG and RMC |
| Nmea.StarSkip | src/encode/nmea.c:74 | the closing discarded `strsep(&src_p, "*")` completes the split of GGA and GLL |
| Nmea.DecodeGga | src/encode/nmea.c:51-82 | sets the type to GGA, stores the 12 fields of the split and overwrites the consumed separators; returns -EPROTO when the cursor ends NULL, else `size` |
| Nmea.DecodeGll | src/encode/nmea.c:88-112 | as for GGA, with GLL's 6 fields |
| Nmea.DecodeGsa | src/encode/nmea.c:118-147 | as for GGA, with GSA's 2 + 12 prns + 3 fields (the prns in a loop) |
| Nmea.DecodeSatellite | src/encode/nmea.c:170-179 | one loop iteration extends the split by prn, elevation and azimuth at ',' and the snr at ',', or at '*' for the last satellite, which completes the GSV plan |
| Nmea.DecodeGsv | src/encode/nmea.c:153-187 | as for GGA, with GSV's 3 + 4 satellites of 4 fields, the last one split at '*' |
| Nmea.DecodeVtg | src/encode/nmea.c:193-218 | as for GGA, with VTG's 8 fields |
| Nmea.DecodeRmc | src/encode/nmea.c:225-253 | as for GGA, with RMC's 11 fields |
| Nmea.HeaderLeavesRoom | src/encode/nmea.c:297-303 | a framed sentence with a known header has its fields start before the terminating NUL |
| Nmea.Decode | src/encode/nmea.c:286-354 | returns DecodeResult; a validated sentence of a known type is decoded as its sub-decoder does, anything else leaves buffer and sentence untouched |
| Nmea.Encode | src/encode/nmea.c:255-269 | writes '$' and returns -ENOSYS for every sentence |
| Nmea.CommaStepsShape | src/encode/nmea.c:51-253 | the sub-decoders split at 13, 6, 16, 18, 10 and 7 commas before the '*' |
| Nmea.CommaSplit | src/encode/nmea.c:61-73 | a run of k ',' splits succeeds exactly when the text holds k commas, and leaves the cursor on what follows them |
| Nmea.CommasThenStar | src/encode/nmea.c:73-79 | k ',' splits and a '*' split leave a non-NULL cursor exactly when the text holds k commas followed by a '*' |
| Nmea.FieldSplitSucceeds | src/encode/nmea.c:77-79 | a sub-decoder succeeds exactly when the fields text holds its number of commas and then a '*' |
| Nmea.DecodeOutcome | src/encode/nmea.c:297-353 | nmea_decode returns `size`, -EPROTO or -ENOSYS; `size` exactly when framed, checksum-valid, of a known type and with all separators; -ENOSYS exactly when valid but of an unknown type |
| Nmea.EmptyGllAccepted | src/encode/nmea.c:335-336 | "$GPGLL,,,,,,,*7C\r\n" with NUL is accepted with result 18 |
| Nmea.EmptyGllValidated | src/encode/nmea.c:296-326 | the empty GLL sentence is framed and its transmitted checksum 0x7C matches |
| Nmea.EmptyGllHeader | src/encode/nmea.c:330-336 | the empty GLL sentence has the "GPGLL," header |
| Nmea.EmptyGllChecksum | src/encode/nmea.c:306 | the checksum of "GPGLL,,,,,,," is 0x7C |
| Nmea.GllHeaderChecksum | src/encode/nmea.c:306 | the checksum of "GPGLL," is 0x7C |
| XBeeModel.Init | src/drivers/network/xbee_client.c:323-324 | the counter is the sentinel, no request is pending, the queue is empty, the pin register is the given value, and the first id handed out is 1 |
| XBeeModel.NextFrameId | src/drivers/network/xbee_client.c:40-49 | the id is never the sentinel; it is the counter plus one, and 255 wraps to 1 |
| XBeeModel.IdAfterValue | src/drivers/network/xbee_client.c:40-49 | the k-th id after init is k for k in 1..255, and the 256th is 1 |
| XBeeModel.FrameIdsCoverOnce | src/drivers/network/xbee_client.c:40-49 | the first 255 ids after init hand out every non-sentinel byte exactly once |
| XBeeModel.CopyInto | src/drivers/network/xbee_client.c:270 | memcpy replaces the prefix of the buffer and keeps its length and the rest |
| XBeeModel.Completed | src/drivers/network/xbee_client.c:268-283 | delivering the response clears the pending request |
| XBeeModel.HandleTxStatus | src/drivers/network/xbee_client.c:189-239 | -EPROTO unless the length is exactly 2; a matching id completes the slot (0 for status 0, else -EPROTO); a mismatched id or an empty slot leaves it unchanged; nothing else changes |
| XBeeModel.HandleAtCommandResponse | src/drivers/network/xbee_client.c:241-298 | -EPROTO when shorter than 4; a matching id completes the slot (status 0 copies min(len-4, capacity) bytes from offset 4 and records that count, else -EPROTO); a mismatched id changes nothing |
| XBeeModel.HandleRxPacket16 | src/drivers/network/xbee_client.c:137-161 | -EPROTO and no change exactly when the frame is shorter than 4; otherwise 0 and one record queued: the 2 address bytes and the data from offset 4 |
| XBeeModel.HandleRxPacket64 | src/drivers/network/xbee_client.c:163-187 | -EPROTO and no change exactly when the frame is shorter than 10; otherwise 0 and one record queued: the 8 address bytes and the data from offset 10 |
| XBeeModel.Dispatch | src/drivers/network/xbee_client.c:358-378 | one frame keeps the slot well formed, the counter and the pins, queues the frame's record if any; the slot changes only when the frame answers the pending request, and then as Completed |
| XBeeModel.DispatchAll | src/drivers/network/xbee_client.c:358-378 | dispatching inbound frames keeps the slot well formed, the frame-id counter and the pins |
| XBeeModel.DispatchQueuesRecords | src/drivers/network/xbee_client.c:143-186 | the queue grows by exactly one record per well-formed RX frame (address from offset 0, payload from offset 4 or 10), in arrival order; short RX frames and other frames add none |
| XBeeModel.IdleSlotUnchanged | src/drivers/network/xbee_client.c:209-234 | with no request pending, no inbound frame changes the slot |
| XBeeModel.FirstAnswerCompletes | src/drivers/network/xbee_client.c:209-234 | a pending slot is completed by the first frame that answers its id, and later frames do not touch it; with no answer it is unchanged |
| XBeeModel.Communicate | src/drivers/network/xbee_client.c:54-108 | the frame goes out once with its id filled in: the sentinel on the no-ack path (state untouched, write result returned), else a fresh id; the slot is empty after a successful write and still pending after a failed one |
| XBeeModel.AnswerResult | src/drivers/network/xbee_client.c:212-223 | an answering frame reports 0 exactly for status 0, else -EPROTO |
| XBeeModel.CommunicateOutcome | src/drivers/network/xbee_client.c:63-105 | after a successful write the call returns the result of the first frame answering the fresh id, or -ETIMEDOUT with the buffer untouched; the slot is empty and every RX frame that arrived is queued |
| XBeeModel.AnswerResultOfCommunicate | src/drivers/network/xbee_client.c:81-94 | a correlated call returns 0, the write error, -EPROTO or -ETIMEDOUT, and on 0 the recorded size is at most the capacity |
| XBeeModel.ReadFrom | src/drivers/network/xbee_client.c:384-398 | removes exactly the oldest record; returns min(capacity, record length), that prefix of the payload and the record's address |
| XBeeModel.ReadFromIsFifo | src/drivers/network/xbee_client.c:384-398 | the read after a read sees the next record, whatever the first read's capacity |
| XBeeModel.ReceivedDatagramReadBack | src/drivers/network/xbee_client.c:153-158 | a datagram received in an RX 16 frame reads back with its address and its payload truncated to the capacity |
| XBeeModel.TxRequestFrame | src/drivers/network/xbee_client.c:411-432 | the TX Request layout: address at offset 1, option byte 0 at pos-1, payload at pos (4 or 10), size pos+n, type by address width |
| XBeeModel.WriteTo | src/drivers/network/xbee_client.c:400-445 | -EINVAL and nothing sent for an invalid address; otherwise the TX Request frame goes out, and a non-negative result is the payload length |
| XBeeModel.WriteToOutcome | src/drivers/network/xbee_client.c:400-445 | to a valid address: a failed write returns its error; without acknowledgement the state is unchanged and a written frame returns the payload length; otherwise the payload length when the first frame answering the fresh id reports status 0, -EPROTO for any other status, -ETIMEDOUT when none answers, with the slot empty and every RX frame queued |
| XBeeModel.SendDatagramScenario | src/drivers/network/xbee_client.c:400-445 | "hi" to 0x1234 returns 2 on TX Status 0, -EPROTO on status 1, -ETIMEDOUT with no answer, and the wire frame is [id, 0x12, 0x34, 0, 'h', 'i'] |
| XBeeModel.AtCommandFrame | src/drivers/network/xbee_client.c:121-124 | the AT Command layout: command bytes at offsets 1 and 2, parameters from 3, size n+3 |
| XBeeModel.ExecuteAtCommand | src/drivers/network/xbee_client.c:110-135 | the AT Command frame goes out as a correlated request; the result is 0, the write error, -EPROTO or -ETIMEDOUT, and on 0 the recorded size is within the capacity |
| XBeeModel.AtCommandRead | src/drivers/network/xbee_client.c:493-512 | a non-negative result is the size the slot recorded (the bytes copied from an AT Command Response, or the capacity unchanged when a TX Status answers), at most the buffer length; otherwise the write error, -EPROTO or -ETIMEDOUT |
| XBeeModel.AtCommandReadResponse | src/drivers/network/xbee_client.c:267-283 | a read answered with status 0 returns min(response length, buffer length) and the buffer holds that prefix of the response over its old contents |
| XBeeModel.AtCommandReadTxStatus | src/drivers/network/xbee_client.c:212-223 | a read answered by a TX Status with status 0 returns the buffer's capacity and copies nothing |
| XBeeModel.ScalarResult | src/drivers/network/xbee_client.c:538 | 0 exactly when the count equals the width or is 0; any other count or error passes through |
| XBeeModel.AtCommandReadU8 | src/drivers/network/xbee_client.c:527-539 | the AT Command frame goes out without parameters; the result is 0, the write error, -EPROTO or -ETIMEDOUT |
| XBeeModel.AtCommandReadU16 | src/drivers/network/xbee_client.c:555-570 | the AT Command frame goes out without parameters; the result is 0, 1 (a one-byte response), the write error, -EPROTO or -ETIMEDOUT |
| XBeeModel.AtCommandReadU32 | src/drivers/network/xbee_client.c:590-608 | the AT Command frame goes out without parameters; the result is 0, a count 1-3, the write error, -EPROTO or -ETIMEDOUT |
| XBeeModel.ScalarReadResultU8 | src/drivers/network/xbee_client.c:527-539 | read_u8 answered with status 0 always returns 0; the value is the first response byte, or the caller's variable unchanged for an empty response |
| XBeeModel.ScalarReadResultU16 | src/drivers/network/xbee_client.c:555-570 | read_u16 returns 0 exactly when the response is empty or has at least 2 bytes, 1 for a one-byte response; the value unpacks the response prefix copied over the local buffer |
| XBeeModel.AtCommandWrite | src/drivers/network/xbee_client.c:514-525 | the command goes out with its parameters; the result is 0 or an error |
| XBeeModel.PackRoundTrip | src/drivers/network/xbee_client.c:555-628 | the u16/u32 readers undo the writers' most-significant-first packing, in both directions |
| XBeeModel.AtCommandWriteU8 | src/drivers/network/xbee_client.c:541-553 | sends the command with the single parameter byte, keeping the pins and slot invariant |
| XBeeModel.AtCommandWriteU16 | src/drivers/network/xbee_client.c:572-588 | sends the command with the value most significant byte first |
| XBeeModel.AtCommandWriteU32 | src/drivers/network/xbee_client.c:610-628 | sends the command with the value most significant byte first |
| XBeeModel.ScalarReadResult | src/drivers/network/xbee_client.c:590-608 | read_u32 returns 0 exactly when the response carries no bytes or at least 4, returns the count for 1-3 bytes; the value unpacks the response prefix copied over the local buffer, so the first 4 bytes when there are 4 |
| XBeeModel.EmptyResponseReadsAsSuccess | src/drivers/network/xbee_client.c:527-539 | read_u8 of a response with no parameter bytes returns 0 and leaves the caller's variable as it was |
| XBeeModel.WriteU32Acknowledged | src/drivers/network/xbee_client.c:610-628 | an acknowledged write_u32 returns 0 and sends the value most significant byte first |
| XBeeModel.ScalarRoundTrip | src/drivers/network/xbee_client.c:590-628 | a u32 written and read back from a module that echoes it comes back unchanged, with result 0 |
| XBeeModel.PinCommand | src/drivers/network/xbee_client.c:458-460 | the command is "D" followed by '0' advanced by the pin |
| XBeeModel.OutputMode | src/drivers/network/xbee_client.c:462-468 | OUTPUT_HIGH exactly for a non-zero value, else OUTPUT_LOW |
| XBeeModel.PinWrite | src/drivers/network/xbee_client.c:454-474 | bit `pin` becomes value != 0, every other bit is unchanged, and D<pin> goes out with OUTPUT_HIGH or OUTPUT_LOW |
| XBeeModel.PinWriteSameValue | src/drivers/network/xbee_client.c:462-468 | writing the value a pin already holds leaves the register unchanged |
| XBeeModel.PinToggle | src/drivers/network/xbee_client.c:476-485 | only bit `pin` flips, and the new bit value is written (OUTPUT_HIGH exactly when the bit was clear) |
| XBeeModel.PinToggleTwice | src/drivers/network/xbee_client.c:476-485 | toggling twice restores the register |
| XBeeModel.PinSetMode | src/drivers/network/xbee_client.c:447-452 | the mode is ignored: the pin bit is cleared, every other bit is kept, the slot stays well formed, and OUTPUT_LOW goes out |
| XBeeModel.PinConvert | src/drivers/network/xbee_client.c:487-491 | sends "IS" without parameters, whatever the pin; the pin register is unchanged and the slot stays well formed |
| XBeeClient.Memcpy | src/drivers/network/xbee_client.c:270 | the loop copies `src` to `dst[pos..]` and leaves the rest of `dst` unchanged |
| XBeeClient.XBeeClient.constructor | src/drivers/network/xbee_client.c:309-337 | the new object's state is Init |
| XBeeClient.XBeeClient.NextFrameId | src/drivers/network/xbee_client.c:40-49 | the counter advances as NextFrameId, and nothing else changes |
| XBeeClient.XBeeClient.HandleRxPacket16 | src/drivers/network/xbee_client.c:137-161 | the object moves as HandleRxPacket16 |
| XBeeClient.XBeeClient.HandleRxPacket64 | src/drivers/network/xbee_client.c:163-187 | the object moves as HandleRxPacket64 |
| XBeeClient.XBeeClient.HandleTxStatus | src/drivers/network/xbee_client.c:189-239 | the object moves as HandleTxStatus |
| XBeeClient.XBeeClient.HandleAtCommandResponse | src/drivers/network/xbee_client.c:241-298 | the object moves as HandleAtCommandResponse |
| XBeeClient.XBeeClient.DeliverAtCommandResponse | src/drivers/network/xbee_client.c:267-283 | the matching branch: the copy into the caller's buffer and the slot fields reach Completed |
| XBeeClient.XBeeClient.Dispatch | src/drivers/network/xbee_client.c:358-378 | the object moves as one dispatch step |
| XBeeClient.XBeeClient.Communicate | src/drivers/network/xbee_client.c:54-108 | the loop over the arriving frames moves the object as Communicate |
| XBeeClient.XBeeClient.BuildFrame | src/drivers/network/xbee_client.c:121-124 | the frame data is a zero id byte followed by the copied pieces |
| XBeeClient.XBeeClient.ExecuteAtCommand | src/drivers/network/xbee_client.c:110-135 | the object moves as ExecuteAtCommand, and the slot's buffer is the caller's |
| XBeeClient.XBeeClient.AtCommandRead | src/drivers/network/xbee_client.c:493-512 | the object and the caller's buffer move as AtCommandRead |
| XBeeClient.XBeeClient.AtCommandWrite | src/drivers/network/xbee_client.c:514-525 | the object moves as AtCommandWrite |
| XBeeClient.XBeeClient.AtCommandReadU8 | src/drivers/network/xbee_client.c:527-539 | the object and the caller's variable move as AtCommandReadU8 |
| XBeeClient.XBeeClient.AtCommandReadU16 | src/drivers/network/xbee_client.c:555-570 | the object and the returned value are as AtCommandReadU16 |
| XBeeClient.XBeeClient.AtCommandReadU32 | src/drivers/network/xbee_client.c:590-608 | the object and the returned value are as AtCommandReadU32 |
| XBeeClient.XBeeClient.AtCommandWriteU8 | src/drivers/network/xbee_client.c:541-553 | the object moves as AtCommandWriteU8 |
| XBeeClient.XBeeClient.AtCommandWriteU16 | src/drivers/network/xbee_client.c:572-588 | the object moves as AtCommandWriteU16 |
| XBeeClient.XBeeClient.AtCommandWriteU32 | src/drivers/network/xbee_client.c:610-628 | the object moves as AtCommandWriteU32 |
| XBeeClient.XBeeClient.ReadFrom | src/drivers/network/xbee_client.c:384-398 | the queue, the result and the caller's buffer move as ReadFrom; the other fields are unchanged |
| XBeeClient.XBeeClient.WriteTo | src/drivers/network/xbee_client.c:400-445 | the object moves as WriteTo |
| XBeeClient.XBeeClient.PinWrite | src/drivers/network/xbee_client.c:454-474 | the object moves as PinWrite |
| XBeeClient.XBeeClient.PinToggle | src/drivers/network/xbee_client.c:476-485 | the object moves as PinToggle |
| XBeeClient.XBeeClient.PinSetMode | src/drivers/network/xbee_client.c:447-452 | the object moves as PinSetMode |
| XBeeClient.XBeeClient.PinConvert | src/drivers/network/xbee_client.c:487-491 | the object moves as PinConvert |

## Left out

- Mutexes, `cond_wait` and `cond_signal`, and the real-time timeout. The concurrency is replaced by the `arrivals` parameter, and a timeout is the case where no arrival answers the request.
- The endless loop of `xbee_client_main`, `chan_poll`, `xbee_read`, `xbee_write` and `xbee_init`. These are transport I/O and the external frame codec. Only the per-frame switch is modelled, and the result of `xbee_write` is the parameter `writeRes`.
- The byte layout of the `chin` queue (`queue_write`, `queue_read`, `queue_ignore`) and its capacity. The queue is a sequence of (address, payload) records, and the record length is the payload length.
- XBeeModel.ReadFrom: requires a non-empty queue, because the source blocks on an empty queue. The non-blocking-read flag of `xbee_client_init` is not modelled.
- DLOG logging, `xbee_client_module_init`, `xbee_client_print_address`, and the debug print in `nmea_decode`. These are output plumbing only.
- The XBee and NMEA headers are not part of this model, so some constants are assumed:
  - the sentinel frame id is 0;
  - OUTPUT_LOW is 4 and OUTPUT_HIGH is 5;
  - the frame-type codes are those of the XBee API;
  - 12 GSA prns and 4 GSV satellites;
  - `cond_wait` returns -ETIMEDOUT when the wait at line 85 of `xbee_client.c` times out, and the call passes that value through.
- A failed `xbee_write` in a correlated request. The source returns without clearing `rpc.rx.frame_p` (the clear at line 93 is skipped), so `frame_p` and `size_p` point at the returned caller's locals (lines 117-118 and 406-408); the dispatcher would later read them (lines 210, 265 and 269), which is undefined behaviour. The model idealises this: `Communicate` leaves the slot published with the caller's buffer and capacity when `writeRes != 0`, and a later matching response completes that slot.
- The initial value of `pins.value` is a parameter of the constructor, because `xbee_client_init` does not set it.
- The register is modelled as the set of positions of its 1 bits. Its 32-bit width is the precondition `IsPin(pin)` (0 <= pin < 32); a shift by 32 or more is undefined in C.
- The contents of uninitialised local buffers in the u16 and u32 readers are a parameter (`stale`).
- XBeeClient.XBeeClient.ReadFrom: when the reader's buffer is also the response buffer of an earlier AT read, the contract states the queue, the fields and the buffer but not the abstract slot buffer.
- Outgoing frames are values, so the in-place id fill-in of the caller's frame struct is not modelled. The ids sent are returned in `sent`.
- C integer widths in `communicate` and `execute_at_command` (`size + 3` and similar) are unbounded here.
- XBeeModel.WriteTo: the frame's data is an unbounded sequence. In the source, `frame.data.buf` is a fixed-size array whose capacity comes from the XBee header, which is not part of this model. `xbee_client_write_to` copies the payload into it without checking its size (line 431), so an oversized payload overflows the stack frame, which is undefined behaviour. The model instead sends the whole payload and returns its length.
- XBeeModel.ExecuteAtCommand: for the same reason, the AT parameters are copied unchecked into the fixed-size frame buffer (line 124). The model instead accepts parameters of any length.
- `std_strtol` is not part of this model.
  - NodeMcuBoard.StrToL is an unsigned decimal digit-prefix parse. A sign after 'd' yields no number; a radix prefix such as "0x5" parses as 0, so "d0x5" maps to 16. `std_strtol` may accept a sign or a radix prefix, and the model captures neither.
  - Nmea.HexByte accepts exactly two hex digits after "0x".
- Nmea.Decode: requires 5 <= size < buffer length, because the source reads `src_p[size - 5]` and `src_p[size]` without checking.
- The code after the switch in `nmea_encode` is unreachable and uses an uninitialised `res`.
- Nmea.NextStop: beyond the terminating NUL its result is irrelevant. The decoders only call `strsep` while the cursor is at or before that NUL.
