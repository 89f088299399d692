# uLoRaWAN device stack: MAC frame codec, radio interrupt state machine, join guard

This project models three parts of a small LoRaWAN end-device stack written in C, and proves properties about them.

- **The MAC frame codec** (`ulorawan_mac.c`, `ulorawan_mac.h`, `ulorawan_mac_frame.h`).
  - A frame context is a 255-byte buffer plus an end-of-frame cursor `eof`. It is modelled as the class `Mac.FrameContext`, with an `array<bv8>` and a `nat`.
  - Each read or write function is a method on the class. Each one checks `eof` against its field's place in the frame:
    - MHDR at 0;
    - frame header or join request at 1;
    - FPort and FRMPayload from 23 on;
    - MIC and written payload are not checked.
  - On success a method stores or loads the field's bytes and moves the cursor. On `ERR_INDEX` it changes nothing.
  - Multi-byte integers are written little-endian, byte by byte.
  - The FCtrl and MHDR unions become datatypes with pack and unpack functions, proved to be mutual inverses (module `MacFrame`).
  - The frame header has a byte-level encoding (`FhdrBytes`) and a parser (`ParseFhdr`), proved to be mutual inverses. The methods are proved against them.
- **The radio interrupt handler** (`ulorawan_irq.c`, with the session of `ulorawan_session.h`).
  - It is a switch on the session state {INIT, IDLE, TX, RX1, RX2, FAULT}. It starts and stops the receive-window timers and calls the downlink handler.
  - The method `Irq.RadioIrqHandler` updates a `Session.Session` object in place. It is proved against the function `Irq.HandleIrq`, whose properties hold for all inputs.
  - Runs of several interrupts are modelled by `Irq.Run`. Lemmas prove facts across calls:
    - a refusing state stays put;
    - the handler never goes back to TX;
    - each receive-window timer is started at most once per run.
- **An earlier revision of the handler** (`ulorawan_radio.c`): module `RadioEarly`.
- **The join guard chain and the version** of `ulorawan.c`: module `Ulorawan`.

The timer HAL's statuses and the downlink handler's result are inputs to the model (`Session.Hal`). A ghost trace `Session.Session.calls` records, in order, which of those calls the handler made.

## Model

| member | source | states |
|---|---|---|
| MacFrame.FOptsLen | ulorawan/src/mac/ulorawan_mac_frame.h:45-61 | the 4-bit FOptsLen field never exceeds the 15-byte options array |
| MacFrame.PackFCtrl | ulorawan/src/mac/ulorawan_mac_frame.h:56-70 | unpacking the packed FCtrl byte gives back every bitfield: FOptsLen in bits 0-3, FPending/ClassB in 4, ACK in 5, ADRACKReq in 6, ADR in 7 |
| MacFrame.PackUnpackFCtrl | ulorawan/src/mac/ulorawan_mac_frame.h:56-70 | every byte is the packing of its own FCtrl bitfields, so the union's two views are inverse |
| MacFrame.FrameTypeCode | ulorawan/src/mac/ulorawan_mac_frame.h:89-106 | every frame type has a 3-bit code in 0..7, and the code maps back to that type |
| MacFrame.FrameTypeCodeOf | ulorawan/src/mac/ulorawan_mac_frame.h:89-106 | every 3-bit FType value names exactly one frame type |
| MacFrame.PackMhdr | ulorawan/src/mac/ulorawan_mac_frame.h:123-134 | unpacking the packed MHDR byte gives back Major (bits 0-1), RFU (bits 2-4) and FType (bits 5-7) |
| MacFrame.PackUnpackMhdr | ulorawan/src/mac/ulorawan_mac_frame.h:123-134 | every byte is the packing of its own MHDR bitfields |
| MacFrame.CarriedFOpts | ulorawan/src/mac/ulorawan_mac_frame.h:75-84 | a header carries exactly FOptsLen option bytes, at most 15 |
| Mac.StatusCode | ulorawan/src/mac/ulorawan_mac.h:51-52 | the codec's only statuses are 0 for success and -1 for a misplaced cursor |
| Mac.MhdrInit | ulorawan/src/mac/ulorawan_mac.h:54-57 | the type shifted left by 5 and or-ed with the version is the MHDR byte of that frame type and major version, with RFU zero |
| Mac.EncodeLe16 | ulorawan/src/mac/ulorawan_mac.c:39-43 | BYTE_0/BYTE_1 give two bytes, least significant first, that decode to the value |
| Mac.EncodeDecodeLe16 | ulorawan/src/mac/ulorawan_mac.c:62-63 | any two bytes decode and re-encode to themselves |
| Mac.EncodeLe32 | ulorawan/src/mac/ulorawan_mac.c:39-47 | BYTE_0..BYTE_3 give four bytes, least significant first, that decode to the value |
| Mac.EncodeDecodeLe32 | ulorawan/src/mac/ulorawan_mac.c:55-58 | any four bytes decode and re-encode to themselves |
| Mac.FhdrBytes | ulorawan/src/mac/ulorawan_mac.c:116-127 | a frame header occupies 7 + FOptsLen bytes, at most the 22 of the packed struct |
| Mac.FhdrLength | ulorawan/src/mac/ulorawan_mac.c:60-67 | the header length read from a buffer is 7 plus the FOptsLen of its FCtrl byte, between 7 and 22 |
| Mac.ParseFhdr | ulorawan/src/mac/ulorawan_mac.c:55-67 | a parsed header has the full options array, and the options beyond FOptsLen keep the out-parameter's prior bytes |
| Mac.ParseFhdrFields | ulorawan/src/mac/ulorawan_mac.c:55-67 | the header parsed from buffer offset 1 is DevAddr assembled from bytes 1-4, FCtrl from byte 5, FCnt from bytes 6-7 and the options after them |
| Mac.ParseFhdrBytes | ulorawan/src/mac/ulorawan_mac.c:55-67 | parsing the bytes of any header, whatever follows them, reads exactly that many bytes and gives back a header equal on the wire; equal outright when the prior options beyond FOptsLen match |
| Mac.FhdrBytesOfParse | ulorawan/src/mac/ulorawan_mac.c:116-127 | writing a parsed header reproduces exactly the bytes it was parsed from |
| Mac.FhdrBytesLayout | ulorawan/src/mac/ulorawan_mac.c:116-127 | a header goes on the wire as DevAddr little-endian in bytes 0-3, FCtrl in byte 4, FCnt little-endian in bytes 5-6 and the FOptsLen options after them |
| Mac.ParseFhdrPrefix | ulorawan/src/mac/ulorawan_mac.c:55-67 | the header read from a buffer, and the number of bytes read, depend only on the prefix that holds it |
| Mac.JoinReqBytes | ulorawan/src/mac/ulorawan_mac.c:161-170 | a join request is 18 bytes: JoinEUI, then DevEUI, then DevNonce little-endian |
| Mac.FrameContext.constructor | ulorawan/src/mac/ulorawan_mac.h:64-68 | a context is a 255-byte buffer holding the given bytes and a cursor at the given place |
| Mac.FrameContext.WriteMhdr | ulorawan/src/mac/ulorawan_mac.c:175-184 | succeeds exactly when eof is 0; then buf[0] is the MHDR byte and eof is 1; otherwise ERR_INDEX and nothing changes |
| Mac.FrameContext.ReadMhdr | ulorawan/src/mac/ulorawan_mac.c:98-107 | succeeds exactly when eof is 0; then the MHDR is the one packed in buf[0] and eof is 1; otherwise ERR_INDEX, the out-value and eof unchanged |
| Mac.FrameContext.WriteFhdr | ulorawan/src/mac/ulorawan_mac.c:109-130 | succeeds exactly when eof is 1; then the header's wire bytes are in the buffer from offset 1, nothing else changed, and eof is 8 + FOptsLen; otherwise ERR_INDEX and nothing changes |
| Mac.FrameContext.ReadFhdr | ulorawan/src/mac/ulorawan_mac.c:49-70 | succeeds exactly when eof is 1; then the header is the one parsed from offset 1 and eof is 1 plus its length; otherwise ERR_INDEX, the out-value and eof unchanged |
| Mac.FrameContext.WriteFPort | ulorawan/src/mac/ulorawan_mac.c:132-142 | succeeds exactly when eof ≥ 23; then buf[eof] is the port and eof grows by one; otherwise ERR_INDEX and nothing changes |
| Mac.FrameContext.ReadFPort | ulorawan/src/mac/ulorawan_mac.c:72-82 | succeeds exactly when eof ≥ 23; then the port is buf[eof] and eof grows by one; otherwise ERR_INDEX, the out-value and eof unchanged |
| Mac.FrameContext.WriteFrmPayload | ulorawan/src/mac/ulorawan_mac.c:144-152 | always succeeds: the first len payload bytes are copied at eof, nothing else changes, and eof grows by len |
| Mac.FrameContext.ReadFrmPayload | ulorawan/src/mac/ulorawan_mac.c:84-96 | succeeds exactly when eof ≥ 23; then the len bytes at eof are copied to the front of the payload array and eof grows by len; otherwise ERR_INDEX and neither array nor eof changes |
| Mac.FrameContext.WriteJoinReq | ulorawan/src/mac/ulorawan_mac.c:154-173 | succeeds exactly when eof is 1; then the join request's 18 wire bytes are in the buffer from offset 1 and eof is 19; otherwise ERR_INDEX and nothing changes |
| Mac.FrameContext.WriteMic | ulorawan/src/mac/ulorawan_mac.c:186-194 | always succeeds: the MIC's four little-endian bytes are written at eof and eof grows by 4 |
| Mac.FrameContext.WriteFPortAtHeaderEnd | ulorawan/src/mac/ulorawan_mac.c:132-142 | corrected write_fport: succeeds exactly when eof ≥ 8, the end of a header without options |
| Mac.FrameContext.ReadFPortAtHeaderEnd | ulorawan/src/mac/ulorawan_mac.c:72-82 | corrected read_fport: succeeds exactly when eof ≥ 8 |
| Mac.FrameContext.ReadFrmPayloadAtHeaderEnd | ulorawan/src/mac/ulorawan_mac.c:84-96 | corrected read_frmpayload: succeeds exactly when eof ≥ 8 |
| Mac.FhdrWriteRead | ulorawan/src/mac/ulorawan_mac.c:49-70 | a header written after an MHDR and read back from the same buffer is equal on the wire, and both operations leave eof at 8 + FOptsLen |
| Mac.FPortAfterFhdrAsWritten | ulorawan/src/mac/ulorawan_mac.c:132-137 | after an MHDR and a header, write_fport fails exactly when the header carries fewer than 15 options |
| Mac.EncodeDataFrame | ulorawan/src/mac/ulorawan_mac.c:109-194 | MHDR, header, FPort (corrected gate), payload and MIC written in order make the frame MHDR ‖ FHDR ‖ FPort ‖ FRMPayload ‖ MIC with nothing between them |
| Mac.DataFrameRoundTrip | ulorawan/src/mac/ulorawan_mac.c:49-107 | a data frame encoded as above and read back in a fresh context with read_mhdr, read_fhdr and the corrected read_fport and read_frmpayload gives the same MHDR, a header equal on the wire, the same FPort and the same payload |
| Mac.ReadBodyBack | ulorawan/src/mac/ulorawan_mac.c:72-96 | from the end of the fixed header on, the corrected read_fport then read_frmpayload return the byte at the cursor and the len bytes after it, and advance the cursor past them |
| Mac.HeaderByteExamples | ulorawan/src/mac/ulorawan_mac_frame.h:56-70 | FCtrl 0x55 has FOptsLen 5 with FPending/ClassB and ADRACKReq set; Confirmed Data Down of major R1 is MHDR 0xA0 |
| Mac.FhdrExample | ulorawan/src/mac/ulorawan_mac.c:116-127 | DevAddr 0xAA55BEEF, FCtrl 0x55, FCnt 0xFEED and options DE AD BE EF AA give EF BE 55 AA 55 ED FE DE AD BE EF AA, which parse back |
| Mac.MicExample | ulorawan/src/mac/ulorawan_mac.c:188-191 | MIC 0xAA55FEED goes on the wire as ED FE 55 AA |
| Session.Session.constructor | ulorawan/src/ulorawan_session.h:70-83 | a new session is in INIT with the given class and receive delays, and has made no calls |
| Irq.StartCalls | ulorawan/src/ulorawan_irq.c:60-63 | TIMER0 is started with the first receive delay; TIMER1 is started with the second exactly when TIMER0 started |
| Irq.HandleIrq | ulorawan/src/ulorawan_irq.c:43-109 | every interrupt moves along a transition edge. The result is NONE, STATE, TIMER or the downlink result. INIT, IDLE and FAULT return STATE with no change and no call. TX without TX_DONE, and RX1 or RX2 with neither RX flag, stay put with NONE and no call. TX with TX_DONE goes to RX1 after starting TIMER0 and, only if that succeeded, TIMER1; the result is NONE when both started and TIMER otherwise. A timeout takes RX1 to RX2 and RX2 to IDLE with NONE and no call (the timeout is tested first). RX_DONE in RX1 stops TIMER1; if that fails the state is FAULT with TIMER, else the downlink handler is called. RX_DONE in RX2 calls the downlink handler directly. The downlink result is returned, and the state becomes IDLE only when it is NONE, else it stays in RX1 or RX2. TX never ends in FAULT |
| Irq.TimerHalStart | ulorawan/src/hal/timer/timer_hal.h:58 | the start is recorded in the call trace and the HAL's status is 0 or -1 |
| Irq.TimerHalStop | ulorawan/src/hal/timer/timer_hal.h:67 | the stop is recorded in the call trace and the HAL's status is 0 or -1 |
| Irq.DownlinkHandlerCall | ulorawan/src/ulorawan_irq.c:85 | the downlink call is recorded in the call trace and its result is passed back |
| Irq.RadioIrqHandler | ulorawan/src/ulorawan_irq.c:43-109 | the session's new state, the status and the calls appended to the trace are those of HandleIrq for the old state |
| Irq.StartFailureLeavesRx1 | ulorawan/src/ulorawan_irq.c:60-69 | if TX_DONE arrives and a timer fails to start, the result is ERR_TIMER but the state is RX1 |
| Irq.HandleIrqIntended | ulorawan/src/ulorawan_irq.c:60-69 | corrected handler. Same calls and status as HandleIrq, and the same new state except that TX with TX_DONE and a timer failing to start ends in FAULT. An ERR_TIMER without a downlink call always leaves the session in FAULT, and FAULT is entered only with ERR_TIMER |
| Irq.TimerErrorWithoutFault | ulorawan/src/ulorawan_irq.c:60-69 | as written, TIMER0 failing to start returns ERR_TIMER without a downlink call and outside FAULT |
| Irq.Run | ulorawan/src/ulorawan_irq.c:43-109 | a run of interrupts gives one status per interrupt, and it ends in INIT or in TX only if it started there: no interrupt leads into either |
| Irq.RefusingStateIgnoresRun | ulorawan/src/ulorawan_irq.c:50-55 | from INIT, IDLE or FAULT, every interrupt of a run returns ERR_STATE; the state stays and no call is made |
| Irq.TimerStarts | ulorawan/src/ulorawan_irq.c:60-64 | the count of starts of one timer among some calls is zero exactly when no call starts that timer |
| Irq.NoStartsOutsideTx | ulorawan/src/ulorawan_irq.c:49-106 | no interrupt leads into TX, so a run not starting in TX never starts TIMER0 or TIMER1 |
| Irq.TimersStartedAtMostOnce | ulorawan/src/ulorawan_irq.c:56-71 | whatever the interrupts and HAL results, a run starts TIMER0 at most once and TIMER1 at most once |
| Irq.ReceiveWindowsTimeOut | ulorawan/src/ulorawan_irq.c:56-103 | TX_DONE then two RX timeouts, with both timers starting, return to IDLE with three NONE results. TIMER0 is started with the first delay and TIMER1 with the second |
| RadioEarly.HandleIrqEarly | ulorawan/src/ulorawan_radio.c:43-96 | every interrupt moves along a transition edge. The result is ERR_STATE exactly in INIT or IDLE and NONE otherwise. RX1 with a timeout goes to RX2; RX1 with RX_DONE and RX2 with either flag go to IDLE; RX1 or RX2 with neither RX flag stays put. RX_DONE without a timeout stops TIMER1 then calls the downlink handler in RX1, and only calls the downlink handler in RX2; every other interrupt makes no call. No timer is ever started |
| RadioEarly.RadioIrqHandler | ulorawan/src/ulorawan_radio.c:43-96 | the session's new state, the status and the calls appended to the trace are those of HandleIrqEarly, whatever the HAL results |
| RadioEarly.LaterRevisionRefinesEarly | ulorawan/src/ulorawan_radio.c:48-93 | when every HAL call succeeds and the downlink handler reports no error, the later handler gives the same state and status as the earlier one in every state but FAULT |
| RadioEarly.FaultDiffers | ulorawan/src/ulorawan_radio.c:91-95 | in FAULT the earlier revision returns NONE and the later one ERR_STATE |
| Ulorawan.Join | ulorawan/src/ulorawan.c:54-72 | INIT gives the INIT error and any state other than INIT or IDLE the STATE error. In IDLE with no channel it gives the CHANNEL error; in IDLE with a channel it falls off the end. The channel lookup is consulted exactly in IDLE |
| Ulorawan.EncodeVersion | ulorawan/src/common/ulorawan_common.h:98-113 | decoding a packed version gives back its fields: revision in byte 0, patch in byte 1, minor in byte 2, major in byte 3 |
| Ulorawan.EncodeDecodeVersion | ulorawan/src/common/ulorawan_common.h:98-113 | every 32-bit value is the packing of its own version fields |
| Ulorawan.UlorawanVersion | ulorawan/src/ulorawan.c:74-80 | the stack's version is 1.0.4.0 |

## Left out

- Logging (`log_hal_log_*`) is left out. It only writes to the console and does not affect control flow.
- The radio, timer, crypto and random HALs are foreign code.
  - Timer and downlink results are inputs (`Session.Hal`).
  - The MIC is a `bv32` argument, since its AES-CMAC computation is not part of this model.
- `ulorawan_downlink_handler` is not part of this model. Only its result is modelled; any effect it has on the session is left out.
- The radio HAL's flag enumeration is unfinished: RX_DONE is 0, TX_DONE is 1, and there is no RX_TIMEOUT. A literal `flags & RADIO_HAL_IRQ_RX_DONE` would always be false. The model treats the flags as a set of distinct causes, as the handler's branches evidently mean.
- The region parameters (`ulorawan_region.h`) declare no receive delays. `rxDelay1` and `rxDelay2` are session fields of the timer HAL's 32-bit interval type.
- The session's frame buffer, frame size and security context are left out. The handlers do not use them.
- Mac.FrameContext.WriteFPort, ReadFPort, ReadFrmPayload, WriteFrmPayload, WriteMic and the corrected FPort and FRMPayload operations require the bytes they touch to fit in the 255-byte buffer. The C code never checks capacity, and writing past the end is undefined behaviour.
- Mac.FrameContext.ReadFhdr: DevAddr is assembled as an unsigned 32-bit value. In C, `byte << 24` is an int shift that overflows when the byte is 0x80 or more; the model takes the wrapped bits, as a two's-complement target gives.
- Mac.FrameContext.ReadFrmPayload: `*len` is passed by value, since the function only reads it.
- The event queue, `task()`, `ulorawan_init` and the timer-expiry handler have no implementation among the C files, so they are not part of this model.
- Ulorawan.Join: when a channel is found, the C function reaches its end without returning a value. This is modelled as `NoReturn`; the rest of the join procedure (nonce, crypto, radio) does not exist in the code.
- Ulorawan.Join: the `enum ulorawan_error` it returns is not part of this model. Its INIT, STATE and CHANNEL codes are taken to be ERR_INIT (-1), ERR_STATE (-2) and ERR_NO_CHANNEL (-3) of `ulorawan_error_codes.h`. The join tests expect ERR_INIT and ERR_NO_CHANNEL; no join test reaches the STATE guard, so ERR_STATE is taken from the same header by analogy.
- Ulorawan.Join: `ulorawan.c` declares its own two-state enumeration. The guard chain is modelled over the session's full state set, where "neither INIT nor IDLE" can actually occur.
- Ulorawan.UlorawanVersion: the `ULORAWAN_VERSION` macro is not part of this model. The packed value 0x01000400 is the one whose fields read 1.0.4.0 on a little-endian host, as the union overlay requires.
- RadioEarly.HandleIrqEarly follows the code in INIT and IDLE (ERR_STATE), although the unit test of that revision expects a different error code.

## Findings

| source | as written | input that shows it | evidently intended | confidence | as-written member | corrected member |
|---|---|---|---|---|---|---|
| ulorawan/src/mac/ulorawan_mac.c:74-75, 87-88, 134-135 | FPort and FRMPayload are accepted only from offset 1 + sizeof(struct ulorawan_mac_fhdr) = 23. That size includes the whole 15-byte options array | MHDR, then a header with FCtrl 0x00 (no options): eof = 8, and write_fport returns ERR_INDEX; likewise for every FOptsLen below 15 | FPort follows the frame header wherever it ends, so the gate is the end of the fixed header part (8) | high; not executed | Mac.FPortAfterFhdrAsWritten | Mac.FrameContext.WriteFPortAtHeaderEnd, ReadFPortAtHeaderEnd and ReadFrmPayloadAtHeaderEnd, used by Mac.EncodeDataFrame and Mac.DataFrameRoundTrip |
| ulorawan/src/ulorawan_irq.c:66-69 | on a failure to start a receive-window timer, the state is set to FAULT and then unconditionally overwritten with RX1 | state TX, flags {TX_DONE}, TIMER0 start fails: the result is ERR_TIMER and the state is RX1 | the session stays in FAULT after a timer-start failure, as it does after a timer-stop failure | high; not executed | Irq.TimerErrorWithoutFault, Irq.StartFailureLeavesRx1 | Irq.HandleIrqIntended |
