# ZIV 5CTM meter driver — a verified model

The ESPHome component `ziv` reads a ZIV 5CTM electricity meter over a
9600-baud infrared UART using DLMS/COSEM on the HDLC profile. ESPHome calls
the component every few milliseconds (`loop()`) and once per polling period
(`update()`). The driver is a cooperative state machine.

Every cycle has these steps:

- resets the HDLC link (SNRM request, UA reply);
- associates (AARQ request, AARE reply);
- reads a handful of COSEM register objects by OBIS logical name.

Each reading is published to a sensor.

The per-tick engine `communicate()` does five things:

- writes the outbound queue at most 10 bytes per tick;
- arms a 2000 ms reply deadline once the queue is written, and enforces it;
- drains whatever the UART has into a growable receive buffer;
- scans backwards for the HDLC flag byte 0x7E;
- hands the buffer to the DLMS codec, and a complete reply to the step's handler.

The repository holds two versions of the sequencer:

- `components/ziv/ziv.cpp`, the six-step version: energy and power, power scaled by 10.
- `ziv/ziv.cpp`, the older four-step version: energy only, unscaled; its export read always closes the cycle.

Modules:

- `Wire` (`wire.dfy`): bytes and messages, and the link constants: flag 0x7E, 10 bytes per tick, 2000 ms deadline, minimum frame 5, buffer slack 20, initial capacity 128.
- `Handlers` (`handlers.dfy`): the step handlers `RequestResponse` / `BuffersReqResp` / `AarqReqResp` / `CosemReqResp`.
  - The three subclasses form a closed set, so they are one class tagged by `HandlerKind`.
  - The `optional<int>` result is `Outcome`: `Pending`, or `Done(code)`.
- `Receiver` (`frame_receiver.dfy`): `FrameReceiver` as a class. It has the receive buffer as an `array<byte>` with `size` and `position`, the queue, the send cursor, `eop_found_`, `reply_.complete` and `timeout_`.
  - It also has `increase_rbuffer`, `resetcomm` and `communicate()`.
  - `communicate()` is split into its send step, its drain loop and its backward scan.
  - `Communicate` is proved against the pure function `CommStep`, one tick on a `CommState` value (queue, cursor, deadline, line log, receive side).
  - Its pieces are proved against pure functions: `NextCursor`/`WritesOf` for a send tick, `Arrived` for the drain, and `ReceiveStep` for the whole receive phase.
  - A send tick writes exactly the chunk `SendChunk` (`WritesCarryChunk`, `SendTickWrites`). `SendRun` is the concatenation of those chunks over k ticks, and the send-phase lemmas are about `SendRun`.
- `Schedule` (`schedule.dfy`): a generic fold `Run` of a per-tick transition over the results the active handler reports. It is used to state multi-tick properties of either sequencer.
- `Ziv` (`ziv_component.dfy`): the six-step `ZivComponent`, with `update`, `nextcomm` and `loop`. `Loop` is proved against the pure transition `Advance`, which the cycle lemmas are about.
- `ZivFourStep` (`ziv_four_step.dfy`): the four-step `ZivComponent` of `ziv/ziv.cpp`, the same way.
- In both, the invariant `ZivComponent.Valid` says that outside IDLE the step's handler is selected and pending, and that in a read step the COSEM handler targets that step's OBIS name. Every method keeps it.

External effects are parameters:

- A `Tick` carries the current `millis()`.
- It carries the successive chunks `available()` reports. The drain stops at the first empty one.
- It carries the DLMS codec's frame assembly (`dlms_getData2`) as a function from buffer and cursor to return code, completion and new cursor.
- It carries the return code and decoded integer of the handler's reply parser.
- The codec's message builders (`cl_snrmRequest`, `cl_aarqRequest`, `cl_read`) are the `built`/`buildRet` parameters of `Update`, `NextComm` and `Loop`.
- `write_array` calls are recorded in the ghost log `FrameReceiver.written`.
- `publish_state` calls are recorded in the ghost log `ZivComponent.published`.

The C++ `ZivComponent` inherits `FrameReceiver`; the model composes it (`comm`). The pointer `rr_` is the enumeration `Active`, which names one of the component's three handlers or none.

Behaviour kept as the code has it:

- `mdatapos_` is not reset when `mindex_` advances, so a second queued message is sent from the offset where the first ended (`CarryOverSkipsPrefix`).
- `timeout_` is never initialised, so the constructor takes its indeterminate value as a parameter. `resetcomm` never changes it. With an empty queue the send branch never runs and the stale deadline is what is checked.
- A failing step goes to IDLE without `resetcomm`. The queue, the cursor and the received bytes stay until the next `nextcomm`.
- The codec writes its cursor and completion flag before its return code is checked, so a failing assembly still moves them.

The name `lastReadPos` suggests that the backward scan covers only the bytes this drain appended. It does not. It runs from `size - 1` down to the codec cursor `rbuffer_.position`, excluded (components/ziv/ziv.cpp:228, 246). Bytes already scanned on an earlier tick are scanned again whenever the codec has not consumed them. The model follows the code (`FlagAfter`).

When the codec has consumed every held byte and nothing new arrives, the codec cursor equals `size`. The loop test `i != lastReadPos` then never fails, and the scan runs downwards until it meets a 0x7E. It still stays inside the buffer. The codec cursor moves only after a scan has seen a flag (components/ziv/ziv.cpp:246-261), and bytes are only appended until `resetcomm` (components/ziv/ziv.h:35-46). So a flag is held whenever the cursor is not 0. `FrameReceiver.Valid` carries this as `FlagHeld`, and `ScanFromEndFindsFlag` shows such a scan finds the flag. The scan's lower end is `ScanFloor`.

## Model

| member | source | states |
|---|---|---|
| Handlers.RequestResponse.constructor | components/ziv/ziv.h:145-150 | a new handler is pending, and a COSEM handler's value starts at 0 and targets the given OBIS name |
| Handlers.RequestResponse.Error | components/ziv/ziv.h:70-73 | error() makes the result -1 whatever it was before |
| Handlers.RequestResponse.Start | components/ziv/ziv.h:80-84 | start() makes the result pending and the queue is exactly what the builder produced; a failing builder never sets a result |
| Handlers.RequestResponse.Parse | components/ziv/ziv.h:172-180 | parse() makes the result exactly the parser's code, for every kind; only the COSEM handler stores the decoded integer, and only on code 0, otherwise the previous value is kept |
| Handlers.RequestResponse.SetLogicalName | components/ziv/ziv.h:154-162 | the COSEM handler's next read targets the given OBIS name |
| Receiver.GrownCapacity | components/ziv/ziv.h:27-33 | the capacity after growing holds size + more and never shrinks; it changes exactly when size + more exceeds it, and then to size + more + 20 |
| Receiver.FrameReceiver.constructor | components/ziv/ziv.h:18-25 | a fresh receiver has capacity 128, is reset, has an empty queue and an indeterminate timeout_ |
| Receiver.FrameReceiver.IncreaseRBuffer | components/ziv/ziv.h:27-33 | the capacity becomes GrownCapacity; the buffer is reallocated only when it grows; every stored byte is kept; size and position are untouched |
| Receiver.FrameReceiver.ResetComm | components/ziv/ziv.h:35-46 | the cursors are zeroed, eop_found_ and reply completion are cleared, size = position = 0, and the queue is emptied; the buffer allocation and timeout_ are unchanged |
| Receiver.ChunkLength | components/ziv/ziv.cpp:192-198 | a send tick writes at most 10 bytes, none exactly when the offset has reached the message end, and never past the end |
| Receiver.FrameReceiver.SendStep | components/ziv/ziv.cpp:189-211 | one send tick moves the cursor as NextCursor says and logs exactly the chunk written; the deadline becomes now + 2000 exactly on the tick the queue is passed |
| Receiver.TicksToSendIsCeiling | components/ziv/ziv.cpp:197-205 | TicksToSend(T) is the least k >= 1 with 10k >= T |
| Receiver.SendWithin | components/ziv/ziv.cpp:189-205 | k send ticks on one message advance the offset by 10 per tick up to the message end, write exactly the bytes in between, and move to the next message on the tick the end is reached |
| Receiver.SingleMessageSend | components/ziv/ziv.cpp:189-205 | for a single message of T bytes, after k ticks the offset is min(10k, T), mindex_ is 1 exactly from tick ceil(T/10) on, and the line carried exactly the first min(10k, T) bytes |
| Receiver.SendRunSplit | components/ziv/ziv.cpp:189-211 | k1 + k2 send ticks have the same cursor and output as k1 ticks followed by k2 ticks |
| Receiver.SendRunStopsWhenSent | components/ziv/ziv.cpp:189 | once the queue is passed, further ticks neither move the cursor nor write anything |
| Receiver.CarryOverSkipsPrefix | components/ziv/ziv.cpp:202-205 | with two queued messages, the first is sent whole and the second only from offset \|m1\|, because mdatapos_ is not reset between messages |
| Receiver.FirstMessageSent | components/ziv/ziv.cpp:189-205 | the first of two queued messages goes out whole in ceil(\|m1\|/10) ticks, leaving the offset at \|m1\| |
| Receiver.SecondMessageFromCarriedOffset | components/ziv/ziv.cpp:202-205 | from the carried-over offset \|m1\|, the second message sends only its bytes past \|m1\|, or nothing when it is not longer than the first |
| Receiver.ReadCount | components/ziv/ziv.cpp:230-240 | the drain performs reads exactly up to the first empty available() report |
| Receiver.DrainStops | components/ziv/ziv.cpp:230-240 | the drain loop's condition holds exactly while fewer than ReadCount reads have been done |
| Receiver.FrameReceiver.ReadChunk | components/ziv/ziv.cpp:236-239 | one read makes room first and then appends the chunk at the end of the held bytes, keeping every byte already held |
| Receiver.FrameReceiver.Drain | components/ziv/ziv.cpp:228-240 | the buffer afterwards holds the old bytes followed by every drained chunk in order; capacity never decreases; every write is within capacity |
| Receiver.FrameReceiver.FindFlag | components/ziv/ziv.cpp:246-253 | the scan reports a flag iff some index from ScanFloor up to size holds 0x7E: strictly above the codec cursor, or anywhere when the cursor is at size; in that case it needs a held flag, and stops at one without leaving the buffer |
| Receiver.FrameReceiver.DrainAndScan | components/ziv/ziv.cpp:225-255 | the held bytes become the old ones plus everything drained; eop_found_ is set iff more than 5 bytes are held and a 0x7E lies in the scanned range (above the codec cursor, or anywhere when the cursor has reached the end); the codec state is untouched; a flag stays held |
| Receiver.FrameReceiver.Receive | components/ziv/ziv.cpp:221-274 | the receive state becomes ReceiveStep's, and the handler keeps its result, gets error() on a codec error, or gets the parser's code for a complete reply; only the COSEM handler stores the decoded value, on code 0; every codec cursor, including one at the end of the bytes, is allowed |
| Receiver.ReceiveKeepsBytes | components/ziv/ziv.cpp:221-274 | the receive phase never drops or rewrites a held byte; it appends only when no reply is complete and no frame end is pending |
| Receiver.ShortBufferWaits | components/ziv/ziv.cpp:244-257 | with at most 5 bytes held no scan happens, the codec is not called and the handler waits |
| Receiver.CodecErrorFails | components/ziv/ziv.cpp:244-268 | when this tick's scan finds a frame flag after the codec cursor and the codec then returns non-zero, the handler gets error() and eop_found_ stays set |
| Receiver.HeldFrameCodecErrorFails | components/ziv/ziv.cpp:257-268 | with eop_found_ already set when the tick starts, a non-zero codec return likewise forces error() and leaves eop_found_ set |
| Receiver.WritesCarryChunk | components/ziv/ziv.cpp:192-203 | the write_array calls of one send tick carry exactly the chunk that SendRun concatenates |
| Receiver.SendTickWrites | components/ziv/ziv.cpp:189-211 | a send tick never fails the handler and never touches the receive side or the queue; it only appends to the line log, and what it appends is exactly the next chunk of the queue |
| Receiver.DeadlineArmedOnce | components/ziv/ziv.cpp:189-220 | once the queue is passed, a tick never moves the cursor, re-arms the deadline or writes to the line |
| Receiver.LateReplyFails | components/ziv/ziv.cpp:214-219 | past the deadline a tick hands the handler error() and changes nothing else |
| Receiver.ReceiveKeepsFlagHeld | components/ziv/ziv.cpp:221-271 | the receive phase keeps FlagHeld for any codec |
| Receiver.ScanFromEndFindsFlag | components/ziv/ziv.cpp:244-253 | under FlagHeld, a scan whose codec cursor is at or past the end of more than 5 bytes finds a flag, so the C++ loop stops inside the buffer |
| Receiver.CommStepKeepsFlagHeld | components/ziv/ziv.cpp:186-276 | a whole communicate() tick keeps FlagHeld |
| Receiver.FrameReceiver.ValidHoldsFlag | components/ziv/ziv.h:35-46 | every valid receiver's receive state satisfies FlagHeld |
| Receiver.FrameReceiver.Assemble | components/ziv/ziv.cpp:257-270 | dlms_getData2's cursor and completion are stored before its code is checked; a non-zero code gives error() and leaves eop_found_ set, zero clears it |
| Receiver.FrameReceiver.Communicate | components/ziv/ziv.cpp:186-276 | the queue, cursor, deadline, line log and receive state become CommStep's: a send tick while the queue is not passed, error() with nothing read past the deadline, otherwise ReceiveStep. The handler's result and value change exactly as CommStep's handoff says. Any valid receiver state and any cursor-keeping codec are accepted |
| Schedule.IdleAbsorbs | components/ziv/ziv.cpp:162-163 | once the sequencer is IDLE, further loop() calls without update() change nothing and publish nothing |
| Ziv.ZivComponent.constructor | components/ziv/ziv.cpp:25-30 | the component starts IDLE with no handler selected and every handler pending; the COSEM handler targets 1.0.1.8.0.255 with value 0; the receiver is reset with capacity 128, an empty queue and line log, and the indeterminate timeout_ it was given |
| Ziv.ZivComponent.Update | components/ziv/ziv.cpp:51-56 | in IDLE, update() enters SEND_BUFFERS with a reset receiver, the SNRM queue and a pending handler, keeping the buffer allocation, the deadline, the line log, the other handlers' results, the COSEM value and register; in any other state it changes nothing |
| Ziv.ZivComponent.Select | components/ziv/ziv.cpp:60-90 | the switch points rr_ at the state's handler (none for IDLE) and the COSEM handler at the state's OBIS name, leaving the name alone for the other states |
| Ziv.ZivComponent.NextComm | components/ziv/ziv.cpp:58-101 | nextcomm(s) selects s's handler and OBIS name (1.0.1.8.0.255, 1.0.2.8.0.255, 1.0.1.7.0.255, 1.0.2.7.0.255), resets the receiver, starts the handler only if there is one, and enters s; the deadline, buffer allocation and line log are kept, and the handlers not selected keep their results |
| Ziv.ZivComponent.Settle | components/ziv/ziv.cpp:166-181 | acting on the handler's result follows Advance: pending changes nothing; success publishes the scaled value to a configured sensor and calls nextcomm(next), keeping the deadline and line log; failure only sets IDLE, leaving handler and receiver alone; only nextcomm retargets the COSEM register, and a handler selected neither before nor after keeps its result |
| Ziv.ZivComponent.Loop | components/ziv/ziv.cpp:125-182 | IDLE changes nothing and never calls communicate(). Otherwise the handler's result is what CommStep hands a pending handler, the COSEM value is what it stores, and the state and publications follow Advance on that result. Unless the step succeeded the receiver is left exactly as CommStep leaves it. On success it is reset for the next step and the COSEM register is the next read's OBIS name. Capacity never shrinks, and a handler selected neither before nor after keeps its result. Any valid component state is accepted |
| Ziv.CycleRun | components/ziv/ziv.cpp:127-158 | when every step succeeds, the states follow SEND_BUFFERS, SEND_AARQ, the four reads, IDLE, one per result, and only read steps publish |
| Ziv.CyclePublishesReads | components/ziv/ziv.cpp:143-160 | a successful cycle publishes once per read step, in read order |
| Ziv.FullCycle | components/ziv/ziv.cpp:125-182 | with all four sensors set, a successful cycle ends IDLE having published the energies as read and the powers times 10 |
| Ziv.FailureEndsCycle | components/ziv/ziv.cpp:176-180 | a non-zero result in any step makes the state IDLE at once, publishes nothing more, and no later step runs |
| ZivFourStep.ZivComponent.constructor | ziv/ziv.cpp:7-12 | the component starts IDLE with no handler selected and every handler pending; the COSEM handler targets 1.0.1.8.0.255 with value 0; the receiver is reset with capacity 128, an empty queue and line log, and the indeterminate timeout_ it was given |
| ZivFourStep.ZivComponent.Update | ziv/ziv.cpp:26-31 | in IDLE, update() enters SEND_BUFFERS with a reset receiver and a pending handler, keeping the buffer allocation, the deadline, the line log, the other handlers' results, the COSEM value and register; otherwise it changes nothing |
| ZivFourStep.ZivComponent.Select | ziv/ziv.cpp:35-50 | for a step, the switch points rr_ at its handler and the COSEM handler at its OBIS name, leaving the name alone for the send steps |
| ZivFourStep.ZivComponent.NextComm | ziv/ziv.cpp:33-62 | for a step: selects its handler and OBIS name, resets, starts the handler unconditionally, enters the step, keeps the deadline, buffer allocation, line log and the other handlers' results; asked for IDLE it changes nothing at all |
| ZivFourStep.ZivComponent.Settle | ziv/ziv.cpp:71-131 | acting on the handler's result follows Advance: success in the first three steps publishes raw and calls nextcomm(next); READ_EXPORT with any result, or a failure, only sets IDLE (publishing the export value on success); nextcomm keeps the deadline and line log; only nextcomm retargets the COSEM register, and a handler selected neither before nor after keeps its result |
| ZivFourStep.ZivComponent.Loop | ziv/ziv.cpp:64-134 | IDLE changes nothing and never calls communicate(). Otherwise the handler's result is what CommStep hands a pending handler, the COSEM value is what it stores, and the state and publications follow Advance. Read steps act only when the COSEM handler is selected. Values are published unscaled. Ending the cycle leaves the receiver exactly as CommStep leaves it and keeps the handler selected. After a successful READ_IMPORT the register is 1.0.2.8.0.255. Capacity never shrinks, and a handler selected neither before nor after keeps its result. Any valid component state is accepted |
| ZivFourStep.ReadExportEndsCycle | ziv/ziv.cpp:117-132 | any result of READ_EXPORT ends the cycle in IDLE; only a zero code publishes the raw value |
| ZivFourStep.CycleRun | ziv/ziv.cpp:64-116 | when every step succeeds, the states follow SEND_BUFFERS, SEND_AARQ, READ_IMPORT, READ_EXPORT, IDLE |
| ZivFourStep.FullCycle | ziv/ziv.cpp:99-132 | with both sensors set, a successful cycle ends IDLE having published the import and export energies as read |
| ZivFourStep.CycleEndsAtIdle | ziv/ziv.cpp:64-134 | a non-zero result in any step, or any result of READ_EXPORT, makes the state IDLE at once; only a successful export read publishes (its raw value), and no later step runs or publishes |

## Left out

- The Gurux DLMS codec is not part of this model. Message building, reply parsing, frame assembly and COSEM value decoding are inputs: `built`/`buildRet`, `Tick.assemble`, `Tick.parseCode` and `Tick.decoded`. The codec is assumed to change nothing of `rbuffer_` but its read cursor, and to keep that cursor within the buffer.
- UART I/O (`write_array`, `read_array`, `available`) is modelled as the chunk list of a `Tick` and the ghost log `written`.
- `millis()` is a natural-number parameter. Its 32-bit wrap-around, and the mix of `int` and `unsigned` in `timeout_ = millis() + 2000`, are not modelled.
- `Receiver.CommStep` compares `tick.now > timeout` as integers. The C++ comparison `millis() > timeout_` (components/ziv/ziv.cpp:214, ziv/ziv.cpp:164) converts `timeout_` to unsigned, so a negative indeterminate `timeout_` never expires there, while in the model it has expired at once.
- `publish_state` takes a float. The model publishes the integer `value * scale`, with scale 1 or 10.
- Logging, `setup`, `dump_config`, `state_name`, `get_setup_priority`, the ESPHome scheduler and the YAML code generation in `sensor.py` are not modelled.
- The `result()` and `value()` accessors are read directly as the fields `result` and `value`.
- `cosem_init`'s side effect on `attribute_` (components/ziv/ziv.h:160) is not modelled; the attribute stays 2.
- The header of `ziv/ziv.cpp` is not part of this model. That variant is modelled with the receiver and handler declarations of `components/ziv/ziv.h`, which use the same names. Its handler pointer starts with no handler selected.
- `communicate()` in `ziv/ziv.cpp:138-224` is the same code as in `components/ziv/ziv.cpp`, comments aside. Both sequencers use the one `Receiver.FrameReceiver.Communicate`.
- The reallocation done by `bb_capacity` is modelled as a fresh array that receives a copy of the old one; what `bb_capacity` does beyond that is not captured.
