# Verified model of modbus_c

modbus_c is a Modbus RTU library: a slave with a framing state machine (`rtu.c`), a handler that
puts a byte array behind the slave (`rtu_memory.c`), request builders and reply parsers for a
master (`master.c`), a CRC engine, and adapters for Linux and for microcontrollers. This project
models these parts in Dafny and proves what they promise.

`dafny verify dfyconfig.toml` checks everything.

## How the model is built

- **CRC** (`ShiftRegister`, `Words`, `RegisterOrder`, `CrcTables`, `Crc`, `FrameErrors`). The CRC
  is the fold of the bitwise update. The loops of both CRC files, the one with tables and the
  ones without, are proved to compute it. Words are related to a linear shift register over
  sequences of bits; what the frame check detects is proved there, for frames of any length. The
  register returns to its start after exactly the multiples of 32767 steps, which decides which
  pairs of flipped bits are noticed.
- **Framing** (`Framing`, `Splitter`, `Interleaving`, `Lateness`, `Prompt`, `Eager`, `Telegrams`,
  `Silence`, `Gaps`, `Polling`, `Slaves`). `Framing` has one
  function for each callback of `rtu.c` and for `modbus_rtu_event`, with all branches. Two
  schedules run it. In `Interleaving` the callbacks are interrupts and the event comes at any
  later point, as on the microcontrollers; `Lateness` says what a late event costs, and `Prompt`
  when it costs nothing. In `Eager` the event follows every callback and a send completes before it
  returns, as on Linux; there a whole run does to its input what the small splitter of `Splitter`
  says, for every trace of bytes, line errors and timer expiries. `Telegrams` follows single frames;
  with a clock `Silence` says how silent the line has been around a frame that is served, `Gaps`
  how silent it must be, and `Polling` that the loop of the Linux adapter keeps that clock.
  The class `Slaves.Slave` is `rtu.c` with its buffers, cursors and status and the loop of
  `linux/rtu_impl.c`; every method is proved to do what the function says, and the aborts of the
  adapter are assertions.
- **Memory** (`Buffers`, `Memory`, `MemoryHandler`, `MemoryMap`, `Wire`). `MemoryHandler.RtuMemory` has
  the handlers with their loops over the buffers, 16-bit offsets included. `MemoryMap` proves that
  over any requests they are a plain map from addresses to bytes; `Wire` states requests, replies and
  frames in the numbers that are on the wire.
- **Master** (`Master`, `MasterImpl`). The builders, parsers and CRC helpers on the caller's
  buffers, and the synchronous transactions of `linux/master_impl.c` over a line without noise.
- **Together** (`Devices`, `Transactions`, `Bus`). A device is the memory handler behind an
  address. `Transactions` follows a request from the builder through framing, check and memory and
  the reply back to the parser. `Bus` puts any number of slaves on one line.

The two periods of the timer, the clock, the bytes on the line and the callback that serves a frame
are parameters. The machine is generic in the callback; the class and the transactions use the
memory handler. `int` is taken to have at least 32 bits where the source adds an address and a
count.

## What was found

- After a rejected frame the recovery waits for the next event, which on Linux only the next byte
  brings. That byte and the frame it belongs to are lost (`Telegrams.DroppedLosesOne`).
  `Telegrams.ServedExactly` says for every state whether an intact frame between silences is served,
  and `Telegrams.DroppedExactly` when a slave is in the state after a rejected frame.
- A complete frame waits for `modbus_rtu_event`. It is served alone exactly if the first thing that
  happens, expiries aside, is that event (`Lateness.ServedAloneExactly`): a line error before the
  event loses it. If bytes come first, they go behind it in the buffer. The two frames are then taken
  for one, whatever events run later (`Lateness.LateEventJoins`); if the second is intact, too, what
  they make together never is, and both are lost (`Lateness.IntactFramesBothLost`).
  `Prompt.PromptIsSplitting` says how late the event may be without any such loss.
- The silent interval is counted from the expiry of the 1.5t timer, not from the last byte
  (`rtu.c:70-76`). Between two frames the slave needs 1.5t and 3.5t, where section 2.5.1.1 of the
  serial line guide asks for 3.5t: with less, both frames are lost (`Gaps.EarlyFrameLosesBoth`), with
  more, the frame is served (`Gaps.SilenceServes`).
- `README.md:101` of the repository states that accesses outside the window return an exception. The
  write handlers test only that the first address lies before the end. `MemoryMap.WindowPromise` says
  for which requests the statement holds, `MemoryMap.StoredInside` which ones store inside the array
  and `MemoryMap.Acknowledged` which are acknowledged. `Memory.WriteBelowWindow` and
  `Memory.WritePastWindow` are acknowledged and stored outside; `Memory.RefusedButStored` is refused
  and has still stored a register outside. The methods that write therefore require the window.
- A request that is too short is answered with the function code of a write of bytes, whatever its
  own function (`Memory.ExceptionNamesRequest`).
- A write of registers of five bytes takes the first byte of the CRC for its byte count
  (`Memory.WriteN16`, parameter `behind`); it is refused whatever the byte is
  (`MemoryMap.Undecodable`).

## Model

| member | source | states |
|---|---|---|
| Crc.Crc16Update | linux/crc.c:54-68 | the loop over eight bits, on a CRC held as two bytes, is the update of the word |
| Crc.CalcCrc | linux/crc.c:70-87 | the two tables give the trailer that the bitwise fold from 0xFFFF defines, for every part of a buffer; without a buffer both bytes are 0xFF |
| Crc.TableStep | linux/crc.c:78-84 | one byte through the two 256-entry tables is eight bitwise steps |
| Crc.Crc16UpdateWord | stm32f103c8/crc.c:8-20 | the microcontrollers' update of a word is the same update |
| Crc.CalcCrcWord | stm32f103c8/crc.c:22-33 | the microcontrollers' fold gives the same CRC, for every part of a buffer |
| Crc.FoldIsSerial | linux/crc.c:54-68 | the CRC of a message is the state of a linear shift register after its bits |
| Crc.Residue | rtu.c:146-161 | a frame is intact exactly when the CRC of all of it, trailer included, is zero |
| Crc.SealedIsIntact | rtu.c:181-189 | whatever is sent with its CRC behind it passes the check of the other side |
| Crc.TrailingZeros | linux/crc.c:70-87 | zero bytes added behind an intact frame are not noticed |
| Crc.IntactNeverJoins | rtu.c:146-161 | two intact frames, one behind the other, are not intact |
| Crc.FoldInjective | linux/crc.c:54-68 | the same bytes never make different CRCs equal |
| Wire.CrcExample | linux/crc.c:70-87 | the example of section 6.2.2 of the serial line guide: after 02 07 the CRC is sent as 41 12 |
| RegisterOrder.OrderExact | linux/crc.c:61-65 | the shift register of the polynomial returns to its start exactly after the multiples of 32767 steps |
| FrameErrors.Syndrome | rtu.c:146-161 | whether damage to a frame is noticed depends on the flipped bits alone |
| FrameErrors.OddDamageDetected | rtu.c:146-161 | every odd number of flipped bits is detected, in frames of any length |
| FrameErrors.IntactIsEven | rtu.c:146-161 | every intact frame has an even number of one bits |
| FrameErrors.BurstDetected | rtu.c:146-161 | every damage within sixteen adjacent bits is detected, in frames of any length |
| FrameErrors.BurstChangesCrc | linux/crc.c:70-87 | two messages of one length that differ only within sixteen adjacent bits have different CRCs |
| FrameErrors.DoubleDamage | rtu.c:146-161 | two flipped bits escape exactly when their distance is a multiple of 32767 |
| FrameErrors.DistanceAtLeastFour | rtu.c:146-161 | one, two or three flipped bits are detected in every frame of at most 4095 bytes |
| FrameErrors.GeneratorEscapes | linux/crc.c:56-65 | an error that is the generator polynomial alone, four bits within seventeen, escapes wherever it begins |
| FrameErrors.FourFlipsEscape | linux/crc.c:56-65 | every intact frame of three or more bytes has such an error, so that three flips and sixteen bits are exact bounds |
| Framing.StepKeepsInv | rtu.c:43-144 | every callback and the event keep the invariant: the previous state, the timer and its callback that each state has, a receive buffer within 256 bytes, a reply exactly in BUSY |
| Framing.RunKeepsInv | rtu.c:239-333 | the invariant holds after every interleaving from start-up on, so the branches that should never happen do not |
| Framing.TimerNeverBreaks | linux/rtu_impl.c:126-168 | in every interleaving no running timer is started and no stopped one reset: the adapter's checks hold |
| Framing.BrokenStays | linux/rtu_impl.c:126-168 | a failed check would be remembered by the rest of the run, so the previous claim covers all of it |
| Framing.ExpiryFlagsOnlySof | rtu.c:43-82 | an expiry flags an error exactly when a single byte has been received |
| Framing.SilentIntervalExpected | rtu.c:43-62 | whenever the silent interval expires it finds INIT or the end of a frame, so its error branch is never taken |
| Framing.ErrorFlaggedExactly | rtu.c:43-144 | in every state that is reached, what each callback takes for an error: a byte in INIT, EOF or BUSY or into a full buffer, every line error, an expiry in SOF, a report of a send outside BUSY |
| Framing.LineErrorRecovers | rtu.c:138-144 | in every interleaving a line error, also in BUSY, leads to a recovery at the next event |
| Framing.BytesFromIdle | rtu.c:84-121 | from IDLE on 256 bytes are kept, and one more is an error |
| Framing.RecoversOnlyFromError | rtu.c:248-332 | the event recovers exactly when the error bit is set |
| Framing.ErrorCounter | rtu.c:250-251 | the error counter is the number of recoveries modulo 256 |
| Framing.LineErrorCounter | rtu.c:138-144 | the counter of line errors is their number modulo 256 |
| Framing.CrcErrorCounter | rtu.c:153-159 | the CRC counter is the number of complete frames with a wrong CRC modulo 256 |
| Framing.SelfStabilises | rtu.c:248-276 | from every reachable state with an error, whatever callbacks follow, the next event gives INIT with empty buffers, no error and 3.5t armed, and an expiry then IDLE |
| Interleaving.FramesAreSegments | atmega328p/rtu_main.c:44-52 | in every interleaving the frames served are intact segments of the received bytes, of 4 to 256 bytes, in order and disjoint, and no error stood within one |
| Interleaving.FrameSizes | rtu.c:146-148 | every frame served, in every interleaving, has 4 to 256 bytes |
| Lateness.LateBytes | rtu.c:98-121 | bytes that come while a complete frame waits go behind it, whatever events run between them, as long as there is room |
| Lateness.LateEventJoins | atmega328p/rtu_main.c:44-52 | without an event before the next byte two frames are served as one if they fit and are intact, else both are lost, whatever events run later |
| Lateness.ServedAloneExactly | atmega328p/rtu_main.c:44-52 | for any trace: an intact frame that waits is served before a further byte exactly if the first step that is not an expiry is the event |
| Lateness.ServedBeforeSequel | atmega328p/rtu_main.c:44-52 | before a further frame and its silence, it is the next frame served exactly if an event comes first |
| Lateness.IntactFramesBothLost | atmega328p/rtu_main.c:44-52 | two intact frames without an event between them are both lost |
| Lateness.LateZerosJoin | rtu.c:98-121 | an intact frame and zero bytes behind it are joined and accepted |
| Prompt.StepConsumes | rtu.c:43-144 | one step of a run whose events are not late when they must not be does what the splitter says |
| Prompt.PromptIsSplitting | atmega328p/rtu_main.c:44-52 | if the event comes before the next byte or line error after a complete frame and before the next expiry after an error, and the line is quiet while the slave sends, the run is that of the splitter, with recovery from a rejected frame at once |
| Eager.RunIsSplit | linux/rtu_impl.c:192-231 | from every state between two inputs, for every input, the machine does what the splitter says |
| Eager.FramingIsSplitting | rtu.c:239-333 | from start-up on, the user data, the frames served and the frames sent are those of the splitter, delayed recovery after a rejected frame included |
| Splitter.IntactFrameIsServed | rtu.c:163-191 | an intact frame of at most 256 bytes between silences is served |
| Splitter.RejectedCostsOne | rtu.c:192-196 | after a rejected frame, silence, one frame and silence bring the splitter back to listening |
| Telegrams.ServedExactly | linux/rtu_impl.c:192-231 | from every state between two inputs, an intact frame between silences is served exactly if the slave listened, or the first silence ends an earlier frame that is served without a reply; the slave listens afterwards |
| Telegrams.DroppedLosesOne | rtu.c:192-196 | after a rejected frame exactly the next frame is lost |
| Telegrams.DroppedExactly | rtu.c:192-196 | a slave is in that state exactly if the last frame that was completed was rejected and only silence has come since |
| Eager.ClosingExpiry | rtu.c:163-197 | the expiry that ends a frame serves it, and sends the reply, or rejects it |
| Eager.EagerIsInterleaved | linux/rtu_impl.c:170-190 | the schedule with re-entrant sending is one of the interleavings |
| Eager.StepKeepsInvariant | linux/rtu_impl.c:192-231 | so it keeps the invariant |
| Silence.SilenceAroundFrames | linux/rtu_impl.c:218-231 | with a monotone clock every frame served is heard as adjacent bytes, after 3.5t without anything on the line and start-up, and before 1.5t and 3.5t without anything |
| Gaps.SilenceStopsTimer | rtu.c:64-76 | after 1.5t and 3.5t of silence, and the latency of both expiries, the slave listens, or is in the state after a rejected frame |
| Gaps.SilenceServes | rtu.c:64-76 | an intact frame with that silence before and after it is served, but for the frame after a rejected one |
| Gaps.EarlyFrameLosesBoth | rtu.c:70-76 | a frame that begins less than 1.5t and 3.5t after an intact one, but after the 1.5t expiry, loses both |
| Polling.LoopIsAlert | linux/rtu_impl.c:254-297 | a loop that looks at the timer at least every so often is a punctual and alert run, so that what is proved of those holds of it |
| Polling.LookHandles | linux/rtu_impl.c:218-231 | a look handles the expiry exactly if the running period has elapsed |
| Slaves.Slave.constructor | rtu.c:199-237 | initialisation gives the start state and the invariant |
| Slaves.Slave.ResetRxbuf | rtu.c:31-35 | the receive buffer is empty |
| Slaves.Slave.ResetTxbuf | rtu.c:37-41 | the transmit buffer is empty |
| Slaves.Slave.StateUpdate | rtu.h:292-295 | the new state, with the old one as the previous, and `updated` |
| Slaves.Slave.StateError | rtu.h:297-299 | `updated` and `error` are set and nothing else |
| Slaves.Slave.TimerStart | linux/rtu_impl.c:126-146 | called only on a stopped timer |
| Slaves.Slave.TimerStop | linux/rtu_impl.c:148-158 | stops the timer |
| Slaves.Slave.TimerReset | linux/rtu_impl.c:160-168 | called only on a running timer, whose period it keeps |
| Slaves.Slave.TimerSilentIntervalCb | rtu.c:43-62 | the whole new state |
| Slaves.Slave.TimerInterFrameTimeoutCb | rtu.c:64-82 | the whole new state |
| Slaves.Slave.RxbufAppend | rtu.c:84-96 | the byte is appended, or the buffer is full and an error is flagged |
| Slaves.Slave.SerialRecvCb | rtu.c:98-121 | the whole new state |
| Slaves.Slave.SerialSentCb | rtu.c:123-136 | the whole new state |
| Slaves.Slave.SerialRecvErrCb | rtu.c:138-144 | the whole new state |
| Slaves.Slave.AduCheck | rtu.c:146-161 | accepts exactly the intact frames of at least four bytes, and counts the others that are long enough |
| Slaves.Slave.PduCb | linux/rtu_impl.c:29-55 | a frame for another address gives no reply and leaves the memory; otherwise the memory and the reply behind the address are those of the handler, and the CRC still fits |
| Slaves.Slave.AduProcess | rtu.c:163-197 | the frame is served and the sealed reply sent, or the error flagged |
| Slaves.Slave.SealReply | rtu.c:181-187 | the reply gets its CRC within the buffer |
| Slaves.Slave.SerialSend | linux/rtu_impl.c:170-190 | the frame is sent; on Linux the callback and the event run before it returns |
| Slaves.Slave.Event | rtu.c:239-333 | the whole new state, with the re-entrant event on Linux |
| Slaves.Slave.Recovery | rtu.c:250-266 | the recovery, with its counter |
| Slaves.Slave.Restarting | rtu.c:268-276 | empty buffers and 3.5t armed |
| Slaves.Slave.RecvImpl | linux/rtu_impl.c:192-216 | the byte loop is the eager run over the bytes |
| Slaves.Slave.TimeoutImpl | linux/rtu_impl.c:218-231 | an expiry is handled exactly when at least the running period, 1.5t or 3.5t, has passed since the timer was started or reset |
| Memory.Fitting | rtu_memory.c:194-204 | the registers before the first with a high byte that is not zero |
| Memory.WindowExact | rtu_memory.c:191-204 | with 16-bit offsets, what is stored lies inside the array exactly when the addresses lie in the window |
| MemoryMap.StoredInside | rtu_memory.c:124-143 | read off the request and the window: when what a write stores lies inside the array |
| MemoryMap.Acknowledged | rtu_memory.c:147-207 | read off the request and the end of the window: when a write is acknowledged |
| MemoryMap.WindowPromise | README.md:101 | the statement about accesses outside the window holds exactly for requests that have no right shape, stay in the window, start behind it, or hold a register that does not fit and the registers before it stay in the window |
| Memory.WriteBelowWindow | rtu_memory.c:278-305 | a write below the window is acknowledged |
| Memory.WritePastWindow | rtu_memory.c:278-305 | a write that ends behind the window is acknowledged |
| Memory.RefusedButStored | rtu_memory.c:194-204 | a write of registers that is refused has stored its first register outside the array |
| Memory.WindowSuffices | rtu_memory.c:124-143 | requests that keep to the window store inside it |
| Memory.ExceptionNamesRequest | rtu_memory.c:30-46 | an exception names the function of the request exactly if the request is not too short, or is a write of bytes |
| Memory.UnknownFunction | rtu_memory.c:356-358 | an unknown function changes nothing and is refused; when the refusal has its high bit set |
| Wire.NumberIs | rtu_memory.c:16-21 | numbers are sent high byte first |
| Wire.ReadRegistersOnWire | rtu_memory.c:49-103 | function 3 in wire bytes, for every address and count: the registers, or which exception |
| Wire.WriteRegisterOnWire | rtu_memory.c:107-143 | function 6 in wire bytes: what is stored and where, or which exception |
| Wire.WriteRegistersOnWire | rtu_memory.c:147-207 | function 16 in wire bytes: what is stored and where, the echo, or which exception |
| Wire.ReadBytesOnWire | rtu_memory.c:210-258 | function 65 in wire bytes: the bytes, or which exception |
| Wire.WriteBytesOnWire | rtu_memory.c:260-306 | function 66 in wire bytes: what is stored and where, or which exception |
| Wire.OtherRequestsOnWire | rtu_memory.c:308-359 | every other function, and requests that are too short, in wire bytes |
| Wire.ReadsIgnoreTheRest | rtu_memory.c:62-66 | bytes behind a read or a write of one register do not matter |
| Wire.FrameSizesOnWire | rtu.c:146-161 | every intact frame of four bytes is served, no shorter one |
| MemoryHandler.Rd16 | rtu_memory.c:16-21 | the number whose quotient by 256 is the first byte and whose remainder is the second |
| MemoryHandler.Wr16 | rtu_memory.c:23-28 | high byte first, and nothing else is written |
| MemoryHandler.Except | rtu_memory.c:30-35 | the two bytes of an exception, and nothing else is written |
| MemoryHandler.RtuMemory.constructor | linux/rtu_impl.c:18-27 | a memory of zero bytes behind a window |
| MemoryHandler.RtuMemory.ReadN16 | rtu_memory.c:49-103 | the reply of the effect; reads stay inside the array |
| MemoryHandler.RtuMemory.AnswerRegisters | rtu_memory.c:88-102 | the reply of a read of registers in the window: function code, byte count, then each byte behind a zero byte |
| MemoryHandler.RtuMemory.WidenOut | rtu_memory.c:93-100 | the loop writes each byte behind a zero byte, without a 16-bit wrap |
| MemoryHandler.RtuMemory.Write16 | rtu_memory.c:107-143 | memory and reply of the effect, in the window |
| MemoryHandler.RtuMemory.WriteN16 | rtu_memory.c:147-207 | memory and reply of the effect, in the window |
| MemoryHandler.RtuMemory.AcceptRegisters | rtu_memory.c:191-206 | the registers stored, and the echo or the exception |
| MemoryHandler.RtuMemory.StoreRegisters | rtu_memory.c:194-204 | the loop stores the longest prefix of registers that fit, and nothing else |
| MemoryHandler.RtuMemory.ReadN8 | rtu_memory.c:210-258 | the reply of the effect; reads stay inside the array |
| MemoryHandler.RtuMemory.CopyOut | rtu_memory.c:249-255 | the loop copies the bytes, without a 16-bit wrap |
| MemoryHandler.RtuMemory.WriteN8 | rtu_memory.c:260-306 | memory and reply of the effect, in the window |
| MemoryHandler.RtuMemory.AcceptBytes | rtu_memory.c:296-305 | the bytes stored and the echo |
| MemoryHandler.RtuMemory.StoreBytes | rtu_memory.c:299-303 | the loop stores the bytes, and nothing else |
| MemoryHandler.RtuMemory.PduCb | rtu_memory.c:308-359 | memory and reply of the handler that the function code selects |
| MemoryMap.StoreEachIsPrefix | rtu_memory.c:194-204 | storing registers one after the other is storing the longest prefix that fits |
| MemoryMap.Undecodable | rtu_memory.c:308-359 | a request of no right shape is refused and changes nothing |
| MemoryMap.HandlerIsMap | rtu_memory.c:308-359 | a request does to the memory what it does to a map from addresses to bytes, and gets its answer, exactly if it has no right shape or does not write outside the window |
| MemoryMap.MemoryIsMap | rtu_memory.c:308-359 | the same over any sequence of requests with writes in the window |
| MemoryMap.ViewsAgree | README.md:109-130 | a range read as registers and as bytes holds the same |
| MemoryMap.OthersKept | rtu_memory.c:299-303 | bytes outside the addresses of a request are kept |
| MemoryMap.ReplyLength | rtu_memory.c:308-359 | every reply has 2 to 253 bytes |
| MemoryMap.ExactCapacity | rtu.c:172-189 | with address and CRC every reply fits into 256 bytes, and fills them exactly for 249 bytes read |
| MemoryMap.RegistersOutcome | rtu_memory.c:147-207 | a write of registers stores exactly the longest prefix with zero high bytes, and is echoed exactly when that is all |
| MemoryMap.FaultsInOrder | rtu_memory.c:158-184 | which fault of a request with several is named: the address first |
| MemoryMap.ExceptionsChangeNothing | rtu_memory.c:308-359 | every exception but that one leaves the memory as it is |
| Devices.InWindowKeepsContent | linux/rtu_impl.c:29-55 | a device that is asked to write only in the window keeps its window and a known memory |
| Devices.RepliesFit | rtu.c:172-189 | in every interleaving a reply and its CRC fit into the transmit buffer |
| Master.ImplaceCrcImpl | master.c:16-28 | the CRC behind a frame, exactly if there is room |
| Master.ImplaceCrc | master.c:30-35 | the CRC in the last two bytes |
| Master.ValidCrc | master.c:37-57 | accepts exactly intact frames of more than two bytes |
| Master.MakeRequestRdHoldingRegisters | master.c:77-98 | when it gives up, and otherwise the request and nothing else in the buffer |
| Master.ParseReplyRdHoldingRegisters | master.c:100-114 | accepts exactly intact replies of five bytes and their byte count |
| Master.MakeRequestWrRegister | master.c:134-152 | when it gives up, and otherwise the request and nothing else in the buffer |
| Master.ParseReplyWrRegister | master.c:154-163 | accepts exactly intact replies of eight bytes |
| Master.MakeRequestWrRegisters | master.c:165-198 | when it gives up, and otherwise the request and nothing else in the buffer |
| Master.ParseReplyWrRegisters | master.c:200-209 | accepts exactly intact replies of eight bytes |
| Master.MakeRequestWrBytes | master.c:211-240 | when it gives up, and otherwise the request and nothing else in the buffer |
| Master.ParseReplyWrBytes | master.c:242-251 | accepts exactly intact replies of seven bytes |
| Master.MakeRequestRdBytes | master.c:253-273 | when it gives up, and otherwise the request and nothing else in the buffer |
| Master.ParseReplyRdBytes | master.c:275-288 | accepts exactly intact replies of seven bytes and their count |
| Master.FindEcode | master.c:290-299 | finds the code exactly in intact replies of five bytes |
| Master.ParsedWhole | master.c:100-114 | a reply that parses does not parse with anything behind it |
| Master.EcodeWhole | master.c:290-299 | nor does an exception |
| Master.ParsersDisjoint | master.c:154-251 | no frame is the reply to a write of bytes and to a write of registers, or an exception and either |
| Wire.RequestsOnWire | master.c:77-273 | the five requests in wire bytes |
| Telegrams.HearsFrame | linux/rtu_impl.c:192-231 | a slave that listens serves an intact frame, replies, and listens again |
| Transactions.PduDecodes | master.c:77-273 | what the slave reads in a request is what the master has meant |
| Transactions.AduShape | master.c:77-273 | every request that the builders accept passes the slave's check and fits into its buffer |
| Transactions.EmptyIsRefused | rtu_memory.c:75-77 | a request for no register or byte is refused and changes nothing |
| Transactions.RepliesUnambiguous | master.c:290-299 | for every request that the builders accept and every memory exactly one of find_ecode and the matching parser accepts the reply; the parser exactly if it has the size that the master waits for, but for a read of no registers |
| Transactions.RequestEffect | rtu_memory.c:308-359 | what a request makes of a device; if it does not write outside the window the memory is the map's and the reply carries its answer |
| Transactions.Exchange | linux/rtu_impl.c:170-231 | a listening slave answers every request once, with the reply of its handler, and listens again |
| Transactions.Transaction | linux/master_impl.c:51-159 | a request that does not write outside the window, through framing, check, memory, reply and parser, is one step of the map; of any other the reply is known, and a request for nothing changes nothing |
| Transactions.WrittenBytesAreRead | linux/master_impl.c:107-159 | 1 to 249 bytes written to any addresses in the window are read back exactly, with replies of the size that the master waits for |
| Transactions.WrittenRegistersAreRead | linux/master_impl.c:51-105 | the same for 1 to 123 registers with zero high bytes |
| MasterImpl.Send | linux/master_impl.c:29-38 | after a request is written, its reply waits on the line |
| MasterImpl.Receive | linux/master_impl.c:40-49 | a reply that parses is read as a whole, and nothing is left on the line |
| MasterImpl.FillRegisters | linux/master_impl.c:79 | copies the registers to the caller and leaves the rest of the caller's array |
| MasterImpl.RtuMasterRdHoldingRegisters | linux/master_impl.c:51-81 | succeeds exactly if the map has the registers and some are asked for, and then gives them to the caller |
| MasterImpl.RtuMasterWrRegisters | linux/master_impl.c:83-105 | in the window, succeeds exactly if all registers have been stored; gives up on none and on more than 123 |
| MasterImpl.RtuMasterWrBytes | linux/master_impl.c:107-129 | in the window, succeeds exactly if the bytes have been stored; gives up on none and on more than 249 |
| MasterImpl.RtuMasterRdBytes | linux/master_impl.c:131-159 | succeeds exactly if the map has the bytes and some are asked for, and then gives them to the caller |
| Bus.HearsRequest | linux/rtu_impl.c:29-55 | a slave of known memory replies exactly if it is addressed; one of unknown memory counts as silent |
| Bus.RoundHasOneReply | linux/rtu_impl.c:44-46 | at most one slave replies to a request, the one with its address, if its memory is known; one of unknown memory counts as silent |
| Bus.TurnAtIndex | rtu.c:163-197 | after a round, replies overheard included, every slave is what the request alone makes of it; one of unknown memory counts as silent |
| Bus.SlavesAreIndependent | linux/rtu_impl.c:29-55 | over any number of rounds, for any number of slaves with different addresses: at most one reply each, and every memory is that of the slave alone with the requests for its address; one of unknown memory counts as silent |
| Bus.KnownSlavesReply | linux/rtu_impl.c:29-55 | as long as every write keeps to the window, every memory stays known and to every request exactly the slave with its address replies |

## Left out

- MemoryHandler.RtuMemory.Write16: requires the window, as do the other handlers that write: outside it the source stores outside its array, which the array of the model does not have.
- MemoryHandler.RtuMemory.WriteN16: requires the window.
- MemoryHandler.RtuMemory.AcceptRegisters: requires the window.
- MemoryHandler.RtuMemory.StoreRegisters: requires the window.
- MemoryHandler.RtuMemory.WriteN8: requires the window.
- MemoryHandler.RtuMemory.AcceptBytes: requires the window.
- MemoryHandler.RtuMemory.StoreBytes: requires the window.
- MemoryHandler.RtuMemory.PduCb: requires the window of requests that write.
- Slaves.Slave.PduCb: requires the window of frames for the slave that write.
- Slaves.Slave.AduProcess: requires it of the frame that it serves.
- Slaves.Slave.Event: requires it of the frame that it serves.
- Slaves.Slave.TimeoutImpl: requires it of the frame that it serves.
- Bus.SlavesAreIndependent: a slave that has been made to write outside its array counts as one of unknown memory (`Lost`) and is taken to be silent from then on; what it really does is not modelled. `Bus.KnownSlavesReply` is free of this.
- Bus.HearsRequest: the same of one slave.
- Bus.RoundHasOneReply: the same of one round.
- Bus.TurnAtIndex: the same of one round.
- MasterImpl.Send: requires a request that the builders accept; the read functions of the source do not use the builders, and leave the bounds of 249 bytes and 125 registers to their callers.
- MasterImpl.RtuMasterRdBytes: requires a count of at most 249: the source reads the reply into a buffer of 256 bytes and leaves the bound to its callers.
- MasterImpl.RtuMasterRdHoldingRegisters: requires a count of at most 125, for the same reason.
- Master.ImplaceCrc: requires a size of at least two: for less the source would compute with a pointer before its buffer.
- The offset of a single register is an `int` in `write_16`, so that below the window it is negative instead of wrapped as in `Memory.Offset`; both lie outside the array.
- `make_request_rd_coils` and `make_request_wr_coil`: there is no parser for their replies and the handler refuses their functions.
- `suspend_cb` and `resume_cb`, logging, `modbus_rtu_idle`: no state depends on them.
- `calc_1t5_us`, `calc_3t5_us`, `calc_tmax_ms` and the table of baud rates: the two periods are parameters.
- The terminals of `linux/tty.c` and the drivers of the microcontrollers: bytes, line errors, expiries and sent frames are inputs. A line of `MasterImpl` loses and damages nothing.
- `atmega328p/crc.c`: the update it calls is not part of the repository.
- Smaller buffers (`MODBUS_RXBUF_CAPACITY`, `MODBUS_TXBUF_CAPACITY`): both have 256 bytes.
- Pointers into one buffer are indices; a null pointer is modelled where the source tests for it.
- The write and the drain of `send_impl` succeed, and the clock of one input is read once when it begins and once when its reply has been sent.
