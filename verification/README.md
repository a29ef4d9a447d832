# A verified model of the dsPIC33AK CAN FD driver

The driver has two layers: a HAL (bit-timing solver, node transmit and receive, event layer) and a
CMSIS-Driver CAN wrapper (receive ring, power and mode lifecycle). This project models both in
Dafny and proves the properties the two layers exist for. `dafny verify dfyconfig.toml` checks it.

| file | what it models |
|---|---|
| `Bits.dfy` | 32-bit words as bounded naturals: and, or and shifts defined bit by bit, with the few laws the codecs need |
| `BitTiming.dfy` | `solve_phase` and `nora_canfd_calc_bit_timing` in their own 32-bit and 16-bit arithmetic; the BTCFG and TDC words; the sample point `CAN_SetBitrate` derives |
| `TimedWait.dfy` | the two polling loops on a tick counter that wraps modulo 2^32 |
| `FrameCodec.dfy` | identifier word, control word, payload words, length codes; the CMSIS message information above them |
| `MessageRam.dfy` | the loops that write and read one object of the 576-byte message RAM |
| `RxRing.dfy` | the eight-slot software ring |
| `RxPipeline.dfy` | arrivals, handler and `MessageRead` as a step system, interleaved freely |
| `RxPath.dfy` | the handler and `MessageRead` as the driver writes them, every execution a run of the step system |
| `HalModel.dfy`, `HalDriver.dfy` | one HAL instance and the net effect of every call; the calls themselves, one register access at a time |
| `CmsisModel.dfy`, `CmsisDriver.dfy` | one CMSIS instance over its HAL instance and the net effect of every API call; the calls themselves |
| `EndToEnd.dfy` | a message sent through the driver and read back through a receiver |

How the pieces fit. `Solve`, `TimingFor`, `Encode`, `Decode`, `HandlerRun` and the `After…`
functions say what an operation does; the methods of `SolvePhase`, `WriteObject`, `Receiver`,
`CanHal` and `Driver` are the loops and field updates, each proved equal to its function; the lemmas
say what those functions are good for. The methods of `CanHal` also keep a log of the register
accesses of each instance, so that statements about the moments inside a call (which registers
change in which mode, what could interrupt) are contracts too; the log's rules tie the kind of an
access to what it changes. The calls poll: a `Poll` is the tick source and what each successive read
of the flag shows, and `Wait` is the loop that decides between them. The net-effect functions take
the outcome of a wait (`Reply`) and hold for every outcome, failures included. Beside each
net-effect function stands an outcome lemma that states the call's answer and new state on its own
terms: the register fields, codes and limits as the numbers the header files give, the order of the
refusals, and what the call leaves alone. In `RxPath` arrivals may happen between any two steps of
the handler, and arrivals and whole handler runs between any two steps of `MessageRead`.

## Assumptions

- A handler runs to its end before the interrupted thread continues; hardware arrivals happen
  between any two steps of either. One thread calls `MessageRead`.
- The hardware FIFO holds four objects, drops a frame that finds it full and then latches RXOVIF;
  RXIF is set while it is not empty.
- OPMOD follows REQOP at some poll or never; it may still follow after a wait was given up. A call
  whose wait never ends does not return, and the contracts are about calls that do.
- The address registers of the queue and the FIFO point at an object of the message RAM.
- While frames arrive the event callback is registered (`EveryCallSequence` says when it is).
- The object callback is fixed while frames arrive and does not call back into the driver.

## Where code and promise part

Each of these is a theorem about the code as it stands.

- The solver's rates are exact only where its arithmetic loses nothing. `ExactRateIff` gives the
  exact condition for an accepted rate, in terms of the prescaler the solver answers with, so it is
  checked after the call. Before the call a caller can check the bounds of `InDomain`, which hold
  exactly when no prescaler wraps or truncates (`DomainIff`). `WrappedRateIsAccepted` and
  `TruncatedBitIsAccepted` give rates that are accepted and wrong.
- The search divides by zero exactly when the largest power of two that divides the rate is at least
  2^24 and does not divide the clock (`TrapIff`, for all inputs).
- Deriving the sample point from ARM bit segments is exact exactly when the flooring discards at
  most 50 hundredths of a quantum (`SegmentsRecovered`, `SolverKeepsSegments`), which every bit of up
  to 51 quanta meets (`ShortBitsAreExact`); a bit of 53 quanta loses its segments in the solver
  (`LongBitLosesSegments`).
- A timed wait never ends early, but it needs a clock to end at all. For a clock whose gaps stay
  below the tick range less the timeout, a wait for a flag that never comes ends exactly when the
  clock ever reaches the timeout (`TimeoutIff`). The driver's weak default tick source never does
  (`StuckClockNeverExpires`); a clock read once per full turn reaches it unnoticed
  (`FullTurnsNeverExpire`).
- `CAN_SetMode` answers OK for the mode the context records, even when a failed change has left the
  instance silent (`SetModeOkMeansLive`, `FailedChangeThenOldModeIsSilent`).
- `CAN_Initialize` on a powered instance clears the powered flag and nothing else, so a power-off
  after it answers OK and leaves the instance live (`PowerOffTakesDown` for the exact condition,
  `InitializeThenPowerOffStaysLive`).
- A second enable of a running node while a transmission is outstanding forgets that the transmitter
  is busy, and nothing else does (`BusyLostByReenable`).
- After a `set_bitrate` that times out, the module is either where it was with the old timing words,
  or in Configuration mode with all three new ones (`SetBitrateOutcome`). If the request for
  Configuration mode that was given up is answered late, it ends in Configuration mode with the old
  words, initialized and with its events as they were (`HeldChangeEndsInConfig`).
- An init while an asynchronous start is outstanding clears the transmit queue's interrupt source and
  nothing else of the arming, so its completion is never seen (`QueueSourceLostByInit`, with the
  exact condition). The wrapper never starts one.

## Model

| member | source | states |
|---|---|---|
| BitTiming.SolvePhase | src/hal_can/nora_canfd_common_dspic33ak.c:47-91 | the loop with its `break` and `continue`s answers what the search from prescaler 1 answers, wrap-around, narrowing and division by zero included |
| BitTiming.SolverExact | src/hal_can/nora_canfd_common_dspic33ak.c:47-91 | on the stated domain the solver succeeds if and only if some prescaler in 1..256 has a legal split; its answer is legal, has the least prescaler and that prescaler's only split, and the jump width is the second segment or the field limit, whichever is less |
| BitTiming.StopLosesNothing | src/hal_can/nora_canfd_common_dspic33ak.c:65-67 | the early `break` loses no solution: nothing legal at this or any later prescaler |
| BitTiming.TrySound | src/hal_can/nora_canfd_common_dspic33ak.c:59-88 | one round of the loop takes only legal splits, stops only below four quanta, and never divides by zero on the domain |
| BitTiming.TryComplete | src/hal_can/nora_canfd_common_dspic33ak.c:59-88 | one round takes every legal split of its prescaler |
| BitTiming.ExactHitIsFound | src/hal_can/nora_canfd_common_dspic33ak.c:58-89 | if any configuration inside the limits hits rate and sample point exactly, the solver does not fail |
| BitTiming.SampleOptimal | src/hal_can/nora_canfd_common_dspic33ak.c:68-69 | the chosen tseg1 is at most half a quantum off the requested point, and no other number of quanta is closer |
| BitTiming.ExactRateIff | src/hal_can/nora_canfd_common_dspic33ak.c:59-88 | an accepted rate is exact if and only if the prescaled rate fits 32 bits and the bit fits 16 bits of quanta, for all inputs |
| BitTiming.DomainIff | src/hal_can/nora_canfd_common_dspic33ak.c:58-79 | the rate and clock bounds of the domain hold exactly when no prescaler in 1..256 wraps the product or cuts the quanta to 16 bits |
| BitTiming.WrappedRateIsAccepted | src/hal_can/nora_canfd_common_dspic33ak.c:59-64 | a rate that wraps is accepted and not met |
| BitTiming.TruncatedBitIsAccepted | src/hal_can/nora_canfd_common_dspic33ak.c:69-79 | a bit whose quanta do not fit 16 bits is accepted and not met |
| BitTiming.TrapIff | src/hal_can/nora_canfd_common_dspic33ak.c:55-64 | for all inputs, the search divides by zero exactly when the largest power of two dividing the rate is at least 2^24 and does not divide the clock |
| BitTiming.HugeRateTraps | src/hal_can/nora_canfd_common_dspic33ak.c:59-62 | a rate for which the prescaled rate becomes zero before anything is found |
| BitTiming.BtcfgDecodes | src/hal_can/nora_canfd_common_dspic33ak.c:80-85 | the packed word decodes, at the register's own positions and widths, to exactly the prescaler, both segments and the jump width, in both phase layouts |
| BitTiming.TdcDecodes | src/hal_can/nora_canfd_common_dspic33ak.c:122-129 | the TDC word is 2 in the mode field and min(127, brp * tseg1) in the offset field, as a number and read back |
| BitTiming.CalcBitTiming | src/hal_can/nora_canfd_common_dspic33ak.c:93-131 | both phases then the compensation word, with every early return |
| BitTiming.TimingWordsExact | src/hal_can/nora_canfd_common_dspic33ak.c:93-131 | on the domain the calculation succeeds if and only if both phases have a solution within tseg1 2..256, tseg2 1..128, sjw 128 and 1..32, 1..16, 16; then the three words are exactly the numbers of the two exact rates and their compensation offset, every other bit clear, every jump width as wide as its second segment |
| BitTiming.TimingRefusals | src/hal_can/nora_canfd_common_dspic33ak.c:93-131 | for all inputs: percentages 0 and from 100 on and zero rates are refused, and otherwise the calculation succeeds, traps or is refused exactly as the two searches do |
| BitTiming.PercentFloor | cmsis_driver/Driver_CAN_dsPIC33AK.c:406-414 | the derived percentage is the true one less what the division discards, and below 100 |
| BitTiming.SegmentsRecovered | cmsis_driver/Driver_CAN_dsPIC33AK.c:406-414 | splitting the same number of quanta at the derived percentage gives the original segments back if and only if at most 50 hundredths were discarded |
| BitTiming.ShortBitsAreExact | cmsis_driver/Driver_CAN_dsPIC33AK.c:406-414 | every bit of at most 51 quanta gives a percentage in 1..99 and discards at most 50 |
| BitTiming.SolverKeepsSegments | cmsis_driver/Driver_CAN_dsPIC33AK.c:406-427 | when the solver settles on the requested number of quanta, it returns the requested segments if and only if at most 50 hundredths were discarded, a derived percentage of zero and its replacement included |
| BitTiming.LongBitLosesSegments | cmsis_driver/Driver_CAN_dsPIC33AK.c:406-427 | segments of 53 quanta for which the solver answers others |
| TimedWait.NeverEarly | src/hal_can/nora_canfd_node_dspic33ak.c:66-68 | the wrapped comparison never reports a timeout before the true time reaches it |
| TimedWait.ExpiredIsExact | src/hal_can/nora_canfd_node_dspic33ak.c:56-90 | on a monotone clock whose gaps until the timeout are at most 2^32 less the timeout, it decides exactly as true time would |
| TimedWait.TimeoutIff | src/hal_can/nora_canfd_node_dspic33ak.c:56-90 | on such a clock a wait for a flag that never comes ends if and only if the clock ever reaches the timeout |
| TimedWait.MustExpire | src/hal_can/nora_canfd_node_dspic33ak.c:56-90 | a clock that never stalls for more than a number of reads ends the wait within that many reads per tick of the timeout |
| TimedWait.Wait | src/hal_can/nora_canfd_node_dspic33ak.c:56-90 | the polling loop ends exactly at the first poll that shows the flag or gives up, answers whether the flag was in time, gives up only with a clock and a timeout above zero, never before the timeout and, with small gaps, never after a poll that had already reached it |
| TimedWait.Untimed | src/hal_can/nora_canfd_node_dspic33ak.c:66-83 | with no clock or a timeout of zero, a wait that ends has seen its flag |
| TimedWait.StuckClockNeverExpires | cmsis_driver/Driver_CAN_dsPIC33AK.c:158-162 | a tick source that returns one value never times out |
| TimedWait.FullTurnsNeverExpire | src/hal_can/nora_canfd_node_dspic33ak.c:66-68 | a clock read once per full turn of the counter reaches the timeout and never expires |
| FrameCodec.LenToDlcLeast | src/hal_can/nora_canfd_dspic33ak_reg.h:201-218 | the code of a length is the least one whose length covers it |
| FrameCodec.DlcInverse | src/hal_can/nora_canfd_dspic33ak_reg.h:201-218 | coding a coded length gives the code back |
| FrameCodec.IdRoundTrip | src/hal_can/nora_canfd_node_dspic33ak.c:93-112 | parsing a built identifier word gives the identifier back, masked to 29 or 11 bits |
| FrameCodec.IdWordRoundTrip | src/hal_can/nora_canfd_node_dspic33ak.c:93-112 | building a parsed word gives the word's identifier bits back |
| FrameCodec.CtrlWordReads | src/hal_can/nora_canfd_node_dspic33ak.c:304-307 | every field of the control word reads back, the bit-rate switch only on FD frames |
| FrameCodec.CtrlWordIs | src/hal_can/nora_canfd_node_dspic33ak.c:304-307 | the control word is length code + 0x10 * IDE + 0x40 * (FDF and BRS) + 0x80 * FDF and nothing else, RTR clear |
| FrameCodec.WordUnpacks | src/hal_can/nora_canfd_node_dspic33ak.c:316-325 | each of the four bytes of a packed word is found in its own lane |
| FrameCodec.DecodeEncode | src/hal_can/nora_canfd_node_dspic33ak.c:301-390 | what transmit writes, receive reads: identifier, flags, rounded-up length, the bytes, zeros behind them; whatever the receiving buffer held |
| FrameCodec.EncodedWords | src/hal_can/nora_canfd_node_dspic33ak.c:301-325 | every word of a written object as a number: identifier word by bit position, control word, four bytes a word with the first one lowest, zeros past the length |
| FrameCodec.DecodedFields | src/hal_can/nora_canfd_node_dspic33ak.c:367-390 | for any object, whoever wrote it: identifier, flags, length and every byte from their bit positions, the buffer unchanged past the length |
| FrameCodec.EncodeIgnoresStale | src/hal_can/nora_canfd_node_dspic33ak.c:316-325 | bytes past the length never reach the object |
| FrameCodec.EncodedConsistent | src/hal_can/nora_canfd_node_dspic33ak.c:286-307 | every written object: a data frame, bit-rate switch only with FDF, at most eight bytes without it, FDF exactly as asked, nothing above bit 7 |
| FrameCodec.IdEndToEnd | cmsis_driver/Driver_CAN_dsPIC33AK.c:529-567 | an identifier masked on the way down comes back with its IDE bit |
| FrameCodec.EndToEnd | cmsis_driver/Driver_CAN_dsPIC33AK.c:505-582 | from message information to message information through the object: masked identifier with its IDE bit, edl, brs only with edl, the length code, the bytes, zeros up to the coded length; the read's own code chain agrees with the table |
| FrameCodec.ReadInfoIs | cmsis_driver/Driver_CAN_dsPIC33AK.c:566-575 | the message information of any frame: identifier with its IDE bit at bit 31, rtr and esi clear, edl and brs as received, the least code that covers the length |
| MessageRam.PackInto | src/hal_can/nora_canfd_node_dspic33ak.c:316-325 | the guarded byte by byte packing gives the packed word |
| MessageRam.WriteObject | src/hal_can/nora_canfd_node_dspic33ak.c:301-325 | exactly the encoded words are written at the object, and every other object of the message RAM is unchanged |
| MessageRam.FrameBuffer.ReadObject | src/hal_can/nora_canfd_node_dspic33ak.c:367-390 | the read loop leaves the decoded object in the frame, over whatever it held |
| RxRing.Ring.PushContents | cmsis_driver/Driver_CAN_dsPIC33AK.c:224-228 | storing at the head appends to the contents |
| RxRing.Ring.PopContents | cmsis_driver/Driver_CAN_dsPIC33AK.c:559-564 | the tail slot is the oldest item and advancing removes it alone |
| RxRing.Ring.PushAllContents | cmsis_driver/Driver_CAN_dsPIC33AK.c:220-232 | storing one after the other keeps the oldest that fit, in order, behind what is there |
| RxRing.Ring.Capacity | cmsis_driver/Driver_CAN_dsPIC33AK.c:224-231 | full exactly at seven items, empty exactly at none |
| RxPipeline.ReceivePathCorrect | cmsis_driver/Driver_CAN_dsPIC33AK.c:206-253 | for every interleaving from the initial state: frames read, ring, frame in hand and FIFO together are the arrivals less the lost ones, in order, none twice; a slot being copied is never overwritten; outside the handler every drop and every overflow is signalled or still latched, and a non-empty ring has been announced |
| RxPipeline.EveryRunConserves | cmsis_driver/Driver_CAN_dsPIC33AK.c:215-235 | conservation and untorn copies are kept by every run of steps |
| RxPipeline.EveryRunAudible | src/hal_can/nora_canfd_isr_dspic33ak.c:322-359 | no silent loss and no lost wake-up, kept by every run of steps, including an overflow between the flag read and its clear |
| RxPipeline.LossesAreMarked | cmsis_driver/Driver_CAN_dsPIC33AK.c:224-231 | a frame is lost only to a full FIFO or a full ring, and either is recorded as such |
| RxPipeline.LossesAreHeard | src/hal_can/nora_canfd_isr_dspic33ak.c:322-359 | for every single lost frame of every run from power-on: once no handler is running, a frame lost at the full ring was signalled by its own run, a frame lost at the full FIFO is latched or was signalled after its arrival |
| RxPipeline.SurvivorsOrdered | cmsis_driver/Driver_CAN_dsPIC33AK.c:220-232 | arrival numbers strictly increase along what survives |
| RxPipeline.DrainEmpties | cmsis_driver/Driver_CAN_dsPIC33AK.c:220-232 | for finitely many arrivals the drain ends with an empty FIFO, full ring or not |
| RxPipeline.DrainIsRun | cmsis_driver/Driver_CAN_dsPIC33AK.c:220-232 | the drain is a run of the step system |
| RxPipeline.DrainNet | cmsis_driver/Driver_CAN_dsPIC33AK.c:215-235 | an uninterrupted drain stores exactly as many frames as there is room for, oldest first, and knows whether it stored and whether it dropped |
| RxPipeline.HandlerRunNet | src/hal_can/nora_canfd_isr_dspic33ak.c:322-359 | a whole handler run: FIFO emptied, flag cleared, ring extended by what fits, and exactly the signals due |
| RxPipeline.HandlerPushesAll | cmsis_driver/Driver_CAN_dsPIC33AK.c:220-232 | what a handler run does to the ring is storing the FIFO's frames one after the other |
| RxPath.Receiver.constructor | cmsis_driver/Driver_CAN_dsPIC33AK.c:124-127 | an empty ring starts in an initial state of the step system |
| RxPath.Receiver.Fetch | src/hal_can/nora_canfd_node_dspic33ak.c:359-369 | inside the drain the wait of receive is over at its first poll |
| RxPath.Receiver.Receive | src/hal_can/nora_canfd_node_dspic33ak.c:344-395 | from the wait to the release of the object: the frame holds the decoded object, and the FIFO loses exactly that one |
| RxPath.Receiver.DrainFifo | cmsis_driver/Driver_CAN_dsPIC33AK.c:215-235 | the loop terminates under finitely many arrivals, sees the FIFO empty at its end, and is a run of the step system |
| RxPath.Receiver.CanHalEvent | cmsis_driver/Driver_CAN_dsPIC33AK.c:206-247 | drain and signals as the events ask for, as a run of the step system |
| RxPath.Receiver.IrqHandler | src/hal_can/nora_canfd_isr_dspic33ak.c:311-360 | with arrivals between any two of its steps and the thread anywhere, the receive part of the handler is a run of the step system without thread steps; with no arrival inside it, the whole handler run |
| RxPath.Receiver.CopyOut | cmsis_driver/Driver_CAN_dsPIC33AK.c:577-581 | as many bytes as frame and buffer have, the rest of the buffer untouched |
| RxPath.Receiver.PopFrame | cmsis_driver/Driver_CAN_dsPIC33AK.c:558-564 | the emptiness test, the structure copy cell by cell and the tail advance, with arrivals and handler runs between any two of them: the frame taken is the oldest of the ring, untorn, and the whole is a run of the step system |
| RxPath.Receiver.MessageRead | cmsis_driver/Driver_CAN_dsPIC33AK.c:545-582 | under every interruption: the error answers hand nothing over; otherwise exactly one frame, the oldest, is handed over, with its information and its bytes, the rest of the buffer untouched |
| RxPath.ReadMessage | cmsis_driver/Driver_CAN_dsPIC33AK.c:505-582 | in every reachable state and under every interruption: what a read returns is a frame that arrived and was not lost, and if an accepted send wrote its object, it is that message: identifier, flags and code, the bytes sent, zeros behind them |
| RxPath.Deliver | cmsis_driver/Driver_CAN_dsPIC33AK.c:505-582 | whatever waits in FIFO and ring: an object for which there is room is read back, after the frames ahead of it, as the message that was sent |
| RxPath.LossReachesCallback | cmsis_driver/Driver_CAN_dsPIC33AK.c:227-242 | in every reachable state of a receiver with an object callback that has lost a frame, the callback was told of an overrun or the overflow flag is still up |
| EndToEnd.SendAndReceive | cmsis_driver/Driver_CAN_dsPIC33AK.c:505-582 | if the driver accepts a message and the object it wrote arrives unchanged at a receiver with room, the reads return that message after the frames ahead of it |
| HalModel.InitOutcome | src/hal_can/nora_canfd_node_dspic33ak.c:123-223 | init succeeds in the requested mode with the words of its calculation, or is refused with nothing changed, or times out with the node down, the mode forgotten and the module off; exactly when which, in which order the refusals are checked, and every CxCON, geometry and address field a success leaves |
| HalModel.ModeNumber | src/hal_can/nora_canfd_node_dspic33ak.c:37-47 | each mode's REQOP number |
| HalModel.SetBitrateOutcome | src/hal_can/nora_canfd_node_dspic33ak.c:225-272 | for every outcome of the two waits: refused with nothing changed and which status, or the words kept and the module where it was, or all three new with the module in Configuration mode or back in the recorded mode |
| HalModel.DeinitOutcome | src/hal_can/nora_canfd_node_dspic33ak.c:397-420 | succeeds exactly on a present instance, forgets the mode, turns a running module off even when it ignores the request, and a second call changes nothing |
| HalModel.TransmitOutcome | src/hal_can/nora_canfd_node_dspic33ak.c:274-331 | a transmit queues exactly the frame's object or changes nothing, and which status in which order |
| HalModel.EnableOutcome | src/hal_can/nora_canfd_isr_dspic33ak.c:186-223 | an enable needs a priority up to 7 and a running node; then the receive sources and lines are on at the priority asked for, 4 for 0, and nothing of the transmit side changes but the busy flag |
| HalModel.DisableOutcome | src/hal_can/nora_canfd_isr_dspic33ak.c:225-247 | a disable turns every source, line and flag of the event layer off and keeps callback, priority, node and timing |
| HalModel.TxStartOutcome | src/hal_can/nora_canfd_isr_dspic33ak.c:252-282 | a start queues exactly the frame's object and arms the transmit side, or changes nothing, and which status in which order |
| HalModel.TxEndOutcome | src/hal_can/nora_canfd_isr_dspic33ak.c:292-340 | an abort disarms the transmit side on a present instance; the handler disarms it exactly when the flag is up and the queue is empty; neither touches the queue |
| HalModel.EveryHalRun | src/hal_can/nora_canfd_isr_dspic33ak.c:186-306 | over every run of HAL calls and hardware steps: initialized if and only if a mode is recorded; all three timing words those of the last calculation let into Configuration mode; REQOP the last mode asked for, OPMOD the recorded mode or Configuration; queued objects consistent; transmit line and enable armed exactly since the last successful start not ended by disable, abort or completion; busy only while armed |
| HalModel.WordsOfOneCall | src/hal_can/nora_canfd_node_dspic33ak.c:166-255 | from power-on, whenever the node is initialized, one single init or bit-rate call of the run calculated all three timing words it holds |
| HalModel.HeldChangeEndsInConfig | src/hal_can/nora_canfd_node_dspic33ak.c:252-272 | a bit-rate change given up before Configuration mode and answered late leaves a running node there, with the old words and its events as they were |
| HalModel.QueueSourceLostByInit | src/hal_can/nora_canfd_node_dspic33ak.c:198-202 | the queue's interrupt source follows the arming at every step, except exactly when an init is let into Configuration mode while a start is outstanding |
| HalModel.BusyLostByReenable | src/hal_can/nora_canfd_isr_dspic33ak.c:186-219 | one step turns armed-and-busy into armed-and-idle exactly when it enables a running node with a priority up to 7 |
| HalModel.DisabledStaysSilent | src/hal_can/nora_canfd_isr_dspic33ak.c:252-282 | after a disable no run without an enable turns any CPU line on |
| HalDriver.CanHal.constructor | src/hal_can/nora_canfd_isr_dspic33ak.c:22-33 | the state the program starts in |
| HalDriver.TimingOnlyInConfig | src/hal_can/nora_canfd_node_dspic33ak.c:166-193 | in the log of any instance, every timing write, and every access at which a timing word changes, has the module in Configuration mode before and after |
| HalDriver.CanHal.Put | src/hal_can/nora_canfd_node_dspic33ak.c:166-193 | an access is accepted only if what it changes matches its kind, and it is logged with the registers it leaves |
| HalDriver.CanHal.RequestMode | src/hal_can/nora_canfd_node_dspic33ak.c:56-73 | REQOP is written and OPMOD polled against the clock; OK exactly when OPMOD shows the mode in time, always with a timeout of zero |
| HalDriver.CanHal.Init | src/hal_can/nora_canfd_node_dspic33ak.c:123-223 | access by access, with both waits polled: the net effect, and nothing logged for the other instance; never a timeout when the timeout is zero |
| HalDriver.CanHal.SetBitrate | src/hal_can/nora_canfd_node_dspic33ak.c:225-272 | access by access, with both waits polled: the net effect, and nothing logged for the other instance; never a timeout when the timeout is zero |
| HalDriver.CanHal.Deinit | src/hal_can/nora_canfd_node_dspic33ak.c:397-420 | the net effect; nothing is accessed on an instance that is not present |
| HalDriver.CanHal.Transmit | src/hal_can/nora_canfd_node_dspic33ak.c:274-331 | the checks in order, the wait for room polled, then exactly the encoded words, a data frame's control word among them, in the object the queue points at and in the queue, every other object unchanged |
| HalDriver.CanHal.IsrEnable | src/hal_can/nora_canfd_isr_dspic33ak.c:186-223 | receive sources and lines on, the transmit line untouched, and the callback already in place when a line goes on |
| HalDriver.CanHal.IsrDisable | src/hal_can/nora_canfd_isr_dspic33ak.c:225-247 | every line and source off |
| HalDriver.CanHal.TxStart | src/hal_can/nora_canfd_isr_dspic33ak.c:252-282 | refused while events are off; otherwise arms after a successful transmit, which has written the frame's words to the object the queue points at and to no other |
| HalDriver.CanHal.TxAbort | src/hal_can/nora_canfd_isr_dspic33ak.c:292-306 | disarms |
| HalDriver.CanHal.TxInterrupt | src/hal_can/nora_canfd_isr_dspic33ak.c:332-340 | completion disarms, once |
| CmsisModel.EveryCallSequence | cmsis_driver/Driver_CAN_dsPIC33AK.c:255-624 | in every state any sequence of API calls, interrupts and late hardware answers reaches, whatever fails: wrapper and HAL layers agree, powered implies initialized implies enabled, a live normal mode is the one FD selects, bit-rate switching follows the FD setting, enabled events mean a frame does interrupt, transmit interrupts are never armed; and the HAL is where the run's HAL calls put it, holding the three timing words of the last calculation let into Configuration mode, in the recorded mode or in Configuration |
| CmsisModel.CallIsRun | cmsis_driver/Driver_CAN_dsPIC33AK.c:255-624 | every API call does to the HAL exactly what its sequence of HAL calls does, roll-back included |
| CmsisModel.ApplyKeeps | cmsis_driver/Driver_CAN_dsPIC33AK.c:255-295 | a re-apply ends live in the new mode, or with events off, no callback and the context unchanged |
| CmsisModel.ApplyOutcome | cmsis_driver/Driver_CAN_dsPIC33AK.c:255-295 | which answer a re-apply gives, in the order things can go wrong; after an OK the instance runs in the mode with exactly its own settings, after anything else it is silent with its context unchanged |
| CmsisModel.SendAcceptedIff | cmsis_driver/Driver_CAN_dsPIC33AK.c:505-543 | across both layers, exactly which sends are accepted; a refused one changes nothing and answers the code of the first check that fails |
| CmsisModel.SendQueuesConsistent | cmsis_driver/Driver_CAN_dsPIC33AK.c:524-542 | an accepted send changes nothing but the queue, by one object whose every word is the message's as a number: a data frame, FDF exactly if asked for and never while FD is off |
| CmsisModel.SetModeOkMeansLive | cmsis_driver/Driver_CAN_dsPIC33AK.c:430-458 | after an OK for normal, monitor or one of the loopback modes the HAL mode it stands for is recorded, and the instance is live in it if and only if it was a change or the events were on before |
| CmsisModel.ModeOutcome | cmsis_driver/Driver_CAN_dsPIC33AK.c:430-458 | for every ARM mode the answer and the new state: refused, nothing to do, or running in the HAL mode it stands for, or silent |
| CmsisModel.FailedChangeThenOldModeIsSilent | cmsis_driver/Driver_CAN_dsPIC33AK.c:430-458 | a failed change followed by a request for the old mode is OK, powered and silent |
| CmsisModel.RingSurvivesModeChanges | cmsis_driver/Driver_CAN_dsPIC33AK.c:430-458 | mode and FD-mode changes keep the receive ring with everything in it, failed or not |
| CmsisModel.RingConserved | cmsis_driver/Driver_CAN_dsPIC33AK.c:255-624 | over every run of calls, handler runs and failures between two power-ons: what was read followed by what is left is what was there followed by what was stored |
| CmsisModel.ReadOutcome | cmsis_driver/Driver_CAN_dsPIC33AK.c:545-565 | which answer a read gives, in order; a refused one changes nothing and a success takes exactly the oldest frame |
| CmsisModel.InitializeOutcome | cmsis_driver/Driver_CAN_dsPIC33AK.c:311-327 | both callbacks stored where they belong, initialized set, powered cleared, nothing else changed; refused on a disabled instance |
| CmsisModel.UninitializeOutcome | cmsis_driver/Driver_CAN_dsPIC33AK.c:331-342 | initialized, powered and both callbacks cleared, a powered instance taken down and silenced, an unpowered HAL left as it is |
| CmsisModel.BitrateOutcome | cmsis_driver/Driver_CAN_dsPIC33AK.c:393-428 | a zero rate changes nothing; any other is cached in the place selected, with the percentage of the segment word's own bits; a powered instance asks the HAL for exactly the two cached rates and translates its status |
| CmsisModel.PowerOnProgramsCachedRates | cmsis_driver/Driver_CAN_dsPIC33AK.c:344-427 | a successful power-on runs in the normal mode with the timing words of the cached rates |
| CmsisModel.PowerOnIff | cmsis_driver/Driver_CAN_dsPIC33AK.c:344-366 | exactly when a power-on succeeds, in terms of the cached settings, the module's answers and the priority |
| CmsisModel.PowerOnOutcome | cmsis_driver/Driver_CAN_dsPIC33AK.c:344-366 | after a power-on the instance is powered if and only if the answer was OK, and then runs with its own settings; otherwise it is silent, and a retry goes through a bring-up again; the ring is empty either way |
| CmsisModel.PowerOutcome | cmsis_driver/Driver_CAN_dsPIC33AK.c:344-383 | the answer and the new state of every other power request |
| CmsisModel.FdSwitchOutcome | cmsis_driver/Driver_CAN_dsPIC33AK.c:584-611 | the FD switch records its argument; a powered instance re-applies the mode, a normal one as the argument selects, and runs in it or is silent |
| CmsisModel.ControlOutcome | cmsis_driver/Driver_CAN_dsPIC33AK.c:584-624 | the answer of every other control, and that only an abort of the transmit object reaches the HAL, disarming the transmit side |
| CmsisModel.PowerOffTakesDown | cmsis_driver/Driver_CAN_dsPIC33AK.c:368-375 | a power-off always answers OK; the HAL is down afterwards if and only if the instance was powered or it was down before |
| CmsisModel.InitializeThenPowerOffStaysLive | cmsis_driver/Driver_CAN_dsPIC33AK.c:311-375 | a second Initialize followed by a power-off leaves a live instance live |
| CmsisDriver.Driver.constructor | cmsis_driver/Driver_CAN_dsPIC33AK.c:129-152 | the initial contexts over an unused HAL meet every invariant |
| CmsisDriver.Driver.ApplyInit | cmsis_driver/Driver_CAN_dsPIC33AK.c:255-295 | the net effect; at every access that changes CxCON, geometry, filter or timing all CPU lines are off and no callback is registered, and the instance's own callback is in place before a line goes on; the other instance untouched |
| CmsisDriver.Driver.PowerControl | cmsis_driver/Driver_CAN_dsPIC33AK.c:344-383 | the net effect of every power change, quiet at every access in between, on this instance alone |
| CmsisDriver.Driver.Initialize | cmsis_driver/Driver_CAN_dsPIC33AK.c:311-327 | the net effect, on this instance alone |
| CmsisDriver.Driver.Uninitialize | cmsis_driver/Driver_CAN_dsPIC33AK.c:331-342 | the net effect, quiet at every access, on this instance alone |
| CmsisDriver.Driver.SetBitrate | cmsis_driver/Driver_CAN_dsPIC33AK.c:393-428 | the cached values change before anything can fail, except for a zero rate; on this instance alone |
| CmsisDriver.Driver.SetMode | cmsis_driver/Driver_CAN_dsPIC33AK.c:430-458 | the net effect, quiet at every access, on this instance alone |
| CmsisDriver.Driver.Control | cmsis_driver/Driver_CAN_dsPIC33AK.c:584-624 | the net effect of the FD switch and of the abort, quiet at every access, on this instance alone |
| CmsisDriver.Driver.MessageSend | cmsis_driver/Driver_CAN_dsPIC33AK.c:505-543 | the checks in order and the queued object, the same whatever the uninitialised local buffer held; after an accepted send the object the queue points at starts with the message's words, its control word a data frame's, and no other message RAM object is written |

## Left out

- HalDriver.CanHal.RequestMode: says nothing about a wait that never ends.
- BitTiming.SolverKeepsSegments: says nothing when the solver settles on another number of quanta than the segments add up to.
- CmsisDriver.Driver.MessageSend: the receive ring inside the driver's contexts is filled and emptied by CmsisModel's calls and by RxPath.Receiver, not by methods of this class.
- CmsisModel.EveryCallSequence: follows one instance; that a call touches no other instance is in the contracts of CmsisDriver.Driver.
- Order of the transmit queue: the hardware picks by priority, so the queue is a multiset.
- What happens to queued objects when the module passes through Configuration mode or is turned off.
- A division by zero in the solver ends in the processor's trap handler; here it is a status of its own that changes nothing.
- Null frame pointers to the node layer: the wrapper never passes them.
- The clamp of a received length to the payload size: no length code exceeds it.
- Receive ring resets: PowerControl(FULL) clears head and tail; the pipeline results hold between such resets.
- Invalid instance numbers and the guards against them; instances are 0 and 1.
- Registers as raw 32-bit words with set, clear and field-write helpers: fields are modelled by name, except for the timing, identifier, control and payload words.
- CPU interrupt flags and their clearing, bus-off and error events, and the unit callback.
- Arbitration, error counters, bus-off recovery and every other behaviour of the silicon.
- Memory ordering and compiler effects of `volatile`; calls into the driver from a callback.
- GetVersion, capabilities, object configuration, filters, GetClock, GetStatus and the per-instance wrapper functions: one reading settles them.
- Presence detection and the register map of the device file: presence is a flag.
- The synchronisation script, the RTE configuration header and the documents.
