# Verification of the Kestrel base driver

A Dafny 4.11 model of the driver between ros2_control and the Kestrel motor board, and of the abort
latch of the bench harness, with proofs of what they promise. `dafny verify dfyconfig.toml` checks
all of it.

The layers, from the wire up:

- **CRC** (`Crc`, `CrcCode`, `CrcOrder`, `CrcStart`). The bitwise CRC-16 (generator x^16 + x^12 + x^5 + 1 of
  section 2 of ITU-T Recommendation V.41, start value 0xFFFF, most significant bit first) as a linear
  shift register: parity, bursts, the order of x and the start value.
- **Frames** (`BinaryProtocol`, `ErrorDetection`). The builder and the extractor that edits the receive
  buffer in place, and exactly which corruptions the extractor rejects.
- **Stream** (`StreamScanner`, `Receiver`, `ReceiverRuns`, `AckLatch`). An unbounded reference scanner,
  which the chunked reads refine; the acknowledgement latch and the waits that poll it.
- **Structs and commands** (`Wire`, `Commands`, `HostMessages`). Packed little-endian payloads, units,
  and what the other end reads from them.
- **Transport** (`KestrelTransport`). The driver object with its buffer, counters, latch and parsed
  feedback, over a port that records the bytes written and read.
- **Odometry** (`WheelFeedback`, `Odometry`, `Windows`, `SpeedWindows`, `WheelOdometer`, `EndToEnd`).
  Feedback frames with recovered directions, seeding, staleness, the speed window and its filter, and
  positions; which cycles close a window, and how often, from the stamps alone; and the composition
  from arbitrary bytes to joint positions.
- **Outputs** (`StopGrace`, `Tuning`, `Led`, `HostOutput`, `HostWriter`). The stop grace and the
  send-on-change caches, compared with sending every cycle.
- **Hardware interface** (`DiffbotSystem`, `Bringup`, `SystemHistory`). The object that connects, shakes
  hands, activates, reads, writes and deactivates. Its invariant says that its state is where the
  recorded reads and writes lead, so the facts about whole runs hold after any sequence of operations.
- **Bench** (`BenchAbort`). The main thread and the timer callback as a state machine, one access to
  a shared variable per step.

`SeqFacts`, `NumberFacts` and `Options` are shared helpers. Modules of functions and lemmas hold the
specification of a layer and what is proved about all its runs; classes hold the imperative code, each
method proved to compute its specification.

Inputs and time. The port is what a read returns: any bytes, in any pieces. Clock readings are
arguments of the methods that take them; nothing assumes that they increase, unless a lemma says so.
A wait is given the clock readings and bytes of its polls, the last of which is at or past the
deadline. "The board" is whatever scans the written bytes and goes by the last message of each kind.

Where the code does less than its comments promise:

- A stop is only guaranteed to reach the board if the stopped cycle is written less than a second
  after the last moving one. `StopGrace.GoQuietIsTransparent` gives the exact condition,
  `StopGrace.LateStopExample` the smallest case. The board's own timeout then has to stop the wheels.
- `b.abort = b.abort or None` in the final block of the bench is a load and a store, between which a
  tick can trip; `BenchAbort.AbortCanBeLost` is such a run, `BenchAbort.AbortStays` the exact
  condition. Nothing but the command of that one tick gets out.
- A burst across the payload/CRC boundary can go undetected, since the CRC is stored low byte first;
  see `ErrorDetection.BoundaryBurstUndetected`.
- Activation clears the speed filter but not the velocity interface, so a velocity from before can
  be reported without a recent frame: `Odometry.OldVelocityExample` is the smallest case and
  `Odometry.NonzeroIsBackedExactly` the exact condition. The seeding cycle does not record the frame
  count either, so the cycle after it always counts as one that saw a new frame.
- A payload over 255 bytes is sent cut to its size modulo 256; see `BinaryProtocol.BuiltRoundTrip`.

## Model

| member | source | states |
|---|---|---|
| Crc.Crc16Ccitt | my_diffbot_hardware_interface/src/binary_protocol.cpp:18-32 | the in-place byte and bit loops compute the CRC-16 of the first `length` bytes as the fold of one shift-register step over all their bits |
| CrcStart.StartsFromOnes | my_diffbot_hardware_interface/src/binary_protocol.cpp:20 | the CRC of no bytes is 0xFFFF, and that of any two bytes or more is the CRC from zero of the same data with its first two bytes complemented |
| CrcStart.CheckValue | my_diffbot_hardware_interface/src/binary_protocol.cpp:18-32 | the CRC of the ASCII digits 1 to 9 is 0x29B1, the check value catalogued for this CRC |
| CrcCode.BitSerial | my_diffbot_hardware_interface/src/binary_protocol.cpp:20-30 | for every register and data, feeding whole bytes (XOR into the top, eight steps) equals feeding the message bit by bit, most significant bit first |
| Crc.CrcXor | my_diffbot_hardware_interface/src/binary_protocol.cpp:18-32 | the CRC is affine over GF(2): the CRC of `s` XOR `e` from `c + d` is the sum of the two CRCs, for any registers and equal lengths |
| Crc.StepsInjective | my_diffbot_hardware_interface/src/binary_protocol.cpp:23-29 | any number of bit steps is an injection on registers (the step is invertible) |
| CrcCode.CrcParity | my_diffbot_hardware_interface/src/binary_protocol.cpp:18-32 | the parity of the CRC is the parity of all data bits, for data of every length |
| CrcCode.BurstRemainder | my_diffbot_hardware_interface/src/binary_protocol.cpp:20-30 | a nonzero pattern of at most 16 consecutive bits, anywhere and not byte-aligned, has a nonzero remainder |
| CrcOrder.OrderOfX | my_diffbot_hardware_interface/src/binary_protocol.cpp:23-29 | x has order exactly 32767 modulo the generator: `d` steps return to the start if and only if 32767 divides `d` |
| CrcOrder.LightRemainder | my_diffbot_hardware_interface/src/binary_protocol.cpp:18-32 | a pattern of one, two or three set bits spread over at most 32767 has a nonzero remainder |
| ErrorDetection.DetectedExactly | my_diffbot_hardware_interface/src/binary_protocol.cpp:105-115 | a corruption that leaves START and LENGTH alone is rejected if and only if its remainder, taken with the two stored CRC bytes swapped into the order of the polynomial, is nonzero |
| ErrorDetection.OddFlipsRejected | my_diffbot_hardware_interface/src/binary_protocol.cpp:105-115 | any odd number of bit flips outside START and LENGTH is rejected |
| ErrorDetection.FewFlipsRejected | my_diffbot_hardware_interface/src/binary_protocol.cpp:105-115 | any one, two or three bit flips in MSG_ID, PAYLOAD or CRC are rejected: frames of one length differ in at least four bits |
| ErrorDetection.FourFlipsUndetected | my_diffbot_hardware_interface/src/binary_protocol.cpp:105-115 | the bound is tight: for every message with a payload there is a four-bit flip that is accepted |
| ErrorDetection.EvenWeight | my_diffbot_hardware_interface/src/binary_protocol.cpp:38-56 | every built frame has an even number of set bits |
| ErrorDetection.BurstRejected | my_diffbot_hardware_interface/src/binary_protocol.cpp:105-115 | a burst of at most 16 bits, in the order high CRC byte before low, is rejected |
| ErrorDetection.PayloadBurstRejected | my_diffbot_hardware_interface/src/binary_protocol.cpp:18-32 | a burst of at most 16 bits inside MSG_ID and PAYLOAD is rejected |
| ErrorDetection.BoundaryBurstUndetected | my_diffbot_hardware_interface/src/binary_protocol.cpp:51-53 | because the CRC is stored low byte first, flipping 0x89 in the last payload byte and 0xA1 in the low CRC byte is never detected, whatever the payload |
| BinaryProtocol.BuildFrame | my_diffbot_hardware_interface/src/binary_protocol.cpp:38-56 | the frame built byte by byte in an array is START, id, length, payload and CRC low byte first; a payload over 255 bytes is cut to its size modulo 256 |
| BinaryProtocol.FrameLayout | my_diffbot_hardware_interface/src/binary_protocol.cpp:38-56 | the bytes of a frame of any message: 0xAA, id, length, payload, then the low and the high byte of the CRC of all before |
| BinaryProtocol.ExtractFrame | my_diffbot_hardware_interface/src/binary_protocol.cpp:64-125 | the extractor that scans, erases and checks the buffer in place computes the specified result, message and remaining buffer, including the overflow guard and the cases that leave the outputs alone |
| BinaryProtocol.ExtractsExactly | my_diffbot_hardware_interface/src/binary_protocol.cpp:75-122 | a buffer yields message `m` and leaves `rest` if and only if, within 1024 bytes, it is START-free garbage, then byte for byte the frame of `m`, then `rest` |
| BinaryProtocol.AcceptedIsFrame | my_diffbot_hardware_interface/src/binary_protocol.cpp:94-119 | whatever is accepted is byte for byte the frame of the delivered message |
| BinaryProtocol.BuiltRoundTrip | my_diffbot_hardware_interface/src/binary_protocol.cpp:38-56 | a built frame is extracted as the message it was built from if and only if the payload has at most 255 bytes |
| BinaryProtocol.FrameInjective | my_diffbot_hardware_interface/src/binary_protocol.cpp:38-56 | distinct messages have distinct frames |
| StreamScanner.ChunksAreOneStream | my_diffbot_hardware_interface/src/serial_transport.cpp:83-94 | parsing a stream in any pieces, from any residual, dispatches the same messages, counts the same errors and leaves the same residual as one scan of the whole stream |
| StreamScanner.ScanAppend | my_diffbot_hardware_interface/src/serial_transport.cpp:100-148 | scanning `a + b` is scanning `a`, then its residual followed by `b` |
| StreamScanner.SettledBound | my_diffbot_hardware_interface/src/serial_transport.cpp:83-94 | what a scan leaves over is shorter than 260 bytes, so with a 256-byte chunk the buffer stays within 515 and the overflow guard is out of reach |
| StreamScanner.ExtractionStep | my_diffbot_hardware_interface/src/serial_transport.cpp:104-147 | one extraction is one step of the scan: a frame, a CRC error or the settled end; each of the first two removes bytes, so the loop ends |
| StreamScanner.ScanConserves | my_diffbot_hardware_interface/src/serial_transport.cpp:104-147 | the stream is exactly the concatenation of the consumed segments (frames byte for byte, skipped bytes, one START per CRC error) and the residual, in order |
| StreamScanner.ByteAccounting | my_diffbot_hardware_interface/src/serial_transport.cpp:104-147 | bytes in = bytes of dispatched frames + skipped bytes + CRC errors + residual |
| StreamScanner.Resynchronises | my_diffbot_hardware_interface/src/binary_protocol.cpp:75-115 | a well-formed frame anywhere in an arbitrary stream has, once the stream extends 259 bytes past its start, been dispatched or begins strictly inside an earlier dispatched frame |
| StreamScanner.SequenceRoundTrip | my_diffbot_hardware_interface/src/binary_protocol.cpp:117-124 | a sequence of frames with START-free noise between and after them, in any pieces, dispatches exactly those messages in order, with no error and an empty residual |
| StreamScanner.CutStream | my_diffbot_hardware_interface/src/serial_transport.cpp:83-94 | such a stream cut after any byte has dispatched exactly the messages whose frames are complete, with no error |
| Wire.PackRoundTrip | my_diffbot_hardware_interface/include/my_diffbot_hardware_interface/binary_protocol.hpp:78-132 | every tuple of field values in range is read back from its packed little-endian struct, whatever follows it |
| Wire.UnpackRoundTrip | my_diffbot_hardware_interface/include/my_diffbot_hardware_interface/binary_protocol.hpp:78-132 | every byte string of a struct's size is the packing of exactly the values read from it, which are in range |
| Wire.FieldByte | my_diffbot_hardware_interface/include/my_diffbot_hardware_interface/binary_protocol.hpp:78-132 | byte `j` of field `i` is at the sum of the widths of the fields before it plus `j`, and is the digit of weight 256^j of the value, of its two's complement if it is negative |
| Wire.MinusOne | my_diffbot_hardware_interface/include/my_diffbot_hardware_interface/binary_protocol.hpp:78-132 | so -1 is sent as bytes 0xFF only |
| AckLatch.LatchDescribed | my_diffbot_hardware_interface/src/serial_transport.cpp:117-122 | after any sequence of arrivals and completed waits the latch is full if and only if the newest acknowledgement has not completed a wait, and then holds its id and status |
| AckLatch.AckFields | my_diffbot_hardware_interface/include/my_diffbot_hardware_interface/binary_protocol.hpp:70-76 | an acknowledgement packed as time stamp, command id and status fills the latch with that id and status, whatever follows the ten bytes |
| AckLatch.WaitUsesNewest | my_diffbot_hardware_interface/src/serial_transport.cpp:225-264 | a wait that completes uses the newest acknowledgement so far, which names the awaited command and was not used before, and returns its status (OK for a handshake) |
| AckLatch.AckCompletesOneWait | my_diffbot_hardware_interface/src/serial_transport.cpp:225-264 | two completed waits used two different acknowledgements, the second of which arrived after the first wait |
| AckLatch.OneAckEach | my_diffbot_hardware_interface/src/serial_transport.cpp:225-264 | in every legal run each completed wait was answered by a frame of its own: the newest acknowledgement that had arrived, arrived since the previous answered wait, naming the awaited command and giving the status |
| Receiver.WaitIsBounded | my_diffbot_hardware_interface/src/serial_transport.cpp:212-274 | with 5 ms between polls a wait reads at most ceil(timeout / 5) times |
| ReceiverRuns.ProgramIsRun | my_diffbot_hardware_interface/src/serial_transport.cpp:209-275 | every program of reads and waits is a legal run of the latch whose arrivals are the frames dispatched and whose completions are, one to one and in order, the waits that complete |
| ReceiverRuns.EachWaitHasItsAck | my_diffbot_hardware_interface/src/serial_transport.cpp:209-275 | in every program of reads and waits the waits that complete are answered by strictly later and later acknowledgements among the dispatched frames, each the newest received by then, with the awaited id and the returned status; the firmware version is the status byte of the one that answered the last completed handshake, or 0 if there is none |
| Receiver.DeliverAppend | my_diffbot_hardware_interface/src/serial_transport.cpp:64-98 | reading `a` then `b`, or `a + b` at once, makes no difference to the buffer, the counters, the latch, the firmware version or the feedback |
| Receiver.DrainTurn | my_diffbot_hardware_interface/src/serial_transport.cpp:104-147 | each turn of the extraction loop leaves the rest of the drain to do with a shorter buffer, or is the end of it; an oversized buffer is cleared |
| ReceiverRuns.ReceiverIsOneScan | my_diffbot_hardware_interface/src/serial_transport.cpp:64-148 | after any interleaving of reads and waits the receiver has dispatched, counted and kept what one scan of every byte taken from the port yields |
| ReceiverRuns.WaitIsOneDelivery | my_diffbot_hardware_interface/src/serial_transport.cpp:209-275 | however many polls a wait takes, it is one delivery of all the bytes it reads, followed by taking the latched acknowledgement of the awaited command (for a handshake, into the firmware version), or by nothing when it times out |
| WheelFeedback.DirectionRecovered | my_diffbot_hardware_interface/src/kestrel_transport.cpp:146-176 | after any messages the count is the number of whole feedback frames, ticks and stamp are those of the last one, and the signed speed is its magnitude times the sign of the last nonzero tick difference (+1 if none); other and short messages leave no trace |
| WheelFeedback.FeedbackRoundTrip | my_diffbot_hardware_interface/include/my_diffbot_hardware_interface/binary_protocol.hpp:121-132 | a reading in range packed as a feedback frame is accepted and decoded as that reading |
| WheelFeedback.StampsApart | my_diffbot_hardware_interface/src/kestrel_transport.cpp:173-174 | frames `d` nanoseconds apart have stamps `d` / 10^9 seconds apart |
| KestrelTransport.Kestrel.OnMessageReceived | my_diffbot_hardware_interface/src/kestrel_transport.cpp:146-177 | the fields updated per frame are those of the feedback specification |
| KestrelTransport.Kestrel.ExtractFrames | my_diffbot_hardware_interface/src/serial_transport.cpp:100-148 | the loop drains the buffer: all complete frames are dispatched and the scan's residual is left |
| KestrelTransport.Kestrel.FeedChunks | my_diffbot_hardware_interface/src/serial_transport.cpp:86-94 | the 256-byte chunk loop, for input of any size, has the effect of one unbounded delivery; no byte is lost to the overflow guard |
| KestrelTransport.Kestrel.Read | my_diffbot_hardware_interface/src/serial_transport.cpp:64-98 | an open port's bytes are delivered whole and added to the record of bytes taken, whose scan the receiver remains; a closed port changes nothing |
| KestrelTransport.Kestrel.WaitForAck | my_diffbot_hardware_interface/src/serial_transport.cpp:209-275 | the polling loop returns the status and leaves the state of the specified wait, timeouts and the handshake case included |
| KestrelTransport.Kestrel.WriteCommand | my_diffbot_hardware_interface/src/serial_transport.cpp:186-207 | an open port carries exactly one more message, cut to its size modulo 256; a closed one fails and carries nothing |
| KestrelTransport.Kestrel.SetWheelVelocity | my_diffbot_hardware_interface/src/kestrel_transport.cpp:112-124 | on an open port one wheel velocity message with both speeds and status OK, on a closed one nothing and COMMAND_FAILED |
| KestrelTransport.Kestrel.SetPIDGains | my_diffbot_hardware_interface/src/kestrel_transport.cpp:68-88 | one gains message, then a wait for its acknowledgement; the receiver stays the scan of all bytes read |
| Commands.WheelVelocityFields | my_diffbot_hardware_interface/src/kestrel_transport.cpp:112-124 | a board that unpacks the message reads the time stamp and, left then right, the whole thousandths of a revolution per second of each command: field `n` for `v` rad/s has the sign of `v` or is 0, and 2 pi n <= 1000 v < 2 pi (n + 1) or its mirror image |
| Commands.ThousandthsUnique | my_diffbot_hardware_interface/src/kestrel_transport.cpp:116-117 | and no other integer is in that relation to the command |
| Commands.WholeThousandths | my_diffbot_hardware_interface/src/kestrel_transport.cpp:116-117 | a command of exactly `k` thousandths of a revolution per second is read as `k` |
| Commands.HandshakeFields | my_diffbot_hardware_interface/src/kestrel_transport.cpp:51-57 | a handshake is id 0x09 with its time stamp and the version number 1000000 |
| Commands.SentIsReceived | my_diffbot_hardware_interface/src/serial_transport.cpp:186-207 | a receiver that scans the bytes written gets exactly the messages sent |
| Odometry.PositionTelescopes | my_diffbot_hardware_interface/src/my_diffbot_system.cpp:482-519 | whatever mix of stale, resumed, restarted and closed windows a run takes, each wheel's change of position times `cpr` is 2 pi times the ticks since the seeding snapshot |
| Odometry.WholeRevolutions | my_diffbot_hardware_interface/src/my_diffbot_system.cpp:519 | so with `c` counts to a revolution `n` times `c` ticks turn the wheel by exactly 2 pi n |
| Odometry.WindowInvariant | my_diffbot_hardware_interface/src/my_diffbot_system.cpp:490-507 | after every seeded cycle the open speed window is at least 0 and less than 40 ms of frame time |
| Odometry.WindowsNeedFrames | my_diffbot_hardware_interface/src/my_diffbot_system.cpp:464-507 | no window closes or restarts without a new frame, and every window that yields a speed spans 40 ms to 1 s |
| Odometry.TicksAccounted | my_diffbot_hardware_interface/src/my_diffbot_system.cpp:464-507 | ticks in closed windows + ticks dropped by restarts + ticks in the open window = latest ticks - seed ticks, for each wheel over any run |
| Odometry.StaleMeansZero | my_diffbot_hardware_interface/src/my_diffbot_system.cpp:464-480 | while the feedback is stale the filtered speeds and the reported velocities are exactly zero |
| Odometry.StaleExactly | my_diffbot_hardware_interface/src/my_diffbot_system.cpp:464-480 | the feedback is stale if and only if some cycle came more than 0.5 s of host time after the last one that saw a new frame (or after the one following the seeding cycle, if none did), whatever the clock did |
| Odometry.ResumesFromZero | my_diffbot_hardware_interface/src/my_diffbot_system.cpp:464-474 | the cycle in which frames resume restarts the window at the resuming frame and still reports zero |
| Odometry.WindowEnds | my_diffbot_hardware_interface/src/my_diffbot_system.cpp:490-507 | a window that closes was opened by an earlier snapshot, not before the last resumption, and its speed is the mean speed between the two |
| Odometry.NonzeroVelocityIsFresh | my_diffbot_hardware_interface/src/my_diffbot_system.cpp:464-520 | from the cycle after the seeding one on, a nonzero velocity means that the last new frame, and that since seeding, came within the last 0.5 s of host time |
| Odometry.NonzeroIsBackedExactly | my_diffbot_hardware_interface/src/my_diffbot_system.cpp:448-520 | for every nonempty run: a nonzero velocity is backed by such a frame if and only if it is not the case that the wheel had a velocity before activation and either no cycle has shown a frame or the run is only its first cycle |
| Odometry.OldVelocityExample | my_diffbot_hardware_interface/src/my_diffbot_system.cpp:244-245 | for example one cycle on a snapshot held from before the activation reports the 1 rad/s from before |
| Odometry.SeedingKeepsVelocity | my_diffbot_hardware_interface/src/my_diffbot_system.cpp:234-246 | activation does not reset the velocity interface: until the cycle after the seeding one it reports the velocity from before |
| Odometry.FilterBounded | my_diffbot_hardware_interface/src/my_diffbot_system.cpp:492-507 | the filter never leaves an interval around zero that contains every window's raw speed, resets included |
| Odometry.FilterConverges | my_diffbot_hardware_interface/src/my_diffbot_system.cpp:492-507 | at a steady raw speed without timeouts, the error after `n` windows is the initial error taken times 0.6 `n` times |
| Odometry.DecayedIsGeometric | my_diffbot_hardware_interface/src/my_diffbot_system.cpp:492-507 | which is the initial error times 0.6 to the power `n` |
| Odometry.SteadyWheelMeasured | my_diffbot_hardware_interface/src/my_diffbot_system.cpp:498-507 | when the snapshots lie on a line of slope `v`, every window measures exactly `v`, whichever frames open and close it |
| Odometry.RevolutionsPerSecond | my_diffbot_hardware_interface/src/my_diffbot_system.cpp:492-507 | a wheel that makes `r` revolutions a second turns at 2 pi r rad/s |
| SpeedWindows.WindowExactly | my_diffbot_hardware_interface/src/my_diffbot_system.cpp:464-507 | with `k` the last cycle that seeded, resumed, closed or restarted a window, a cycle closes one if and only if it does not resume and its stamp is 0.04 to 1.0 s after that of `k`, and restarts it if and only if the difference is negative or over 1.0; all from the snapshots and the clock alone |
| SpeedWindows.WindowSpeed | my_diffbot_hardware_interface/src/my_diffbot_system.cpp:498-507 | the speed a window measures, times its length and `cpr`, is 2 pi times the ticks since its start |
| SpeedWindows.StampsCloseWindows | my_diffbot_hardware_interface/src/my_diffbot_system.cpp:490-507 | while stamps do not fall, rise by at most delta <= 0.96 s from cycle to cycle and no timeout intervenes, the number of windows closed times (0.04 + delta) is more than the frame time elapsed less 0.04 s, and times 0.04 less than it plus 0.04 s |
| SpeedWindows.SteadyWheelConverges | my_diffbot_hardware_interface/src/my_diffbot_system.cpp:492-520 | the reported velocity of a steadily turning wheel is off by the initial error taken times 0.6 once for each window that the snapshots close |
| SpeedWindows.SteadyWheelSettles | my_diffbot_hardware_interface/src/my_diffbot_system.cpp:490-520 | so once `m` times (0.04 + delta) s and 0.04 s more of frame time have passed, the error is at most 0.6^m of what it was |
| WheelOdometer.Odometer.ReadWheels | my_diffbot_hardware_interface/src/my_diffbot_system.cpp:438-527 | the in-place update of all odometry fields and joint states is one cycle of the odometry specification |
| EndToEnd.BytesToPosition | my_diffbot_hardware_interface/src/my_diffbot_system.cpp:448-520 | for any bytes, however they arrived, each wheel's change of position since the activation times `cpr` is 2 pi times (latest parsed ticks - ticks of the seeding frame) |
| EndToEnd.BytesToRevolutions | my_diffbot_hardware_interface/src/my_diffbot_system.cpp:509-520 | for any bytes: with `c` counts to a revolution, ticks that advanced by `n` times `c` since the seeding frame have moved the position by exactly 2 pi n |
| EndToEnd.ReadingsToPosition | my_diffbot_hardware_interface/src/my_diffbot_system.cpp:448-520 | for encoded readings with noise between them, cut into cycles at any byte, the position moves by the ticks from the last reading complete at seeding to the last one complete now |
| EndToEnd.BytesNonzeroIsRecent | my_diffbot_hardware_interface/src/my_diffbot_system.cpp:464-520 | from the look after the seeding one on, a nonzero velocity means that the last bytes to complete a new frame came in within the last 0.5 s, whatever the bytes |
| EndToEnd.BytesBackedExactly | my_diffbot_hardware_interface/src/my_diffbot_system.cpp:448-520 | for all bytes and any number of looks, exactly when that holds: it fails only for a velocity from before activation, while no frame has been parsed or after the first look alone |
| EndToEnd.NoFrameNoMotion | my_diffbot_hardware_interface/src/my_diffbot_system.cpp:448-451 | until a frame has been parsed the odometry changes nothing |
| StopGrace.ZeroSentInGrace | my_diffbot_hardware_interface/src/my_diffbot_system.cpp:568-580 | a zero command is sent if and only if less than a second has passed since the last nonzero cycle, or since activation if there was none |
| StopGrace.GoQuietIsTransparent | my_diffbot_hardware_interface/src/my_diffbot_system.cpp:568-580 | for every run and timing: the last command sent after every cycle is the current one if and only if every stop is written less than a second after the motion (or activation) it ends |
| StopGrace.BriskIsTransparent | my_diffbot_hardware_interface/src/my_diffbot_system.cpp:568-580 | a write loop with cycles less than a second apart therefore never leaves the board with an old command |
| StopGrace.LateStopIsLost | my_diffbot_hardware_interface/src/my_diffbot_system.cpp:568-580 | a stop that comes a second or more after the motion is never sent, and the board's last command stays the motion as long as the command stays zero |
| StopGrace.LateStopExample | my_diffbot_hardware_interface/src/my_diffbot_system.cpp:568-580 | for example one cycle at 1 rad/s and a stop exactly one second later leave the board at 1 rad/s |
| Tuning.SendOnChangeIsCompact | my_diffbot_hardware_interface/src/my_diffbot_system.cpp:588-635 | over any run of writes, sending on change sends what sending the effective values every cycle sends, without the immediate repeats |
| Tuning.LastSentIsInForce | my_diffbot_hardware_interface/src/my_diffbot_system.cpp:593-635 | the values last sent are, one by one, the last finite command since activation or the seed, and the number of sends is one plus the number of changes |
| Tuning.ZeroingIsNoChange | my_diffbot_hardware_interface/src/my_diffbot_system.cpp:266-282 | after a deactivation that zeroed the interfaces and a new activation that seeded them, no write sends anything until a command is written |
| Tuning.ClampCastNearest | my_diffbot_hardware_interface/src/my_diffbot_system.cpp:45-54 | out of range the cast gives the closest value of the type, in range it is off by less than one, towards zero, and it keeps every integer of the type |
| Led.AlternateFlips | my_diffbot_hardware_interface/include/my_diffbot_hardware_interface/binary_protocol.hpp:215-235 | an alternating light shows its first colour in the first period, and from time zero on the other colour than one period before |
| Led.SentModes | my_diffbot_hardware_interface/include/my_diffbot_hardware_interface/binary_protocol.hpp:215-235 | mode 0 is sent as black and off; modes 1 to 3 are sent as solid, in the first colour or the other one of the mode |
| Led.CommandShown | my_diffbot_hardware_interface/src/my_diffbot_system.cpp:637-653 | the command interfaces set to alternate between two colours show the first in the first period and the second one period later |
| Led.ColourBytes | my_diffbot_hardware_interface/include/my_diffbot_hardware_interface/binary_protocol.hpp:232-234 | red, green and blue are the low three bytes of the colour, in this order; anything above is dropped |
| Led.LightIsCurrent | my_diffbot_hardware_interface/src/my_diffbot_system.cpp:637-664 | after every write that asks for a light the last frame sent since activation shows it and is less than a second old by that write's clock, or was sent in it |
| Led.RepeatsAreRefreshes | my_diffbot_hardware_interface/src/my_diffbot_system.cpp:654-663 | a frame equal to the one before it comes at least a second after it |
| HostOutput.BoardHoldsTuning | my_diffbot_hardware_interface/src/my_diffbot_system.cpp:588-635 | in any run of whole write cycles, the last gains on the wire, and the last timeout, are the casts of the values in force, and as many messages of the kind were sent as these changed |
| HostOutput.BoardHoldsWheels | my_diffbot_hardware_interface/src/my_diffbot_system.cpp:547-580 | among all the messages of whole write cycles, the last wheel command is the current one after every cycle if and only if no stop is late |
| HostOutput.BoardHoldsLight | my_diffbot_hardware_interface/src/my_diffbot_system.cpp:637-664 | among all the messages of whole write cycles, the last light is the one the commands resolve to, less than a second old |
| HostOutput.CycleOrder | my_diffbot_hardware_interface/src/my_diffbot_system.cpp:534-586 | a cycle appends at most one message of each kind to the log, in the order gains, timeout, light, wheels |
| HostMessages.BoardReadsLog | my_diffbot_hardware_interface/src/serial_transport.cpp:186-207 | a board that scans the written bytes in any pieces reads exactly the logged commands, in order and without an error: the id, the fields and, for handshakes, deactivate and reset, the time stamp of each |
| HostWriter.Writer.WriteTuning | my_diffbot_hardware_interface/src/my_diffbot_system.cpp:588-635 | gains then timeout: caches and log are those of the specification, whatever the acknowledgements say, and each that is sent is waited for up to 20 ms |
| HostWriter.Writer.WriteLed | my_diffbot_hardware_interface/src/my_diffbot_system.cpp:637-664 | cache, time of the last send and log are those of the specification |
| HostWriter.Writer.WriteWheelVelocity | my_diffbot_hardware_interface/src/my_diffbot_system.cpp:547-580 | time of the last motion and log are those of the specification |
| DiffbotSystem.DiffbotSystem.Read | my_diffbot_hardware_interface/src/my_diffbot_system.cpp:330-365 | a read cycle appends one look at all bytes taken, and the odometry stays what the looks since activation lead to |
| DiffbotSystem.DiffbotSystem.Write | my_diffbot_hardware_interface/src/my_diffbot_system.cpp:534-586 | a write cycle is tuning, light, wheels in this order; the receiver is left where the waits for what was sent lead; a closed port changes nothing |
| Bringup.HandshakeWithRetry | my_diffbot_hardware_interface/src/my_diffbot_system.cpp:61-75 | up to ten handshakes until one is answered: the result, the receiver and the messages sent are those of the specification |
| Bringup.RetryIsProgram | my_diffbot_hardware_interface/src/my_diffbot_system.cpp:61-75 | the attempts made are a program of waits of which only the last completes, and that exactly if they succeed |
| DiffbotSystem.DiffbotSystem.Activate | my_diffbot_hardware_interface/src/my_diffbot_system.cpp:217-286 | wheel commands follow the joint velocities; if the port opens, up to ten handshakes are sent; if one is answered, odometry and caches restart at the time given, configured gains and timeout are sent and waited for and the tuning interfaces set to them; if not, odometry and interfaces stay; positions stay in any case |
| DiffbotSystem.DiffbotSystem.Deactivate | my_diffbot_hardware_interface/src/my_diffbot_system.cpp:289-304 | interfaces are zeroed; on an open port exactly three messages are sent, a zero velocity, deactivate and reset, in this order and with the stamps given, and the last two are waited for; on a closed one none |
| DiffbotSystem.DiffbotSystem.BoardReadsFarewell | my_diffbot_hardware_interface/src/my_diffbot_system.cpp:298-300 | a board that scans the bytes on the wire after that, in any pieces, reads last id 0x01 with fields 0 and 0, id 0x08 and id 0x05 with their time stamps |
| DiffbotSystem.DiffbotSystem.PositionFollowsTicks | my_diffbot_hardware_interface/src/my_diffbot_system.cpp:509-520 | after any sequence of operations on the object each wheel's change of position since activation times `cpr` is 2 pi times the ticks between the seeding frame and the latest one |
| DiffbotSystem.DiffbotSystem.RevolutionsTurned | my_diffbot_hardware_interface/src/my_diffbot_system.cpp:509-520 | so `n` revolutions of ticks since then have moved the position by exactly 2 pi n |
| DiffbotSystem.DiffbotSystem.StaleReportsZero | my_diffbot_hardware_interface/src/my_diffbot_system.cpp:474-480 | after any sequence of operations stale feedback means zero velocities |
| DiffbotSystem.DiffbotSystem.BoardHoldsTuning | my_diffbot_hardware_interface/src/my_diffbot_system.cpp:588-635 | after any sequence of operations while active, a board that scans the bytes on the wire, in any pieces, goes by the casts of the gains and of the timeout in force |
| DiffbotSystem.DiffbotSystem.BoardHoldsVelocity | my_diffbot_hardware_interface/src/my_diffbot_system.cpp:547-580 | and, unless a stop came late, by the wheel command of the last write: it reads its whole thousandths of a revolution per second |
| DiffbotSystem.DiffbotSystem.NonzeroVelocityIsRecent | my_diffbot_hardware_interface/src/my_diffbot_system.cpp:464-520 | after any sequence of operations, from the look after the seeding one on, a nonzero velocity means that the last new frame came in within the last 0.5 s |
| DiffbotSystem.DiffbotSystem.NonzeroVelocityExactly | my_diffbot_hardware_interface/src/my_diffbot_system.cpp:448-520 | and exactly when that holds for any number of looks |
| DiffbotSystem.DiffbotSystem.BoardShowsLight | my_diffbot_hardware_interface/src/my_diffbot_system.cpp:637-664 | and, after a write whose led commands resolve, by that light, sent in that write or less than a second before it by its clock |
| BenchAbort.AtMostOneNonzero | scripts/bench/bench.py:361-419 | in every interleaving of the main thread and the ticks, at most one nonzero command is published after the abort is first set |
| BenchAbort.LateTicksAreSilent | scripts/bench/bench.py:361-419 | a tick that starts after the abort was set publishes zero, even if `set` has overwritten the command since |
| BenchAbort.AbortStays | scripts/bench/bench.py:361-451 | in every interleaving a set abort stays set in every state of the run if and only if there is no load of the final block that finds no reason, tick that trips after it, and store after that |
| BenchAbort.AbortCanBeLost | scripts/bench/bench.py:1016-1018 | that race exists: a tick that trips between load and store loses its abort and publishes the command it started with, whatever it is |
| BenchAbort.TripsAreSilent | scripts/bench/bench.py:361-439 | in every interleaving without that race a tick that tripped publishes zero |

## Left out

- Configuring the serial port, exceptions of the serial library, and logging: the device opens or
  not, may go away between operations, and stays as it is during one.
- Cleanup and shutdown, which close the port and empty the receive buffer and its counters; the
  records here run from the making of the object.
- The lifecycle, interface matching and parameter parsing of ros2_control: one left and one right
  joint, six gains, one timeout and one light, each gpio possibly missing.
- IMU frames, duty cycles, heartbeats and diagnostics: field copies and constant scalings.
- Copying the light commands back to state interfaces, and the introspection mirrors.
- Floating-point rounding: times, speeds and angles are reals, and pi is the double the code uses.
  A NaN or an infinity is a case of its own for gpio commands; wheel commands are finite, and
  `SetWheelVelocity` requires that they fit the 32-bit fields, as the cast is undefined otherwise.
- Wrap-around of 64-bit ticks and of counters: these are integers. Struct fields and the length byte
  do have their widths.
- A zero encoder resolution: the divisor `cpr` is assumed not to be zero.
- WheelOdometer.Odometer.ReadWheels: does not model the publication of the firmware speed and duty
  cycle, and its fields are an object of their own here instead of fields of the hardware interface.
- KestrelTransport.Kestrel.Read: does not model a read that throws halfway, in which case the bytes
  of that read are lost.
- Led.AlternateFlips: does not model times before zero, at which the truncating remainder is never 1
  and the first colour is held.
- The conditions under which a tick of the bench trips (geometry, obstacles, stalls): a tick may trip
  at any time and any number of times. The poses themselves (`compose`, `inverse`, `wrap`) are not
  part of this model.
- Overlapping ticks: the timer callback runs in one mutually exclusive group.
