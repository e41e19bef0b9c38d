/** The Kestrel serial transport: the driver object with its receive buffer, counters, latch and
    parsed feedback, proved to compute the receiver's specification. */
module KestrelTransport {
  import opened Crc
  import opened BinaryProtocol
  import opened StreamScanner
  import opened Wire
  import opened AckLatch
  import opened Commands
  import WheelFeedback
  import Receiver
  import ReceiverRuns

  const CHUNK_BYTES := 256

  /** The serial device: whether it is open, and everything written to it and read from it. */
  class SerialPort {
    var isOpen: bool
    var tx: seq<Byte>
    ghost var sent: seq<Message>
    /** Every byte read from the port. */
    ghost var taken: seq<Byte>

    /** The port has carried exactly the frames of the sent messages. */
    ghost predicate Valid()
      reads this
    {
      AllShort(sent) && tx == FramesOf(sent)
    }

    constructor ()
      ensures Valid() && !isOpen && sent == [] && taken == []
    {
      isOpen, tx, sent, taken := false, [], [], [];
    }
  }

  /** What surrounds one acknowledged command: its time stamp, the clock when the wait starts, and
      what each turn of the wait sees. */
  datatype Wait = Wait(stamp: Timestamp, start: int, polls: seq<Receiver.Poll>)

  /** The time stamp is one the clock can give, and the clock reaches the deadline. */
  ghost predicate Sound(w: Wait, timeoutMs: nat) {
    ValidStamp(w.stamp) && w.polls != [] && w.polls[|w.polls| - 1].now >= w.start + timeoutMs
  }

  class Kestrel {
    const port: SerialPort
    const rx: ByteBuffer
    var receivedMessageCount: nat
    var crcErrorCount: nat
    var ackReceived: bool
    var pendingAckMsgId: Byte
    var pendingAckStatus: Byte
    var firmwareVersion: Byte
    var leftEncoderTicks: int
    var rightEncoderTicks: int
    var wheelFeedbackCount: nat
    var wheelFeedbackStampSec: real
    var leftWheelFwMrps: real
    var rightWheelFwMrps: real
    var leftWheelDir: int
    var rightWheelDir: int

    /** GetWheelFeedbackSnapshot, with the directions. */
    function Feedback(): WheelFeedback.Feedback
      reads this
    {
      WheelFeedback.Feedback(
        wheelFeedbackCount, leftEncoderTicks, rightEncoderTicks, leftWheelDir, rightWheelDir,
        leftWheelFwMrps, rightWheelFwMrps, wheelFeedbackStampSec)
    }

    function State(): Receiver.State
      reads this, rx
    {
      Receiver.State(
        rx.bytes, receivedMessageCount, crcErrorCount,
        LatchState(), firmwareVersion, Feedback())
    }

    /** Between reads the buffer holds at most an unfinished frame. */
    ghost predicate Idle()
      reads rx, port
    {
      Settled(rx.bytes) && port.Valid()
    }

    /** The receiver is where one scan of every byte read leads. */
    ghost predicate Valid()
      reads this, rx, port
    {
      Idle() && ReceiverRuns.Scanned(State(), port.taken)
    }

    constructor ()
      ensures Valid() && fresh(rx) && fresh(port) && !port.isOpen && port.sent == []
      ensures State() == Receiver.INITIAL && port.taken == []
    {
      port := new SerialPort();
      rx := new ByteBuffer();
      receivedMessageCount, crcErrorCount := 0, 0;
      ackReceived, pendingAckMsgId, pendingAckStatus, firmwareVersion := false, 0, STATUS_UNKNOWN, 0;
      leftEncoderTicks, rightEncoderTicks, wheelFeedbackCount, wheelFeedbackStampSec := 0, 0, 0, 0.0;
      leftWheelFwMrps, rightWheelFwMrps, leftWheelDir, rightWheelDir := 0.0, 0.0, 1, 1;
    }

    /** `opens` says whether the device opens; a port that is open already stays so. */
    method Connect(opens: bool) returns (ok: bool)
      modifies port`isOpen
      ensures ok == port.isOpen && port.isOpen == (old(port.isOpen) || opens)
    {
      if !port.isOpen {
        port.isOpen := opens;
      }
      ok := port.isOpen;
    }

    // ---------- receiving ----------

    /** The wheel feedback case of the message hook; the other cases touch none of these fields. */
    method OnMessageReceived(msgId: Byte, payload: seq<Byte>)
      modifies this`leftEncoderTicks, this`rightEncoderTicks, this`wheelFeedbackCount, this`wheelFeedbackStampSec,
        this`leftWheelFwMrps, this`rightWheelFwMrps, this`leftWheelDir, this`rightWheelDir
      ensures Feedback() == WheelFeedback.OnMessage(old(Feedback()), Message(msgId, payload))
    {
      if msgId != WHEEL_FEEDBACK || |payload| < 32 {
        return;
      }
      var p := WheelFeedback.Decode(Message(msgId, payload));
      if p.leftTicks != leftEncoderTicks {
        leftWheelDir := if p.leftTicks > leftEncoderTicks then 1 else -1;
      }
      if p.rightTicks != rightEncoderTicks {
        rightWheelDir := if p.rightTicks > rightEncoderTicks then 1 else -1;
      }
      leftWheelFwMrps := leftWheelDir as real * p.leftMrps as real;
      rightWheelFwMrps := rightWheelDir as real * p.rightMrps as real;
      leftEncoderTicks := p.leftTicks;
      rightEncoderTicks := p.rightTicks;
      wheelFeedbackStampSec := WheelFeedback.Stamp(p);
      wheelFeedbackCount := wheelFeedbackCount + 1;
    }

    function LatchState(): Latch
      reads this
    {
      Latch(ackReceived, pendingAckMsgId, pendingAckStatus)
    }

    method InterceptAck(msgId: Byte, payload: seq<Byte>)
      modifies this`pendingAckMsgId, this`pendingAckStatus, this`ackReceived
      ensures LatchState() == OnAck(old(LatchState()), Message(msgId, payload))
    {
      if msgId == ACK && |payload| >= 10 {
        pendingAckMsgId := payload[8];
        pendingAckStatus := payload[9];
        ackReceived := true;
      }
    }

    method DispatchFrame(msgId: Byte, payload: seq<Byte>)
      modifies this
      ensures State() == Receiver.Dispatch(old(State()), Message(msgId, payload))
    {
      ghost var s := State();
      receivedMessageCount := receivedMessageCount + 1;
      InterceptAck(msgId, payload);
      assert State() == s.(received := s.received + 1, latch := OnAck(s.latch, Message(msgId, payload)));
      OnMessageReceived(msgId, payload);
    }

    /** Acts on the result of one extraction; another may follow a frame or a CRC error. */
    method Conclude(result: ExtractResult, msgId: Byte, payload: seq<Byte>) returns (more: bool)
      modifies this
      ensures more <==> result == OK || result == CRC_MISMATCH
      ensures var s := old(State());
        State() == if result == OK then Receiver.Dispatch(s, Message(msgId, payload))
                   else if result == CRC_MISMATCH then s.(errors := s.errors + 1) else s
    {
      if result == OK {
        DispatchFrame(msgId, payload);
      } else if result == CRC_MISMATCH {
        crcErrorCount := crcErrorCount + 1;
      }
      more := result == OK || result == CRC_MISMATCH;
    }

    /** One turn of the extraction loop. */
    method ExtractNext() returns (more: bool)
      modifies this, rx
      ensures State() == Receiver.Turn(old(State()), Message(0, []))
      ensures more == Receiver.Continues(old(State()), Message(0, []))
    {
      var result, msgId, payload := ExtractFrame(rx, 0, []);
      more := Conclude(result, msgId, payload);
    }

    /** Dispatches every complete frame in the buffer. Each turn of the loop removes at least one
        byte, so it ends. */
    method ExtractFrames()
      modifies this, rx
      ensures State() == Receiver.Drain(old(State()))
    {
      while true
        invariant Receiver.Drain(State()) == Receiver.Drain(old(State()))
        decreases |rx.bytes|
      {
        Receiver.DrainTurn(State(), Message(0, []));
        var more := ExtractNext();
        if !more {
          break;
        }
      }
    }

    /** Appends one chunk to the buffer and extracts. The buffer stays below its limit: at most 259
        bytes are left over from before and at most 256 are new. */
    method FeedChunk(chunk: seq<Byte>)
      requires Idle() && |chunk| <= CHUNK_BYTES
      modifies this, rx
      ensures Idle() && State() == Receiver.Deliver(old(State()), chunk)
    {
      ghost var before := State();
      SettledBound(rx.bytes);
      rx.bytes := rx.bytes + chunk;
      assert |rx.bytes| <= 515;
      Receiver.ApplyIgnoresResidual(before, rx.bytes, Parse(rx.bytes));
      Receiver.DeliverAppend(before, chunk, []);
      ExtractFrames();
    }

    /** Feeds `raw` in chunks. However large it is, the outcome is that of one scan over it, and the
        overflow guard is never hit. */
    method FeedChunks(raw: seq<Byte>)
      requires Idle()
      modifies this, rx
      ensures Idle() && State() == Receiver.Deliver(old(State()), raw)
    {
      ghost var before := State();
      Receiver.DeliverNothing(before);
      var offset := 0;
      while offset < |raw|
        invariant 0 <= offset <= |raw| && Idle()
        invariant State() == Receiver.Deliver(before, raw[..offset])
      {
        var end := if |raw| < offset + CHUNK_BYTES then |raw| else offset + CHUNK_BYTES;
        FeedChunk(raw[offset..end]);
        Receiver.DeliverChunk(before, raw, offset, end, State());
        offset := end;
      }
      assert raw[..offset] == raw;
    }

    /** The body of a read: `raw` is what the port returns for the bytes reported as available. */
    method Receive(raw: seq<Byte>)
      requires Idle()
      modifies this, rx
      ensures Idle()
      ensures State() == if port.isOpen then Receiver.Deliver(old(State()), raw) else old(State())
    {
      if !port.isOpen {
        return;
      }
      if raw == [] {
        Receiver.DeliverNothing(State());
        return;
      }
      FeedChunks(raw);
    }

    /** A read, with the record of the bytes read. */
    method Read(raw: seq<Byte>)
      requires Valid()
      modifies this, rx, port`taken
      ensures Valid()
      ensures State() == if port.isOpen then Receiver.Deliver(old(State()), raw) else old(State())
      ensures port.taken == if port.isOpen then old(port.taken) + raw else old(port.taken)
    {
      ghost var before := State();
      Receive(raw);
      if port.isOpen {
        ReceiverRuns.DeliverScanned(before, port.taken, raw);
        Record(port.taken + raw);
      }
    }

    // ---------- sending ----------

    method WriteCommand(msgId: Byte, payload: seq<Byte>) returns (ok: bool)
      requires port.Valid()
      modifies port
      ensures port.Valid() && port.isOpen == old(port.isOpen) && port.taken == old(port.taken)
      ensures ok <==> port.isOpen
      ensures port.sent == if ok then old(port.sent) + [Message(msgId, payload[..|payload| % 256])] else old(port.sent)
    {
      if !port.isOpen {
        return false;
      }
      var frame := BuildFrame(msgId, payload);
      ghost var m := Message(msgId, payload[..|payload| % 256]);
      assert (port.sent + [m])[..|port.sent|] == port.sent;
      port.tx := port.tx + frame;
      port.sent := port.sent + [m];
      return true;
    }

    method WriteMessage(m: Message) returns (ok: bool)
      requires port.Valid() && |m.payload| <= MAX_PAYLOAD
      modifies port
      ensures port.Valid() && port.isOpen == old(port.isOpen) && port.taken == old(port.taken)
      ensures ok <==> port.isOpen
      ensures port.sent == if ok then old(port.sent) + [m] else old(port.sent)
    {
      assert m.payload[..|m.payload|] == m.payload;
      ok := WriteCommand(m.id, m.payload);
    }

    method SetWheelVelocity(leftRadS: real, rightRadS: real, t: Timestamp) returns (status: Byte)
      requires port.Valid() && ValidStamp(t) && Representable(leftRadS) && Representable(rightRadS)
      modifies port
      ensures port.Valid() && port.isOpen == old(port.isOpen) && port.taken == old(port.taken)
      ensures port.sent == if port.isOpen then old(port.sent) + [WheelVelocity(leftRadS, rightRadS, t)] else old(port.sent)
      ensures status == if port.isOpen then 0x00 else 0x02
    {
      CommandsAreShort();
      var ok := WriteMessage(WheelVelocity(leftRadS, rightRadS, t));
      status := if ok then STATUS_OK else STATUS_COMMAND_FAILED;
    }

    method SetRGBLED(red: int, green: int, blue: int, mode: int, t: Timestamp) returns (status: Byte)
      requires port.Valid() && ValidStamp(t)
      requires Fits(U8, red) && Fits(U8, green) && Fits(U8, blue) && Fits(U8, mode)
      modifies port
      ensures port.Valid() && port.isOpen == old(port.isOpen) && port.taken == old(port.taken)
      ensures port.sent == if port.isOpen then old(port.sent) + [RgbLed(red, green, blue, mode, t)] else old(port.sent)
      ensures status == if port.isOpen then 0x00 else 0x02
    {
      CommandsAreShort();
      var ok := WriteMessage(RgbLed(red, green, blue, mode, t));
      status := if ok then STATUS_OK else STATUS_COMMAND_FAILED;
    }

    // ---------- acknowledged commands ----------

    /** Consumes the latched acknowledgement. */
    method TakeAck(expectedMsgId: Byte) returns (status: Byte)
      modifies this
      ensures status == Returned(old(LatchState()), expectedMsgId)
      ensures State() == Receiver.Consume(old(State()), expectedMsgId)
    {
      ackReceived := false;
      if expectedMsgId == HANDSHAKE {
        firmwareVersion := pendingAckStatus;
        pendingAckStatus := STATUS_OK;
      }
      status := pendingAckStatus;
    }

    /** Polls until an acknowledgement of the awaited command is latched or the deadline passes.
        `start` is the clock on entry; each poll gives the clock at the loop test and what the port
        has for the read in that turn. The latch is not cleared on entry. */
    method WaitForAck(expectedMsgId: Byte, w: Wait, timeoutMs: nat) returns (status: Byte)
      requires Idle()
      requires Sound(w, timeoutMs)
      modifies this, rx
      ensures Idle()
      ensures var a := Receiver.Await(old(State()), expectedMsgId, w.start + timeoutMs, Receiver.Heard(port.isOpen, w.polls));
        status == a.status && State() == a.state
    {
      var deadline := w.start + timeoutMs;
      var heard := Receiver.Heard(port.isOpen, w.polls);
      ghost var a := Receiver.Await(State(), expectedMsgId, deadline, heard);
      var i := 0;
      assert heard[0..] == heard;
      while heard[i].now < deadline
        invariant Idle() && Receiver.Waiting(State(), expectedMsgId, deadline, heard, i, a)
        decreases |heard| - i
      {
        ghost var s := State();
        var done;
        done, status := PollOnce(expectedMsgId, heard[i].bytes);
        Receiver.AwaitTurn(s, expectedMsgId, deadline, heard, i, a, done, status, State());
        if done {
          return;
        }
        i := i + 1;
      }
      Receiver.AwaitEnd(State(), expectedMsgId, deadline, heard, i, a);
      return STATUS_TIMEOUT;
    }

    /** One read, and a look at the latch. */
    method PollOnce(expectedMsgId: Byte, raw: seq<Byte>) returns (done: bool, status: Byte)
      requires Idle() && (port.isOpen || raw == [])
      modifies this, rx
      ensures Idle()
      ensures Receiver.Polled(old(State()), expectedMsgId, raw, done, status, State())
    {
      Receiver.DeliverNothing(State());
      Receive(raw);
      done := ackReceived && pendingAckMsgId == expectedMsgId;
      status := STATUS_TIMEOUT;
      if done {
        status := TakeAck(expectedMsgId);
      }
    }

    /** Sends one message and waits for its acknowledgement. */
    method SendAndWait(m: Message, w: Wait, timeoutMs: nat) returns (status: Byte)
      requires Idle() && |m.payload| <= MAX_PAYLOAD
      requires Sound(w, timeoutMs)
      modifies this, rx, port
      ensures Idle() && port.isOpen == old(port.isOpen) && port.taken == old(port.taken)
      ensures port.sent == if port.isOpen then old(port.sent) + [m] else old(port.sent)
      ensures var a := ReceiverRuns.AfterCommand(old(State()), port.isOpen, m.id, w.start + timeoutMs, w.polls);
        status == a.status && State() == a.state
    {
      var ok := WriteMessage(m);
      if !ok {
        return STATUS_COMMAND_FAILED;
      }
      status := WaitForAck(m.id, w, timeoutMs);
    }

    /** The same, with the record of the bytes read. */
    method Command(m: Message, w: Wait, timeoutMs: nat) returns (status: Byte)
      requires Valid() && |m.payload| <= MAX_PAYLOAD
      requires Sound(w, timeoutMs)
      modifies this, rx, port
      ensures Valid() && port.isOpen == old(port.isOpen) && old(port.taken) <= port.taken
      ensures port.sent == if port.isOpen then old(port.sent) + [m] else old(port.sent)
      ensures var a := ReceiverRuns.AfterCommand(old(State()), port.isOpen, m.id, w.start + timeoutMs, w.polls);
        status == a.status && State() == a.state
    {
      ghost var before := State();
      status := SendAndWait(m, w, timeoutMs);
      ghost var all := ReceiverRuns.CommandScanned(
        before, State(), port.isOpen, m.id, w.start + timeoutMs, w.polls, port.taken);
      Record(all);
    }

    /** The bytes read so far are `all`. */
    ghost method Record(all: seq<Byte>)
      requires Idle() && ReceiverRuns.Scanned(State(), all)
      modifies port`taken
      ensures Valid() && port.taken == all
    {
      port.taken := all;
    }

    method SetPIDGains(gains: seq<int>, w: Wait, timeoutMs: nat)
      returns (status: Byte)
      requires Valid() && |gains| == 6 && forall i :: 0 <= i < 6 ==> Fits(I32, gains[i])
      requires Sound(w, timeoutMs)
      modifies this, rx, port
      ensures Valid() && port.isOpen == old(port.isOpen) && old(port.taken) <= port.taken
      ensures port.sent == if port.isOpen then old(port.sent) + [PidGains(gains, w.stamp)] else old(port.sent)
      ensures var a := ReceiverRuns.AfterCommand(old(State()), port.isOpen, SET_PID_GAINS, w.start + timeoutMs, w.polls);
        status == a.status && State() == a.state
    {
      CommandsAreShort();
      status := Command(PidGains(gains, w.stamp), w, timeoutMs);
    }

    method SetCommandTimeout(commandTimeoutMs: int, w: Wait, timeoutMs: nat)
      returns (status: Byte)
      requires Valid() && Fits(U16, commandTimeoutMs)
      requires Sound(w, timeoutMs)
      modifies this, rx, port
      ensures Valid() && port.isOpen == old(port.isOpen) && old(port.taken) <= port.taken
      ensures port.sent == if port.isOpen then old(port.sent) + [CommandTimeout(commandTimeoutMs, w.stamp)] else old(port.sent)
      ensures var a := ReceiverRuns.AfterCommand(old(State()), port.isOpen, SET_CMD_TIMEOUT, w.start + timeoutMs, w.polls);
        status == a.status && State() == a.state
    {
      CommandsAreShort();
      status := Command(CommandTimeout(commandTimeoutMs, w.stamp), w, timeoutMs);
    }

    method Handshake(w: Wait, timeoutMs: nat) returns (status: Byte)
      requires Valid()
      requires Sound(w, timeoutMs)
      modifies this, rx, port
      ensures Valid() && port.isOpen == old(port.isOpen) && old(port.taken) <= port.taken
      ensures port.sent == if port.isOpen then old(port.sent) + [HandshakeMessage(w.stamp)] else old(port.sent)
      ensures var a := ReceiverRuns.AfterCommand(old(State()), port.isOpen, HANDSHAKE, w.start + timeoutMs, w.polls);
        status == a.status && State() == a.state
    {
      CommandsAreShort();
      status := Command(HandshakeMessage(w.stamp), w, timeoutMs);
    }

    /** Deactivate and reset. */
    method SendTimestampCommand(id: Byte, w: Wait, timeoutMs: nat)
      returns (status: Byte)
      requires Valid()
      requires Sound(w, timeoutMs)
      modifies this, rx, port
      ensures Valid() && port.isOpen == old(port.isOpen) && old(port.taken) <= port.taken
      ensures port.sent == if port.isOpen then old(port.sent) + [TimestampOnly(id, w.stamp)] else old(port.sent)
      ensures var a := ReceiverRuns.AfterCommand(old(State()), port.isOpen, id, w.start + timeoutMs, w.polls);
        status == a.status && State() == a.state
    {
      CommandsAreShort();
      status := Command(TimestampOnly(id, w.stamp), w, timeoutMs);
    }
  }
}
