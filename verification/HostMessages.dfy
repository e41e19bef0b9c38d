/** The commands of the control loop as messages on the wire. */
module HostMessages {
  import opened SeqFacts
  import opened Options
  import opened Crc
  import opened BinaryProtocol
  import opened StreamScanner
  import opened Wire
  import opened Commands
  import opened HostOutput
  import Led
  import StopGrace

  /** The message says `c` to a board that reads its struct. */
  ghost predicate Says(m: Message, c: Command) {
    match c
    case Gains(g) => m.id == 0x03 && Reads(m, PID_GAINS_LAYOUT, g)
    case Timeout(ms) => m.id == 0x04 && Reads(m, CMD_TIMEOUT_LAYOUT, [ms])
    case Light(led) => m.id == 0x36 && Reads(m, RGB_LED_LAYOUT, [led.red, led.green, led.blue, led.fwMode])
    case Wheels(v) => m.id == 0x01 && ReadsVelocity(m, v)
    case HandshakeAt(t) => Carries(m, 0x09, HANDSHAKE_LAYOUT, t, [1_000_000])
    case DeactivateAt(t) => Carries(m, 0x08, TIMESTAMP_LAYOUT, t, [])
    case ResetAt(t) => Carries(m, 0x05, TIMESTAMP_LAYOUT, t, [])
  }

  ghost predicate Reads(m: Message, layout: seq<Field>, fields: seq<int>)
    requires |layout| >= 2
  {
    |m.payload| == Size(layout) && Fields(layout, m) == fields
  }

  /** The fields are the whole thousandths of a revolution per second of either wheel. */
  ghost predicate ReadsVelocity(m: Message, v: StopGrace.Velocity) {
    && |m.payload| == Size(WHEEL_VELOCITY_LAYOUT)
    && Thousandths(Fields(WHEEL_VELOCITY_LAYOUT, m)[0], v.left)
    && Thousandths(Fields(WHEEL_VELOCITY_LAYOUT, m)[1], v.right)
  }

  lemma CarriedRead(m: Message, id: Byte, layout: seq<Field>, t: Timestamp, fields: seq<int>)
    requires |layout| >= 2 && Carries(m, id, layout, t, fields)
    ensures Reads(m, layout, fields)
  {
    assert ([t.sec, t.nsec] + fields)[2..] == fields;
  }

  /** The messages say the commands of the log, one by one. */
  ghost predicate Logged(sent: seq<Message>, log: seq<Command>) {
    |sent| == |log| && forall i {:trigger Says(sent[i], log[i])} :: 0 <= i < |log| ==> Says(sent[i], log[i])
  }

  lemma LoggedAppend(sent: seq<Message>, log: seq<Command>, m: Message, c: Command)
    requires Logged(sent, log) && Says(m, c)
    ensures Logged(sent + [m], log + [c])
  {
    forall i | 0 <= i < |log| + 1
      ensures Says((sent + [m])[i], (log + [c])[i])
    {
      if i < |log| {
        assert Says(sent[i], log[i]);
      }
    }
  }

  lemma SaysGains(gains: seq<int>, t: Timestamp)
    requires ValidStamp(t) && |gains| == 6 && forall i :: 0 <= i < 6 ==> Fits(I32, gains[i])
    ensures Says(PidGains(gains, t), Gains(gains))
  {
    PidGainsFields(gains, t);
    CarriedRead(PidGains(gains, t), 0x03, PID_GAINS_LAYOUT, t, gains);
  }

  lemma SaysTimeout(ms: int, t: Timestamp)
    requires ValidStamp(t) && Fits(U16, ms)
    ensures Says(CommandTimeout(ms, t), Timeout(ms))
  {
    CommandTimeoutFields(ms, t);
    CarriedRead(CommandTimeout(ms, t), 0x04, CMD_TIMEOUT_LAYOUT, t, [ms]);
  }

  lemma SaysLight(led: Led.Output, t: Timestamp)
    requires ValidStamp(t)
    requires Fits(U8, led.red) && Fits(U8, led.green) && Fits(U8, led.blue) && Fits(U8, led.fwMode)
    ensures Says(RgbLed(led.red, led.green, led.blue, led.fwMode, t), Light(led))
  {
    RgbLedFields(led.red, led.green, led.blue, led.fwMode, t);
    CarriedRead(RgbLed(led.red, led.green, led.blue, led.fwMode, t), 0x36, RGB_LED_LAYOUT, t,
                [led.red, led.green, led.blue, led.fwMode]);
  }

  lemma SaysWheels(v: StopGrace.Velocity, t: Timestamp)
    requires ValidStamp(t) && Representable(v.left) && Representable(v.right)
    ensures Says(WheelVelocity(v.left, v.right, t), Wheels(v))
  {
    WheelVelocityFields(v.left, v.right, t);
    CarriedRead(WheelVelocity(v.left, v.right, t), 0x01, WHEEL_VELOCITY_LAYOUT, t, [ToMrps(v.left), ToMrps(v.right)]);
  }

  // ---------- handshakes and the end of a session ----------

  /** The commands of these handshakes. */
  function HandshakesAt(stamps: seq<Timestamp>): (cs: seq<Command>)
    ensures |cs| == |stamps|
  {
    seq(|stamps|, i requires 0 <= i < |stamps| => HandshakeAt(stamps[i]))
  }

  lemma LoggedHandshakes(sent: seq<Message>, log: seq<Command>, ms: seq<Message>, stamps: seq<Timestamp>)
    requires Logged(sent, log) && |ms| == |stamps|
    requires forall i :: 0 <= i < |ms| ==> ValidStamp(stamps[i]) && ms[i] == HandshakeMessage(stamps[i])
    ensures Logged(sent + ms, log + HandshakesAt(stamps))
  {
    forall i | 0 <= i < |log| + |ms|
      ensures Says((sent + ms)[i], (log + HandshakesAt(stamps))[i])
    {
      if i < |log| {
        assert Says(sent[i], log[i]);
      } else {
        HandshakeFields(stamps[i - |log|]);
      }
    }
  }

  /** What a deactivation leaves at the end of the log. */
  function Farewell(deactivate: Timestamp, reset: Timestamp): seq<Command> {
    [Wheels(StopGrace.ZERO)] + [DeactivateAt(deactivate)] + [ResetAt(reset)]
  }

  /** These three messages are a stop of both wheels, a deactivate and a reset, with these stamps. */
  ghost predicate SaysFarewell(a: Message, b: Message, c: Message, deactivate: Timestamp, reset: Timestamp) {
    && a.id == 0x01 && Reads(a, WHEEL_VELOCITY_LAYOUT, [0, 0])
    && Carries(b, 0x08, TIMESTAMP_LAYOUT, deactivate, [])
    && Carries(c, 0x05, TIMESTAMP_LAYOUT, reset, [])
  }

  /** A board that scans the bytes after a deactivation, in whatever pieces, ends on a stop, a
      deactivate and a reset. */
  lemma FarewellRead(
    sent: seq<Message>, before: seq<Command>, chunks: seq<seq<Byte>>, deactivate: Timestamp, reset: Timestamp)
    requires AllShort(sent) && Logged(sent, before + Farewell(deactivate, reset)) && Concat(chunks) == FramesOf(sent)
    ensures var p, n := ParseChunks([], chunks), |before|;
      && p.errors == 0 && |p.messages| == n + 3
      && SaysFarewell(p.messages[n], p.messages[n + 1], p.messages[n + 2], deactivate, reset)
  {
    var log, n := before + Farewell(deactivate, reset), |before|;
    BoardReadsLog(sent, log, chunks);
    var ms := ParseChunks([], chunks).messages;
    assert Says(ms[n], log[n]) && Says(ms[n + 1], log[n + 1]) && Says(ms[n + 2], log[n + 2]);
    StopRead(ms[n]);
  }

  lemma StopRead(m: Message)
    requires ReadsVelocity(m, StopGrace.ZERO)
    ensures Reads(m, WHEEL_VELOCITY_LAYOUT, [0, 0])
  {
    var fields := Fields(WHEEL_VELOCITY_LAYOUT, m);
    ToMrpsThousandths(0.0);
    ThousandthsUnique(fields[0], 0, 0.0);
    ThousandthsUnique(fields[1], 0, 0.0);
    assert fields == [fields[0], fields[1]];
  }

  // ---------- the last message of a kind ----------

  function LastMessage(ms: seq<Message>, id: Byte): Option<Message> {
    if ms == [] then None
    else if ms[|ms| - 1].id == id then Some(ms[|ms| - 1])
    else LastMessage(ms[..|ms| - 1], id)
  }

  /** The id of the messages of a kind; `OTHER` has many. */
  function IdOf(kind: Kind): Byte
    requires kind != OTHER
  {
    match kind
    case GAINS => 0x03
    case TIMEOUT => 0x04
    case LIGHT => 0x36
    case WHEELS => 0x01
  }

  lemma SaysKind(m: Message, c: Command, kind: Kind)
    requires Says(m, c) && kind != OTHER
    ensures m.id == IdOf(kind) <==> KindOf(c) == kind
  {
  }

  lemma LoggedPrefix(sent: seq<Message>, log: seq<Command>)
    requires Logged(sent, log) && log != []
    ensures var n := |log| - 1; Logged(sent[..n], log[..n]) && Says(sent[n], log[n])
  {
    var n := |log| - 1;
    assert Says(sent[n], log[n]);
    forall i | 0 <= i < n
      ensures Says(sent[..n][i], log[..n][i])
    {
      assert Says(sent[i], log[i]);
    }
  }

  /** The last message of a kind says the last command of that kind. */
  lemma {:induction false} LastSays(sent: seq<Message>, log: seq<Command>, kind: Kind, c: Command)
    requires Logged(sent, log) && kind != OTHER && LastOf(log, kind) == Some(c)
    ensures LastMessage(sent, IdOf(kind)).Some? && Says(LastMessage(sent, IdOf(kind)).value, c)
  {
    var n := |log| - 1;
    LoggedPrefix(sent, log);
    SaysKind(sent[n], log[n], kind);
    if KindOf(log[n]) != kind {
      LastSays(sent[..n], log[..n], kind, c);
    }
  }

  /** A board that scans the bytes, in these pieces, sees no error and goes by this command of the
      kind. */
  ghost predicate BoardGoesBy(chunks: seq<seq<Byte>>, kind: Kind, c: Command)
    requires kind != OTHER
  {
    var p := ParseChunks([], chunks);
    p.errors == 0 && LastMessage(p.messages, IdOf(kind)).Some? && Says(LastMessage(p.messages, IdOf(kind)).value, c)
  }

  lemma BoardGoesByLog(
    sent: seq<Message>, log: seq<Command>, chunks: seq<seq<Byte>>, kind: Kind, c: Command)
    requires AllShort(sent) && Logged(sent, log) && Concat(chunks) == FramesOf(sent)
    requires kind != OTHER && LastOf(log, kind) == Some(c)
    ensures BoardGoesBy(chunks, kind, c)
  {
    BoardReadsLog(sent, log, chunks);
    LastSays(ParseChunks([], chunks).messages, log, kind, c);
  }

  /** A board that scans the bytes on the wire, in whatever pieces they arrive, reads exactly the
      commands of the log, in order and without an error. */
  lemma BoardReadsLog(sent: seq<Message>, log: seq<Command>, chunks: seq<seq<Byte>>)
    requires AllShort(sent) && Logged(sent, log) && Concat(chunks) == FramesOf(sent)
    ensures var p := ParseChunks([], chunks); p.errors == 0 && p.residual == [] && Logged(p.messages, log)
  {
    ChunksAreOneStream([], chunks);
    Join(Concat(chunks), [], []);
    SentIsReceived(sent);
  }
}
