/** From bytes on the wire to joint positions: the odometry of every control cycle is a function of
    the bytes taken from the port by then. */
module EndToEnd {
  import opened SeqFacts
  import opened Crc
  import opened BinaryProtocol
  import opened StreamScanner
  import opened Wire
  import opened WheelFeedback
  import opened Odometry
  import Commands

  // ---------- control cycles ----------

  /** The snapshot of a receiver that has taken these bytes, in whatever pieces. */
  function SnapshotOf(stream: seq<Byte>): Feedback {
    OnMessages(WheelFeedback.INITIAL, Parse(stream).messages)
  }

  /** One control cycle: every byte taken from the port by then, and the host time. */
  datatype Look = Look(stream: seq<Byte>, now: real)

  /** Each cycle has taken the bytes of the one before and possibly more. */
  ghost predicate Growing(looks: seq<Look>) {
    forall i :: 0 < i < |looks| ==> looks[i - 1].stream <= looks[i].stream
  }

  /** The cycles the odometry runs through. */
  function Cycles(looks: seq<Look>): (cycles: seq<Cycle>)
    ensures |cycles| == |looks|
  {
    seq(|looks|, i requires 0 <= i < |looks| => Cycle(SnapshotOf(looks[i].stream), looks[i].now))
  }

  lemma {:induction false} MessagesFollow(f: Feedback, ms: seq<Message>)
    ensures Follows(f, OnMessages(f, ms))
    decreases ms
  {
    if ms != [] {
      MessagesFollow(OnMessage(f, ms[0]), ms[1..]);
    }
  }

  /** More bytes can only bring more frames. */
  lemma SnapshotsFollow(x: seq<Byte>, y: seq<Byte>)
    requires x <= y
    ensures Follows(SnapshotOf(x), SnapshotOf(y))
  {
    var z := y[|x|..];
    var ms := Parse(Parse(x).residual + z).messages;
    assert y == x + z;
    ParseAppend(x, z);
    OnMessagesAppend(WheelFeedback.INITIAL, Parse(x).messages, ms);
    MessagesFollow(SnapshotOf(x), ms);
  }

  /** So the snapshots of successive cycles are consistent: everything that holds of consistent runs
      of the odometry holds of a run over any bytes. */
  lemma CyclesConsistent(looks: seq<Look>)
    requires Growing(looks)
    ensures Consistent(Cycles(looks))
  {
    forall i | 0 < i < |looks|
      ensures Follows(Cycles(looks)[i - 1].feedback, Cycles(looks)[i].feedback)
    {
      SnapshotsFollow(looks[i - 1].stream, looks[i].stream);
    }
  }

  // ---------- positions ----------

  /** The wheel feedback frames among the bytes. */
  function FramesIn(stream: seq<Byte>): seq<WheelFeedback.Frame> {
    Frames(Parse(stream).messages)
  }

  function LatestFrame(stream: seq<Byte>): WheelFeedback.Frame
    requires FramesIn(stream) != []
  {
    FramesIn(stream)[|FramesIn(stream)| - 1]
  }

  lemma SnapshotIsLatestFrame(stream: seq<Byte>, side: Side)
    ensures SnapshotOf(stream).count == |FramesIn(stream)|
    ensures FramesIn(stream) != [] ==> SnapshotOf(stream).Ticks(side) == LatestFrame(stream).Ticks(side)
  {
    DirectionRecovered(Parse(stream).messages, side);
  }

  /** Cycle `k` is the first by which a frame has been parsed, counting those from before the
      activation. */
  ghost predicate Seeds(looks: seq<Look>, k: nat)
    requires k < |looks|
  {
    && FramesIn(looks[k].stream) != []
    && forall i :: 0 <= i < k ==> FramesIn(looks[i].stream) == []
  }

  lemma EndTicks(looks: seq<Look>, side: Side, k: nat)
    requires Growing(looks) && k < |looks| && Seeds(looks, k)
    ensures Consistent(Cycles(looks)) && SeedIndex(Cycles(looks)) == k
    ensures SeedTicks(Cycles(looks), side) == LatestFrame(looks[k].stream).Ticks(side)
    ensures FramesIn(looks[|looks| - 1].stream) != []
    ensures LatestTicks(Cycles(looks), side) == LatestFrame(looks[|looks| - 1].stream).Ticks(side)
  {
    CyclesConsistent(looks);
    forall i | 0 <= i < |looks|
      ensures Cycles(looks)[i].feedback.count == |FramesIn(looks[i].stream)|
    {
      SnapshotIsLatestFrame(looks[i].stream, side);
    }
    SnapshotIsLatestFrame(looks[k].stream, side);
    SnapshotIsLatestFrame(looks[|looks| - 1].stream, side);
    CountsStayPositive(Cycles(looks), k, |looks| - 1);
  }

  /** Bytes to odometry: over any bytes, however they arrived, each wheel has moved by exactly the
      ticks between the frame that seeded the activation and the latest frame parsed, whatever the
      clock did and whatever windows were stale, resumed, restarted or closed. */
  lemma BytesToPosition(looks: seq<Look>, o: Odom, cpr: real, side: Side, k: nat)
    requires Growing(looks) && Fresh(o) && cpr != 0.0 && k < |looks| && Seeds(looks, k)
    ensures FramesIn(looks[|looks| - 1].stream) != []
    ensures Travelled(o.Of(side), Run(o, Cycles(looks), cpr).Of(side),
                      LatestFrame(looks[k].stream).Ticks(side), LatestFrame(looks[|looks| - 1].stream).Ticks(side), cpr)
  {
    EndTicks(looks, side, k);
    TravelledBetween(o, Cycles(looks), cpr, side, LatestFrame(looks[k].stream).Ticks(side),
                     LatestFrame(looks[|looks| - 1].stream).Ticks(side));
  }

  /** With `c` counts to a revolution, a wheel whose ticks advanced by `n` revolutions since the
      seeding frame has turned by `n` times two pi. */
  lemma BytesToRevolutions(looks: seq<Look>, o: Odom, side: Side, k: nat, c: int, n: int)
    requires Growing(looks) && Fresh(o) && c != 0 && k < |looks| && Seeds(looks, k)
    requires FramesIn(looks[|looks| - 1].stream) != []
    requires LatestFrame(looks[|looks| - 1].stream).Ticks(side) == LatestFrame(looks[k].stream).Ticks(side) + n * c
    ensures Run(o, Cycles(looks), c as real).Of(side).position == o.Of(side).position + 2.0 * Commands.PI * n as real
  {
    BytesToPosition(looks, o, c as real, side, k);
    WholeRevolutions(o.Of(side), Run(o, Cycles(looks), c as real).Of(side), LatestFrame(looks[k].stream).Ticks(side),
                     LatestFrame(looks[|looks| - 1].stream).Ticks(side), c as real, c, n);
  }

  /** Before any frame has been parsed the odometry does nothing at all. */
  lemma NoFrameNoMotion(looks: seq<Look>, o: Odom, cpr: real)
    requires cpr != 0.0 && forall i :: 0 <= i < |looks| ==> FramesIn(looks[i].stream) == []
    ensures Run(o, Cycles(looks), cpr) == o
  {
    forall i | 0 <= i < |looks|
      ensures Cycles(looks)[i].feedback.count == 0
    {
      SnapshotIsLatestFrame(looks[i].stream, Left);
    }
    BeforeSeed(o, Cycles(looks), cpr);
  }

  /** Whatever arrives, and whenever: while the feedback is stale the reported velocities are zero. */
  lemma BytesStaleMeansZero(looks: seq<Look>, o: Odom, cpr: real)
    requires Growing(looks) && Fresh(o) && cpr != 0.0
    ensures Silent(Run(o, Cycles(looks), cpr))
  {
    CyclesConsistent(looks);
    StaleMeansZero(o, Cycles(looks), cpr);
  }

  /** The bytes that cycle `j` found new complete a frame. */
  ghost predicate FrameArrives(looks: seq<Look>, j: int) {
    0 < j < |looks| && |FramesIn(looks[j - 1].stream)| < |FramesIn(looks[j].stream)|
  }

  ghost predicate LastArrival(looks: seq<Look>, j: int) {
    FrameArrives(looks, j) && forall i :: j < i < |looks| ==> !FrameArrives(looks, i)
  }

  /** The bytes of the last new frame came in within 0.5 s of host time. */
  ghost predicate RecentBytes(looks: seq<Look>) {
    exists j :: RecentArrival(looks, j)
  }

  ghost predicate RecentArrival(looks: seq<Look>, j: int) {
    LastArrival(looks, j) && looks[|looks| - 1].now - looks[j].now <= 0.5
  }

  lemma NewFrameBytes(looks: seq<Look>, j: int)
    ensures NewFrame(Cycles(looks), j) <==> FrameArrives(looks, j)
  {
    if 0 < j < |looks| {
      SnapshotIsLatestFrame(looks[j - 1].stream, Left);
      SnapshotIsLatestFrame(looks[j].stream, Left);
    }
  }

  lemma LastNewBytes(looks: seq<Look>, j: int)
    ensures LastNew(Cycles(looks), j) <==> LastArrival(looks, j)
  {
    forall i
      ensures NewFrame(Cycles(looks), i) <==> FrameArrives(looks, i)
    {
      NewFrameBytes(looks, i);
    }
  }

  /** A nonzero velocity after the cycle that follows the seeding one means that the last bytes to
      complete a new frame, and that since seeding, came in within 0.5 s. */
  lemma BytesNonzeroIsRecent(looks: seq<Look>, o: Odom, cpr: real, side: Side, k: nat) returns (j: nat)
    requires Growing(looks) && Fresh(o) && cpr != 0.0 && k + 1 < |looks| && Seeds(looks, k)
    requires Run(o, Cycles(looks), cpr).Of(side).velocity != 0.0
    ensures k < j && LastArrival(looks, j)
    ensures looks[|looks| - 1].now - looks[j].now <= 0.5
  {
    EndTicks(looks, side, k);
    j := NonzeroVelocityIsFresh(o, Cycles(looks), cpr, side);
    LastNewBytes(looks, j);
  }

  /** For all bytes: a nonzero velocity is backed by recent ones, unless the wheel had a velocity
      before activation and no frame has been parsed yet or only one cycle has run; and in those
      cases it is not. */
  lemma BytesBackedExactly(looks: seq<Look>, o: Odom, cpr: real, side: Side)
    requires Growing(looks) && Fresh(o) && cpr != 0.0 && looks != []
    ensures (Run(o, Cycles(looks), cpr).Of(side).velocity != 0.0 ==> RecentBytes(looks))
            <==> !(o.Of(side).velocity != 0.0 && (FramesIn(looks[|looks| - 1].stream) == [] || |looks| == 1))
  {
    CyclesConsistent(looks);
    NonzeroIsBackedExactly(o, Cycles(looks), cpr, side);
    SeededBytes(looks);
    BackedBytes(looks);
  }

  lemma SeededBytes(looks: seq<Look>)
    requires Growing(looks) && looks != []
    ensures Seeded(Cycles(looks)) <==> FramesIn(looks[|looks| - 1].stream) != []
  {
    var n := |looks| - 1;
    CyclesConsistent(looks);
    SnapshotIsLatestFrame(looks[n].stream, Left);
    if Seeded(Cycles(looks)) {
      CountsStayPositive(Cycles(looks), SeedIndex(Cycles(looks)), n);
    }
  }

  lemma BackedBytesAt(looks: seq<Look>, j: int)
    ensures BackedAt(Cycles(looks), j) <==> RecentArrival(looks, j)
  {
    LastNewBytes(looks, j);
  }

  lemma BackedBytes(looks: seq<Look>)
    ensures Backed(Cycles(looks)) <==> RecentBytes(looks)
  {
    if Backed(Cycles(looks)) {
      var j :| BackedAt(Cycles(looks), j);
      BackedBytesAt(looks, j);
    }
    if RecentBytes(looks) {
      var j :| RecentArrival(looks, j);
      BackedBytesAt(looks, j);
    }
  }

  // ---------- a stream of sent readings, cut anywhere ----------

  /** A reading as the firmware sends it. */
  ghost predicate InRange(f: WheelFeedback.Frame) {
    AllFit(WHEEL_FEEDBACK_LAYOUT, [f.sec, f.nsec, f.leftTicks, f.rightTicks, f.leftMrps, f.rightMrps])
  }

  function Reading(f: WheelFeedback.Frame): Message
    requires InRange(f)
  {
    Message(WHEEL_FEEDBACK,
            Pack(WHEEL_FEEDBACK_LAYOUT, [f.sec, f.nsec, f.leftTicks, f.rightTicks, f.leftMrps, f.rightMrps]))
  }

  lemma ReadingRoundTrip(f: WheelFeedback.Frame)
    requires InRange(f)
    ensures Accepted(Reading(f)) && Decode(Reading(f)) == f && |Reading(f).payload| <= MAX_PAYLOAD
  {
    FeedbackRoundTrip(f, []);
    FeedbackSize();
    Join(Reading(f).payload, [], []);
  }

  /** Item `i` carries reading `i`. */
  ghost predicate Carries(items: seq<Item>, fs: seq<WheelFeedback.Frame>) {
    |items| == |fs| && forall i :: 0 <= i < |fs| ==> InRange(fs[i]) && items[i].message == Reading(fs[i])
  }

  lemma {:induction false} ReadingsDecoded(items: seq<Item>, fs: seq<WheelFeedback.Frame>)
    requires Carries(items, fs)
    ensures Frames(Sent(items)) == fs
  {
    if items != [] {
      assert InRange(fs[0]);
      ReadingRoundTrip(fs[0]);
      ReadingsDecoded(items[1..], fs[1..]);
      assert Sent(items)[1..] == Sent(items[1..]);
    }
  }

  lemma CutReadings(items: seq<Item>, fs: seq<WheelFeedback.Frame>, c: nat)
    requires AllSendable(items) && Carries(items, fs) && c <= |Encode(items)|
    ensures FramesIn(Encode(items)[..c]) == fs[..Complete(items, c)]
  {
    var j := Complete(items, c);
    CutStream(items, c);
    ReadingsDecoded(items[..j], fs[..j]);
  }

  /** The last of the readings that is complete within the first `c` bytes. */
  function LatestReading(items: seq<Item>, fs: seq<WheelFeedback.Frame>, c: nat): WheelFeedback.Frame
    requires AllSendable(items) && |items| == |fs| && Complete(items, c) > 0
  {
    fs[Complete(items, c) - 1]
  }

  /** The cycle has taken the first `c` bytes of the encoded readings. */
  ghost predicate Arrived(look: Look, items: seq<Item>, c: nat)
    requires AllSendable(items)
  {
    c <= |Encode(items)| && look.stream == Encode(items)[..c]
  }

  lemma LatestAtCut(look: Look, items: seq<Item>, fs: seq<WheelFeedback.Frame>, c: nat)
    requires AllSendable(items) && Carries(items, fs) && Arrived(look, items, c)
    ensures |FramesIn(look.stream)| == Complete(items, c)
    ensures Complete(items, c) > 0 ==> LatestFrame(look.stream) == LatestReading(items, fs, c)
  {
    CutReadings(items, fs, c);
  }

  /** For readings sent as frames with noise between them, cut into cycles at any byte, the wheel has
      moved by the ticks from the last reading that was complete when the run was seeded to the last
      one that is complete now. */
  lemma ReadingsToPosition(
    looks: seq<Look>, items: seq<Item>, fs: seq<WheelFeedback.Frame>, o: Odom, cpr: real, side: Side,
    k: nat, seeded: nat, now: nat)
    requires AllSendable(items) && Carries(items, fs) && Fresh(o) && cpr != 0.0
    requires Growing(looks) && k < |looks| && Seeds(looks, k)
    requires Arrived(looks[k], items, seeded) && Arrived(looks[|looks| - 1], items, now)
    ensures Complete(items, seeded) > 0 && Complete(items, now) > 0
    ensures Travelled(o.Of(side), Run(o, Cycles(looks), cpr).Of(side),
                      LatestReading(items, fs, seeded).Ticks(side), LatestReading(items, fs, now).Ticks(side), cpr)
  {
    LatestAtCut(looks[k], items, fs, seeded);
    LatestAtCut(looks[|looks| - 1], items, fs, now);
    BytesToPosition(looks, o, cpr, side, k);
  }
}
