/** What the host keeps of the WHEEL_FEEDBACK frames: tick counts, time stamp, frame count and the
    wheel speed, whose sign it recovers from the ticks. */
module WheelFeedback {
  import opened Crc
  import opened BinaryProtocol
  import opened Wire

  datatype Side = Left | Right

  datatype Feedback = Feedback(
    count: nat,
    leftTicks: int, rightTicks: int,
    leftDir: int, rightDir: int,
    leftMrps: real, rightMrps: real,
    stamp: real)
  {
    function Ticks(side: Side): int { if side.Left? then leftTicks else rightTicks }
    function Dir(side: Side): int { if side.Left? then leftDir else rightDir }
    function Mrps(side: Side): real { if side.Left? then leftMrps else rightMrps }
  }

  const INITIAL := Feedback(0, 0, 0, 1, 1, 0.0, 0.0, 0.0)

  // ---------- one frame ----------

  datatype Frame = Frame(sec: int, nsec: int, leftTicks: int, rightTicks: int, leftMrps: int, rightMrps: int)
  {
    function Ticks(side: Side): int { if side.Left? then leftTicks else rightTicks }
    function Mrps(side: Side): int { if side.Left? then leftMrps else rightMrps }
  }

  /** The message carries a whole wheel feedback struct. */
  predicate Accepted(m: Message) {
    m.id == WHEEL_FEEDBACK && |m.payload| >= 32
  }

  function Decode(m: Message): Frame
    requires Accepted(m)
  {
    FeedbackSize();
    var v := Unpack(WHEEL_FEEDBACK_LAYOUT, m.payload);
    Frame(v[0], v[1], v[2], v[3], v[4], v[5])
  }

  lemma FeedbackSize()
    ensures Size(WHEEL_FEEDBACK_LAYOUT) == 32
  {
    assert WHEEL_FEEDBACK_LAYOUT[1..] == [U32, I64, I64, U32, U32];
    assert Size([U32, I64, I64, U32, U32]) == 4 + Size([I64, I64, U32, U32]);
    assert Size([I64, I64, U32, U32]) == 8 + Size([I64, U32, U32]);
    assert Size([I64, U32, U32]) == 8 + Size([U32, U32]);
    assert Size([U32, U32]) == 4 + Size([U32]);
  }

  function Stamp(f: Frame): real {
    f.sec as real + f.nsec as real / 1_000_000_000.0
  }

  /** Frames that are `d` nanoseconds apart have stamps that many billionths of a second apart. */
  lemma StampsApart(f: Frame, g: Frame, d: int)
    requires (g.sec - f.sec) * 1_000_000_000 + (g.nsec - f.nsec) == d
    ensures Stamp(g) - Stamp(f) == d as real / 1_000_000_000.0
  {
  }

  /** The sign of a tick change; no change keeps the last known direction. */
  function Turn(ticks: int, last: int, dir: int): int {
    if ticks == last then dir else if ticks > last then 1 else -1
  }

  function Update(s: Feedback, f: Frame): Feedback {
    var l := Turn(f.leftTicks, s.leftTicks, s.leftDir);
    var r := Turn(f.rightTicks, s.rightTicks, s.rightDir);
    Feedback(
      s.count + 1, f.leftTicks, f.rightTicks, l, r,
      l as real * f.leftMrps as real, r as real * f.rightMrps as real, Stamp(f))
  }

  function OnMessage(s: Feedback, m: Message): Feedback {
    if Accepted(m) then Update(s, Decode(m)) else s
  }

  function OnMessages(s: Feedback, ms: seq<Message>): Feedback
    decreases ms
  {
    if ms == [] then s else OnMessages(OnMessage(s, ms[0]), ms[1..])
  }

  lemma {:induction false} OnMessagesAppend(s: Feedback, x: seq<Message>, y: seq<Message>)
    ensures OnMessages(s, x + y) == OnMessages(OnMessages(s, x), y)
    decreases x
  {
    if x == [] {
      assert x + y == y;
    } else {
      assert (x + y)[1..] == x[1..] + y;
      OnMessagesAppend(OnMessage(s, x[0]), x[1..], y);
    }
  }

  // ---------- whole histories ----------

  /** The accepted frames among the messages, in order. */
  function Frames(ms: seq<Message>): seq<Frame> {
    if ms == [] then []
    else (if Accepted(ms[0]) then [Decode(ms[0])] else []) + Frames(ms[1..])
  }

  /** Short frames and other messages leave no trace: the state is a function of the accepted
      frames alone. */
  function Updates(s: Feedback, fs: seq<Frame>): Feedback
    decreases fs
  {
    if fs == [] then s else Updates(Update(s, fs[0]), fs[1..])
  }

  lemma {:induction false} OnlyAcceptedFrames(s: Feedback, ms: seq<Message>)
    ensures OnMessages(s, ms) == Updates(s, Frames(ms))
    decreases ms
  {
    if ms != [] {
      OnlyAcceptedFrames(OnMessage(s, ms[0]), ms[1..]);
      if Accepted(ms[0]) {
        assert Frames(ms)[1..] == Frames(ms[1..]);
      } else {
        assert Frames(ms) == Frames(ms[1..]);
      }
    }
  }

  /** The ticks of one wheel over time, starting from the 0 the host assumes at first. */
  function History(fs: seq<Frame>, side: Side): (h: seq<int>)
    ensures |h| == |fs| + 1 && h[0] == 0
  {
    [0] + seq(|fs|, i requires 0 <= i < |fs| => fs[i].Ticks(side))
  }

  predicate Moved(h: seq<int>, k: int)
    requires 0 < k < |h|
  {
    h[k] != h[k - 1]
  }

  /** The tick count last changed at index `k`. */
  ghost predicate LastChange(h: seq<int>, k: int) {
    0 < k < |h| && Moved(h, k) && forall j :: k < j < |h| ==> !Moved(h, j)
  }

  /** `dir` is the sign of the last change, or +1 if there was none. */
  ghost predicate Direction(h: seq<int>, dir: int) {
    && (forall k {:trigger LastChange(h, k)} :: LastChange(h, k) ==> dir == if h[k] > h[k - 1] then 1 else -1)
    && ((forall j :: 0 < j < |h| ==> !Moved(h, j)) ==> dir == 1)
  }

  /** `g` is `h` with one more reading. */
  ghost predicate Extends(g: seq<int>, h: seq<int>) {
    |g| == |h| + 1 && |h| > 0 && forall j :: 0 <= j < |h| ==> g[j] == h[j]
  }

  lemma DirectionMoved(g: seq<int>, h: seq<int>)
    requires Extends(g, h) && Moved(g, |h|)
    ensures Direction(g, if g[|h|] > g[|h| - 1] then 1 else -1)
  {
    forall k | LastChange(g, k)
      ensures k == |h|
    {
    }
  }

  lemma DirectionKept(g: seq<int>, h: seq<int>, dir: int)
    requires Extends(g, h) && !Moved(g, |h|) && Direction(h, dir)
    ensures Direction(g, dir)
  {
    forall j | 0 < j < |h|
      ensures Moved(g, j) <==> Moved(h, j)
    {
    }
    forall k | LastChange(g, k)
      ensures LastChange(h, k)
    {
    }
  }

  lemma DirectionStep(h: seq<int>, dir: int, ticks: int)
    requires |h| > 0 && Direction(h, dir)
    ensures Direction(h + [ticks], Turn(ticks, h[|h| - 1], dir))
  {
    var g := h + [ticks];
    assert Extends(g, h);
    if Moved(g, |h|) {
      DirectionMoved(g, h);
    } else {
      DirectionKept(g, h, dir);
    }
  }

  lemma {:induction false} UpdatesLast(s: Feedback, fs: seq<Frame>)
    requires fs != []
    ensures Updates(s, fs) == Update(Updates(s, fs[..|fs| - 1]), fs[|fs| - 1])
    decreases fs
  {
    if |fs| > 1 {
      UpdatesLast(Update(s, fs[0]), fs[1..]);
      assert fs[1..][..|fs| - 2] == fs[..|fs| - 1][1..];
    }
  }

  lemma UpdateSide(s: Feedback, f: Frame, side: Side)
    ensures var t := Update(s, f);
      && t.Ticks(side) == f.Ticks(side)
      && t.Dir(side) == Turn(f.Ticks(side), s.Ticks(side), s.Dir(side))
      && t.Mrps(side) == t.Dir(side) as real * f.Mrps(side) as real
  {
  }

  /** The ticks and the direction a history leaves behind. */
  ghost predicate Tracks(s: Feedback, h: seq<int>, side: Side) {
    |h| == s.count + 1 && s.Ticks(side) == h[s.count] && Direction(h, s.Dir(side))
  }

  lemma TracksStep(s: Feedback, h: seq<int>, f: Frame, side: Side)
    requires Tracks(s, h, side)
    ensures Tracks(Update(s, f), h + [f.Ticks(side)], side)
  {
    UpdateSide(s, f, side);
    DirectionStep(h, s.Dir(side), f.Ticks(side));
  }

  lemma HistoryStep(fs: seq<Frame>, side: Side)
    requires fs != []
    ensures History(fs, side) == History(fs[..|fs| - 1], side) + [fs[|fs| - 1].Ticks(side)]
  {
  }

  lemma {:induction false} HistoryTracked(fs: seq<Frame>, side: Side)
    ensures Tracks(Updates(INITIAL, fs), History(fs, side), side)
  {
    if fs != [] {
      var n := |fs| - 1;
      HistoryTracked(fs[..n], side);
      TracksStep(Updates(INITIAL, fs[..n]), History(fs[..n], side), fs[n], side);
      UpdatesLast(INITIAL, fs);
      HistoryStep(fs, side);
    }
  }

  /** The state `s` reports the frames `fs` and no others. */
  ghost predicate Reports(s: Feedback, fs: seq<Frame>, side: Side) {
    && Tracks(s, History(fs, side), side)
    && (fs != [] ==> ReportsLast(s, fs[|fs| - 1], side))
  }

  ghost predicate ReportsLast(s: Feedback, f: Frame, side: Side) {
    s.Mrps(side) == s.Dir(side) as real * f.Mrps(side) as real && s.stamp == Stamp(f)
  }

  lemma LastFrameReported(s: Feedback, f: Frame, side: Side)
    ensures ReportsLast(Update(s, f), f, side)
  {
    UpdateSide(s, f, side);
  }

  lemma FramesReported(fs: seq<Frame>, side: Side)
    ensures Reports(Updates(INITIAL, fs), fs, side)
  {
    HistoryTracked(fs, side);
    if fs != [] {
      var n := |fs| - 1;
      UpdatesLast(INITIAL, fs);
      LastFrameReported(Updates(INITIAL, fs[..n]), fs[n], side);
    }
  }

  /** After any sequence of messages, and for each wheel: the count is the number of accepted
      frames, the ticks are those of the last one, the direction is the sign of the last nonzero
      tick difference (+1 if there is none), and the reported speed is the last magnitude with
      that sign. Short frames and other messages leave no trace. */
  lemma DirectionRecovered(ms: seq<Message>, side: Side)
    ensures Reports(OnMessages(INITIAL, ms), Frames(ms), side)
  {
    OnlyAcceptedFrames(INITIAL, ms);
    FramesReported(Frames(ms), side);
  }

  /** The frame a firmware would send for a reading in range decodes to that reading. */
  lemma FeedbackRoundTrip(f: Frame, tail: seq<Byte>)
    requires AllFit(WHEEL_FEEDBACK_LAYOUT, [f.sec, f.nsec, f.leftTicks, f.rightTicks, f.leftMrps, f.rightMrps])
    ensures var p := Pack(WHEEL_FEEDBACK_LAYOUT, [f.sec, f.nsec, f.leftTicks, f.rightTicks, f.leftMrps, f.rightMrps]);
      Accepted(Message(0x10, p + tail)) && Decode(Message(0x10, p + tail)) == f
  {
    var values := [f.sec, f.nsec, f.leftTicks, f.rightTicks, f.leftMrps, f.rightMrps];
    FeedbackSize();
    PackRoundTrip(WHEEL_FEEDBACK_LAYOUT, values, tail);
  }
}
