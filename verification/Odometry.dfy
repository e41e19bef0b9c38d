/** Wheel odometry: one read cycle turns the latest feedback snapshot into joint positions and
    filtered velocities. The specification of a cycle, and what holds over whole runs of cycles. */
module Odometry {
  import opened NumberFacts
  import opened Commands
  import opened WheelFeedback

  const FEEDBACK_TIMEOUT_SEC: real := 0.5
  const WINDOW_SEC: real := 0.04
  const LONG_GAP_SEC: real := 1.0
  const EMA_ALPHA: real := 0.4

  // ---------- state ----------

  /** One wheel: previous ticks, ticks at the start of the open speed window, filtered speed, and
      the two joint state interfaces. */
  datatype Wheel = Wheel(prev: int, measPrev: int, meas: real, position: real, velocity: real)

  datatype Odom = Odom(
    ticksInit: bool, left: Wheel, right: Wheel, stampPrev: real,
    lastCount: nat, lastChange: real, stale: bool)
  {
    function Of(side: Side): Wheel { if side.Left? then left else right }
  }

  /** The effect of activation: positions and velocities stay. */
  function Activate(o: Odom, now: real): Odom {
    o.(ticksInit := false, lastCount := 0, lastChange := now, stale := false,
       left := o.left.(meas := 0.0), right := o.right.(meas := 0.0))
  }

  /** The state a run of cycles starts from. */
  ghost predicate Fresh(o: Odom) {
    !o.ticksInit && o.lastCount == 0 && !o.stale && o.left.meas == 0.0 && o.right.meas == 0.0
  }

  // ---------- one cycle ----------

  /** What a cycle after seeding does with the speed window. */
  datatype Plan = Plan(changed: bool, resumed: bool, timedOut: bool, restart: bool, fires: bool, window: real)

  function MakePlan(o: Odom, f: Feedback, now: real): Plan {
    var changed := f.count != o.lastCount;
    var resumed := changed && o.stale;
    var window := if resumed then 0.0 else f.stamp - o.stampPrev;
    var restart := window < 0.0 || window > LONG_GAP_SEC;
    Plan(changed, resumed, !changed && now - o.lastChange > FEEDBACK_TIMEOUT_SEC,
         restart, !restart && window >= WINDOW_SEC, window)
  }

  /** One revolution is `cpr` ticks. */
  function Angle(ticks: int, cpr: real): real
    requires cpr != 0.0
  {
    ticks as real * 2.0 * PI / cpr
  }

  /** The speed over one window. */
  function RawSpeed(ticks: int, cpr: real, window: real): real
    requires cpr != 0.0 && window != 0.0
  {
    ticks as real * (2.0 * PI / (cpr * window))
  }

  function Smooth(meas: real, raw: real): real {
    meas + EMA_ALPHA * (raw - meas)
  }

  function StepWheel(w: Wheel, ticks: int, p: Plan, cpr: real): Wheel
    requires cpr != 0.0 && (p.fires ==> p.window != 0.0)
  {
    var meas0 := if p.timedOut then 0.0 else w.meas;
    var from := if p.resumed then ticks else w.measPrev;
    var meas := if p.fires then Smooth(meas0, RawSpeed(ticks - from, cpr, p.window)) else meas0;
    Wheel(ticks, if p.restart || p.fires then ticks else from, meas, w.position + Angle(ticks - w.prev, cpr), meas)
  }

  function Seed(o: Odom, f: Feedback): Odom {
    o.(ticksInit := true, stampPrev := f.stamp,
       left := o.left.(prev := f.leftTicks, measPrev := f.leftTicks),
       right := o.right.(prev := f.rightTicks, measPrev := f.rightTicks))
  }

  function Step(o: Odom, f: Feedback, now: real, cpr: real): Odom
    requires cpr != 0.0
  {
    var p := MakePlan(o, f, now);
    Odom(true, StepWheel(o.left, f.leftTicks, p, cpr), StepWheel(o.right, f.rightTicks, p, cpr),
         if p.resumed || p.restart || p.fires then f.stamp else o.stampPrev,
         f.count, if p.changed then now else o.lastChange, !p.changed && (o.stale || p.timedOut))
  }

  function ReadWheels(o: Odom, f: Feedback, now: real, cpr: real): Odom
    requires cpr != 0.0
  {
    if f.count == 0 then o
    else if !o.ticksInit then Seed(o, f)
    else Step(o, f, now, cpr)
  }

  // ---------- runs ----------

  datatype Cycle = Cycle(feedback: Feedback, now: real)

  function Run(o: Odom, cycles: seq<Cycle>, cpr: real): Odom
    requires cpr != 0.0
  {
    if cycles == [] then o
    else
      var n := |cycles| - 1;
      ReadWheels(Run(o, cycles[..n], cpr), cycles[n].feedback, cycles[n].now, cpr)
  }

  /** Snapshots of one transport: the frame count never falls, and without a new frame nothing
      changes. */
  ghost predicate Follows(f: Feedback, g: Feedback) {
    f.count <= g.count && (f.count == g.count ==> f == g)
  }

  ghost predicate Consistent(cycles: seq<Cycle>) {
    forall i :: 0 < i < |cycles| ==> Follows(cycles[i - 1].feedback, cycles[i].feedback)
  }

  lemma ConsistentPrefix(cycles: seq<Cycle>, n: nat)
    requires Consistent(cycles) && n <= |cycles|
    ensures Consistent(cycles[..n])
  {
  }

  /** The snapshot that seeds the run: the one at the first cycle with any frame. */
  function SeedIndex(cycles: seq<Cycle>): (k: nat)
    ensures k <= |cycles|
    ensures k < |cycles| ==> cycles[k].feedback.count > 0
    ensures forall i :: 0 <= i < k ==> cycles[i].feedback.count == 0
  {
    if cycles == [] then 0
    else
      var n := |cycles| - 1;
      var k := SeedIndex(cycles[..n]);
      if k < n || cycles[n].feedback.count > 0 then k else k + 1
  }

  lemma SeedIndexStable(cycles: seq<Cycle>, n: nat)
    requires |cycles| == n + 1
    ensures SeedIndex(cycles[..n]) < n ==> SeedIndex(cycles) == SeedIndex(cycles[..n])
    ensures SeedIndex(cycles) < n ==> SeedIndex(cycles[..n]) == SeedIndex(cycles)
    ensures SeedIndex(cycles) >= n ==> SeedIndex(cycles[..n]) == n
  {
  }

  ghost predicate Seeded(cycles: seq<Cycle>) {
    SeedIndex(cycles) < |cycles|
  }

  /** Nothing happens before the first frame; the cycle that sees it only seeds. */
  lemma {:induction false} BeforeSeed(o: Odom, cycles: seq<Cycle>, cpr: real)
    requires cpr != 0.0 && !Seeded(cycles)
    ensures Run(o, cycles, cpr) == o
  {
    if cycles != [] {
      var n := |cycles| - 1;
      SeedIndexStable(cycles, n);
      BeforeSeed(o, cycles[..n], cpr);
    }
  }

  lemma {:induction false} CountsStayPositive(cycles: seq<Cycle>, i: nat, j: nat)
    requires Consistent(cycles) && i <= j < |cycles| && cycles[i].feedback.count > 0
    ensures cycles[j].feedback.count > 0
  {
    if i < j {
      CountsStayPositive(cycles, i, j - 1);
      assert Follows(cycles[j - 1].feedback, cycles[j].feedback);
    }
  }

  /** The three shapes of the last cycle of a run. */
  lemma LastCycle(o: Odom, cycles: seq<Cycle>, cpr: real)
    requires cpr != 0.0 && cycles != [] && Consistent(cycles) && Fresh(o) && Seeded(cycles)
    ensures var n := |cycles| - 1;
      var before, c := Run(o, cycles[..n], cpr), cycles[n];
      && Consistent(cycles[..n])
      && (if Seeded(cycles[..n])
          then SeedIndex(cycles[..n]) == SeedIndex(cycles) && before.ticksInit && c.feedback.count > 0
               && Run(o, cycles, cpr) == Step(before, c.feedback, c.now, cpr)
          else SeedIndex(cycles) == n && before == o && Run(o, cycles, cpr) == Seed(o, c.feedback))
    ensures Run(o, cycles, cpr).ticksInit
    decreases |cycles|, 0
  {
    var n := |cycles| - 1;
    SeedIndexStable(cycles, n);
    ConsistentPrefix(cycles, n);
    if Seeded(cycles[..n]) {
      CountsStayPositive(cycles, SeedIndex(cycles), n);
      SeededRun(o, cycles[..n], cpr);
    } else {
      BeforeSeed(o, cycles[..n], cpr);
    }
  }

  lemma {:induction false} SeededRun(o: Odom, cycles: seq<Cycle>, cpr: real)
    requires cpr != 0.0 && Consistent(cycles) && Fresh(o) && Seeded(cycles)
    ensures Run(o, cycles, cpr).ticksInit
    decreases |cycles|, 1
  {
    LastCycle(o, cycles, cpr);
  }

  // ---------- position ----------

  lemma AngleAdd(a: int, b: int, cpr: real)
    requires cpr != 0.0
    ensures Angle(a + b, cpr) == Angle(a, cpr) + Angle(b, cpr)
  {
    DivideSum(a as real * 2.0 * PI, b as real * 2.0 * PI, cpr);
  }

  lemma AngleZero(cpr: real)
    requires cpr != 0.0
    ensures Angle(0, cpr) == 0.0
  {
  }

  /** The ticks of the snapshot that seeded the run. */
  function SeedTicks(cycles: seq<Cycle>, side: Side): int
    requires SeedIndex(cycles) < |cycles|
  {
    cycles[SeedIndex(cycles)].feedback.Ticks(side)
  }

  function LatestTicks(cycles: seq<Cycle>, side: Side): int
    requires cycles != []
  {
    cycles[|cycles| - 1].feedback.Ticks(side)
  }

  lemma AngleTimes(ticks: int, cpr: real)
    requires cpr != 0.0
    ensures Angle(ticks, cpr) * cpr == 2.0 * PI * ticks as real
  {
    assert ticks as real * 2.0 * PI == 2.0 * PI * ticks as real;
  }

  /** The wheel has turned by the ticks from `t0` to `t1`: `cpr` of them are one revolution. */
  ghost predicate Travelled(from: Wheel, to: Wheel, t0: int, t1: int, cpr: real) {
    (to.position - from.position) * cpr == 2.0 * PI * (t1 - t0) as real
  }

  lemma AngleTravelled(from: Wheel, to: Wheel, t0: int, t1: int, cpr: real)
    requires cpr != 0.0 && to.position == from.position + Angle(t1 - t0, cpr)
    ensures Travelled(from, to, t0, t1, cpr)
  {
    AngleTimes(t1 - t0, cpr);
  }

  lemma {:induction false} PositionSum(o: Odom, cycles: seq<Cycle>, cpr: real, side: Side)
    requires cpr != 0.0 && Consistent(cycles) && Fresh(o) && Seeded(cycles)
    ensures var w := Run(o, cycles, cpr).Of(side);
      && w.prev == LatestTicks(cycles, side)
      && w.position == o.Of(side).position + Angle(LatestTicks(cycles, side) - SeedTicks(cycles, side), cpr)
  {
    var n := |cycles| - 1;
    LastCycle(o, cycles, cpr);
    AngleZero(cpr);
    if Seeded(cycles[..n]) {
      PositionSum(o, cycles[..n], cpr, side);
      var last := LatestTicks(cycles[..n], side);
      AngleAdd(last - SeedTicks(cycles, side), LatestTicks(cycles, side) - last, cpr);
    }
  }

  /** Whatever mix of stale, resumed, restarted and fired windows a run went through, the wheel has
      turned by exactly the ticks since the seeding snapshot. */
  lemma PositionTelescopes(o: Odom, cycles: seq<Cycle>, cpr: real, side: Side)
    requires cpr != 0.0 && Consistent(cycles) && Fresh(o) && Seeded(cycles)
    ensures Travelled(o.Of(side), Run(o, cycles, cpr).Of(side), SeedTicks(cycles, side), LatestTicks(cycles, side), cpr)
  {
    PositionSum(o, cycles, cpr, side);
    AngleTravelled(o.Of(side), Run(o, cycles, cpr).Of(side), SeedTicks(cycles, side), LatestTicks(cycles, side), cpr);
  }

  lemma TravelledBetween(o: Odom, cycles: seq<Cycle>, cpr: real, side: Side, t0: int, t1: int)
    requires cpr != 0.0 && Consistent(cycles) && Fresh(o) && Seeded(cycles)
    requires t0 == SeedTicks(cycles, side) && t1 == LatestTicks(cycles, side)
    ensures Travelled(o.Of(side), Run(o, cycles, cpr).Of(side), t0, t1, cpr)
  {
    PositionTelescopes(o, cycles, cpr, side);
  }

  /** With `c` counts to a revolution, `n` times `c` ticks turn the wheel by n times two pi. */
  lemma WholeRevolutions(from: Wheel, to: Wheel, t0: int, t1: int, cpr: real, c: int, n: int)
    requires cpr == c as real && c != 0 && t1 - t0 == n * c && Travelled(from, to, t0, t1, cpr)
    ensures to.position == from.position + 2.0 * PI * n as real
  {
    var turned := to.position - from.position;
    assert (n * c) as real == n as real * c as real;
    Regrouped(2.0 * PI, n as real, cpr);
    Cancelled(turned, 2.0 * PI * n as real, cpr);
  }

  // ---------- the speed window ----------

  /** After every seeded cycle the open window is shorter than 40 ms of frame time. */
  ghost predicate WindowOpen(o: Odom, stamp: real) {
    0.0 <= stamp - o.stampPrev < 0.04
  }

  lemma {:induction false} WindowInvariant(o: Odom, cycles: seq<Cycle>, cpr: real)
    requires cpr != 0.0 && Consistent(cycles) && Fresh(o) && Seeded(cycles)
    ensures WindowOpen(Run(o, cycles, cpr), cycles[|cycles| - 1].feedback.stamp)
  {
    LastCycle(o, cycles, cpr);
  }

  function PlanAt(o: Odom, cycles: seq<Cycle>, cpr: real, i: nat): Plan
    requires cpr != 0.0 && i < |cycles|
  {
    MakePlan(Run(o, cycles[..i], cpr), cycles[i].feedback, cycles[i].now)
  }

  /** Only a new frame closes a window, and every window that yields a speed spans between 40 ms
      and one second of frame time. */
  lemma WindowsNeedFrames(o: Odom, cycles: seq<Cycle>, cpr: real, i: nat)
    requires cpr != 0.0 && Consistent(cycles) && Fresh(o) && SeedIndex(cycles) < i < |cycles|
    ensures var p := PlanAt(o, cycles, cpr, i);
      && (p.fires ==> 0.04 <= p.window <= 1.0 && !p.resumed && p.changed)
      && (p.fires || p.restart ==> cycles[i - 1].feedback.count < cycles[i].feedback.count)
  {
    ConsistentPrefix(cycles, i);
    SeedIndexPrefix(cycles, i);
    var before := Run(o, cycles[..i], cpr);
    WindowInvariant(o, cycles[..i], cpr);
    assert Follows(cycles[i - 1].feedback, cycles[i].feedback);
    LastCount(o, cycles[..i], cpr);
  }

  lemma {:induction false} SeedIndexPrefix(cycles: seq<Cycle>, n: nat)
    requires SeedIndex(cycles) < n <= |cycles|
    ensures SeedIndex(cycles[..n]) == SeedIndex(cycles)
    decreases |cycles|
  {
    if n < |cycles| {
      var m := |cycles| - 1;
      SeedIndexStable(cycles, m);
      SeedIndexPrefix(cycles[..m], n);
      assert cycles[..m][..n] == cycles[..n];
    } else {
      assert cycles[..n] == cycles;
    }
  }

  /** The seeding cycle does not record its count, so the cycle after it always counts as a change. */
  lemma LastCount(o: Odom, cycles: seq<Cycle>, cpr: real)
    requires cpr != 0.0 && Consistent(cycles) && Fresh(o) && Seeded(cycles)
    ensures var t := Run(o, cycles, cpr);
      t.lastCount == if SeedIndex(cycles) == |cycles| - 1 then o.lastCount
                     else cycles[|cycles| - 1].feedback.count
  {
    LastCycle(o, cycles, cpr);
  }

  // ---------- tick accounting ----------

  /** Ticks that went into a speed, and ticks a restarted window threw away. */
  datatype Ledger = Ledger(fired: int, dropped: int)

  function Account(o: Odom, cycles: seq<Cycle>, cpr: real, side: Side): Ledger
    requires cpr != 0.0
  {
    if cycles == [] then Ledger(0, 0)
    else
      var n := |cycles| - 1;
      var l, before := Account(o, cycles[..n], cpr, side), Run(o, cycles[..n], cpr);
      var ticks := cycles[n].feedback.Ticks(side) - before.Of(side).measPrev;
      var p := PlanAt(o, cycles, cpr, n);
      if !before.ticksInit || cycles[n].feedback.count == 0 then l
      else if p.fires then l.(fired := l.fired + ticks)
      else if p.resumed || p.restart then l.(dropped := l.dropped + ticks)
      else l
  }

  lemma {:induction false} NoAccountBeforeSeed(o: Odom, cycles: seq<Cycle>, cpr: real, side: Side)
    requires cpr != 0.0 && Fresh(o) && !Seeded(cycles)
    ensures Account(o, cycles, cpr, side) == Ledger(0, 0)
  {
    if cycles != [] {
      var n := |cycles| - 1;
      SeedIndexStable(cycles, n);
      NoAccountBeforeSeed(o, cycles[..n], cpr, side);
    }
  }

  /** Every tick since seeding is in a speed, dropped by a restart, or in the open window. */
  lemma {:induction false} TicksAccounted(o: Odom, cycles: seq<Cycle>, cpr: real, side: Side)
    requires cpr != 0.0 && Consistent(cycles) && Fresh(o) && Seeded(cycles)
    ensures var l, w := Account(o, cycles, cpr, side), Run(o, cycles, cpr).Of(side);
      l.fired + l.dropped + (LatestTicks(cycles, side) - w.measPrev)
        == LatestTicks(cycles, side) - SeedTicks(cycles, side)
  {
    var n := |cycles| - 1;
    LastCycle(o, cycles, cpr);
    if Seeded(cycles[..n]) {
      TicksAccounted(o, cycles[..n], cpr, side);
      ResumedWindow(o, cycles[..n], cycles[n], cpr);
    } else {
      NoAccountBeforeSeed(o, cycles[..n], cpr, side);
    }
  }

  lemma ResumedWindow(o: Odom, cycles: seq<Cycle>, c: Cycle, cpr: real)
    requires cpr != 0.0
    ensures var p := MakePlan(Run(o, cycles, cpr), c.feedback, c.now); p.resumed ==> !p.fires && !p.restart
  {
  }

  // ---------- staleness ----------

  /** While the feedback is stale the filtered speeds and the reported velocities are exactly zero. */
  ghost predicate Silent(o: Odom) {
    o.stale ==> Still(o.left) && Still(o.right)
  }

  ghost predicate Still(w: Wheel) {
    w.meas == 0.0 && w.velocity == 0.0
  }

  lemma StepWheelStill(w: Wheel, ticks: int, p: Plan, cpr: real)
    requires cpr != 0.0 && !p.fires && (p.timedOut || w.meas == 0.0)
    ensures Still(StepWheel(w, ticks, p, cpr))
  {
  }

  lemma {:induction false} StaleMeansZero(o: Odom, cycles: seq<Cycle>, cpr: real)
    requires cpr != 0.0 && Consistent(cycles) && Fresh(o)
    ensures Silent(Run(o, cycles, cpr))
  {
    if !Seeded(cycles) {
      BeforeSeed(o, cycles, cpr);
    } else {
      var n := |cycles| - 1;
      LastCycle(o, cycles, cpr);
      if Seeded(cycles[..n]) {
        StaleMeansZero(o, cycles[..n], cpr);
        WindowsNeedFrames(o, cycles, cpr, n);
        var before, c, p := Run(o, cycles[..n], cpr), cycles[n], PlanAt(o, cycles, cpr, n);
        if !p.changed && (before.stale || p.timedOut) {
          StepWheelStill(before.left, c.feedback.leftTicks, p, cpr);
          StepWheelStill(before.right, c.feedback.rightTicks, p, cpr);
        }
      }
    }
  }

  /** The run up to and including cycle `i`, when it is not the seeding one. */
  lemma CycleAt(o: Odom, cycles: seq<Cycle>, cpr: real, i: nat)
    requires cpr != 0.0 && Consistent(cycles) && Fresh(o) && SeedIndex(cycles) < i < |cycles|
    ensures Run(o, cycles[..i + 1], cpr) == Step(Run(o, cycles[..i], cpr), cycles[i].feedback, cycles[i].now, cpr)
  {
    var head := cycles[..i + 1];
    ConsistentPrefix(cycles, i + 1);
    SeedIndexPrefix(cycles, i + 1);
    SeedIndexPrefix(cycles, i);
    assert head[..i] == cycles[..i];
    LastCycle(o, head, cpr);
  }

  /** Cycle `j` saw a frame that cycle `j - 1` had not. */
  ghost predicate NewFrame(cycles: seq<Cycle>, j: int) {
    0 < j < |cycles| && cycles[j - 1].feedback.count < cycles[j].feedback.count
  }

  /** Cycle `j` is the last that saw a new frame, or the one after seeding if there was none since. */
  ghost predicate LastSeen(cycles: seq<Cycle>, j: int) {
    && SeedIndex(cycles) < j < |cycles| && (j == SeedIndex(cycles) + 1 || NewFrame(cycles, j))
    && forall i :: j < i < |cycles| ==> !NewFrame(cycles, i)
  }

  /** Cycle `k` comes more than 0.5 s after cycle `j`. */
  predicate Overdue(cycles: seq<Cycle>, j: int, k: int) {
    0 <= j < k < |cycles| && cycles[k].now - cycles[j].now > 0.5
  }

  /** What a cycle after the seeding one does to the record of the last frame. */
  lemma SeenStep(o: Odom, cycles: seq<Cycle>, cpr: real)
    requires cpr != 0.0 && Consistent(cycles) && Fresh(o) && SeedIndex(cycles) + 1 < |cycles|
    ensures var n := |cycles| - 1;
      var before, after := Run(o, cycles[..n], cpr), Run(o, cycles, cpr);
      && SeedIndex(cycles[..n]) == SeedIndex(cycles)
      && if n == SeedIndex(cycles) + 1 || NewFrame(cycles, n) then after.lastChange == cycles[n].now && !after.stale
         else after.lastChange == before.lastChange
              && after.stale == (before.stale || cycles[n].now - before.lastChange > FEEDBACK_TIMEOUT_SEC)
  {
    var n := |cycles| - 1;
    SeedIndexPrefix(cycles, n);
    LastCycle(o, cycles, cpr);
    LastCount(o, cycles[..n], cpr);
    assert Follows(cycles[n - 1].feedback, cycles[n].feedback);
  }

  lemma NewFramePrefix(cycles: seq<Cycle>, n: nat, i: int)
    requires n <= |cycles| && i < n
    ensures NewFrame(cycles[..n], i) <==> NewFrame(cycles, i)
  {
  }

  /** When the feedback is stale: exactly when some cycle came more than 0.5 s after the last one that
      saw a new frame (or after the one that follows seeding), whatever the clock did. */
  lemma {:induction false} StaleExactly(o: Odom, cycles: seq<Cycle>, cpr: real) returns (j: nat)
    requires cpr != 0.0 && Consistent(cycles) && Fresh(o) && SeedIndex(cycles) + 1 < |cycles|
    ensures LastSeen(cycles, j) && Run(o, cycles, cpr).lastChange == cycles[j].now
    ensures Run(o, cycles, cpr).stale <==> exists k :: Overdue(cycles, j, k)
  {
    var n := |cycles| - 1;
    SeenStep(o, cycles, cpr);
    if n == SeedIndex(cycles) + 1 || NewFrame(cycles, n) {
      j := n;
    } else {
      ConsistentPrefix(cycles, n);
      j := StaleExactly(o, cycles[..n], cpr);
      forall i | j < i < n
        ensures !NewFrame(cycles, i)
      {
        NewFramePrefix(cycles, n, i);
      }
      NewFramePrefix(cycles, n, j);
      assert forall k :: Overdue(cycles[..n], j, k) ==> Overdue(cycles, j, k);
      assert forall k :: k < n && Overdue(cycles, j, k) ==> Overdue(cycles[..n], j, k);
      assert Overdue(cycles, j, n) <==> cycles[n].now - cycles[j].now > FEEDBACK_TIMEOUT_SEC;
    }
  }

  /** Up to and including the seeding cycle nothing is stale. */
  lemma NotStaleBeforeSeed(o: Odom, cycles: seq<Cycle>, cpr: real)
    requires cpr != 0.0 && Consistent(cycles) && Fresh(o) && |cycles| <= SeedIndex(cycles) + 1
    ensures !Run(o, cycles, cpr).stale
  {
    if Seeded(cycles) {
      LastCycle(o, cycles, cpr);
    } else {
      BeforeSeed(o, cycles, cpr);
    }
  }

  /** The wheel reports zero and its open window starts at this snapshot. */
  ghost predicate RestartedAt(w: Wheel, ticks: int) {
    Still(w) && w.measPrev == ticks
  }

  /** The cycle in which frames resume restarts the window at the resuming frame and still
      reports zero. */
  lemma ResumesFromZero(o: Odom, cycles: seq<Cycle>, cpr: real, i: nat)
    requires cpr != 0.0 && Consistent(cycles) && Fresh(o) && SeedIndex(cycles) < i < |cycles|
    requires PlanAt(o, cycles, cpr, i).resumed
    ensures var after, f := Run(o, cycles[..i + 1], cpr), cycles[i].feedback;
      RestartedAt(after.left, f.leftTicks) && RestartedAt(after.right, f.rightTicks) && after.stampPrev == f.stamp
  {
    CycleAt(o, cycles, cpr, i);
    ConsistentPrefix(cycles, i);
    StaleMeansZero(o, cycles[..i], cpr);
    WindowsNeedFrames(o, cycles, cpr, i);
    var before, p := Run(o, cycles[..i], cpr), PlanAt(o, cycles, cpr, i);
    StepWheelStill(before.left, cycles[i].feedback.leftTicks, p, cpr);
    StepWheelStill(before.right, cycles[i].feedback.rightTicks, p, cpr);
  }

  /** A cycle that fires no window leaves zero speeds at zero. */
  lemma NoFireNoSpeed(o: Odom, c: Cycle, cpr: real)
    requires cpr != 0.0 && !MakePlan(o, c.feedback, c.now).fires
    requires o.left.meas == 0.0 && o.right.meas == 0.0
    ensures var t := Step(o, c.feedback, c.now, cpr); t.left.meas == 0.0 && t.right.meas == 0.0
  {
  }

  /** Until a new frame comes in after seeding, the speeds stay zero. */
  lemma {:induction false} NoFrameNoSpeed(o: Odom, cycles: seq<Cycle>, cpr: real)
    requires cpr != 0.0 && Consistent(cycles) && Fresh(o) && Seeded(cycles)
    requires forall i :: SeedIndex(cycles) < i < |cycles| ==> !NewFrame(cycles, i)
    ensures var t := Run(o, cycles, cpr); t.left.meas == 0.0 && t.right.meas == 0.0
  {
    var n := |cycles| - 1;
    LastCycle(o, cycles, cpr);
    if Seeded(cycles[..n]) {
      forall i | SeedIndex(cycles) < i < n
        ensures !NewFrame(cycles[..n], i)
      {
        NewFramePrefix(cycles, n, i);
      }
      NoFrameNoSpeed(o, cycles[..n], cpr);
      WindowsNeedFrames(o, cycles, cpr, n);
      assert !NewFrame(cycles, n);
      NoFireNoSpeed(Run(o, cycles[..n], cpr), cycles[n], cpr);
    }
  }

  /** Cycle `j` is the last that saw a new frame. */
  ghost predicate LastNew(cycles: seq<Cycle>, j: int) {
    NewFrame(cycles, j) && forall i :: j < i < |cycles| ==> !NewFrame(cycles, i)
  }

  /** The last new frame came in within 0.5 s of host time. */
  ghost predicate Backed(cycles: seq<Cycle>) {
    exists j :: BackedAt(cycles, j)
  }

  ghost predicate BackedAt(cycles: seq<Cycle>, j: int) {
    LastNew(cycles, j) && cycles[|cycles| - 1].now - cycles[j].now <= 0.5
  }

  /** After the cycle that follows the seeding one the filtered speed is the reported one. */
  lemma ReportedSpeed(o: Odom, cycles: seq<Cycle>, cpr: real, side: Side)
    requires cpr != 0.0 && Consistent(cycles) && Fresh(o) && SeedIndex(cycles) + 1 < |cycles|
    ensures Run(o, cycles, cpr).Of(side).velocity == Run(o, cycles, cpr).Of(side).meas
  {
    SeedIndexPrefix(cycles, |cycles| - 1);
    LastCycle(o, cycles, cpr);
  }

  /** At the end of any cycle after the seeding one, a nonzero reported velocity means that the last
      new frame, and that since seeding, arrived within the last 0.5 s of host time. */
  lemma NonzeroVelocityIsFresh(o: Odom, cycles: seq<Cycle>, cpr: real, side: Side) returns (j: nat)
    requires cpr != 0.0 && Consistent(cycles) && Fresh(o) && SeedIndex(cycles) + 1 < |cycles|
    requires Run(o, cycles, cpr).Of(side).velocity != 0.0
    ensures SeedIndex(cycles) < j && LastNew(cycles, j)
    ensures cycles[|cycles| - 1].now - cycles[j].now <= 0.5
  {
    var n := |cycles| - 1;
    SeedIndexPrefix(cycles, n);
    j := StaleExactly(o, cycles, cpr);
    ReportedSpeed(o, cycles, cpr, side);
    if !NewFrame(cycles, j) {
      NoFrameNoSpeed(o, cycles, cpr);
      assert false;
    }
    LastCycle(o, cycles, cpr);
    WindowsNeedFrames(o, cycles, cpr, n);
    NonzeroNotTimedOut(Run(o, cycles[..n], cpr), cycles[n], cpr, side);
  }

  lemma NonzeroNotTimedOut(o: Odom, c: Cycle, cpr: real, side: Side)
    requires cpr != 0.0
    requires Step(o, c.feedback, c.now, cpr).Of(side).velocity != 0.0
    requires var p := MakePlan(o, c.feedback, c.now); p.fires ==> p.changed
    ensures Step(o, c.feedback, c.now, cpr).Of(side).meas != 0.0
    ensures !MakePlan(o, c.feedback, c.now).timedOut
  {
  }

  /** The open window starts at the snapshot of some cycle, and no window was resumed, restarted or
      closed after that cycle. */
  ghost predicate Anchored(o: Odom, cycles: seq<Cycle>, cpr: real, k: nat)
    requires cpr != 0.0
  {
    && SeedIndex(cycles) <= k < |cycles|
    && Run(o, cycles, cpr).stampPrev == cycles[k].feedback.stamp
    && (forall side :: Run(o, cycles, cpr).Of(side).measPrev == cycles[k].feedback.Ticks(side))
    && forall i :: k < i < |cycles| ==> !Reanchors(o, cycles, cpr, i)
  }

  predicate Reanchors(o: Odom, cycles: seq<Cycle>, cpr: real, i: nat)
    requires cpr != 0.0 && i < |cycles|
  {
    var p := PlanAt(o, cycles, cpr, i);
    p.resumed || p.restart || p.fires
  }

  lemma PlanPrefix(o: Odom, cycles: seq<Cycle>, cpr: real, n: nat, i: nat)
    requires cpr != 0.0 && i < n <= |cycles|
    ensures Reanchors(o, cycles[..n], cpr, i) == Reanchors(o, cycles, cpr, i)
  {
    assert cycles[..n][..i] == cycles[..i];
  }

  /** So a speed after a resumption uses only ticks and stamps from the resuming frame onward. */
  lemma {:induction false} WindowAnchor(o: Odom, cycles: seq<Cycle>, cpr: real) returns (k: nat)
    requires cpr != 0.0 && Consistent(cycles) && Fresh(o) && Seeded(cycles)
    ensures Anchored(o, cycles, cpr, k)
  {
    var n := |cycles| - 1;
    LastCycle(o, cycles, cpr);
    if !Seeded(cycles[..n]) || Reanchors(o, cycles, cpr, n) {
      k := n;
    } else {
      k := WindowAnchor(o, cycles[..n], cpr);
      forall i | k < i < |cycles|
        ensures !Reanchors(o, cycles, cpr, i)
      {
        if i < n {
          PlanPrefix(o, cycles, cpr, n, i);
        }
      }
    }
  }

  /** Activation clears the filter but not the velocity interface: until the cycle after the seeding
      one, the joint still reports the velocity from before. */
  lemma SeedingKeepsVelocity(o: Odom, cycles: seq<Cycle>, cpr: real, side: Side)
    requires cpr != 0.0 && Consistent(cycles) && Fresh(o) && |cycles| <= SeedIndex(cycles) + 1
    ensures Run(o, cycles, cpr).Of(side).velocity == o.Of(side).velocity
  {
    if Seeded(cycles) {
      LastCycle(o, cycles, cpr);
    } else {
      BeforeSeed(o, cycles, cpr);
    }
  }

  /** A run that ends with its seeding cycle, or before it, has seen a new frame exactly if that cycle
      is not the first. */
  lemma SeedingFrame(cycles: seq<Cycle>)
    requires cycles != [] && |cycles| <= SeedIndex(cycles) + 1
    ensures Backed(cycles) <==> Seeded(cycles) && |cycles| > 1
  {
    if Seeded(cycles) && |cycles| > 1 {
      assert BackedAt(cycles, |cycles| - 1);
    }
  }

  /** Exactly when a nonzero velocity is backed by a recent frame: it fails if and only if the wheel
      had a velocity before activation and either no cycle has shown a frame yet or the run is only
      its first cycle. */
  lemma NonzeroIsBackedExactly(o: Odom, cycles: seq<Cycle>, cpr: real, side: Side)
    requires cpr != 0.0 && Consistent(cycles) && Fresh(o) && cycles != []
    ensures (Run(o, cycles, cpr).Of(side).velocity != 0.0 ==> Backed(cycles))
            <==> !(o.Of(side).velocity != 0.0 && (!Seeded(cycles) || |cycles| == 1))
  {
    if SeedIndex(cycles) + 1 < |cycles| {
      if Run(o, cycles, cpr).Of(side).velocity != 0.0 {
        var j := NonzeroVelocityIsFresh(o, cycles, cpr, side);
        assert BackedAt(cycles, j);
      }
    } else {
      SeedingKeepsVelocity(o, cycles, cpr, side);
      SeedingFrame(cycles);
    }
  }

  /** For example one cycle, on a snapshot held from before the activation, reports the 1 rad/s from
      before. */
  lemma OldVelocityExample(cpr: real)
    requires cpr != 0.0
    ensures var w := Wheel(0, 0, 0.0, 0.0, 1.0);
      var o := Activate(Odom(true, w, w, 0.0, 1, 0.0, false), 10.0);
      var cycles := [Cycle(Feedback(1, 0, 0, 1, 1, 0.0, 0.0, 0.0), 10.0)];
      Consistent(cycles) && Fresh(o) && Run(o, cycles, cpr).left.velocity == 1.0 && !Backed(cycles)
  {
    var w := Wheel(0, 0, 0.0, 0.0, 1.0);
    var o := Activate(Odom(true, w, w, 0.0, 1, 0.0, false), 10.0);
    var cycles := [Cycle(Feedback(1, 0, 0, 1, 1, 0.0, 0.0, 0.0), 10.0)];
    SeedingFrame(cycles);
    SeedingKeepsVelocity(o, cycles, cpr, Left);
  }

  // ---------- the speed filter ----------

  /** Cycle `i` closes a window and filters its speed in. */
  predicate Fired(o: Odom, cycles: seq<Cycle>, cpr: real, i: nat)
    requires cpr != 0.0 && i < |cycles|
  {
    Run(o, cycles[..i], cpr).ticksInit && cycles[i].feedback.count > 0 && PlanAt(o, cycles, cpr, i).fires
  }

  /** The unfiltered speed of the window that cycle `i` closes. */
  function RawAt(o: Odom, cycles: seq<Cycle>, cpr: real, i: nat, side: Side): real
    requires cpr != 0.0 && i < |cycles| && Fired(o, cycles, cpr, i)
  {
    RawSpeed(cycles[i].feedback.Ticks(side) - Run(o, cycles[..i], cpr).Of(side).measPrev, cpr,
             PlanAt(o, cycles, cpr, i).window)
  }

  lemma AtPrefix(o: Odom, cycles: seq<Cycle>, cpr: real, n: nat, i: nat)
    requires cpr != 0.0 && i < n <= |cycles|
    ensures PlanAt(o, cycles[..n], cpr, i) == PlanAt(o, cycles, cpr, i)
    ensures Fired(o, cycles[..n], cpr, i) == Fired(o, cycles, cpr, i)
    ensures Fired(o, cycles, cpr, i) ==>
              forall side :: RawAt(o, cycles[..n], cpr, i, side) == RawAt(o, cycles, cpr, i, side)
  {
    assert cycles[..n][..i] == cycles[..i];
  }

  /** What the last cycle of a run does to the filtered speed. */
  lemma MeasStep(o: Odom, cycles: seq<Cycle>, cpr: real, side: Side)
    requires cpr != 0.0 && cycles != []
    ensures var n := |cycles| - 1;
      var before, after, p := Run(o, cycles[..n], cpr), Run(o, cycles, cpr), PlanAt(o, cycles, cpr, n);
      after.Of(side).meas ==
        if !before.ticksInit || cycles[n].feedback.count == 0 then before.Of(side).meas
        else
          var meas := if p.timedOut then 0.0 else before.Of(side).meas;
          if p.fires then Smooth(meas, RawAt(o, cycles, cpr, n, side)) else meas
  {
  }

  ghost predicate RawWithin(o: Odom, cycles: seq<Cycle>, cpr: real, side: Side, lo: real, hi: real)
    requires cpr != 0.0
  {
    forall i :: 0 <= i < |cycles| && Fired(o, cycles, cpr, i) ==> lo <= RawAt(o, cycles, cpr, i, side) <= hi
  }

  lemma RawWithinPrefix(o: Odom, cycles: seq<Cycle>, cpr: real, side: Side, lo: real, hi: real, n: nat)
    requires cpr != 0.0 && n <= |cycles| && RawWithin(o, cycles, cpr, side, lo, hi)
    ensures RawWithin(o, cycles[..n], cpr, side, lo, hi)
  {
    forall i | 0 <= i < n && Fired(o, cycles[..n], cpr, i)
      ensures lo <= RawAt(o, cycles[..n], cpr, i, side) <= hi
    {
      AtPrefix(o, cycles, cpr, n, i);
    }
  }

  /** The filter never leaves an interval around zero that holds every window's speed. */
  lemma {:induction false} FilterBounded(o: Odom, cycles: seq<Cycle>, cpr: real, side: Side, lo: real, hi: real)
    requires cpr != 0.0 && Fresh(o) && lo <= 0.0 <= hi && RawWithin(o, cycles, cpr, side, lo, hi)
    ensures lo <= Run(o, cycles, cpr).Of(side).meas <= hi
  {
    if cycles != [] {
      var n := |cycles| - 1;
      RawWithinPrefix(o, cycles, cpr, side, lo, hi, n);
      FilterBounded(o, cycles[..n], cpr, side, lo, hi);
      MeasStep(o, cycles, cpr, side);
    }
  }

  /** `d` after `n` windows: each leaves 0.6 of it. */
  function Decayed(n: nat, d: real): real {
    if n == 0 then d else 0.6 * Decayed(n - 1, d)
  }

  function Power(x: real, n: nat): real {
    if n == 0 then 1.0 else x * Power(x, n - 1)
  }

  lemma {:induction false} DecayedIsGeometric(n: nat, d: real)
    ensures Decayed(n, d) == Power(0.6, n) * d
  {
    if n > 0 {
      DecayedIsGeometric(n - 1, d);
    }
  }

  /** Windows closed by the cycles from `from` on. */
  function FiredSince(o: Odom, cycles: seq<Cycle>, cpr: real, from: nat): nat
    requires cpr != 0.0
    decreases |cycles|
  {
    if |cycles| <= from then 0
    else
      var n := |cycles| - 1;
      FiredSince(o, cycles[..n], cpr, from) + if Fired(o, cycles, cpr, n) then 1 else 0
  }

  /** From cycle `from` on no timeout resets the filter and every window measures `v`. */
  ghost predicate Steady(o: Odom, cycles: seq<Cycle>, cpr: real, side: Side, from: nat, v: real)
    requires cpr != 0.0
  {
    forall i {:trigger Fired(o, cycles, cpr, i)} :: from <= i < |cycles| ==>
      && !PlanAt(o, cycles, cpr, i).timedOut
      && (Fired(o, cycles, cpr, i) ==> RawAt(o, cycles, cpr, i, side) == v)
  }

  lemma SteadyPrefix(o: Odom, cycles: seq<Cycle>, cpr: real, side: Side, from: nat, v: real, n: nat)
    requires cpr != 0.0 && n <= |cycles| && Steady(o, cycles, cpr, side, from, v)
    ensures Steady(o, cycles[..n], cpr, side, from, v)
  {
    forall i | from <= i < n
      ensures !PlanAt(o, cycles[..n], cpr, i).timedOut
      ensures Fired(o, cycles[..n], cpr, i) ==> RawAt(o, cycles[..n], cpr, i, side) == v
    {
      AtPrefix(o, cycles, cpr, n, i);
      assert Fired(o, cycles, cpr, i) ==> RawAt(o, cycles, cpr, i, side) == v;
    }
  }

  /** The error of the filter after the last cycle of a steady run. */
  lemma SteadyStep(o: Odom, cycles: seq<Cycle>, cpr: real, side: Side, from: nat, v: real)
    requires cpr != 0.0 && from < |cycles| && Steady(o, cycles, cpr, side, from, v)
    ensures var n := |cycles| - 1;
      var was, after := Run(o, cycles[..n], cpr).Of(side).meas, Run(o, cycles, cpr).Of(side).meas;
      after == if Fired(o, cycles, cpr, n) then Smooth(was, v) else was
  {
    var n := |cycles| - 1;
    MeasStep(o, cycles, cpr, side);
    assert Fired(o, cycles, cpr, n) ==> RawAt(o, cycles, cpr, n, side) == v;
  }

  /** Each window at a steady speed shrinks the error of the filter to 0.6 of what it was, exactly. */
  lemma {:induction false} FilterConverges(o: Odom, cycles: seq<Cycle>, cpr: real, side: Side, from: nat, v: real)
    requires cpr != 0.0 && from <= |cycles| && Steady(o, cycles, cpr, side, from, v)
    ensures Run(o, cycles, cpr).Of(side).meas - v
         == Decayed(FiredSince(o, cycles, cpr, from), Run(o, cycles[..from], cpr).Of(side).meas - v)
    decreases |cycles|
  {
    if |cycles| == from {
      assert cycles[..from] == cycles;
    } else {
      var n := |cycles| - 1;
      SteadyPrefix(o, cycles, cpr, side, from, v, n);
      FilterConverges(o, cycles[..n], cpr, side, from, v);
      assert cycles[..n][..from] == cycles[..from];
      SteadyStep(o, cycles, cpr, side, from, v);
    }
  }

  // ---------- a wheel that turns steadily ----------

  /** From one snapshot to the next the wheel turned at `v` rad/s of frame time: `cpr` ticks are one
      revolution. */
  ghost predicate TurnedAt(f: Feedback, g: Feedback, cpr: real, side: Side, v: real) {
    2.0 * PI * (g.Ticks(side) - f.Ticks(side)) as real == v * (g.stamp - f.stamp) * cpr
  }

  /** The wheel has turned at `v` rad/s ever since seeding. */
  ghost predicate TurnsAt(cycles: seq<Cycle>, cpr: real, side: Side, v: real) {
    forall i, k :: SeedIndex(cycles) <= k < i < |cycles| ==>
      TurnedAt(cycles[k].feedback, cycles[i].feedback, cpr, side, v)
  }

  /** The window's speed is the angle it turned through divided by its length. */
  lemma RawSpeedIsMean(ticks: int, cpr: real, window: real)
    requires cpr != 0.0 && window != 0.0
    ensures RawSpeed(ticks, cpr, window) * window == Angle(ticks, cpr)
  {
    var t, c := ticks as real, 2.0 * PI / (cpr * window);
    ProductNonzero(cpr, window);
    assert c * (cpr * window) == 2.0 * PI;
    Regroup(t, c, cpr, window);
    QuotientUnique(t * 2.0 * PI, cpr, t * c * window);
  }

  lemma Regroup(t: real, c: real, d: real, w: real)
    ensures t * c * w * d == t * (c * (d * w))
  {
  }

  /** The mean speed between two snapshots. */
  function MeanSpeed(f: Feedback, g: Feedback, cpr: real, side: Side): real
    requires cpr != 0.0 && f.stamp != g.stamp
  {
    RawSpeed(g.Ticks(side) - f.Ticks(side), cpr, g.stamp - f.stamp)
  }

  lemma SteadyMeanSpeed(f: Feedback, g: Feedback, cpr: real, side: Side, v: real)
    requires cpr != 0.0 && f.stamp != g.stamp && TurnedAt(f, g, cpr, side, v)
    ensures MeanSpeed(f, g, cpr, side) == v
  {
    var window, raw, ticks := g.stamp - f.stamp, MeanSpeed(f, g, cpr, side), g.Ticks(side) - f.Ticks(side);
    RawSpeedIsMean(ticks, cpr, window);
    AngleTimes(ticks, cpr);
    Cancelled(raw * window, v * window, cpr);
    Cancelled(raw, v, window);
  }

  /** A wheel that makes `r` revolutions a second turns at 2 pi r. */
  lemma RevolutionsPerSecond(f: Feedback, g: Feedback, cpr: real, side: Side, r: real)
    requires (g.Ticks(side) - f.Ticks(side)) as real == r * (g.stamp - f.stamp) * cpr
    ensures TurnedAt(f, g, cpr, side, 2.0 * PI * r)
  {
    Regrouped(2.0 * PI, r * (g.stamp - f.stamp), cpr);
    Regrouped(2.0 * PI, r, g.stamp - f.stamp);
  }

  /** A window that closes was opened by an earlier snapshot, 40 ms to one second before, and its
      speed is the mean between the two. After a resumption that snapshot is the resuming one or a
      later one. */
  lemma WindowEnds(o: Odom, cycles: seq<Cycle>, cpr: real, side: Side, i: nat) returns (k: nat)
    requires cpr != 0.0 && Consistent(cycles) && Fresh(o) && SeedIndex(cycles) < i < |cycles|
    requires Fired(o, cycles, cpr, i)
    ensures SeedIndex(cycles) <= k < i
    ensures 0.04 <= cycles[i].feedback.stamp - cycles[k].feedback.stamp <= 1.0
    ensures cycles[k].feedback.stamp != cycles[i].feedback.stamp
    ensures RawAt(o, cycles, cpr, i, side) == MeanSpeed(cycles[k].feedback, cycles[i].feedback, cpr, side)
    ensures forall j :: SeedIndex(cycles) < j < i && PlanAt(o, cycles, cpr, j).resumed ==> j <= k
  {
    ConsistentPrefix(cycles, i);
    SeedIndexPrefix(cycles, i);
    WindowsNeedFrames(o, cycles, cpr, i);
    k := WindowAnchor(o, cycles[..i], cpr);
    assert Run(o, cycles[..i], cpr).Of(side).measPrev == cycles[k].feedback.Ticks(side);
    forall j | SeedIndex(cycles) < j < i && PlanAt(o, cycles, cpr, j).resumed
      ensures j <= k
    {
      PlanPrefix(o, cycles, cpr, i, j);
      assert Reanchors(o, cycles[..i], cpr, j);
    }
  }

  /** Then every window measures exactly `v`, whichever frames opened and closed it. */
  lemma SteadyWheelMeasured(o: Odom, cycles: seq<Cycle>, cpr: real, side: Side, v: real, i: nat)
    requires cpr != 0.0 && Consistent(cycles) && Fresh(o) && SeedIndex(cycles) < i < |cycles|
    requires TurnsAt(cycles, cpr, side, v) && Fired(o, cycles, cpr, i)
    ensures RawAt(o, cycles, cpr, i, side) == v
  {
    var k := WindowEnds(o, cycles, cpr, side, i);
    assert TurnedAt(cycles[k].feedback, cycles[i].feedback, cpr, side, v);
    SteadyMeanSpeed(cycles[k].feedback, cycles[i].feedback, cpr, side, v);
  }
}
