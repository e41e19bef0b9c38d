/** When the speed windows close, from the snapshots and the clock alone, and how fast the reported
    speed closes in on that of a steadily turning wheel. */
module SpeedWindows {
  import opened Commands
  import opened WheelFeedback
  import opened Odometry
  import opened Windows

  // ---------- staleness and resumption from the inputs ----------

  /** Some cycle came more than 0.5 s after the last one that saw a new frame. */
  ghost predicate StaleBy(cycles: seq<Cycle>) {
    exists j :: OverdueSince(cycles, j)
  }

  ghost predicate OverdueSince(cycles: seq<Cycle>, j: int) {
    LastSeen(cycles, j) && exists k :: Overdue(cycles, j, k)
  }

  lemma LastSeenUnique(cycles: seq<Cycle>, j: int, i: int)
    requires LastSeen(cycles, j) && LastSeen(cycles, i)
    ensures i == j
  {
  }

  lemma StaleByExactly(o: Odom, cycles: seq<Cycle>, cpr: real)
    requires cpr != 0.0 && Consistent(cycles) && Fresh(o)
    ensures Run(o, cycles, cpr).stale <==> StaleBy(cycles)
  {
    if SeedIndex(cycles) + 1 < |cycles| {
      var j := StaleExactly(o, cycles, cpr);
      if StaleBy(cycles) {
        var i :| OverdueSince(cycles, i);
        LastSeenUnique(cycles, i, j);
      }
      if Run(o, cycles, cpr).stale {
        assert OverdueSince(cycles, j);
      }
    } else {
      NotStaleBeforeSeed(o, cycles, cpr);
    }
  }

  /** Cycle `i` sees frames again after a stale stretch. */
  ghost predicate Resumes(cycles: seq<Cycle>, i: nat)
    requires i < |cycles|
  {
    NewFrame(cycles, i) && StaleBy(cycles[..i])
  }

  // ---------- the open window ----------

  /** The stamps of the snapshots, where frames resume, and where the run is seeded. */
  ghost function TimelineOf(cycles: seq<Cycle>): (t: Timeline)
    ensures |t.stamps| == |cycles| && |t.resumes| == |cycles| && t.seed == SeedIndex(cycles)
  {
    Timeline(
      seq(|cycles|, i requires 0 <= i < |cycles| => cycles[i].feedback.stamp),
      seq(|cycles|, i requires 0 <= i < |cycles| => Resumes(cycles, i)),
      SeedIndex(cycles))
  }

  ghost predicate StampsOf(t: Timeline, cycles: seq<Cycle>) {
    |t.stamps| == |cycles| && forall i :: 0 <= i < |cycles| ==> t.stamps[i] == cycles[i].feedback.stamp
  }

  lemma TimelineStamps(cycles: seq<Cycle>)
    ensures StampsOf(TimelineOf(cycles), cycles)
  {
  }

  lemma StampLapse(t: Timeline, cycles: seq<Cycle>, k: nat, i: nat)
    requires StampsOf(t, cycles) && k < |cycles| && i < |cycles|
    ensures Lapse(t, k, i) == cycles[i].feedback.stamp - cycles[k].feedback.stamp
  {
  }

  /** The open window starts at this snapshot. */
  ghost predicate OpensAt(o: Odom, f: Feedback) {
    o.stampPrev == f.stamp && o.left.measPrev == f.leftTicks && o.right.measPrev == f.rightTicks
  }

  function Planned(p: Plan): Outcome {
    Outcome(p.resumed, p.fires, p.restart)
  }

  lemma PlanFollows(o: Odom, c: Cycle, anchor: Feedback, p: Plan, resumes: bool, lapse: real)
    requires OpensAt(o, anchor) && (resumes <==> c.feedback.count != o.lastCount && o.stale)
    requires p == MakePlan(o, c.feedback, c.now) && lapse == c.feedback.stamp - anchor.stamp
    ensures Planned(p) == OutcomeOf(resumes, lapse)
  {
  }

  lemma OpensNext(o: Odom, c: Cycle, anchor: Feedback, resumes: bool, lapse: real, cpr: real)
    requires cpr != 0.0 && OpensAt(o, anchor) && lapse == c.feedback.stamp - anchor.stamp
    requires resumes <==> c.feedback.count != o.lastCount && o.stale
    ensures OpensAt(Step(o, c.feedback, c.now, cpr),
                    if resumes || lapse < 0.0 || lapse >= 0.04 then c.feedback else anchor)
  {
  }

  /** Whether a cycle resumes, as the state before it has it. */
  lemma ResumesExactly(o: Odom, cycles: seq<Cycle>, cpr: real, i: nat)
    requires cpr != 0.0 && Consistent(cycles) && Fresh(o) && SeedIndex(cycles) < i < |cycles|
    ensures var before := Run(o, cycles[..i], cpr);
      Resumes(cycles, i) <==> cycles[i].feedback.count != before.lastCount && before.stale
  {
    ConsistentPrefix(cycles, i);
    SeedIndexPrefix(cycles, i);
    StaleByExactly(o, cycles[..i], cpr);
    LastCount(o, cycles[..i], cpr);
    assert Follows(cycles[i - 1].feedback, cycles[i].feedback);
    if i == SeedIndex(cycles) + 1 {
      NotStaleBeforeSeed(o, cycles[..i], cpr);
    }
  }

  lemma SeedOpens(o: Odom, cycles: seq<Cycle>, cpr: real)
    requires cpr != 0.0 && Consistent(cycles) && Fresh(o) && Seeded(cycles)
    ensures OpensAt(Run(o, cycles[..SeedIndex(cycles) + 1], cpr), cycles[SeedIndex(cycles)].feedback)
  {
    var k := SeedIndex(cycles);
    var head := cycles[..k + 1];
    ConsistentPrefix(cycles, k + 1);
    SeedIndexPrefix(cycles, k + 1);
    SeedIndexStable(head, k);
    LastCycle(o, head, cpr);
  }

  lemma {:induction false} AnchorIsOpen(o: Odom, cycles: seq<Cycle>, cpr: real, t: Timeline, i: nat)
    requires cpr != 0.0 && Consistent(cycles) && Fresh(o) && SeedIndex(cycles) <= i < |cycles| && t == TimelineOf(cycles)
    ensures OpensAt(Run(o, cycles[..i + 1], cpr), cycles[AnchorAt(t, i)].feedback)
    decreases i
  {
    if i == SeedIndex(cycles) {
      SeedOpens(o, cycles, cpr);
    } else {
      AnchorIsOpen(o, cycles, cpr, t, i - 1);
      CycleAt(o, cycles, cpr, i);
      ResumesExactly(o, cycles, cpr, i);
      var before, k := Run(o, cycles[..i], cpr), AnchorAt(t, i - 1);
      OpensNext(before, cycles[i], cycles[k].feedback, t.resumes[i], Lapse(t, k, i), cpr);
    }
  }

  lemma FiredIsPlanned(o: Odom, cycles: seq<Cycle>, cpr: real, i: nat)
    requires cpr != 0.0 && Consistent(cycles) && Fresh(o) && SeedIndex(cycles) < i < |cycles|
    ensures Fired(o, cycles, cpr, i) <==> PlanAt(o, cycles, cpr, i).fires
  {
    ConsistentPrefix(cycles, i);
    SeedIndexPrefix(cycles, i);
    SeededRun(o, cycles[..i], cpr);
    CountsStayPositive(cycles, SeedIndex(cycles), i);
  }

  /** The state before cycle `i`, as the time line has it. */
  ghost predicate StandsAt(o: Odom, cycles: seq<Cycle>, t: Timeline, i: nat)
    requires Sound(t) && t.seed < i < |t.stamps| && |cycles| == |t.stamps|
  {
    && OpensAt(o, cycles[AnchorAt(t, i - 1)].feedback)
    && (t.resumes[i] <==> cycles[i].feedback.count != o.lastCount && o.stale)
  }

  lemma StateBefore(o: Odom, cycles: seq<Cycle>, cpr: real, t: Timeline, i: nat)
    requires cpr != 0.0 && Consistent(cycles) && Fresh(o) && SeedIndex(cycles) < i < |cycles| && t == TimelineOf(cycles)
    ensures StandsAt(Run(o, cycles[..i], cpr), cycles, t, i)
  {
    AnchorIsOpen(o, cycles, cpr, t, i - 1);
    ResumesExactly(o, cycles, cpr, i);
  }

  lemma PlanFrom(o: Odom, cycles: seq<Cycle>, t: Timeline, i: nat)
    requires Sound(t) && t.seed < i < |t.stamps| && StampsOf(t, cycles) && StandsAt(o, cycles, t, i)
    ensures Planned(MakePlan(o, cycles[i].feedback, cycles[i].now)) == OutcomeAt(t, i)
  {
    var k := AnchorAt(t, i - 1);
    StampLapse(t, cycles, k, i);
    PlanFollows(o, cycles[i], cycles[k].feedback, MakePlan(o, cycles[i].feedback, cycles[i].now), t.resumes[i], Lapse(t, k, i));
  }

  lemma PlanExactly(o: Odom, cycles: seq<Cycle>, cpr: real, t: Timeline, i: nat)
    requires cpr != 0.0 && Consistent(cycles) && Fresh(o) && SeedIndex(cycles) < i < |cycles| && t == TimelineOf(cycles)
    ensures Planned(PlanAt(o, cycles, cpr, i)) == OutcomeAt(t, i)
  {
    TimelineStamps(cycles);
    StateBefore(o, cycles, cpr, t, i);
    PlanFrom(Run(o, cycles[..i], cpr), cycles, t, i);
  }

  /** In every run, from the snapshots and the clock alone: when a cycle resumes, closes its window or
      restarts it. */
  lemma WindowExactly(o: Odom, cycles: seq<Cycle>, cpr: real, t: Timeline, i: nat)
    requires cpr != 0.0 && Consistent(cycles) && Fresh(o) && SeedIndex(cycles) < i < |cycles| && t == TimelineOf(cycles)
    ensures Planned(PlanAt(o, cycles, cpr, i)) == OutcomeAt(t, i)
    ensures Fired(o, cycles, cpr, i) <==> OutcomeAt(t, i).closes
  {
    PlanExactly(o, cycles, cpr, t, i);
    FiredIsPlanned(o, cycles, cpr, i);
  }

  /** The mean speed between two snapshots is the one the wheel turned at. */
  lemma MeanTurned(f: Feedback, g: Feedback, cpr: real, side: Side)
    requires cpr != 0.0 && f.stamp != g.stamp
    ensures TurnedAt(f, g, cpr, side, MeanSpeed(f, g, cpr, side))
  {
    RawSpeedIsMean(g.Ticks(side) - f.Ticks(side), cpr, g.stamp - f.stamp);
    AngleTimes(g.Ticks(side) - f.Ticks(side), cpr);
  }

  lemma RawIsMean(o: Odom, cycles: seq<Cycle>, cpr: real, side: Side, t: Timeline, i: nat)
    requires cpr != 0.0 && Consistent(cycles) && Fresh(o) && SeedIndex(cycles) < i < |cycles| && t == TimelineOf(cycles)
    requires Fired(o, cycles, cpr, i)
    ensures var f, g := cycles[AnchorAt(t, i - 1)].feedback, cycles[i].feedback;
      f.stamp != g.stamp && RawAt(o, cycles, cpr, i, side) == MeanSpeed(f, g, cpr, side)
  {
    WindowExactly(o, cycles, cpr, t, i);
    AnchorIsOpen(o, cycles, cpr, t, i - 1);
  }

  /** The speed a closing window measures is that at which the wheel turned since the window's start:
      the angle over the time. */
  lemma WindowSpeed(o: Odom, cycles: seq<Cycle>, cpr: real, side: Side, t: Timeline, i: nat)
    requires cpr != 0.0 && Consistent(cycles) && Fresh(o) && SeedIndex(cycles) < i < |cycles| && t == TimelineOf(cycles)
    requires Fired(o, cycles, cpr, i)
    ensures TurnedAt(cycles[AnchorAt(t, i - 1)].feedback, cycles[i].feedback, cpr, side, RawAt(o, cycles, cpr, i, side))
  {
    RawIsMean(o, cycles, cpr, side, t, i);
    MeanTurned(cycles[AnchorAt(t, i - 1)].feedback, cycles[i].feedback, cpr, side);
  }

  lemma FiredSinceStep(o: Odom, cycles: seq<Cycle>, cpr: real, from: nat, n: nat)
    requires cpr != 0.0 && from < n <= |cycles|
    ensures FiredSince(o, cycles[..n], cpr, from)
         == FiredSince(o, cycles[..n - 1], cpr, from) + if Fired(o, cycles, cpr, n - 1) then 1 else 0
  {
    assert cycles[..n][..n - 1] == cycles[..n - 1];
    AtPrefix(o, cycles, cpr, n, n - 1);
  }

  lemma {:induction false} FiredAreClosed(o: Odom, cycles: seq<Cycle>, cpr: real, t: Timeline, from: nat, n: nat)
    requires cpr != 0.0 && Consistent(cycles) && Fresh(o) && t == TimelineOf(cycles)
    requires SeedIndex(cycles) < from && SeedIndex(cycles) < n <= |cycles|
    ensures FiredSince(o, cycles[..n], cpr, from) == ClosedBetween(t, from, n)
    decreases n
  {
    if from < n {
      FiredSinceStep(o, cycles, cpr, from, n);
      FiredAreClosed(o, cycles, cpr, t, from, n - 1);
      WindowExactly(o, cycles, cpr, t, n - 1);
    }
  }

  // ---------- a wheel that turns steadily ----------

  ghost predicate StaleAfter(cycles: seq<Cycle>, n: nat)
    requires n <= |cycles|
  {
    StaleBy(cycles[..n])
  }

  /** The feedback is not stale before or after any cycle from `from` on. */
  ghost predicate NeverStale(cycles: seq<Cycle>, from: nat) {
    forall i :: from <= i <= |cycles| ==> !StaleAfter(cycles, i)
  }

  /** From cycle `from` on the stamps never fall and rise by at most `delta` a cycle. */
  predicate RisesInto(cycles: seq<Cycle>, i: nat, delta: real)
    requires 0 < i < |cycles|
  {
    0.0 <= cycles[i].feedback.stamp - cycles[i - 1].feedback.stamp <= delta
  }

  ghost predicate Rises(cycles: seq<Cycle>, from: nat, delta: real)
    requires 0 < from
  {
    forall i :: from <= i < |cycles| ==> RisesInto(cycles, i, delta)
  }

  ghost predicate NoneResume(t: Timeline, from: nat) {
    forall i :: from <= i < |t.resumes| ==> !t.resumes[i]
  }

  lemma NeverResumes(cycles: seq<Cycle>, from: nat)
    requires NeverStale(cycles, from)
    ensures NoneResume(TimelineOf(cycles), from)
  {
    forall i | from <= i < |cycles|
      ensures !TimelineOf(cycles).resumes[i]
    {
      assert !StaleAfter(cycles, i);
    }
  }

  lemma RisesFlows(t: Timeline, cycles: seq<Cycle>, from: nat, delta: real)
    requires Sound(t) && StampsOf(t, cycles) && NoneResume(t, from) && 0 < from && Rises(cycles, from, delta)
    ensures Flows(t, from, delta)
  {
    forall i | from <= i < |cycles|
      ensures FlowsInto(t, i, delta)
    {
      assert RisesInto(cycles, i, delta);
      StampLapse(t, cycles, i - 1, i);
    }
  }

  /** A cycle after which the feedback is not stale times nothing out. */
  lemma NotTimedOut(o: Odom, cycles: seq<Cycle>, cpr: real, i: nat)
    requires cpr != 0.0 && Consistent(cycles) && Fresh(o) && SeedIndex(cycles) < i < |cycles|
    requires !StaleAfter(cycles, i + 1)
    ensures !PlanAt(o, cycles, cpr, i).timedOut
  {
    CycleAt(o, cycles, cpr, i);
    ConsistentPrefix(cycles, i + 1);
    StaleByExactly(o, cycles[..i + 1], cpr);
  }

  lemma SteadyRun(o: Odom, cycles: seq<Cycle>, cpr: real, side: Side, from: nat, v: real)
    requires cpr != 0.0 && Consistent(cycles) && Fresh(o) && SeedIndex(cycles) < from <= |cycles|
    requires TurnsAt(cycles, cpr, side, v) && NeverStale(cycles, from)
    ensures Steady(o, cycles, cpr, side, from, v)
  {
    forall i | from <= i < |cycles|
      ensures !PlanAt(o, cycles, cpr, i).timedOut
      ensures Fired(o, cycles, cpr, i) ==> RawAt(o, cycles, cpr, i, side) == v
    {
      assert !StaleAfter(cycles, i + 1);
      NotTimedOut(o, cycles, cpr, i);
      if Fired(o, cycles, cpr, i) {
        SteadyWheelMeasured(o, cycles, cpr, side, v, i);
      }
    }
  }

  function Abs(x: real): real {
    if x < 0.0 then -x else x
  }

  lemma {:induction false} DecayedShrinks(m: nat, n: nat, d: real)
    requires m <= n
    ensures Abs(Decayed(n, d)) <= Abs(Decayed(m, d))
  {
    if m < n {
      DecayedShrinks(m, n - 1, d);
    }
  }

  /** The windows closed since cycle `from`, by the snapshots. */
  ghost function ClosedSince(cycles: seq<Cycle>, from: nat): nat
    requires SeedIndex(cycles) < from && SeedIndex(cycles) < |cycles|
  {
    ClosedBetween(TimelineOf(cycles), from, |cycles|)
  }

  /** The reported speed of a wheel that turns at `v` closes in on `v` by the factor 0.6 a window. */
  lemma SteadyWheelConverges(o: Odom, cycles: seq<Cycle>, cpr: real, side: Side, from: nat, v: real)
    requires cpr != 0.0 && Consistent(cycles) && Fresh(o) && SeedIndex(cycles) < from < |cycles|
    requires TurnsAt(cycles, cpr, side, v) && NeverStale(cycles, from)
    ensures Run(o, cycles, cpr).Of(side).velocity - v
         == Decayed(ClosedSince(cycles, from), Run(o, cycles[..from], cpr).Of(side).meas - v)
  {
    assert cycles[..|cycles|] == cycles;
    FiredAreClosed(o, cycles, cpr, TimelineOf(cycles), from, |cycles|);
    SteadyRun(o, cycles, cpr, side, from, v);
    FilterConverges(o, cycles, cpr, side, from, v);
    ReportedSpeed(o, cycles, cpr, side);
  }

  /** The frame time since the cycle before `from`. */
  function Elapsed(cycles: seq<Cycle>, from: nat): real
    requires 0 < from <= |cycles|
  {
    cycles[|cycles| - 1].feedback.stamp - cycles[from - 1].feedback.stamp
  }

  lemma RisingWindowsClose(t: Timeline, cycles: seq<Cycle>, from: nat, delta: real)
    requires Sound(t) && StampsOf(t, cycles) && NoneResume(t, from) && t.seed < from <= |cycles|
    requires 0.0 <= delta <= 0.96 && Rises(cycles, from, delta)
    ensures AtRate(ClosedBetween(t, from, |cycles|), Elapsed(cycles, from), delta)
  {
    RisesFlows(t, cycles, from, delta);
    WindowsClose(t, from, |cycles|, delta);
    StampLapse(t, cycles, from - 1, |cycles| - 1);
  }

  /** In a run whose stamps rise by at most `delta` a cycle, the frame time since the cycle before
      `from` has closed this many windows. */
  lemma StampsCloseWindows(cycles: seq<Cycle>, from: nat, delta: real)
    requires SeedIndex(cycles) < from <= |cycles| && SeedIndex(cycles) < |cycles|
    requires 0.0 <= delta <= 0.96 && Rises(cycles, from, delta) && NeverStale(cycles, from)
    ensures AtRate(ClosedSince(cycles, from), Elapsed(cycles, from), delta)
  {
    NeverResumes(cycles, from);
    TimelineStamps(cycles);
    RisingWindowsClose(TimelineOf(cycles), cycles, from, delta);
  }

  /** So the speed settles with time: once the frame time since the cycle before `from` has room for `m`
      windows of 40 ms and `delta`, and 40 ms more, the error is at most 0.6 to the power `m` of what
      it was. */
  lemma SteadyWheelSettles(
    o: Odom, cycles: seq<Cycle>, cpr: real, side: Side, from: nat, v: real, delta: real, m: nat)
    requires cpr != 0.0 && Consistent(cycles) && Fresh(o) && SeedIndex(cycles) < from < |cycles|
    requires TurnsAt(cycles, cpr, side, v) && NeverStale(cycles, from)
    requires 0.0 <= delta <= 0.96 && Rises(cycles, from, delta)
    requires m as real * (0.04 + delta) + 0.04 <= Elapsed(cycles, from)
    ensures Abs(Run(o, cycles, cpr).Of(side).velocity - v)
         <= Abs(Decayed(m, Run(o, cycles[..from], cpr).Of(side).meas - v))
  {
    EnoughWindows(cycles, from, delta, m);
    SteadyWheelConverges(o, cycles, cpr, side, from, v);
    DecayedShrinks(m, ClosedSince(cycles, from), Run(o, cycles[..from], cpr).Of(side).meas - v);
  }

  lemma EnoughWindows(cycles: seq<Cycle>, from: nat, delta: real, m: nat)
    requires SeedIndex(cycles) < from < |cycles|
    requires 0.0 <= delta <= 0.96 && Rises(cycles, from, delta) && NeverStale(cycles, from)
    requires m as real * (0.04 + delta) + 0.04 <= Elapsed(cycles, from)
    ensures m < ClosedSince(cycles, from)
  {
    StampsCloseWindows(cycles, from, delta);
    RoomEnough(m, ClosedSince(cycles, from), Elapsed(cycles, from), delta);
  }

  lemma RoomEnough(m: nat, n: nat, elapsed: real, delta: real)
    requires 0.0 <= delta && AtRate(n, elapsed, delta) && m as real * (0.04 + delta) + 0.04 <= elapsed
    ensures m < n
  {
    TotalTimes(m, 0.04 + delta);
    RateEnough(m, n, elapsed, delta);
  }
}
