/** The speed windows on a bare time line: time stamps, and at which of them frames resume. Where each
    window starts, when it closes, and how many close in a time. */
module Windows {
  datatype Timeline = Timeline(stamps: seq<real>, resumes: seq<bool>, seed: nat)

  predicate Sound(t: Timeline) {
    |t.resumes| == |t.stamps| && t.seed < |t.stamps|
  }

  /** The time from stamp `k` to stamp `i`. */
  function Lapse(t: Timeline, k: nat, i: nat): real
    requires k < |t.stamps| && i < |t.stamps|
  {
    t.stamps[i] - t.stamps[k]
  }

  /** Where the window that is open after stamp `i` starts: at the last one that seeded, resumed, or
      found the window run backward or 40 ms or longer. */
  function AnchorAt(t: Timeline, i: nat): (k: nat)
    requires Sound(t) && t.seed <= i < |t.stamps|
    ensures t.seed <= k <= i
  {
    if i == t.seed then i
    else
      var k := AnchorAt(t, i - 1);
      if t.resumes[i] || Lapse(t, k, i) < 0.0 || Lapse(t, k, i) >= 0.04 then i else k
  }

  /** What happens to the window at a stamp. */
  datatype Outcome = Outcome(resumes: bool, closes: bool, restarts: bool)

  /** A window closes exactly if frames do not resume and 40 ms to one second have passed since it
      started, and restarts exactly if that time is negative or longer. */
  function OutcomeOf(resumes: bool, lapse: real): Outcome {
    Outcome(resumes, !resumes && 0.04 <= lapse <= 1.0, !resumes && (lapse < 0.0 || lapse > 1.0))
  }

  function OutcomeAt(t: Timeline, i: nat): Outcome
    requires Sound(t) && t.seed < i < |t.stamps|
  {
    OutcomeOf(t.resumes[i], Lapse(t, AnchorAt(t, i - 1), i))
  }

  /** How many windows close at the stamps from `from` to before `n`. */
  function ClosedBetween(t: Timeline, from: nat, n: nat): nat
    requires Sound(t) && t.seed < from && n <= |t.stamps|
  {
    if n <= from then 0 else ClosedBetween(t, from, n - 1) + if OutcomeAt(t, n - 1).closes then 1 else 0
  }

  // ---------- progress ----------

  /** The time does not fall into stamp `i`, rises by at most `delta`, and frames do not resume. */
  predicate FlowsInto(t: Timeline, i: nat, delta: real)
    requires Sound(t) && 0 < i < |t.stamps|
  {
    0.0 <= Lapse(t, i - 1, i) <= delta && !t.resumes[i]
  }

  ghost predicate Flows(t: Timeline, from: nat, delta: real)
    requires Sound(t) && 0 < from
  {
    forall i :: from <= i < |t.stamps| ==> FlowsInto(t, i, delta)
  }

  /** The open window is shorter than 40 ms. */
  lemma OpenLapse(t: Timeline, i: nat)
    requires Sound(t) && t.seed <= i < |t.stamps|
    ensures 0.0 <= Lapse(t, AnchorAt(t, i), i) < 0.04
  {
  }

  /** While the time flows no window restarts, and a window closes as soon as 40 ms have passed since
      it started. */
  lemma FlowStep(t: Timeline, i: nat, delta: real)
    requires Sound(t) && t.seed < i < |t.stamps| && delta <= 0.96 && FlowsInto(t, i, delta)
    ensures var k := AnchorAt(t, i - 1);
      && (OutcomeAt(t, i).closes <==> Lapse(t, k, i) >= 0.04)
      && AnchorAt(t, i) == (if OutcomeAt(t, i).closes then i else k)
      && 0.0 <= Lapse(t, k, i) < 0.04 + delta
  {
    OpenLapse(t, i - 1);
  }

  /** The sum of `n` terms `x`: the product of the two. */
  function Total(n: nat, x: real): real {
    if n == 0 then 0.0 else Total(n - 1, x) + x
  }

  lemma OneMore(n: nat, x: real)
    ensures (n + 1) as real * x == n as real * x + x
  {
  }

  lemma {:induction false} TotalTimes(n: nat, x: real)
    ensures Total(n, x) == n as real * x
  {
    if n > 0 {
      TotalTimes(n - 1, x);
      OneMore(n - 1, x);
    }
  }

  /** `n` windows, each 40 ms or more and at most 40 ms and `delta`, can cover this time. */
  ghost predicate Covers(n: nat, covered: real, delta: real) {
    Total(n, 0.04) <= covered <= Total(n, 0.04 + delta)
  }

  lemma CoversMore(n: nat, covered: real, lapse: real, delta: real)
    requires Covers(n, covered, delta) && 0.04 <= lapse <= 0.04 + delta
    ensures Covers(n + 1, covered + lapse, delta)
  {
  }

  /** The windows that close cover the time from the start of the one open before to the start of the
      one open after. */
  lemma {:induction false} WindowsCover(t: Timeline, from: nat, n: nat, delta: real)
    requires Sound(t) && t.seed < from <= n <= |t.stamps| && 0.0 <= delta <= 0.96 && Flows(t, from, delta)
    ensures Covers(ClosedBetween(t, from, n), Lapse(t, AnchorAt(t, from - 1), AnchorAt(t, n - 1)), delta)
    decreases n
  {
    if from < n {
      WindowsCover(t, from, n - 1, delta);
      assert FlowsInto(t, n - 1, delta);
      FlowStep(t, n - 1, delta);
      if OutcomeAt(t, n - 1).closes {
        CoversMore(ClosedBetween(t, from, n - 1), Lapse(t, AnchorAt(t, from - 1), AnchorAt(t, n - 2)),
                   Lapse(t, AnchorAt(t, n - 2), n - 1), delta);
      }
    }
  }

  /** `elapsed` time closes more than (elapsed - 40 ms) / (40 ms + delta) windows, and fewer than
      (elapsed + 40 ms) / 40 ms. */
  ghost predicate AtRate(n: nat, elapsed: real, delta: real) {
    elapsed - 0.04 < Total(n, 0.04 + delta) && Total(n, 0.04) < elapsed + 0.04
  }

  lemma CoversAtRate(n: nat, covered: real, elapsed: real, delta: real)
    requires Covers(n, covered, delta) && elapsed - 0.04 < covered < elapsed + 0.04
    ensures AtRate(n, elapsed, delta)
  {
  }

  /** While the time flows the windows close at this rate. */
  lemma WindowsClose(t: Timeline, from: nat, n: nat, delta: real)
    requires Sound(t) && t.seed < from <= n <= |t.stamps| && 0.0 <= delta <= 0.96 && Flows(t, from, delta)
    ensures AtRate(ClosedBetween(t, from, n), Lapse(t, from - 1, n - 1), delta)
  {
    WindowsCover(t, from, n, delta);
    OpenLapse(t, from - 1);
    OpenLapse(t, n - 1);
    CoversAtRate(ClosedBetween(t, from, n), Lapse(t, AnchorAt(t, from - 1), AnchorAt(t, n - 1)),
                 Lapse(t, from - 1, n - 1), delta);
  }

  lemma {:induction false} TotalGrows(n: nat, m: nat, x: real)
    requires x >= 0.0 && n <= m
    ensures Total(n, x) <= Total(m, x)
  {
    if n < m {
      TotalGrows(n, m - 1, x);
    }
  }

  /** So with room for `m` windows of 40 ms and `delta`, and 40 ms more, more than `m` close. */
  lemma RateEnough(m: nat, n: nat, elapsed: real, delta: real)
    requires 0.0 <= delta && AtRate(n, elapsed, delta) && Total(m, 0.04 + delta) + 0.04 <= elapsed
    ensures m < n
  {
    if n <= m {
      TotalGrows(n, m, 0.04 + delta);
    }
  }
}
