/** The wheel command: zeros are repeated for one second after the last motion, then the host goes
    quiet. When that shortcut leaves the board with the command in force, and when it does not. */
module StopGrace {
  import opened Options

  const GRACE_SEC: real := 1.0

  /** A wheel command in rad/s. */
  datatype Velocity = Velocity(left: real, right: real)

  const ZERO := Velocity(0.0, 0.0)

  /** One write cycle: the command, and the two clock readings it takes. The first is taken only
      when the command is not zero. */
  datatype Write = Write(command: Velocity, active: real, grace: real)
  {
    predicate Stopped() { command == ZERO }
  }

  function LastActive(lastActive: real, w: Write): real {
    if w.Stopped() then lastActive else w.active
  }

  /** Whether the cycle sends its command. */
  predicate Sends(lastActive: real, w: Write) {
    !w.Stopped() || w.grace - LastActive(lastActive, w) < GRACE_SEC
  }

  /** The time of the last motion after the cycles, from activation at `start`. */
  function LastActiveAfter(start: real, ws: seq<Write>): real {
    if ws == [] then start else LastActive(LastActiveAfter(start, ws[..|ws| - 1]), ws[|ws| - 1])
  }

  /** The last command sent after the cycles; `before` is the last one sent before them. */
  function LastSent(before: Option<Velocity>, start: real, ws: seq<Write>): Option<Velocity> {
    if ws == [] then before
    else
      var n := |ws| - 1;
      if Sends(LastActiveAfter(start, ws[..n]), ws[n]) then Some(ws[n].command)
      else LastSent(before, start, ws[..n])
  }

  // ---------- zeros are sent exactly in the grace period ----------

  /** The last motion before the end of the run was in cycle `k`. */
  ghost predicate LastMotion(ws: seq<Write>, k: int) {
    0 <= k < |ws| && !ws[k].Stopped() && forall i :: k < i < |ws| ==> ws[i].Stopped()
  }

  ghost predicate NoMotion(ws: seq<Write>) {
    forall i :: 0 <= i < |ws| ==> ws[i].Stopped()
  }

  lemma {:induction false} MotionTime(start: real, ws: seq<Write>)
    ensures NoMotion(ws) ==> LastActiveAfter(start, ws) == start
    ensures forall k :: LastMotion(ws, k) ==> LastActiveAfter(start, ws) == ws[k].active
  {
    if ws != [] {
      var n := |ws| - 1;
      MotionTime(start, ws[..n]);
      if ws[n].Stopped() {
        forall k | LastMotion(ws, k)
          ensures LastMotion(ws[..n], k)
        {
        }
      }
    }
  }

  /** A zero command is sent exactly while less than a second has passed since the last nonzero
      cycle or, if there was none, since activation. */
  lemma ZeroSentInGrace(start: real, ws: seq<Write>, n: nat)
    requires n < |ws| && ws[n].Stopped()
    ensures NoMotion(ws[..n]) ==> (Sends(LastActiveAfter(start, ws[..n]), ws[n]) <==> ws[n].grace - start < 1.0)
    ensures forall k :: LastMotion(ws[..n], k) ==>
              (Sends(LastActiveAfter(start, ws[..n]), ws[n]) <==> ws[n].grace - ws[k].active < 1.0)
  {
    MotionTime(start, ws[..n]);
  }

  // ---------- the shortcut is transparent exactly when stops come promptly ----------

  /** The board's last command after every cycle is the command of that cycle. */
  ghost predicate Transparent(before: Option<Velocity>, start: real, ws: seq<Write>) {
    forall n :: 0 <= n < |ws| ==> CommandInForce(before, start, ws, n)
  }

  ghost predicate CommandInForce(before: Option<Velocity>, start: real, ws: seq<Write>, n: nat)
    requires n < |ws|
  {
    LastSent(before, start, ws[..n + 1]) == Some(ws[n].command)
  }

  /** Cycle `n` moves, follows a stop, or takes its clock reading less than a second after the
      motion it ends (after activation, for the first cycle, unless the board is at zero anyway). */
  predicate Prompt(before: Option<Velocity>, start: real, ws: seq<Write>, n: nat)
    requires n < |ws|
  {
    !ws[n].Stopped()
    || if n == 0 then before == Some(ZERO) || ws[0].grace - start < 1.0
       else ws[n - 1].Stopped() || ws[n].grace - ws[n - 1].active < 1.0
  }

  lemma Prefixes(ws: seq<Write>, n: nat)
    requires n < |ws|
    ensures ws[..n + 1] != [] && ws[..n + 1][..n] == ws[..n] && ws[..n + 1][n] == ws[n]
  {
  }

  /** A cycle that finds its predecessor's command in force leaves its own in force exactly when it
      is prompt. */
  lemma PromptStep(before: Option<Velocity>, start: real, ws: seq<Write>, n: nat)
    requires n < |ws| && (n > 0 ==> CommandInForce(before, start, ws, n - 1))
    ensures CommandInForce(before, start, ws, n) <==> Prompt(before, start, ws, n)
  {
    Prefixes(ws, n);
    if n > 0 {
      PreviousSent(before, start, ws, n - 1);
    } else {
      assert ws[..0] == [];
      assert LastActiveAfter(start, ws[..0]) == start;
      assert LastSent(before, start, ws[..0]) == before;
      assert LastSent(before, start, ws[..1]) == if Sends(start, ws[0]) then Some(ws[0].command) else before;
    }
  }

  /** A cycle that moves is sent and becomes the last motion. */
  lemma PreviousSent(before: Option<Velocity>, start: real, ws: seq<Write>, n: nat)
    requires n < |ws|
    ensures !ws[n].Stopped() ==>
              LastSent(before, start, ws[..n + 1]) == Some(ws[n].command) && LastActiveAfter(start, ws[..n + 1]) == ws[n].active
  {
    Prefixes(ws, n);
  }

  /** For every run, whatever its timing: the board holds the current command after every cycle if
      and only if every cycle is prompt. */
  lemma GoQuietIsTransparent(before: Option<Velocity>, start: real, ws: seq<Write>)
    ensures Transparent(before, start, ws) <==> forall n :: 0 <= n < |ws| ==> Prompt(before, start, ws, n)
  {
    if forall n :: 0 <= n < |ws| ==> Prompt(before, start, ws, n) {
      forall n | 0 <= n < |ws|
        ensures CommandInForce(before, start, ws, n)
      {
        PromptKeepsUp(before, start, ws, n);
      }
    }
    if Transparent(before, start, ws) {
      forall n | 0 <= n < |ws|
        ensures Prompt(before, start, ws, n)
      {
        assert CommandInForce(before, start, ws, n);
        PromptStep(before, start, ws, n);
      }
    }
  }

  lemma {:induction false} PromptKeepsUp(before: Option<Velocity>, start: real, ws: seq<Write>, n: nat)
    requires n < |ws| && forall i :: 0 <= i <= n ==> Prompt(before, start, ws, i)
    ensures CommandInForce(before, start, ws, n)
  {
    if n > 0 {
      PromptKeepsUp(before, start, ws, n - 1);
    }
    PromptStep(before, start, ws, n);
  }

  // ---------- a write loop of less than a second ----------

  /** Readings in order, and less than a second from each cycle, and from activation, to the next. */
  ghost predicate Brisk(start: real, ws: seq<Write>) {
    && (ws != [] ==> ws[0].grace - start < 1.0)
    && forall n :: 0 < n < |ws| ==> ws[n].grace - ws[n - 1].active < 1.0
  }

  /** A write loop whose cycles come less than a second apart is always transparent. */
  lemma BriskIsTransparent(before: Option<Velocity>, start: real, ws: seq<Write>)
    requires Brisk(start, ws)
    ensures Transparent(before, start, ws)
  {
    GoQuietIsTransparent(before, start, ws);
  }

  /** A stop that comes a second or more after the motion it ends is never sent, and as long as the
      command stays zero the board's last command remains the motion. */
  lemma {:induction false} LateStopIsLost(before: Option<Velocity>, start: real, ws: seq<Write>, k: nat, n: nat)
    requires k < n < |ws| && !ws[k].Stopped()
    requires forall i :: k < i <= n ==> ws[i].Stopped() && ws[i].grace - ws[k].active >= 1.0
    ensures LastSent(before, start, ws[..n + 1]) == Some(ws[k].command) != Some(ZERO)
    ensures LastActiveAfter(start, ws[..n + 1]) == ws[k].active
  {
    Prefixes(ws, n);
    if n == k + 1 {
      PreviousSent(before, start, ws, k);
    } else {
      LateStopIsLost(before, start, ws, k, n - 1);
    }
  }

  /** For example one cycle at 1 rad/s, then a stop after a pause of one second. */
  lemma LateStopExample()
    ensures var ws := [Write(Velocity(1.0, 1.0), 0.0, 0.0), Write(ZERO, 1.0, 1.0)];
      !Transparent(None, 0.0, ws) && LastSent(None, 0.0, ws) == Some(Velocity(1.0, 1.0))
  {
    var ws := [Write(Velocity(1.0, 1.0), 0.0, 0.0), Write(ZERO, 1.0, 1.0)];
    LateStopIsLost(None, 0.0, ws, 0, 1);
    assert ws[..2] == ws;
    assert !CommandInForce(None, 0.0, ws, 1);
  }
}
