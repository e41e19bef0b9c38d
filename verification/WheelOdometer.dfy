/** The odometry fields of the hardware interface, updated in place: one read cycle computes the
    odometry specification. */
module WheelOdometer {
  import Odometry
  import WheelFeedback

  type Feedback = WheelFeedback.Feedback
  type Odom = Odometry.Odom
  type Wheel = Odometry.Wheel

  /** The fields behind read(): the previous ticks, the speed filter and the joint state interfaces. */
  class Odometer {
    const cpr: real
    var ticksInit: bool
    var leftEncoderPrev: int
    var rightEncoderPrev: int
    var measLeftPrev: int
    var measRightPrev: int
    var measStampPrev: real
    var measLeft: real
    var measRight: real
    var lastWheelCount: nat
    var lastWheelCountChange: real
    var wheelFeedbackStale: bool
    var leftPosition: real
    var rightPosition: real
    var leftVelocity: real
    var rightVelocity: real

    function State(): Odometry.Odom
      reads this
    {
      Odometry.Odom(
        ticksInit,
        Odometry.Wheel(leftEncoderPrev, measLeftPrev, measLeft, leftPosition, leftVelocity),
        Odometry.Wheel(rightEncoderPrev, measRightPrev, measRight, rightPosition, rightVelocity),
        measStampPrev, lastWheelCount, lastWheelCountChange, wheelFeedbackStale)
    }

    constructor (countsPerRevolution: real)
      ensures cpr == countsPerRevolution && Odometry.Fresh(State())
      ensures leftPosition == 0.0 && rightPosition == 0.0
    {
      cpr := countsPerRevolution;
      ticksInit, wheelFeedbackStale, lastWheelCount, lastWheelCountChange := false, false, 0, 0.0;
      leftEncoderPrev, rightEncoderPrev, measLeftPrev, measRightPrev, measStampPrev := 0, 0, 0, 0, 0.0;
      measLeft, measRight, leftPosition, rightPosition, leftVelocity, rightVelocity := 0.0, 0.0, 0.0, 0.0, 0.0, 0.0;
    }

    method Activate(now: real)
      modifies this
      ensures State() == Odometry.Activate(old(State()), now)
    {
      lastWheelCount := 0;
      lastWheelCountChange := now;
      wheelFeedbackStale := false;
      ticksInit := false;
      measLeft, measRight := 0.0, 0.0;
    }

    /** Notes a new frame, or zeroes the speeds when there has been none for too long. */
    method NoteFrame(feedback: Feedback, now: real)
      modifies this
      ensures State() == AfterNote(old(State()), feedback, now)
    {
      if feedback.count != lastWheelCount {
        lastWheelCount := feedback.count;
        lastWheelCountChange := now;
        if wheelFeedbackStale {
          wheelFeedbackStale := false;
          measLeftPrev := feedback.leftTicks;
          measRightPrev := feedback.rightTicks;
          measStampPrev := feedback.stamp;
        }
      } else if now - lastWheelCountChange > Odometry.FEEDBACK_TIMEOUT_SEC {
        wheelFeedbackStale := true;
        measLeft, measRight := 0.0, 0.0;
      }
    }

    /** Closes the speed window if it is long enough, restarts it if it is too long or runs backward. */
    method MeasureSpeed(feedback: Feedback)
      requires cpr != 0.0
      modifies this
      ensures State() == AfterMeasure(old(State()), feedback, cpr)
    {
      var window := feedback.stamp - measStampPrev;
      if window < 0.0 || window > Odometry.LONG_GAP_SEC {
        measLeftPrev := feedback.leftTicks;
        measRightPrev := feedback.rightTicks;
        measStampPrev := feedback.stamp;
      } else if window >= Odometry.WINDOW_SEC {
        var left := Odometry.RawSpeed(feedback.leftTicks - measLeftPrev, cpr, window);
        var right := Odometry.RawSpeed(feedback.rightTicks - measRightPrev, cpr, window);
        measLeft := measLeft + Odometry.EMA_ALPHA * (left - measLeft);
        measRight := measRight + Odometry.EMA_ALPHA * (right - measRight);
        measLeftPrev := feedback.leftTicks;
        measRightPrev := feedback.rightTicks;
        measStampPrev := feedback.stamp;
      }
    }

    /** Turns the new ticks into positions and reports the filtered speeds. */
    method Advance(feedback: Feedback)
      requires cpr != 0.0
      modifies this
      ensures State() == var o := old(State());
        o.(left := Advanced(o.left, feedback.leftTicks, cpr), right := Advanced(o.right, feedback.rightTicks, cpr))
    {
      var leftDelta := feedback.leftTicks - leftEncoderPrev;
      var rightDelta := feedback.rightTicks - rightEncoderPrev;
      leftEncoderPrev := feedback.leftTicks;
      rightEncoderPrev := feedback.rightTicks;
      leftPosition := leftPosition + Odometry.Angle(leftDelta, cpr);
      rightPosition := rightPosition + Odometry.Angle(rightDelta, cpr);
      leftVelocity := measLeft;
      rightVelocity := measRight;
    }

    /** One cycle of the odometry on the transport's current snapshot. */
    method ReadWheels(feedback: Feedback, now: real)
      requires cpr != 0.0
      modifies this
      ensures State() == Odometry.ReadWheels(old(State()), feedback, now, cpr)
    {
      if feedback.count == 0 {
        return;
      }
      if !ticksInit {
        leftEncoderPrev := feedback.leftTicks;
        rightEncoderPrev := feedback.rightTicks;
        measLeftPrev := feedback.leftTicks;
        measRightPrev := feedback.rightTicks;
        measStampPrev := feedback.stamp;
        ticksInit := true;
        return;
      }
      ghost var before := State();
      NoteFrame(feedback, now);
      MeasureSpeed(feedback);
      Advance(feedback);
      InPhases(before, feedback, now, cpr);
    }
  }

  // ---------- a cycle in phases ----------

  function AfterNote(o: Odom, f: Feedback, now: real): Odom {
    if f.count != o.lastCount then
      var t := o.(lastCount := f.count, lastChange := now);
      if o.stale then
        t.(stale := false, stampPrev := f.stamp,
           left := t.left.(measPrev := f.leftTicks), right := t.right.(measPrev := f.rightTicks))
      else t
    else if now - o.lastChange > Odometry.FEEDBACK_TIMEOUT_SEC then
      o.(stale := true, left := o.left.(meas := 0.0), right := o.right.(meas := 0.0))
    else o
  }

  function Measured(w: Wheel, ticks: int, cpr: real, window: real): Wheel
    requires cpr != 0.0 && window != 0.0
  {
    w.(meas := Odometry.Smooth(w.meas, Odometry.RawSpeed(ticks - w.measPrev, cpr, window)), measPrev := ticks)
  }

  function AfterMeasure(o: Odom, f: Feedback, cpr: real): Odom
    requires cpr != 0.0
  {
    var window := f.stamp - o.stampPrev;
    if window < 0.0 || window > Odometry.LONG_GAP_SEC then
      o.(stampPrev := f.stamp, left := o.left.(measPrev := f.leftTicks), right := o.right.(measPrev := f.rightTicks))
    else if window >= Odometry.WINDOW_SEC then
      o.(stampPrev := f.stamp, left := Measured(o.left, f.leftTicks, cpr, window),
         right := Measured(o.right, f.rightTicks, cpr, window))
    else o
  }

  function Advanced(w: Wheel, ticks: int, cpr: real): Wheel
    requires cpr != 0.0
  {
    w.(position := w.position + Odometry.Angle(ticks - w.prev, cpr), prev := ticks, velocity := w.meas)
  }

  lemma InPhases(o: Odom, f: Feedback, now: real, cpr: real)
    requires cpr != 0.0 && o.ticksInit
    ensures var t := AfterMeasure(AfterNote(o, f, now), f, cpr);
      Odometry.Step(o, f, now, cpr)
        == t.(left := Advanced(t.left, f.leftTicks, cpr), right := Advanced(t.right, f.rightTicks, cpr))
  {
  }
}
