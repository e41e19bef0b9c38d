/** The writing side of the hardware interface: command interfaces, output caches and the methods
    that put commands on the wire, with a log of what they put there. */
module HostWriter {
  import opened SeqFacts
  import opened Options
  import opened Crc
  import opened BinaryProtocol
  import opened Wire
  import opened Commands
  import opened Tuning
  import opened KestrelTransport
  import opened Bringup
  import opened HostOutput
  import opened HostMessages
  import Receiver
  import ReceiverRuns
  import StopGrace
  import Led

  const RUNTIME_ACK_TIMEOUT_MS := 20

  /** The clock readings of one write: the cycle's own time, before and after the light is sent, and
      the two of the wheel command. */
  datatype Clock = Clock(time: real, ledCheck: real, ledDone: real, active: real, grace: real)

  class Writer {
    const kestrel: Kestrel
    const config: Configuration
    // Command interfaces.
    var leftCommand: real
    var rightCommand: real
    var pidGpio: SixGpios
    var watchdogGpio: Gpio
    var ledGpio: Led.Command
    // What was last sent.
    var lastActiveTime: real
    var sentPidGains: SixValues
    var sentCmdTimeoutMs: real
    var sentLed: Option<Led.Output>
    var lastLedSend: real
    ghost var log: seq<Command>

    ghost function Output(): Output
      reads this
    {
      HostOutput.Output(log, lastActiveTime, sentPidGains, [sentCmdTimeoutMs], Led.Cache(sentLed, lastLedSend))
    }

    /** The transport is between reads, and the log is what the wire carried. */
    ghost predicate Linked()
      reads this`log, kestrel, kestrel.rx, kestrel.port
    {
      kestrel.Valid() && Logged(kestrel.port.sent, log)
    }

    constructor (k: Kestrel, c: Configuration)
      requires k.Valid() && k.port.sent == []
      ensures Linked() && kestrel == k && config == c && log == []
    {
      kestrel, config := k, c;
      leftCommand, rightCommand := 0.0, 0.0;
      pidGpio, watchdogGpio := [Absent, Absent, Absent, Absent, Absent, Absent], Absent;
      ledGpio := Led.Command(Absent, Absent, Absent, Absent);
      lastActiveTime, sentPidGains, sentCmdTimeoutMs := 0.0, [0.0, 0.0, 0.0, 0.0, 0.0, 0.0], 0.0;
      sentLed, lastLedSend := None, 0.0;
      log := [];
    }

    // ---------- writing ----------

    /** Sends gains and waits for the acknowledgement, whose status decides nothing. */
    method SendGains(gains: seq<int>, w: Wait, timeoutMs: nat)
      requires Linked() && kestrel.port.isOpen && Sound(w, timeoutMs)
      requires |gains| == 6 && forall i :: 0 <= i < 6 ==> Fits(I32, gains[i])
      modifies this`log, kestrel, kestrel.rx, kestrel.port
      ensures Linked() && kestrel.port.isOpen && old(kestrel.port.taken) <= kestrel.port.taken
      ensures log == old(log) + [Gains(gains)]
      ensures kestrel.State() == Acked(old(kestrel.State()), 0x03, w, timeoutMs)
    {
      SaysGains(gains, w.stamp);
      LoggedAppend(kestrel.port.sent, log, PidGains(gains, w.stamp), Gains(gains));
      log := log + [Gains(gains)];
      AskGains(gains, w, timeoutMs);
    }

    method AskGains(gains: seq<int>, w: Wait, timeoutMs: nat)
      requires kestrel.Valid() && kestrel.port.isOpen && Sound(w, timeoutMs)
      requires |gains| == 6 && forall i :: 0 <= i < 6 ==> Fits(I32, gains[i])
      modifies kestrel, kestrel.rx, kestrel.port
      ensures kestrel.Valid() && kestrel.port.isOpen && old(kestrel.port.taken) <= kestrel.port.taken
      ensures kestrel.port.sent == old(kestrel.port.sent) + [PidGains(gains, w.stamp)]
      ensures kestrel.State() == Acked(old(kestrel.State()), 0x03, w, timeoutMs)
    {
      ghost var s := kestrel.State();
      var status := kestrel.SetPIDGains(gains, w, timeoutMs);
      AckedState(s, 0x03, w, timeoutMs, kestrel.State());
    }

    method SendTimeout(ms: int, w: Wait, timeoutMs: nat)
      requires Linked() && kestrel.port.isOpen && Sound(w, timeoutMs) && Fits(U16, ms)
      modifies this`log, kestrel, kestrel.rx, kestrel.port
      ensures Linked() && kestrel.port.isOpen && old(kestrel.port.taken) <= kestrel.port.taken
      ensures log == old(log) + [Timeout(ms)]
      ensures kestrel.State() == Acked(old(kestrel.State()), 0x04, w, timeoutMs)
    {
      SaysTimeout(ms, w.stamp);
      LoggedAppend(kestrel.port.sent, log, CommandTimeout(ms, w.stamp), Timeout(ms));
      log := log + [Timeout(ms)];
      AskTimeout(ms, w, timeoutMs);
    }

    method AskTimeout(ms: int, w: Wait, timeoutMs: nat)
      requires kestrel.Valid() && kestrel.port.isOpen && Sound(w, timeoutMs) && Fits(U16, ms)
      modifies kestrel, kestrel.rx, kestrel.port
      ensures kestrel.Valid() && kestrel.port.isOpen && old(kestrel.port.taken) <= kestrel.port.taken
      ensures kestrel.port.sent == old(kestrel.port.sent) + [CommandTimeout(ms, w.stamp)]
      ensures kestrel.State() == Acked(old(kestrel.State()), 0x04, w, timeoutMs)
    {
      ghost var s := kestrel.State();
      var status := kestrel.SetCommandTimeout(ms, w, timeoutMs);
      AckedState(s, 0x04, w, timeoutMs, kestrel.State());
    }

    /** The gains to have in force: a command that is missing or not finite keeps the last one sent. */
    method CommandedGains() returns (gains: Values)
      ensures gains == Effective(sentPidGains, pidGpio)
    {
      gains := sentPidGains;
      for i := 0 to 6
        invariant |gains| == 6
        invariant forall j :: 0 <= j < i ==> gains[j] == Effective(sentPidGains, pidGpio)[j]
        invariant forall j :: i <= j < 6 ==> gains[j] == sentPidGains[j]
      {
        if pidGpio[i].Finite? {
          gains := gains[i := pidGpio[i].value];
        }
      }
    }

    /** Sends the gains if they changed; the cache follows whatever the acknowledgement says. */
    method WritePidGains(w: Wait)
      requires Linked() && kestrel.port.isOpen && Sound(w, RUNTIME_ACK_TIMEOUT_MS)
      modifies this`log, this`sentPidGains, kestrel, kestrel.rx, kestrel.port
      ensures Linked() && kestrel.port.isOpen && old(kestrel.port.taken) <= kestrel.port.taken
      ensures Output() == WriteGains(old(Output()), pidGpio)
      ensures kestrel.State() == GainsAcked(old(Output()), pidGpio, old(kestrel.State()), w)
    {
      var gains := CommandedGains();
      if gains != sentPidGains {
        SendGains(CastAll(I32, gains), w, RUNTIME_ACK_TIMEOUT_MS);
        sentPidGains := gains;
      }
    }

    method WriteCmdTimeout(w: Wait)
      requires Linked() && kestrel.port.isOpen && Sound(w, RUNTIME_ACK_TIMEOUT_MS)
      modifies this`log, this`sentCmdTimeoutMs, kestrel, kestrel.rx, kestrel.port
      ensures Linked() && kestrel.port.isOpen && old(kestrel.port.taken) <= kestrel.port.taken
      ensures Output() == WriteTimeout(old(Output()), [watchdogGpio])
      ensures kestrel.State() == TimeoutAcked(old(Output()), [watchdogGpio], old(kestrel.State()), w)
    {
      var timeout := if watchdogGpio.Finite? then watchdogGpio.value else sentCmdTimeoutMs;
      assert Effective([sentCmdTimeoutMs], [watchdogGpio]) == [timeout];
      if timeout != sentCmdTimeoutMs {
        assert [timeout][0] != [sentCmdTimeoutMs][0];
        SendTimeout(ClampCast(U16, timeout), w, RUNTIME_ACK_TIMEOUT_MS);
        sentCmdTimeoutMs := timeout;
      }
    }

    /** Gains first, then the timeout. */
    method WriteTuning(gainsWait: Wait, timeoutWait: Wait)
      requires Linked() && kestrel.port.isOpen
      requires Sound(gainsWait, RUNTIME_ACK_TIMEOUT_MS) && Sound(timeoutWait, RUNTIME_ACK_TIMEOUT_MS)
      modifies this`log, this`sentPidGains, this`sentCmdTimeoutMs, kestrel, kestrel.rx, kestrel.port
      ensures Linked() && kestrel.port.isOpen && old(kestrel.port.taken) <= kestrel.port.taken
      ensures Output() == WriteTimeout(WriteGains(old(Output()), pidGpio), [watchdogGpio])
      ensures kestrel.State() == TuningAcked(old(Output()), pidGpio, [watchdogGpio], old(kestrel.State()), gainsWait, timeoutWait)
    {
      WritePidGains(gainsWait);
      WriteCmdTimeout(timeoutWait);
    }

    /** Sends the light if it changed or a second has passed; `check` and `done` are the clock before
        and after. */
    method WriteLed(time: real, check: real, done: real, stamp: Timestamp)
      requires Linked() && kestrel.port.isOpen && ValidStamp(stamp)
      modifies this`log, this`sentLed, this`lastLedSend, kestrel.port
      ensures Linked() && kestrel.port.isOpen && kestrel.port.taken == old(kestrel.port.taken)
      ensures Output() == HostOutput.WriteLed(old(Output()), Led.Write(Led.Wanted(ledGpio, time), check, done))
    {
      if ledGpio.mode.Absent? {
        return;
      }
      var periodMs := if ledGpio.periodMs.Finite? then ledGpio.periodMs.value else 0.0;
      var led := Led.ResolveLed(CastGpio(I32, ledGpio.mode), CastGpio(U32, ledGpio.color),
                                CastGpio(U32, ledGpio.colorAlt), periodMs, time);
      if led.None? {
        return;
      }
      var refreshDue := check - lastLedSend >= Led.REFRESH_SEC;
      if sentLed == led && !refreshDue {
        return;
      }
      SendLight(led.value, stamp);
      sentLed := led;
      lastLedSend := done;
    }

    method SendLight(led: Led.Output, stamp: Timestamp)
      requires Linked() && kestrel.port.isOpen && ValidStamp(stamp)
      requires Fits(U8, led.red) && Fits(U8, led.green) && Fits(U8, led.blue) && Fits(U8, led.fwMode)
      modifies this`log, kestrel.port
      ensures Linked() && kestrel.port.isOpen && kestrel.port.taken == old(kestrel.port.taken)
      ensures log == old(log) + [Light(led)]
    {
      SaysLight(led, stamp);
      LoggedAppend(kestrel.port.sent, log, RgbLed(led.red, led.green, led.blue, led.fwMode, stamp), Light(led));
      log := log + [Light(led)];
      var status := kestrel.SetRGBLED(led.red, led.green, led.blue, led.fwMode, stamp);
    }

    /** A closed port sends nothing. */
    method SendWheels(v: StopGrace.Velocity, stamp: Timestamp)
      requires Linked() && ValidStamp(stamp) && Representable(v.left) && Representable(v.right)
      modifies this`log, kestrel.port
      ensures Linked() && kestrel.port.isOpen == old(kestrel.port.isOpen) && kestrel.port.taken == old(kestrel.port.taken)
      ensures log == if kestrel.port.isOpen then old(log) + [Wheels(v)] else old(log)
      ensures kestrel.port.sent == if kestrel.port.isOpen then old(kestrel.port.sent) + [WheelVelocity(v.left, v.right, stamp)]
                                   else old(kestrel.port.sent)
    {
      SaysWheels(v, stamp);
      LoggedAppend(kestrel.port.sent, log, WheelVelocity(v.left, v.right, stamp), Wheels(v));
      log := if kestrel.port.isOpen then log + [Wheels(v)] else log;
      var status := kestrel.SetWheelVelocity(v.left, v.right, stamp);
    }

    /** The wheel command of a cycle: sent while moving and for a second after. `active` and `grace`
        are the two clock readings. */
    method WriteWheelVelocity(active: real, grace: real, stamp: Timestamp)
      requires Linked() && kestrel.port.isOpen && ValidStamp(stamp)
      requires Representable(leftCommand) && Representable(rightCommand)
      modifies this`log, this`lastActiveTime, kestrel.port
      ensures Linked() && kestrel.port.isOpen && kestrel.port.taken == old(kestrel.port.taken)
      ensures Output() == HostOutput.WriteWheels(
          old(Output()), StopGrace.Write(StopGrace.Velocity(leftCommand, rightCommand), active, grace))
    {
      ghost var o, w := Output(), StopGrace.Write(StopGrace.Velocity(leftCommand, rightCommand), active, grace);
      var stopped := leftCommand == 0.0 && rightCommand == 0.0;
      if !stopped {
        lastActiveTime := active;
      }
      var inStopGrace := grace - lastActiveTime < StopGrace.GRACE_SEC;
      WheelsWritten(o, w, lastActiveTime, !stopped || inStopGrace);
      if !stopped || inStopGrace {
        SendWheels(StopGrace.Velocity(leftCommand, rightCommand), stamp);
      }
    }

    /** The command interfaces and clock readings of a write, as the specification takes them. */
    function Inputs(clock: Clock): (c: Cycle)
      reads this
    {
      Cycle(pidGpio, [watchdogGpio], Led.Write(Led.Wanted(ledGpio, clock.time), clock.ledCheck, clock.ledDone),
            StopGrace.Write(StopGrace.Velocity(leftCommand, rightCommand), clock.active, clock.grace))
    }

    /** One write cycle: tuning, light, wheels. */
    method Write(clock: Clock, gainsWait: Wait, timeoutWait: Wait, ledStamp: Timestamp, wheelStamp: Timestamp)
      requires Linked() && kestrel.port.isOpen
      requires Sound(gainsWait, RUNTIME_ACK_TIMEOUT_MS) && Sound(timeoutWait, RUNTIME_ACK_TIMEOUT_MS)
      requires ValidStamp(ledStamp) && ValidStamp(wheelStamp)
      requires Representable(leftCommand) && Representable(rightCommand)
      modifies this`log, this`sentPidGains, this`sentCmdTimeoutMs, this`sentLed, this`lastLedSend, this`lastActiveTime,
        kestrel, kestrel.rx, kestrel.port
      ensures Linked() && kestrel.port.isOpen && old(kestrel.port.taken) <= kestrel.port.taken
      ensures Output() == WriteCycle(old(Output()), old(Inputs(clock)))
      ensures kestrel.State() == CycleAcked(old(Output()), old(Inputs(clock)), old(kestrel.State()), gainsWait, timeoutWait)
    {
      ghost var o, c := Output(), Inputs(clock);
      WriteTuning(gainsWait, timeoutWait);
      ghost var tuned := Output();
      WriteLightAndWheels(clock, ledStamp, wheelStamp);
      CycleInTurn(o, c, tuned, Output());
    }

    method WriteLightAndWheels(clock: Clock, ledStamp: Timestamp, wheelStamp: Timestamp)
      requires Linked() && kestrel.port.isOpen
      requires ValidStamp(ledStamp) && ValidStamp(wheelStamp)
      requires Representable(leftCommand) && Representable(rightCommand)
      modifies this`log, this`sentLed, this`lastLedSend, this`lastActiveTime, kestrel.port
      ensures Linked() && kestrel.port.isOpen && kestrel.port.taken == old(kestrel.port.taken)
      ensures Output() == WriteWheels(HostOutput.WriteLed(old(Output()), old(Inputs(clock)).led), old(Inputs(clock)).wheel)
    {
      WriteLed(clock.time, clock.ledCheck, clock.ledDone, ledStamp);
      WriteWheelVelocity(clock.active, clock.grace, wheelStamp);
    }

    // ---------- commands ----------

    /** The controllers write the command interfaces. */
    method SetCommands(left: real, right: real, pid: SixGpios, watchdog: Gpio, led: Led.Command)
      modifies this`leftCommand, this`rightCommand, this`pidGpio, this`watchdogGpio, this`ledGpio
      ensures leftCommand == left && rightCommand == right
      ensures pidGpio == pid && watchdogGpio == watchdog && ledGpio == led
    {
      leftCommand, rightCommand, pidGpio, watchdogGpio, ledGpio := left, right, pid, watchdog, led;
    }

    // ---------- activation ----------

    /** The handshake; `ws` is what each attempt meets. */
    method ShakeHands(ws: seq<Wait>) returns (ok: bool)
      requires Linked() && kestrel.port.isOpen && |ws| == MAX_ATTEMPTS && AllSound(ws, ACK_TIMEOUT_MS)
      modifies this`log, kestrel, kestrel.rx, kestrel.port
      ensures Linked() && kestrel.port.isOpen && old(kestrel.port.taken) <= kestrel.port.taken
      ensures var r := Retry(old(kestrel.State()), ws);
        ok == r.ok && log == old(log) + HandshakesAt(Stamps(ws[..r.made]))
          && kestrel.State() == r.state
    {
      ghost var r := Retry(kestrel.State(), ws);
      LoggedHandshakes(kestrel.port.sent, log, Handshakes(ws[..r.made]), Stamps(ws[..r.made]));
      log := log + HandshakesAt(Stamps(ws[..r.made]));
      ok := HandshakeWithRetry(kestrel, ws);
    }

    /** The wheel commands start at the joint states. */
    method FollowJoints(leftVelocity: real, rightVelocity: real)
      modifies this`leftCommand, this`rightCommand
      ensures leftCommand == leftVelocity && rightCommand == rightVelocity
    {
      leftCommand, rightCommand := leftVelocity, rightVelocity;
    }

    /** The caches restart, the configured tuning is sent, and the tuning interfaces are set to it. */
    method Launch(now: real, gainsWait: Wait, timeoutWait: Wait)
      requires Linked() && kestrel.port.isOpen
      requires Sound(gainsWait, ACK_TIMEOUT_MS) && Sound(timeoutWait, ACK_TIMEOUT_MS)
      modifies this`log, this`lastActiveTime, this`sentPidGains, this`sentCmdTimeoutMs, this`sentLed, this`lastLedSend,
        this`pidGpio, this`watchdogGpio, kestrel, kestrel.rx, kestrel.port
      ensures Linked() && kestrel.port.isOpen && old(kestrel.port.taken) <= kestrel.port.taken
      ensures Output() == Activated(old(log), config, now)
      ensures kestrel.State() == ConfigAcked(old(kestrel.State()), gainsWait, timeoutWait)
      ensures pidGpio == Seeded(sentPidGains, old(pidGpio))
      ensures [watchdogGpio] == Seeded([sentCmdTimeoutMs], [old(watchdogGpio)])
    {
      SendConfig(now, gainsWait, timeoutWait);
      SeedCommands();
    }

    /** The caches restart and the configured tuning is sent. */
    method SendConfig(now: real, gainsWait: Wait, timeoutWait: Wait)
      requires Linked() && kestrel.port.isOpen
      requires Sound(gainsWait, ACK_TIMEOUT_MS) && Sound(timeoutWait, ACK_TIMEOUT_MS)
      modifies this`log, this`lastActiveTime, this`sentPidGains, this`sentCmdTimeoutMs, this`sentLed, this`lastLedSend,
        kestrel, kestrel.rx, kestrel.port
      ensures Linked() && kestrel.port.isOpen && old(kestrel.port.taken) <= kestrel.port.taken
      ensures Output() == Activated(old(log), config, now)
      ensures kestrel.State() == ConfigAcked(old(kestrel.State()), gainsWait, timeoutWait)
    {
      ghost var before := log;
      lastActiveTime, lastLedSend, sentLed := now, now, None;
      SendTuning(gainsWait, timeoutWait);
      sentPidGains := Reals(config.gains);
      sentCmdTimeoutMs := config.timeoutMs as real;
      ActivatedBy(before, config, now, Output());
    }

    method SendTuning(gainsWait: Wait, timeoutWait: Wait)
      requires Linked() && kestrel.port.isOpen
      requires Sound(gainsWait, ACK_TIMEOUT_MS) && Sound(timeoutWait, ACK_TIMEOUT_MS)
      modifies this`log, kestrel, kestrel.rx, kestrel.port
      ensures Linked() && kestrel.port.isOpen && old(kestrel.port.taken) <= kestrel.port.taken
      ensures log == old(log) + [Gains(config.gains)] + [Timeout(config.timeoutMs)]
      ensures kestrel.State() == ConfigAcked(old(kestrel.State()), gainsWait, timeoutWait)
    {
      SendGains(config.gains, gainsWait, ACK_TIMEOUT_MS);
      SendTimeout(config.timeoutMs, timeoutWait, ACK_TIMEOUT_MS);
    }

    /** The tuning interfaces are set to what was sent. */
    method SeedCommands()
      modifies this`pidGpio, this`watchdogGpio
      ensures Output() == old(Output())
      ensures pidGpio == Seeded(sentPidGains, old(pidGpio))
      ensures [watchdogGpio] == Seeded([sentCmdTimeoutMs], [old(watchdogGpio)])
    {
      pidGpio := Seeded(sentPidGains, pidGpio);
      if !watchdogGpio.Absent? {
        watchdogGpio := Finite(sentCmdTimeoutMs);
      }
    }

    // ---------- deactivation ----------

    method ZeroCommands()
      modifies this`pidGpio, this`watchdogGpio, this`ledGpio
      ensures pidGpio == Zeroed(old(pidGpio)) && [watchdogGpio] == Zeroed([old(watchdogGpio)])
      ensures var z := Zeroed([old(ledGpio).mode, old(ledGpio).color, old(ledGpio).colorAlt, old(ledGpio).periodMs]);
        ledGpio == Led.Command(z[0], z[1], z[2], z[3])
    {
      pidGpio := Zeroed(pidGpio);
      watchdogGpio := Zeroed([watchdogGpio])[0];
      var z := Zeroed([ledGpio.mode, ledGpio.color, ledGpio.colorAlt, ledGpio.periodMs]);
      ledGpio := Led.Command(z[0], z[1], z[2], z[3]);
    }

    method AskTimestamp(id: Byte, w: Wait)
      requires kestrel.Valid() && Sound(w, ACK_TIMEOUT_MS)
      modifies kestrel, kestrel.rx, kestrel.port
      ensures kestrel.Valid() && kestrel.port.isOpen == old(kestrel.port.isOpen) && old(kestrel.port.taken) <= kestrel.port.taken
      ensures kestrel.port.sent == if kestrel.port.isOpen then old(kestrel.port.sent) + [TimestampOnly(id, w.stamp)]
                                   else old(kestrel.port.sent)
      ensures kestrel.State() == if kestrel.port.isOpen then Acked(old(kestrel.State()), id, w, 3000) else old(kestrel.State())
    {
      ghost var s, isOpen := kestrel.State(), kestrel.port.isOpen;
      var status := kestrel.SendTimestampCommand(id, w, ACK_TIMEOUT_MS);
      if isOpen {
        AckedState(s, id, w, ACK_TIMEOUT_MS, kestrel.State());
      }
    }

    /** A deactivate or a reset, which the log calls `c`. */
    method SendTimestamp(id: Byte, w: Wait, ghost c: Command)
      requires Linked() && Sound(w, ACK_TIMEOUT_MS) && Says(TimestampOnly(id, w.stamp), c)
      modifies this`log, kestrel, kestrel.rx, kestrel.port
      ensures Linked() && kestrel.port.isOpen == old(kestrel.port.isOpen) && old(kestrel.port.taken) <= kestrel.port.taken
      ensures log == if kestrel.port.isOpen then old(log) + [c] else old(log)
      ensures kestrel.port.sent == if kestrel.port.isOpen then old(kestrel.port.sent) + [TimestampOnly(id, w.stamp)]
                                   else old(kestrel.port.sent)
      ensures kestrel.State() == if kestrel.port.isOpen then Acked(old(kestrel.State()), id, w, 3000) else old(kestrel.State())
    {
      LoggedAppend(kestrel.port.sent, log, TimestampOnly(id, w.stamp), c);
      log := if kestrel.port.isOpen then log + [c] else log;
      AskTimestamp(id, w);
    }

    /** On a closed port only the command interfaces are zeroed. */
    method Deactivate(stamp: Timestamp, deactivateWait: Wait, resetWait: Wait)
      requires Linked() && ValidStamp(stamp)
      requires Sound(deactivateWait, ACK_TIMEOUT_MS) && Sound(resetWait, ACK_TIMEOUT_MS)
      modifies this`log, this`pidGpio, this`watchdogGpio, this`ledGpio, kestrel, kestrel.rx, kestrel.port
      ensures Linked() && kestrel.port.isOpen == old(kestrel.port.isOpen) && old(kestrel.port.taken) <= kestrel.port.taken
      ensures log == if kestrel.port.isOpen then old(log) + Farewell(deactivateWait.stamp, resetWait.stamp) else old(log)
      ensures kestrel.port.sent == if kestrel.port.isOpen
                                   then old(kestrel.port.sent) + FarewellMessages(stamp, deactivateWait.stamp, resetWait.stamp)
                                   else old(kestrel.port.sent)
      ensures kestrel.State() == if kestrel.port.isOpen then FarewellAcked(old(kestrel.State()), deactivateWait, resetWait)
                                 else old(kestrel.State())
      ensures pidGpio == Zeroed(old(pidGpio)) && [watchdogGpio] == Zeroed([old(watchdogGpio)])
    {
      ZeroCommands();
      SayFarewell(stamp, deactivateWait, resetWait);
    }

    method SayFarewell(stamp: Timestamp, deactivateWait: Wait, resetWait: Wait)
      requires Linked() && ValidStamp(stamp)
      requires Sound(deactivateWait, ACK_TIMEOUT_MS) && Sound(resetWait, ACK_TIMEOUT_MS)
      modifies this`log, kestrel, kestrel.rx, kestrel.port
      ensures Linked() && kestrel.port.isOpen == old(kestrel.port.isOpen) && old(kestrel.port.taken) <= kestrel.port.taken
      ensures log == if kestrel.port.isOpen then old(log) + Farewell(deactivateWait.stamp, resetWait.stamp) else old(log)
      ensures kestrel.port.sent == if kestrel.port.isOpen
                                   then old(kestrel.port.sent) + FarewellMessages(stamp, deactivateWait.stamp, resetWait.stamp)
                                   else old(kestrel.port.sent)
      ensures kestrel.State() == if kestrel.port.isOpen then FarewellAcked(old(kestrel.State()), deactivateWait, resetWait)
                                 else old(kestrel.State())
    {
      ghost var before, sent := log, kestrel.port.sent;
      ghost var d, r := DeactivateAt(deactivateWait.stamp), ResetAt(resetWait.stamp);
      SendWheels(StopGrace.ZERO, stamp);
      TimestampFields(DEACTIVATE, deactivateWait.stamp);
      SendTimestamp(DEACTIVATE, deactivateWait, d);
      TimestampFields(RESET, resetWait.stamp);
      SendTimestamp(RESET, resetWait, r);
      ThreeMore(before, Wheels(StopGrace.ZERO), d, r);
      ThreeMore(sent, WheelVelocity(0.0, 0.0, stamp), TimestampOnly(DEACTIVATE, deactivateWait.stamp),
                TimestampOnly(RESET, resetWait.stamp));
    }
  }

  // ---------- the receiver after the waits ----------

  /** The wait for the acknowledgement of a sent command has ended. */
  function Acked(s: Receiver.State, id: Byte, w: Wait, timeoutMs: nat): Receiver.State {
    ReceiverRuns.AfterCommand(s, true, id, w.start + timeoutMs, w.polls).state
  }

  lemma AckedState(s: Receiver.State, id: Byte, w: Wait, timeoutMs: nat, t: Receiver.State)
    requires t == ReceiverRuns.AfterCommand(s, true, id, w.start + timeoutMs, w.polls).state
    ensures t == Acked(s, id, w, timeoutMs)
  {
  }

  /** In a write cycle gains are waited for if they are sent, for up to 20 ms. */
  function GainsAcked(o: Output, gains: seq<Gpio>, s: Receiver.State, w: Wait): Receiver.State
    requires ValidOutput(o) && |gains| == 6
  {
    if Effective(o.gains, gains) != o.gains then Acked(s, 0x03, w, 20) else s
  }

  function TimeoutAcked(o: Output, timeout: seq<Gpio>, s: Receiver.State, w: Wait): Receiver.State
    requires ValidOutput(o) && |timeout| == 1
  {
    if Effective(o.timeout, timeout) != o.timeout then Acked(s, 0x04, w, 20) else s
  }

  function TuningAcked(
    o: Output, gains: seq<Gpio>, timeout: seq<Gpio>, s: Receiver.State, gainsWait: Wait, timeoutWait: Wait): Receiver.State
    requires ValidOutput(o) && |gains| == 6 && |timeout| == 1
  {
    TimeoutAcked(o, timeout, GainsAcked(o, gains, s, gainsWait), timeoutWait)
  }

  function CycleAcked(o: Output, c: Cycle, s: Receiver.State, gainsWait: Wait, timeoutWait: Wait): Receiver.State
    requires ValidOutput(o) && ValidCycle(c)
  {
    TuningAcked(o, c.gains, c.timeout, s, gainsWait, timeoutWait)
  }

  /** In an activation both are sent, and waited for up to 3 s each. */
  function ConfigAcked(s: Receiver.State, gainsWait: Wait, timeoutWait: Wait): Receiver.State {
    Acked(Acked(s, 0x03, gainsWait, 3000), 0x04, timeoutWait, 3000)
  }

  function FarewellAcked(s: Receiver.State, deactivateWait: Wait, resetWait: Wait): Receiver.State {
    Acked(Acked(s, 0x08, deactivateWait, 3000), 0x05, resetWait, 3000)
  }

  /** What a deactivation sends. */
  function FarewellMessages(stop: Timestamp, deactivate: Timestamp, reset: Timestamp): seq<Message>
    requires ValidStamp(stop) && ValidStamp(deactivate) && ValidStamp(reset)
  {
    [WheelVelocity(0.0, 0.0, stop)] + [TimestampOnly(0x08, deactivate)] + [TimestampOnly(0x05, reset)]
  }

  function Stamps(ws: seq<Wait>): (stamps: seq<Timestamp>)
    ensures |stamps| == |ws|
  {
    seq(|ws|, i requires 0 <= i < |ws| => ws[i].stamp)
  }
}
