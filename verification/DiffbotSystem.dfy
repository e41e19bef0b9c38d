/** The hardware interface: the odometry and the writer over one transport. Every operation keeps the
    records of what was looked at and written since activation, and the state stays what the records
    lead to; the guarantees of whole runs follow for any sequence of operations. */
module DiffbotSystem {
  import opened Options
  import opened Crc
  import opened BinaryProtocol
  import opened StreamScanner
  import opened Commands
  import opened Tuning
  import opened KestrelTransport
  import opened WheelOdometer
  import opened Bringup
  import opened HostWriter
  import opened HostOutput
  import opened HostMessages
  import opened SystemHistory
  import Receiver
  import Odometry
  import WheelFeedback
  import EndToEnd
  import StopGrace
  import Led

  class DiffbotSystem {
    const kestrel: Kestrel
    const odometer: Odometer
    const writer: Writer
    // The records since activation.
    ghost var odomStart: Odometry.Odom
    ghost var looks: seq<EndToEnd.Look>
    ghost var active: bool
    ghost var outputStart: Output
    ghost var writes: seq<Cycle>

    /** The odometry is where the looks since activation lead. */
    ghost predicate Tracking()
      reads this`odomStart, this`looks, kestrel.port, odometer
    {
      odometer.cpr != 0.0 && Explains(odomStart, looks, odometer.State(), odometer.cpr) && Behind(looks, kestrel.port.taken)
    }

    /** While active, the caches and the log are where the writes since activation lead. */
    ghost predicate Sending()
      reads this`active, this`outputStart, this`writes, writer
    {
      active ==> Follows(outputStart, writes, writer.Output())
    }

    ghost predicate Valid()
      reads this, kestrel, kestrel.rx, kestrel.port, odometer, writer
    {
      writer.kestrel == kestrel && writer.Linked() && Tracking() && Sending()
    }

    constructor (countsPerRevolution: real, c: Configuration)
      requires countsPerRevolution != 0.0
      ensures Valid() && fresh(kestrel) && fresh(kestrel.rx) && fresh(kestrel.port) && fresh(odometer) && fresh(writer)
      ensures !active && looks == [] && writer.log == [] && kestrel.port.taken == []
    {
      var k := new Kestrel();
      var o := new Odometer(countsPerRevolution);
      var w := new Writer(k, c);
      kestrel, odometer, writer := k, o, w;
      odomStart, looks, active, writes := o.State(), [], false, [];
    }

    /** One read cycle: `raw` is what the port has, `now` the clock. */
    method Read(raw: seq<Byte>, now: real) returns (ok: bool)
      requires Valid()
      modifies this`looks, kestrel, kestrel.rx, kestrel.port`taken, odometer
      ensures Valid() && ok == kestrel.port.isOpen
      ensures kestrel.port.taken == if ok then old(kestrel.port.taken) + raw else old(kestrel.port.taken)
      ensures looks == if ok then old(looks) + [EndToEnd.Look(kestrel.port.taken, now)] else old(looks)
    {
      ok := kestrel.port.isOpen;
      if ok {
        Drain(raw);
        ReadWheels(now);
      }
    }

    /** What the port has goes through the receiver. */
    method Drain(raw: seq<Byte>)
      requires Valid() && kestrel.port.isOpen
      modifies kestrel, kestrel.rx, kestrel.port`taken
      ensures Valid() && kestrel.port.taken == old(kestrel.port.taken) + raw
    {
      kestrel.Read(raw);
      BehindGrows(looks, old(kestrel.port.taken), kestrel.port.taken);
    }

    method ReadWheels(now: real)
      requires kestrel.Valid() && Tracking()
      modifies this`looks, odometer
      ensures Tracking() && looks == old(looks) + [EndToEnd.Look(kestrel.port.taken, now)]
      ensures odometer.State() == Odometry.ReadWheels(old(odometer.State()), kestrel.Feedback(), now, odometer.cpr)
    {
      ghost var look := EndToEnd.Look(kestrel.port.taken, now);
      ExplainsLook(odomStart, looks, odometer.State(), odometer.cpr, look);
      var feedback := kestrel.Feedback();
      odometer.ReadWheels(feedback, now);
      looks := looks + [look];
    }

    /** One write cycle. */
    method Write(clock: Clock, gainsWait: Wait, timeoutWait: Wait, ledStamp: Timestamp, wheelStamp: Timestamp)
      returns (ok: bool)
      requires Valid()
      requires Sound(gainsWait, 20) && Sound(timeoutWait, 20)
      requires ValidStamp(ledStamp) && ValidStamp(wheelStamp)
      requires Representable(writer.leftCommand) && Representable(writer.rightCommand)
      modifies this`writes, writer`log, writer`sentPidGains, writer`sentCmdTimeoutMs, writer`sentLed, writer`lastLedSend,
        writer`lastActiveTime, kestrel, kestrel.rx, kestrel.port
      ensures Valid() && ok == old(kestrel.port.isOpen) && kestrel.port.isOpen == ok
      ensures writer.Output() == if ok then WriteCycle(old(writer.Output()), old(writer.Inputs(clock))) else old(writer.Output())
      ensures writes == if ok then old(writes) + [old(writer.Inputs(clock))] else old(writes)
      ensures kestrel.State() == if ok then CycleAcked(old(writer.Output()), old(writer.Inputs(clock)), old(kestrel.State()),
                                                       gainsWait, timeoutWait)
                                 else old(kestrel.State())
    {
      ok := kestrel.port.isOpen;
      if ok {
        ghost var o, c := writer.Output(), writer.Inputs(clock);
        writer.Write(clock, gainsWait, timeoutWait, ledStamp, wheelStamp);
        BehindGrows(looks, old(kestrel.port.taken), kestrel.port.taken);
        if active {
          FollowsWrite(outputStart, writes, o, c);
        }
        writes := writes + [c];
      }
    }

    /** Activation: the wheel commands follow the joints, the port is opened and hands are shaken, and
        if that works everything restarts at `now`. `opens` says whether the device opens,
        `handshakes` what each attempt meets. */
    method Activate(opens: bool, handshakes: seq<Wait>, now: real, gainsWait: Wait, timeoutWait: Wait) returns (ok: bool)
      requires Valid() && !active
      requires |handshakes| == 10 && AllSound(handshakes, 3000)
      requires Sound(gainsWait, 3000) && Sound(timeoutWait, 3000)
      modifies this, kestrel, kestrel.rx, kestrel.port, odometer, writer
      ensures Valid() && active == ok && kestrel.port.isOpen == (old(kestrel.port.isOpen) || opens)
      ensures ok == (kestrel.port.isOpen && Retry(old(kestrel.State()), handshakes).ok)
      ensures writer.leftCommand == old(odometer.leftVelocity) && writer.rightCommand == old(odometer.rightVelocity)
      ensures ok ==> Started(old(odometer.State()), old(writer.log) + Attempted(old(kestrel.State()), handshakes), now)
      ensures ok ==> writer.pidGpio == Seeded(writer.sentPidGains, old(writer.pidGpio))
                     && [writer.watchdogGpio] == Seeded([writer.sentCmdTimeoutMs], [old(writer.watchdogGpio)])
      ensures !ok ==> writer.log == if kestrel.port.isOpen then old(writer.log) + Attempted(old(kestrel.State()), handshakes)
                                    else old(writer.log)
      ensures !ok ==> odometer.State() == old(odometer.State()) && looks == old(looks)
                      && writer.pidGpio == old(writer.pidGpio) && writer.watchdogGpio == old(writer.watchdogGpio)
      ensures odometer.leftPosition == old(odometer.leftPosition) && odometer.rightPosition == old(odometer.rightPosition)
      ensures kestrel.State() == var shaken := if kestrel.port.isOpen then Retry(old(kestrel.State()), handshakes).state
                                               else old(kestrel.State());
        if ok then ConfigAcked(shaken, gainsWait, timeoutWait) else shaken
    {
      writer.FollowJoints(odometer.leftVelocity, odometer.rightVelocity);
      ok := BringUp(opens, handshakes);
      if ok {
        Start(now, gainsWait, timeoutWait);
      }
    }

    /** Everything has restarted: odometry, caches, and the configured tuning sent after `log`. */
    ghost predicate Started(before: Odometry.Odom, log: seq<Command>, now: real)
      reads this`looks, this`writes, odometer, writer
    {
      && looks == [] && writes == []
      && odometer.State() == Odometry.Activate(before, now)
      && writer.Output() == Activated(log, writer.config, now)
      && writer.lastActiveTime == now && writer.lastLedSend == now && writer.sentLed == None
      && writer.log == log + [Gains(writer.config.gains)] + [Timeout(writer.config.timeoutMs)]
    }

    method BringUp(opens: bool, handshakes: seq<Wait>) returns (ok: bool)
      requires Valid() && !active && |handshakes| == 10 && AllSound(handshakes, 3000)
      modifies kestrel, kestrel.rx, kestrel.port, writer`log
      ensures Valid() && kestrel.port.isOpen == (old(kestrel.port.isOpen) || opens)
      ensures ok == (kestrel.port.isOpen && Retry(old(kestrel.State()), handshakes).ok)
      ensures writer.log == if kestrel.port.isOpen then old(writer.log) + Attempted(old(kestrel.State()), handshakes)
                            else old(writer.log)
      ensures kestrel.State() == if kestrel.port.isOpen then Retry(old(kestrel.State()), handshakes).state
                                 else old(kestrel.State())
    {
      ok := kestrel.Connect(opens);
      if ok {
        ok := writer.ShakeHands(handshakes);
        BehindGrows(looks, old(kestrel.port.taken), kestrel.port.taken);
      }
    }

    method Start(now: real, gainsWait: Wait, timeoutWait: Wait)
      requires Valid() && kestrel.port.isOpen
      requires Sound(gainsWait, 3000) && Sound(timeoutWait, 3000)
      modifies this, kestrel, kestrel.rx, kestrel.port, odometer, writer
      ensures Valid() && kestrel.port.isOpen && active
      ensures Started(old(odometer.State()), old(writer.log), now)
      ensures odometer.leftPosition == old(odometer.leftPosition) && odometer.rightPosition == old(odometer.rightPosition)
      ensures kestrel.State() == ConfigAcked(old(kestrel.State()), gainsWait, timeoutWait)
      ensures writer.leftCommand == old(writer.leftCommand) && writer.rightCommand == old(writer.rightCommand)
      ensures writer.pidGpio == Seeded(writer.sentPidGains, old(writer.pidGpio))
      ensures [writer.watchdogGpio] == Seeded([writer.sentCmdTimeoutMs], [old(writer.watchdogGpio)])
    {
      StartOdometry(now);
      StartOutputs(now, gainsWait, timeoutWait);
    }

    method StartOutputs(now: real, gainsWait: Wait, timeoutWait: Wait)
      requires writer.kestrel == kestrel && writer.Linked() && kestrel.port.isOpen
      requires Sound(gainsWait, 3000) && Sound(timeoutWait, 3000)
      modifies this`active, this`writes, this`outputStart, kestrel, kestrel.rx, kestrel.port, writer
      ensures writer.Linked() && Sending() && kestrel.port.isOpen && active && writes == []
      ensures writer.Output() == Activated(old(writer.log), writer.config, now)
      ensures kestrel.State() == ConfigAcked(old(kestrel.State()), gainsWait, timeoutWait)
      ensures writer.leftCommand == old(writer.leftCommand) && writer.rightCommand == old(writer.rightCommand)
      ensures writer.pidGpio == Seeded(writer.sentPidGains, old(writer.pidGpio))
      ensures [writer.watchdogGpio] == Seeded([writer.sentCmdTimeoutMs], [old(writer.watchdogGpio)])
    {
      ActivationHolds(writer.log, writer.config, now);
      FollowsStart(Activated(writer.log, writer.config, now));
      active, writes, outputStart := true, [], Activated(writer.log, writer.config, now);
      writer.Launch(now, gainsWait, timeoutWait);
    }

    method StartOdometry(now: real)
      requires Tracking()
      modifies this`odomStart, this`looks, odometer
      ensures Tracking() && looks == []
      ensures odometer.State() == Odometry.Activate(old(odometer.State()), now)
      ensures odometer.leftPosition == old(odometer.leftPosition) && odometer.rightPosition == old(odometer.rightPosition)
    {
      ExplainsStart(odometer.State(), now, odometer.cpr);
      odometer.Activate(now);
      odomStart, looks := odometer.State(), [];
    }

    /** Deactivation: the command interfaces are zeroed, and on an open port a stop is sent, then
        deactivate and reset, in this order. */
    method Deactivate(stamp: Timestamp, deactivateWait: Wait, resetWait: Wait)
      requires Valid() && ValidStamp(stamp)
      requires Sound(deactivateWait, 3000) && Sound(resetWait, 3000)
      modifies this`active, kestrel, kestrel.rx, kestrel.port, writer
      ensures Valid() && kestrel.port.isOpen == old(kestrel.port.isOpen) && !active
      ensures kestrel.port.sent == if kestrel.port.isOpen
                                   then old(kestrel.port.sent) + FarewellMessages(stamp, deactivateWait.stamp, resetWait.stamp)
                                   else old(kestrel.port.sent)
      ensures writer.log == if kestrel.port.isOpen then old(writer.log) + Farewell(deactivateWait.stamp, resetWait.stamp)
                            else old(writer.log)
      ensures kestrel.State() == if kestrel.port.isOpen then FarewellAcked(old(kestrel.State()), deactivateWait, resetWait)
                                 else old(kestrel.State())
      ensures writer.pidGpio == Zeroed(old(writer.pidGpio))
      ensures [writer.watchdogGpio] == Zeroed([old(writer.watchdogGpio)])
    {
      active := false;
      writer.Deactivate(stamp, deactivateWait, resetWait);
      BehindGrows(looks, old(kestrel.port.taken), kestrel.port.taken);
    }

    /** The controllers write the command interfaces. */
    method SetCommands(left: real, right: real, pid: SixGpios, watchdog: Gpio, led: Led.Command)
      requires Valid()
      modifies writer`leftCommand, writer`rightCommand, writer`pidGpio, writer`watchdogGpio, writer`ledGpio
      ensures Valid() && writer.leftCommand == left && writer.rightCommand == right
      ensures writer.pidGpio == pid && writer.watchdogGpio == watchdog && writer.ledGpio == led
      ensures writer.Output() == old(writer.Output())
    {
      writer.SetCommands(left, right, pid, watchdog, led);
    }

    /** The device goes away. */
    method Disconnect()
      requires Valid()
      modifies kestrel.port`isOpen
      ensures Valid() && !kestrel.port.isOpen
    {
      kestrel.port.isOpen := false;
    }

    // ---------- what holds after any sequence of operations ----------

    /** Each wheel has moved since activation by the ticks between the frame that seeded it and the
        latest frame among the bytes of the last look. */
    lemma PositionFollowsTicks(side: WheelFeedback.Side, k: nat)
      requires Valid() && k < |looks| && EndToEnd.Seeds(looks, k)
      ensures EndToEnd.FramesIn(looks[|looks| - 1].stream) != []
      ensures Odometry.Travelled(
        odomStart.Of(side), odometer.State().Of(side), EndToEnd.LatestFrame(looks[k].stream).Ticks(side),
        EndToEnd.LatestFrame(looks[|looks| - 1].stream).Ticks(side), odometer.cpr)
    {
      EndToEnd.BytesToPosition(looks, odomStart, odometer.cpr, side, k);
    }

    /** With `c` counts to a revolution, a wheel whose ticks advanced by `n` revolutions since the
        seeding frame has turned by `n` times two pi since activation. */
    lemma RevolutionsTurned(side: WheelFeedback.Side, k: nat, c: int, n: int)
      requires Valid() && k < |looks| && EndToEnd.Seeds(looks, k) && odometer.cpr == c as real
      requires EndToEnd.FramesIn(looks[|looks| - 1].stream) != []
      requires EndToEnd.LatestFrame(looks[|looks| - 1].stream).Ticks(side)
            == EndToEnd.LatestFrame(looks[k].stream).Ticks(side) + n * c
      ensures odometer.State().Of(side).position == odomStart.Of(side).position + 2.0 * PI * n as real
    {
      EndToEnd.BytesToRevolutions(looks, odomStart, side, k, c, n);
    }

    /** While the feedback is stale the reported velocities are exactly zero. */
    lemma StaleReportsZero()
      requires Valid()
      ensures Odometry.Silent(odometer.State())
    {
      EndToEnd.BytesStaleMeansZero(looks, odomStart, odometer.cpr);
    }

    /** From the second look after seeding on, a nonzero velocity means that the last bytes to complete
        a new frame came in within the last 0.5 s. */
    lemma NonzeroVelocityIsRecent(side: WheelFeedback.Side, k: nat) returns (j: nat)
      requires Valid() && k + 1 < |looks| && EndToEnd.Seeds(looks, k)
      requires odometer.State().Of(side).velocity != 0.0
      ensures k < j && EndToEnd.LastArrival(looks, j)
      ensures looks[|looks| - 1].now - looks[j].now <= 0.5
    {
      j := ExplainedRecent(odomStart, looks, odometer.State(), odometer.cpr, side, k);
    }

    /** And in general exactly unless the wheel had a velocity at activation and no frame has been
        parsed since the transport was made, or there has been only one look. */
    lemma NonzeroVelocityExactly(side: WheelFeedback.Side)
      requires Valid() && looks != []
      ensures (odometer.State().Of(side).velocity != 0.0 ==> EndToEnd.RecentBytes(looks))
              <==> !(odomStart.Of(side).velocity != 0.0
                     && (EndToEnd.FramesIn(looks[|looks| - 1].stream) == [] || |looks| == 1))
    {
      EndToEnd.BytesBackedExactly(looks, odomStart, odometer.cpr, side);
    }

    /** A board that scans the bytes on the wire, in whatever pieces, goes by the casts of the gains,
        and of the timeout, in force: those of `values`. */
    lemma BoardHoldsTuning(chunks: seq<seq<Byte>>, kind: Kind) returns (values: Values)
      requires Valid() && active && Concat(chunks) == kestrel.port.tx && Tuned(kind)
      ensures var seed, cmds := CacheOf(outputStart, kind), TuningOf(writes, kind);
        |values| == |seed| && Sized(|seed|, cmds) && AllInForce(seed, cmds, values)
      ensures kind.TIMEOUT? ==> |values| == 1
      ensures BoardGoesBy(chunks, kind, TuningCommand(values, kind))
    {
      values := CacheOf(writer.Output(), kind);
      HostOutput.BoardHoldsTuning(outputStart, writes, kind);
      BoardGoesByLog(kestrel.port.sent, writer.log, chunks, kind, TuningCommand(values, kind));
    }

    /** A board that scans the bytes on the wire, in whatever pieces, reads the commands of the log and
        no others. */
    lemma BoardReadsCommands(chunks: seq<seq<Byte>>)
      requires Valid() && Concat(chunks) == kestrel.port.tx
      ensures var p := ParseChunks([], chunks); p.errors == 0 && p.residual == [] && Logged(p.messages, writer.log)
    {
      BoardReadsLog(kestrel.port.sent, writer.log, chunks);
    }

    /** After a deactivation it has read, last, a stop of both wheels, a deactivate and a reset. */
    lemma BoardReadsFarewell(chunks: seq<seq<Byte>>, before: seq<Command>, deactivate: Timestamp, reset: Timestamp)
      requires Valid() && Concat(chunks) == kestrel.port.tx && writer.log == before + Farewell(deactivate, reset)
      ensures var p, n := ParseChunks([], chunks), |before|;
        && p.errors == 0 && |p.messages| == n + 3
        && SaysFarewell(p.messages[n], p.messages[n + 1], p.messages[n + 2], deactivate, reset)
    {
      FarewellRead(kestrel.port.sent, before, chunks, deactivate, reset);
    }

    /** As long as no stop came a second or more after the motion it ended, it goes by the wheel
        command of the last write. */
    lemma BoardHoldsVelocity(chunks: seq<seq<Byte>>)
      requires Valid() && active && writes != [] && Concat(chunks) == kestrel.port.tx
      requires forall n :: 0 <= n < |writes| ==>
        StopGrace.Prompt(WheelsHeld(outputStart.log), outputStart.lastActive, WheelsOf(writes), n)
      ensures BoardGoesBy(chunks, WHEELS, Wheels(writes[|writes| - 1].wheel.command))
    {
      BoardHoldsWheels(outputStart, writes);
      assert HoldsVelocity(outputStart, writes, |writes| - 1);
      assert writes[..|writes| - 1 + 1] == writes;
      BoardGoesByLog(kestrel.port.sent, writer.log, chunks, WHEELS, Wheels(writes[|writes| - 1].wheel.command));
    }

    /** After a write whose led commands resolve, it goes by that light, which was sent in that write
        or, by its clock, less than a second before, in write `k`. */
    lemma BoardShowsLight(chunks: seq<seq<Byte>>) returns (k: nat)
      requires Valid() && active && writes != [] && writes[|writes| - 1].led.wants.Some?
      requires Concat(chunks) == kestrel.port.tx
      ensures BoardGoesBy(chunks, LIGHT, Light(writes[|writes| - 1].led.wants.value))
      ensures Led.LastSend(outputStart.led.lastSend, LedsOf(writes), k)
      ensures k == |writes| - 1 || writes[|writes| - 1].led.check - writes[k].led.done < 1.0
    {
      k := LightOnWire(outputStart, writes, writer.Output(), kestrel.port.sent, chunks);
    }
  }

  /** The handshakes that are tried from receiver state `s` on. */
  function Attempted(s: Receiver.State, ws: seq<Wait>): seq<Command> {
    HandshakesAt(Stamps(ws[..Retry(s, ws).made]))
  }

  lemma LightOnWire(start: Output, writes: seq<Cycle>, o: Output, sent: seq<Message>, chunks: seq<seq<Byte>>) returns (k: nat)
    requires Follows(start, writes, o) && writes != [] && writes[|writes| - 1].led.wants.Some?
    requires AllShort(sent) && Logged(sent, o.log) && Concat(chunks) == FramesOf(sent)
    ensures BoardGoesBy(chunks, LIGHT, Light(writes[|writes| - 1].led.wants.value))
    ensures Led.LastSend(start.led.lastSend, LedsOf(writes), k)
    ensures k == |writes| - 1 || writes[|writes| - 1].led.check - writes[k].led.done < 1.0
  {
    k := BoardHoldsLight(start, writes);
    BoardGoesByLog(sent, o.log, chunks, LIGHT, Light(writes[|writes| - 1].led.wants.value));
  }
}
