/** Everything the control loop writes: from an activation on, each write cycle may send gains, a
    timeout, a light and a wheel command, in that order. What a board that goes by the last frame of
    each kind then holds, over whole runs of cycles. */
module HostOutput {
  import opened Options
  import opened Wire
  import opened Commands
  import opened Tuning
  import StopGrace
  import Led

  // ---------- commands by kind ----------

  /** What a sent message says; of those the loop sends, without the time stamp. */
  datatype Command =
    | Gains(gains: seq<int>)
    | Timeout(ms: int)
    | Light(led: Led.Output)
    | Wheels(velocity: StopGrace.Velocity)
    | HandshakeAt(stamp: Timestamp)
    | DeactivateAt(stamp: Timestamp)
    | ResetAt(stamp: Timestamp)

  datatype Kind = GAINS | TIMEOUT | LIGHT | WHEELS | OTHER

  function KindOf(c: Command): Kind {
    match c
    case Gains(_) => GAINS
    case Timeout(_) => TIMEOUT
    case Light(_) => LIGHT
    case Wheels(_) => WHEELS
    case _ => OTHER
  }

  /** The last command of a kind: what the board goes by. */
  function LastOf(log: seq<Command>, kind: Kind): Option<Command> {
    if log == [] then None
    else if KindOf(log[|log| - 1]) == kind then Some(log[|log| - 1])
    else LastOf(log[..|log| - 1], kind)
  }

  function CountOf(log: seq<Command>, kind: Kind): nat {
    if log == [] then 0 else CountOf(log[..|log| - 1], kind) + if KindOf(log[|log| - 1]) == kind then 1 else 0
  }

  /** What a next command, if any, does to the commands of a kind. */
  ghost predicate Adds(log: seq<Command>, next: seq<Command>, kind: Kind, c: Option<Command>) {
    if c.Some? then LastOf(next, kind) == c && CountOf(next, kind) == CountOf(log, kind) + 1
    else LastOf(next, kind) == LastOf(log, kind) && CountOf(next, kind) == CountOf(log, kind)
  }

  lemma AppendAdds(log: seq<Command>, c: Command, kind: Kind)
    ensures Adds(log, log + [c], kind, if KindOf(c) == kind then Some(c) else None)
  {
    assert (log + [c])[..|log|] == log;
  }

  // ---------- configuration, state and inputs ----------

  /** The gains and the timeout that an activation sends. */
  datatype Config = Config(gains: seq<int>, timeoutMs: int)

  ghost predicate ValidConfig(c: Config) {
    |c.gains| == 6 && (forall i :: 0 <= i < 6 ==> Fits(I32, c.gains[i])) && Fits(U16, c.timeoutMs)
  }

  type Configuration = c: Config | ValidConfig(c) witness Config([0, 0, 0, 0, 0, 0], 0)

  /** One value per gain. */
  type SixValues = v: Values | |v| == 6 witness [0.0, 0.0, 0.0, 0.0, 0.0, 0.0]

  type SixGpios = g: seq<Gpio> | |g| == 6 witness [Absent, Absent, Absent, Absent, Absent, Absent]

  function Reals(ns: seq<int>): (v: Values)
    ensures |v| == |ns|
  {
    seq(|ns|, i requires 0 <= i < |ns| => ns[i] as real)
  }

  lemma CastReals(f: Field, ns: seq<int>)
    requires forall i :: 0 <= i < |ns| ==> Fits(f, ns[i])
    ensures CastAll(f, Reals(ns)) == ns
  {
    forall i | 0 <= i < |ns|
      ensures CastAll(f, Reals(ns))[i] == ns[i]
    {
      ClampCastNearest(f, Reals(ns)[i], ns[i]);
    }
  }

  /** The commands sent so far and the fields that decide what to send next. */
  datatype Output = Output(log: seq<Command>, lastActive: real, gains: Values, timeout: Values, led: Led.Cache)

  ghost predicate ValidOutput(o: Output) {
    |o.gains| == 6 && |o.timeout| == 1
  }

  /** What one write cycle finds: command interfaces and clock readings. */
  datatype Cycle = Cycle(gains: seq<Gpio>, timeout: seq<Gpio>, led: Led.Write, wheel: StopGrace.Write)

  ghost predicate ValidCycle(c: Cycle) {
    |c.gains| == 6 && |c.timeout| == 1
  }

  // ---------- one cycle ----------

  /** Activation at `now`: gains and timeout are sent, whatever was sent before, and become the
      cached values. */
  function Activated(log: seq<Command>, c: Config, now: real): Output {
    Output(log + [Gains(c.gains)] + [Timeout(c.timeoutMs)], now, Reals(c.gains), Reals([c.timeoutMs]), Led.Cache(None, now))
  }

  lemma ActivatedBy(log: seq<Command>, c: Config, now: real, o: Output)
    requires o.log == log + [Gains(c.gains)] + [Timeout(c.timeoutMs)] && o.lastActive == now
    requires o.gains == Reals(c.gains) && o.timeout == [c.timeoutMs as real] && o.led == Led.Cache(None, now)
    ensures o == Activated(log, c, now)
  {
    assert o.timeout == Reals([c.timeoutMs]);
  }

  function GainsCommand(v: Values): Command {
    Gains(CastAll(I32, v))
  }

  function TimeoutCommand(v: Values): Command
    requires |v| == 1
  {
    Timeout(ClampCast(U16, v[0]))
  }

  function WriteGains(o: Output, gains: seq<Gpio>): (t: Output)
    requires ValidOutput(o) && |gains| == 6
    ensures ValidOutput(t)
  {
    var v := Effective(o.gains, gains);
    if v != o.gains then o.(log := o.log + [GainsCommand(v)], gains := v) else o
  }

  function WriteTimeout(o: Output, timeout: seq<Gpio>): (t: Output)
    requires ValidOutput(o) && |timeout| == 1
    ensures ValidOutput(t)
  {
    var v := Effective(o.timeout, timeout);
    if v != o.timeout then o.(log := o.log + [TimeoutCommand(v)], timeout := v) else o
  }

  function WriteLed(o: Output, w: Led.Write): Output {
    if Led.Sends(o.led, w) then o.(log := o.log + [Light(w.wants.value)], led := Led.Step(o.led, w)) else o
  }

  function WriteWheels(o: Output, w: StopGrace.Write): Output {
    var t := o.(lastActive := StopGrace.LastActive(o.lastActive, w));
    if StopGrace.Sends(o.lastActive, w) then t.(log := t.log + [Wheels(w.command)]) else t
  }

  lemma WheelsWritten(o: Output, w: StopGrace.Write, lastActive: real, sends: bool)
    requires lastActive == if w.Stopped() then o.lastActive else w.active
    requires sends == (!w.Stopped() || w.grace - lastActive < 1.0)
    ensures WriteWheels(o, w)
         == o.(lastActive := lastActive, log := if sends then o.log + [Wheels(w.command)] else o.log)
  {
  }

  function WriteCycle(o: Output, c: Cycle): (t: Output)
    requires ValidOutput(o) && ValidCycle(c)
    ensures ValidOutput(t)
  {
    WriteWheels(WriteLed(WriteTimeout(WriteGains(o, c.gains), c.timeout), c.led), c.wheel)
  }

  lemma CycleInTurn(o: Output, c: Cycle, tuned: Output, t: Output)
    requires ValidOutput(o) && ValidCycle(c)
    requires tuned == WriteTimeout(WriteGains(o, c.gains), c.timeout)
    requires t == WriteWheels(WriteLed(tuned, c.led), c.wheel)
    ensures t == WriteCycle(o, c)
  {
  }

  ghost predicate ValidCycles(cs: seq<Cycle>) {
    forall i :: 0 <= i < |cs| ==> ValidCycle(cs[i])
  }

  function Run(o: Output, cs: seq<Cycle>): (t: Output)
    requires ValidOutput(o) && ValidCycles(cs)
    ensures ValidOutput(t)
  {
    if cs == [] then o else WriteCycle(Run(o, cs[..|cs| - 1]), cs[|cs| - 1])
  }

  /** The caches do not interfere. */
  lemma CycleParts(o: Output, c: Cycle)
    requires ValidOutput(o) && ValidCycle(c)
    ensures var t := WriteCycle(o, c);
      && t.gains == Effective(o.gains, c.gains)
      && t.timeout == Effective(o.timeout, c.timeout)
      && t.led == Led.Step(o.led, c.led)
      && t.lastActive == StopGrace.LastActive(o.lastActive, c.wheel)
  {
  }

  lemma SendAdds(log: seq<Command>, c: Command, sends: bool, kind: Kind)
    ensures Adds(log, if sends then log + [c] else log, kind, if sends && KindOf(c) == kind then Some(c) else None)
  {
    AppendAdds(log, c, kind);
  }

  /** The command of a kind that the cycle sends, if any. */
  function Addition(o: Output, c: Cycle, kind: Kind): Option<Command>
    requires ValidOutput(o) && ValidCycle(c)
  {
    match kind
    case GAINS =>
      var v := Effective(o.gains, c.gains);
      if v != o.gains then Some(GainsCommand(v)) else None
    case TIMEOUT =>
      var v := Effective(o.timeout, c.timeout);
      if v != o.timeout then Some(TimeoutCommand(v)) else None
    case LIGHT => if Led.Sends(o.led, c.led) then Some(Light(c.led.wants.value)) else None
    case WHEELS => if StopGrace.Sends(o.lastActive, c.wheel) then Some(Wheels(c.wheel.command)) else None
    case OTHER => None
  }

  function AtMostOne(c: Option<Command>): seq<Command> {
    if c.Some? then [c.value] else []
  }

  /** A cycle sends gains before the timeout, the light after both, and the wheels last. */
  lemma CycleOrder(o: Output, c: Cycle)
    requires ValidOutput(o) && ValidCycle(c)
    ensures WriteCycle(o, c).log
         == o.log + AtMostOne(Addition(o, c, GAINS)) + AtMostOne(Addition(o, c, TIMEOUT))
            + AtMostOne(Addition(o, c, LIGHT)) + AtMostOne(Addition(o, c, WHEELS))
  {
    var gained := WriteGains(o, c.gains);
    var tuned := WriteTimeout(gained, c.timeout);
    var lit := WriteLed(tuned, c.led);
    assert gained.log == o.log + AtMostOne(Addition(o, c, GAINS));
    assert tuned.log == gained.log + AtMostOne(Addition(o, c, TIMEOUT));
    assert lit.log == tuned.log + AtMostOne(Addition(o, c, LIGHT));
    assert WriteWheels(lit, c.wheel).log == lit.log + AtMostOne(Addition(o, c, WHEELS));
  }

  lemma AddsThen(
    log: seq<Command>, mid: seq<Command>, next: seq<Command>, kind: Kind, c: Option<Command>, d: Option<Command>)
    requires Adds(log, mid, kind, c) && Adds(mid, next, kind, d) && (c.None? || d.None?)
    ensures Adds(log, next, kind, if c.Some? then c else d)
  {
  }

  /** The tuning half of a cycle. */
  lemma TuningHalf(o: Output, gains: seq<Gpio>, timeout: seq<Gpio>, kind: Kind)
    requires ValidOutput(o) && |gains| == 6 && |timeout| == 1
    ensures var t := WriteTimeout(WriteGains(o, gains), timeout);
      Adds(o.log, t.log, kind,
           if kind == GAINS && t.gains != o.gains then Some(GainsCommand(t.gains))
           else if kind == TIMEOUT && t.timeout != o.timeout then Some(TimeoutCommand(t.timeout)) else None)
  {
    var mid := WriteGains(o, gains);
    var t := WriteTimeout(mid, timeout);
    SendAdds(o.log, GainsCommand(t.gains), t.gains != o.gains, kind);
    SendAdds(mid.log, TimeoutCommand(t.timeout), t.timeout != o.timeout, kind);
    AddsThen(o.log, mid.log, t.log, kind,
             if t.gains != o.gains && kind == GAINS then Some(GainsCommand(t.gains)) else None,
             if t.timeout != o.timeout && kind == TIMEOUT then Some(TimeoutCommand(t.timeout)) else None);
  }

  /** The light and the wheels. */
  lemma OutputHalf(o: Output, led: Led.Write, wheel: StopGrace.Write, kind: Kind)
    ensures Adds(o.log, WriteWheels(WriteLed(o, led), wheel).log, kind,
                 if kind == LIGHT && Led.Sends(o.led, led) then Some(Light(led.wants.value))
                 else if kind == WHEELS && StopGrace.Sends(o.lastActive, wheel) then Some(Wheels(wheel.command)) else None)
  {
    var mid := WriteLed(o, led);
    if Led.Sends(o.led, led) {
      SendAdds(o.log, Light(led.wants.value), true, kind);
    }
    SendAdds(mid.log, Wheels(wheel.command), StopGrace.Sends(o.lastActive, wheel), kind);
    AddsThen(o.log, mid.log, WriteWheels(mid, wheel).log, kind,
             if Led.Sends(o.led, led) && kind == LIGHT then Some(Light(led.wants.value)) else None,
             if StopGrace.Sends(o.lastActive, wheel) && kind == WHEELS then Some(Wheels(wheel.command)) else None);
  }

  /** A cycle sends at most one command of each kind. */
  lemma CycleAdds(o: Output, c: Cycle, kind: Kind)
    requires ValidOutput(o) && ValidCycle(c)
    ensures Adds(o.log, WriteCycle(o, c).log, kind, Addition(o, c, kind))
  {
    var tuned := WriteTimeout(WriteGains(o, c.gains), c.timeout);
    TuningHalf(o, c.gains, c.timeout, kind);
    OutputHalf(tuned, c.led, c.wheel, kind);
  }

  // ---------- the history each cache goes by ----------

  /** The two kinds that are sent on change. */
  predicate Tuned(kind: Kind) {
    kind.GAINS? || kind.TIMEOUT?
  }

  function CacheOf(o: Output, kind: Kind): Values
    requires Tuned(kind)
  {
    if kind.GAINS? then o.gains else o.timeout
  }

  function TuningOf(cs: seq<Cycle>, kind: Kind): (cmds: seq<seq<Gpio>>)
    requires Tuned(kind)
    ensures |cmds| == |cs|
  {
    seq(|cs|, i requires 0 <= i < |cs| => if kind.GAINS? then cs[i].gains else cs[i].timeout)
  }

  function TuningCommand(v: Values, kind: Kind): Command
    requires Tuned(kind) && (kind.TIMEOUT? ==> |v| == 1)
  {
    if kind.GAINS? then GainsCommand(v) else TimeoutCommand(v)
  }

  function LedsOf(cs: seq<Cycle>): (ws: seq<Led.Write>)
    ensures |ws| == |cs|
  {
    seq(|cs|, i requires 0 <= i < |cs| => cs[i].led)
  }

  function WheelsOf(cs: seq<Cycle>): (ws: seq<StopGrace.Write>)
    ensures |ws| == |cs|
  {
    seq(|cs|, i requires 0 <= i < |cs| => cs[i].wheel)
  }

  lemma HistorySized(o: Output, cs: seq<Cycle>, kind: Kind)
    requires ValidOutput(o) && ValidCycles(cs) && Tuned(kind)
    ensures Sized(|CacheOf(o, kind)|, TuningOf(cs, kind))
  {
  }

  lemma Shorter(cs: seq<Cycle>)
    requires cs != []
    ensures var n := |cs| - 1; LedsOf(cs)[..n] == LedsOf(cs[..n]) && WheelsOf(cs)[..n] == WheelsOf(cs[..n])
  {
  }

  lemma ShorterTuning(cs: seq<Cycle>, kind: Kind)
    requires cs != [] && Tuned(kind)
    ensures TuningOf(cs, kind)[..|cs| - 1] == TuningOf(cs[..|cs| - 1], kind)
  {
  }

  // ---------- what the board holds ----------

  /** The board was last sent the cached gains and timeout, and no light since activation. */
  ghost predicate Launched(o: Output) {
    && ValidOutput(o) && o.led.sent == None
    && HoldsTuning(o, GAINS) && HoldsTuning(o, TIMEOUT)
  }

  /** The last command of the kind is the cast of the cached values. */
  ghost predicate HoldsTuning(o: Output, kind: Kind)
    requires ValidOutput(o) && Tuned(kind)
  {
    LastOf(o.log, kind) == Some(TuningCommand(CacheOf(o, kind), kind))
  }

  /** What an activation puts on the wire. */
  lemma ActivationHolds(log: seq<Command>, c: Config, now: real)
    requires ValidConfig(c)
    ensures var o := Activated(log, c, now);
      && Launched(o)
      && CountOf(o.log, GAINS) == CountOf(log, GAINS) + 1
      && CountOf(o.log, TIMEOUT) == CountOf(log, TIMEOUT) + 1
      && LastOf(o.log, WHEELS) == LastOf(log, WHEELS)
  {
    var m, n := Gains(c.gains), Timeout(c.timeoutMs);
    AppendAdds(log, m, GAINS);
    AppendAdds(log + [m], n, GAINS);
    AppendAdds(log, m, TIMEOUT);
    AppendAdds(log + [m], n, TIMEOUT);
    AppendAdds(log, m, WHEELS);
    AppendAdds(log + [m], n, WHEELS);
    CastReals(I32, c.gains);
    CastReals(U16, [c.timeoutMs]);
    assert CastAll(U16, Reals([c.timeoutMs]))[0] == c.timeoutMs;
  }

  lemma {:induction false} TuningTracked(o: Output, cs: seq<Cycle>, kind: Kind)
    requires ValidOutput(o) && ValidCycles(cs) && Tuned(kind)
    ensures Sized(|CacheOf(o, kind)|, TuningOf(cs, kind))
    ensures CacheOf(Run(o, cs), kind) == Cached(CacheOf(o, kind), TuningOf(cs, kind))
  {
    HistorySized(o, cs, kind);
    if cs != [] {
      ShorterTuning(cs, kind);
      TuningTracked(o, cs[..|cs| - 1], kind);
      CachedStep(CacheOf(o, kind), TuningOf(cs, kind), TuningOf(cs[..|cs| - 1], kind));
      CycleParts(Run(o, cs[..|cs| - 1]), cs[|cs| - 1]);
    }
  }

  /** A cycle sends the kind exactly when its cached values change. */
  lemma TuningAdds(o: Output, c: Cycle, kind: Kind)
    requires ValidOutput(o) && ValidCycle(c) && Tuned(kind)
    ensures var t := WriteCycle(o, c);
      Adds(o.log, t.log, kind,
           if CacheOf(t, kind) != CacheOf(o, kind) then Some(TuningCommand(CacheOf(t, kind), kind)) else None)
  {
    CycleParts(o, c);
    CycleAdds(o, c, kind);
  }

  lemma {:induction false} TuningSent(o: Output, cs: seq<Cycle>, kind: Kind)
    requires ValidOutput(o) && ValidCycles(cs) && Tuned(kind) && HoldsTuning(o, kind)
    ensures HoldsTuning(Run(o, cs), kind)
  {
    if cs != [] {
      var n := |cs| - 1;
      TuningSent(o, cs[..n], kind);
      TuningAdds(Run(o, cs[..n]), cs[n], kind);
    }
  }

  lemma TuningStep(o: Output, cs: seq<Cycle>, kind: Kind)
    requires ValidOutput(o) && ValidCycles(cs) && cs != [] && Tuned(kind)
    ensures var n, seed := |cs| - 1, CacheOf(o, kind);
      Sized(|seed|, TuningOf(cs, kind)) && Sized(|seed|, TuningOf(cs[..n], kind))
      && |Sends(seed, TuningOf(cs, kind))|
           == |Sends(seed, TuningOf(cs[..n], kind))|
              + if CacheOf(Run(o, cs), kind) != CacheOf(Run(o, cs[..n]), kind) then 1 else 0
  {
    HistorySized(o, cs, kind);
    HistorySized(o, cs[..|cs| - 1], kind);
    ShorterTuning(cs, kind);
    SendsStep(CacheOf(o, kind), TuningOf(cs, kind), TuningOf(cs[..|cs| - 1], kind));
    TuningTracked(o, cs, kind);
    TuningTracked(o, cs[..|cs| - 1], kind);
  }

  lemma {:induction false} TuningCounted(o: Output, cs: seq<Cycle>, kind: Kind)
    requires ValidOutput(o) && ValidCycles(cs) && Tuned(kind)
    ensures Sized(|CacheOf(o, kind)|, TuningOf(cs, kind))
    ensures CountOf(Run(o, cs).log, kind) + 1 == CountOf(o.log, kind) + |Sends(CacheOf(o, kind), TuningOf(cs, kind))|
  {
    HistorySized(o, cs, kind);
    if cs != [] {
      var n := |cs| - 1;
      TuningCounted(o, cs[..n], kind);
      TuningStep(o, cs, kind);
      TuningAdds(Run(o, cs[..n]), cs[n], kind);
    }
  }

  /** After every write cycle the board's gains, and its timeout, are the casts of the values in
      force, and since `o` as many messages of the kind were sent as those values changed. */
  lemma BoardHoldsTuning(o: Output, cs: seq<Cycle>, kind: Kind)
    requires ValidOutput(o) && ValidCycles(cs) && Tuned(kind) && HoldsTuning(o, kind)
    ensures var seed, cmds := CacheOf(o, kind), TuningOf(cs, kind);
      && Sized(|seed|, cmds) && |CacheOf(Run(o, cs), kind)| == |seed|
      && AllInForce(seed, cmds, CacheOf(Run(o, cs), kind))
      && HoldsTuning(Run(o, cs), kind)
      && CountOf(Run(o, cs).log, kind) == CountOf(o.log, kind) + Changes(EveryCycle(seed, cmds))
  {
    TuningTracked(o, cs, kind);
    TuningSent(o, cs, kind);
    TuningCounted(o, cs, kind);
    LastSentIsInForce(CacheOf(o, kind), TuningOf(cs, kind));
  }

  /** The last wheel command on the wire, as a velocity. */
  function WheelsHeld(log: seq<Command>): Option<StopGrace.Velocity> {
    match LastOf(log, WHEELS)
    case Some(Wheels(v)) => Some(v)
    case _ => None
  }

  lemma {:induction false} WheelsTracked(o: Output, cs: seq<Cycle>)
    requires ValidOutput(o) && ValidCycles(cs)
    ensures Run(o, cs).lastActive == StopGrace.LastActiveAfter(o.lastActive, WheelsOf(cs))
    ensures WheelsHeld(Run(o, cs).log) == StopGrace.LastSent(WheelsHeld(o.log), o.lastActive, WheelsOf(cs))
  {
    if cs != [] {
      var n := |cs| - 1;
      Shorter(cs);
      WheelsTracked(o, cs[..n]);
      CycleParts(Run(o, cs[..n]), cs[n]);
      CycleAdds(Run(o, cs[..n]), cs[n], WHEELS);
    }
  }

  /** The board's wheel command after every cycle is the command of that cycle, exactly when no stop
      comes a second or more after the motion it ends. */
  lemma BoardHoldsWheels(o: Output, cs: seq<Cycle>)
    requires ValidOutput(o) && ValidCycles(cs)
    ensures (forall n :: 0 <= n < |cs| ==> HoldsVelocity(o, cs, n))
            <==> forall n :: 0 <= n < |cs| ==> StopGrace.Prompt(WheelsHeld(o.log), o.lastActive, WheelsOf(cs), n)
  {
    StopGrace.GoQuietIsTransparent(WheelsHeld(o.log), o.lastActive, WheelsOf(cs));
    forall n | 0 <= n < |cs|
      ensures HoldsVelocity(o, cs, n)
              <==> StopGrace.CommandInForce(WheelsHeld(o.log), o.lastActive, WheelsOf(cs), n)
    {
      VelocityHeld(o, cs, n);
    }
  }

  /** After cycle `n` the last wheel command is that of the cycle. */
  ghost predicate HoldsVelocity(o: Output, cs: seq<Cycle>, n: nat)
    requires ValidOutput(o) && ValidCycles(cs) && n < |cs|
  {
    WheelsHeld(Run(o, cs[..n + 1]).log) == Some(cs[n].wheel.command)
  }

  lemma VelocityHeld(o: Output, cs: seq<Cycle>, n: nat)
    requires ValidOutput(o) && ValidCycles(cs) && n < |cs|
    ensures HoldsVelocity(o, cs, n) <==> StopGrace.CommandInForce(WheelsHeld(o.log), o.lastActive, WheelsOf(cs), n)
  {
    WheelsTracked(o, cs[..n + 1]);
    assert WheelsOf(cs[..n + 1]) == WheelsOf(cs)[..n + 1];
  }

  /** The light last sent since an activation is the cached one. */
  lemma {:induction false} LightTracked(o: Output, cs: seq<Cycle>)
    requires ValidOutput(o) && ValidCycles(cs) && o.led.sent == None
    ensures Run(o, cs).led == Led.After(o.led.lastSend, LedsOf(cs))
    ensures Run(o, cs).led.sent.Some? ==> LastOf(Run(o, cs).log, LIGHT) == Some(Light(Run(o, cs).led.sent.value))
  {
    if cs != [] {
      var n := |cs| - 1;
      Shorter(cs);
      LightTracked(o, cs[..n]);
      CycleParts(Run(o, cs[..n]), cs[n]);
      CycleAdds(Run(o, cs[..n]), cs[n], LIGHT);
    }
  }

  /** After every cycle whose commands resolve to a light, the board was last sent that light, less
      than a second before by the clock of the cycle (or in it). */
  lemma BoardHoldsLight(o: Output, cs: seq<Cycle>) returns (k: nat)
    requires ValidOutput(o) && ValidCycles(cs) && o.led.sent == None
    requires cs != [] && cs[|cs| - 1].led.wants.Some?
    ensures LastOf(Run(o, cs).log, LIGHT) == Some(Light(cs[|cs| - 1].led.wants.value))
    ensures Led.LastSend(o.led.lastSend, LedsOf(cs), k)
    ensures k == |cs| - 1 || cs[|cs| - 1].led.check - cs[k].led.done < 1.0
  {
    LightTracked(o, cs);
    k := Led.LightIsCurrent(o.led.lastSend, LedsOf(cs));
    Led.CacheIsLastSend(o.led.lastSend, LedsOf(cs), k);
  }

  // ---------- since activation ----------

  /** The writes since activation lead the output from `start` to `o`. */
  ghost predicate Follows(start: Output, writes: seq<Cycle>, o: Output) {
    Launched(start) && ValidCycles(writes) && o == Run(start, writes)
  }

  lemma FollowsStart(o: Output)
    requires Launched(o)
    ensures Follows(o, [], o)
  {
  }

  lemma FollowsWrite(start: Output, writes: seq<Cycle>, o: Output, c: Cycle)
    requires Follows(start, writes, o) && ValidCycle(c)
    ensures Follows(start, writes + [c], WriteCycle(o, c))
  {
    assert (writes + [c])[..|writes|] == writes;
  }
}
