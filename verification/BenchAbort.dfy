/** The abort latch of the bench harness: the main thread and the timer callback share an abort reason
    and a velocity command without a lock. Every interleaving of their reads and writes, one shared
    access a step; ticks do not overlap. */
module BenchAbort {
  import opened Options

  datatype Twist = Twist(v: real, w: real)

  /** Every reason in the program is a nonempty text, so `reason or None` is the reason itself. */
  type Reason = r: string | r != "" witness "signal"

  const ZERO := Twist(0.0, 0.0)

  // ---------- the two threads ----------

  /** Where the main thread is. `Checked` is `set` between its check and its assignment; `Tripping`
      is a trip between its two assignments, on the way out of the program or to its final block;
      the final block zeroes the command, loads the abort reason and stores it back. */
  datatype Main =
    | Running
    | Checked(next: Twist)
    | Tripping(exits: bool)
    | Zeroing
    | Loading
    | Loaded(reason: Option<Reason>)
    | Closing
    | Done

  /** Where the tick is, with the command it read at its start. `late`: it started after the abort
      was first set. `tripped`: it tripped itself. */
  datatype Tick =
    | Idle
    | Started(cmd: Twist, late: bool)
    | Guarding(cmd: Twist, late: bool, tripped: bool)
    | GuardTripping(cmd: Twist, late: bool)
    | Checking(cmd: Twist, late: bool, tripped: bool)
    | Publishing(cmd: Twist, late: bool, tripped: bool)

  /** The shared variables and the threads. The last three fields only record: whether the abort was
      ever set, what was published since, and whether a set abort was overwritten with none. */
  datatype State = State(
    abort: Option<Reason>, cmd: Twist, main: Main, tick: Tick,
    ever: bool, published: seq<Twist>, lost: bool)

  const INITIAL := State(None, ZERO, Running, Idle, false, [], false)

  datatype Step =
    // The main thread: set, stop, leaving a test, an exception, a signal, the final block.
    | Check(next: Twist)
    | Assign
    | Stop
    | Finish
    | Fail(reason: Reason)
    | Signal(reason: Reason)
    | TripZero
    | ZeroCmd
    | Load
    | Store
    | PublishZero
    | Exit
    // The timer callback.
    | Start
    | Enter
    | TickTrip(reason: Reason)
    | TickZero
    | Leave
    | FinalCheck
    | Publish

  /** The final block has begun; an exception from here on leaves the program. */
  predicate InFinal(m: Main) {
    m.Zeroing? || m.Loading? || m.Loaded? || m.Closing? || (m.Tripping? && m.exits)
  }

  predicate Enabled(s: State, step: Step) {
    match step
    case Check(_) => s.main.Running?
    case Assign => s.main.Checked?
    case Stop => s.main.Running?
    case Finish => s.main.Running?
    case Fail(_) => s.main.Running? || s.main.Checked?
    case Signal(_) => !s.main.Done?
    case TripZero => s.main.Tripping?
    case ZeroCmd => s.main.Zeroing?
    case Load => s.main.Loading?
    case Store => s.main.Loaded?
    case PublishZero => s.main.Closing?
    case Exit => s.main.Closing?
    case Start => s.tick.Idle?
    case Enter => s.tick.Started?
    case TickTrip(_) => s.tick.Guarding?
    case TickZero => s.tick.GuardTripping?
    case Leave => s.tick.Guarding?
    case FinalCheck => s.tick.Checking?
    case Publish => s.tick.Publishing?
  }

  function SetAbort(s: State, reason: Reason): State {
    s.(abort := Some(reason), ever := true)
  }

  function Published(s: State, c: Twist): State {
    if s.ever then s.(published := s.published + [c]) else s
  }

  function Next(s: State, step: Step): State
    requires Enabled(s, step)
  {
    match step
    case Check(next) => s.(main := if s.abort.None? then Checked(next) else Zeroing)
    case Assign => s.(cmd := s.main.next, main := Running)
    case Stop => s.(cmd := ZERO)
    case Finish => s.(main := Zeroing)
    case Fail(reason) => SetAbort(s, reason).(main := Tripping(false))
    case Signal(reason) => SetAbort(s, reason).(main := Tripping(InFinal(s.main)))
    case TripZero => s.(cmd := ZERO, main := if s.main.exits then Done else Zeroing)
    case ZeroCmd => s.(cmd := ZERO, main := Loading)
    case Load => s.(main := Loaded(s.abort))
    case Store =>
      s.(abort := s.main.reason, main := Closing, lost := s.lost || (s.abort.Some? && s.main.reason.None?))
    case PublishZero => Published(s, ZERO)
    case Exit => s.(main := Done)
    case Start => s.(tick := Started(s.cmd, s.ever))
    case Enter =>
      s.(tick := if s.abort.None? then Guarding(s.tick.cmd, s.tick.late, false) else Checking(s.tick.cmd, s.tick.late, false))
    case TickTrip(reason) => SetAbort(s, reason).(tick := GuardTripping(s.tick.cmd, s.tick.late))
    case TickZero => s.(cmd := ZERO, tick := Guarding(s.tick.cmd, s.tick.late, true))
    case Leave => s.(tick := Checking(s.tick.cmd, s.tick.late, s.tick.tripped))
    case FinalCheck =>
      s.(tick := Publishing(if s.abort.Some? then ZERO else s.tick.cmd, s.tick.late, s.tick.tripped))
    case Publish => Published(s, s.tick.cmd).(tick := Idle)
  }

  ghost predicate Legal(s: State, steps: seq<Step>)
    decreases steps
  {
    steps == [] || (Enabled(s, steps[0]) && Legal(Next(s, steps[0]), steps[1..]))
  }

  function Run(s: State, steps: seq<Step>): State
    requires Legal(s, steps)
    decreases steps
  {
    if steps == [] then s else Run(Next(s, steps[0]), steps[1..])
  }

  // ---------- the invariant ----------

  /** The abort is set for good: no pending store will clear it. */
  ghost predicate Sticky(s: State) {
    s.abort.Some? && (s.main.Loaded? ==> s.main.reason.Some?)
  }

  /** From the load of the final block on, nothing writes a command other than zero. */
  ghost predicate Cleared(s: State) {
    s.main.Loading? || s.main.Loaded? || s.main.Closing? || s.main.Done? ==> s.cmd == ZERO
  }

  /** A set abort is sticky, or the main thread is in its final block with the command cleared. */
  ghost predicate Latched(s: State) {
    && (s.abort.Some? ==> s.ever)
    && (s.main.Loaded? && s.main.reason.Some? ==> s.abort.Some?)
    && (s.ever && !Sticky(s) ==> s.main.Loaded? || s.main.Closing? || s.main.Done?)
    && (s.ever && s.abort.None? ==> s.lost)
    && (s.lost ==> s.main.Closing? || s.main.Done? || (s.main.Tripping? && s.main.exits))
  }

  /** A late tick holds nothing, or will be stopped by its final check. */
  ghost predicate LateIsHarmless(s: State) {
    match s.tick
    case Idle => true
    case Started(c, late) => late ==> c == ZERO || Sticky(s)
    case Guarding(c, late, _) => late ==> c == ZERO || Sticky(s)
    case GuardTripping(c, late) => late ==> c == ZERO || Sticky(s)
    case Checking(c, late, _) => late ==> c == ZERO || Sticky(s)
    case Publishing(c, late, _) => late ==> c == ZERO
  }

  /** A tick that tripped finds the abort set, unless it was lost. */
  ghost predicate TripStops(s: State) {
    match s.tick
    case Guarding(_, _, tripped) => tripped && !s.lost ==> s.abort.Some?
    case GuardTripping(_, _) => !s.lost ==> s.abort.Some?
    case Checking(_, _, tripped) => tripped && !s.lost ==> s.abort.Some?
    case Publishing(c, _, tripped) => tripped && !s.lost ==> c == ZERO
    case _ => true
  }

  function Nonzero(cs: seq<Twist>): nat {
    if cs == [] then 0 else Nonzero(cs[..|cs| - 1]) + if cs[|cs| - 1] != ZERO then 1 else 0
  }

  /** The tick under way may still publish a command from before the abort. */
  predicate Early(t: Tick) {
    !t.Idle? && !t.late
  }

  ghost predicate Budget(s: State) {
    && Nonzero(s.published) + (if Early(s.tick) then 1 else 0) <= 1
    && (!s.ever ==> s.published == [] && !s.lost && (s.tick.Idle? || !s.tick.late))
  }

  ghost predicate Inv(s: State) {
    Cleared(s) && Latched(s) && LateIsHarmless(s) && TripStops(s) && Budget(s)
  }

  lemma NonzeroAppend(cs: seq<Twist>, c: Twist)
    ensures Nonzero(cs + [c]) == Nonzero(cs) + if c != ZERO then 1 else 0
  {
    assert (cs + [c])[..|cs|] == cs;
  }

  lemma LatchStep(s: State, step: Step)
    requires Inv(s) && Enabled(s, step)
    ensures Cleared(Next(s, step)) && Latched(Next(s, step))
  {
  }

  lemma TickStep(s: State, step: Step)
    requires Inv(s) && Enabled(s, step)
    ensures LateIsHarmless(Next(s, step)) && TripStops(Next(s, step))
  {
  }

  lemma BudgetPublish(s: State, c: Twist)
    requires Budget(s)
    ensures var t := Published(s, c);
      && Nonzero(t.published) <= Nonzero(s.published) + (if c == ZERO then 0 else 1)
      && (!s.ever ==> t == s) && t == s.(published := t.published)
  {
    NonzeroAppend(s.published, c);
  }

  lemma BudgetStep(s: State, step: Step)
    requires Inv(s) && Enabled(s, step)
    ensures Budget(Next(s, step))
  {
    if step.Publish? {
      BudgetPublish(s, s.tick.cmd);
    } else if step.PublishZero? {
      BudgetPublish(s, ZERO);
    }
  }

  lemma InvStep(s: State, step: Step)
    requires Inv(s) && Enabled(s, step)
    ensures Inv(Next(s, step))
  {
    LatchStep(s, step);
    TickStep(s, step);
    BudgetStep(s, step);
  }

  lemma {:induction false} InvRun(s: State, steps: seq<Step>)
    requires Inv(s) && Legal(s, steps)
    ensures Inv(Run(s, steps))
    decreases steps
  {
    if steps != [] {
      InvStep(s, steps[0]);
      InvRun(Next(s, steps[0]), steps[1..]);
    }
  }

  lemma Reachable(steps: seq<Step>)
    requires Legal(INITIAL, steps)
    ensures Inv(Run(INITIAL, steps))
  {
    InvRun(INITIAL, steps);
  }

  // ---------- what every interleaving keeps ----------

  /** After the abort is first set, at most one nonzero command is published. */
  lemma AtMostOneNonzero(steps: seq<Step>)
    requires Legal(INITIAL, steps)
    ensures Nonzero(Run(INITIAL, steps).published) <= 1
  {
    Reachable(steps);
  }

  /** A tick that starts after the abort was set publishes zero, even if `set` has overwritten the
      command since. */
  lemma LateTicksAreSilent(steps: seq<Step>)
    requires Legal(INITIAL, steps) && Run(INITIAL, steps).tick.Publishing? && Run(INITIAL, steps).tick.late
    ensures Run(INITIAL, steps).tick.cmd == ZERO
  {
    Reachable(steps);
  }

  /** A tick that tripped publishes zero, unless the final block overwrote the abort meanwhile. */
  lemma TrippedTickIsSilent(steps: seq<Step>)
    requires Legal(INITIAL, steps)
    requires Run(INITIAL, steps).tick.Publishing? && Run(INITIAL, steps).tick.tripped && !Run(INITIAL, steps).lost
    ensures Run(INITIAL, steps).tick.cmd == ZERO
  {
    Reachable(steps);
  }

  // ---------- the race of the final block ----------

  lemma {:induction false} RunAppend(s: State, steps: seq<Step>, step: Step)
    requires Legal(s, steps) && Enabled(Run(s, steps), step)
    ensures Legal(s, steps + [step]) && Run(s, steps + [step]) == Next(Run(s, steps), step)
    decreases steps
  {
    if steps == [] {
      assert steps + [step] == [step] && [step][1..] == [];
      assert Legal(Next(s, step), []);
    } else {
      assert (steps + [step])[1..] == steps[1..] + [step];
      RunAppend(Next(s, steps[0]), steps[1..], step);
    }
  }

  /** The state `t` can be reached by one more step. */
  lemma Then(steps: seq<Step>, step: Step, t: State) returns (longer: seq<Step>)
    requires Legal(INITIAL, steps) && Enabled(Run(INITIAL, steps), step) && t == Next(Run(INITIAL, steps), step)
    ensures longer == steps + [step] && Legal(INITIAL, longer) && Run(INITIAL, longer) == t
  {
    RunAppend(INITIAL, steps, step);
    longer := steps + [step];
  }

  /** A tick has read a command and passed the first check; the final block has loaded no reason. */
  lemma ReachLoad(c: Twist) returns (steps: seq<Step>)
    ensures Legal(INITIAL, steps)
    ensures Run(INITIAL, steps) == State(None, ZERO, Loaded(None), Guarding(c, false, false), false, [], false)
  {
    steps := Then([], Check(c), INITIAL.(main := Checked(c)));
    steps := Then(steps, Assign, INITIAL.(cmd := c));
    steps := Then(steps, Start, INITIAL.(cmd := c, tick := Started(c, false)));
    var guarding := INITIAL.(cmd := c, tick := Guarding(c, false, false));
    steps := Then(steps, Enter, guarding);
    steps := Then(steps, Finish, guarding.(main := Zeroing));
    steps := Then(steps, ZeroCmd, guarding.(main := Loading, cmd := ZERO));
    steps := Then(steps, Load, guarding.(main := Loaded(None), cmd := ZERO));
  }

  /** The tick trips, and the store overwrites its abort. */
  lemma ReachStore(c: Twist) returns (steps: seq<Step>)
    ensures Legal(INITIAL, steps)
    ensures Run(INITIAL, steps) == State(None, ZERO, Closing, Guarding(c, false, true), true, [], true)
  {
    steps := ReachLoad(c);
    var tripped := State(Some("guard"), ZERO, Loaded(None), GuardTripping(c, false), true, [], false);
    steps := Then(steps, TickTrip("guard"), tripped);
    steps := Then(steps, TickZero, tripped.(tick := Guarding(c, false, true)));
    steps := Then(steps, Store, State(None, ZERO, Closing, Guarding(c, false, true), true, [], true));
  }

  /** The abort does not always stay, and the tick that set it is not always silent: when a tick
      trips between the load and the store of the final block, its abort is overwritten and it
      publishes the command it started with, whatever that is. */
  lemma AbortCanBeLost(c: Twist) returns (steps: seq<Step>)
    ensures Legal(INITIAL, steps)
    ensures var s := Run(INITIAL, steps); s.lost && s.abort.None? && s.published == [c]
  {
    steps := ReachStore(c);
    var cleared := State(None, ZERO, Closing, Guarding(c, false, true), true, [], true);
    steps := Then(steps, Leave, cleared.(tick := Checking(c, false, true)));
    steps := Then(steps, FinalCheck, cleared.(tick := Publishing(c, false, true)));
    steps := Then(steps, Publish, cleared.(tick := Idle, published := [c]));
  }

  /** Some tick trips between a load that found no reason and the store that follows it. `pending`:
      a tick has tripped since such a load. A signal in between keeps the store from running. */
  ghost predicate Raced(s: State, steps: seq<Step>, pending: bool)
    requires Legal(s, steps)
    decreases steps
  {
    steps != []
    && var open := s.main == Loaded(None);
       var tripped := open && (pending || steps[0].TickTrip?);
       || (steps[0].Store? && open && pending)
       || Raced(Next(s, steps[0]), steps[1..], tripped)
  }

  /** Between the load and the store `pending` says whether the abort is set. */
  ghost predicate Awaiting(s: State, pending: bool) {
    s.main == Loaded(None) ==> (pending <==> s.abort.Some?)
  }

  /** In every state of the run a set abort is still set. */
  ghost predicate StaysSet(s: State, steps: seq<Step>)
    requires Legal(s, steps)
    decreases steps
  {
    (s.ever ==> s.abort.Some?) && (steps == [] || StaysSet(Next(s, steps[0]), steps[1..]))
  }

  /** One step keeps what `pending` says, and loses the abort exactly when it is the racing store. */
  lemma RaceStep(s: State, step: Step, pending: bool)
    requires Awaiting(s, pending) && Enabled(s, step)
    ensures var open := s.main == Loaded(None);
      && Next(s, step).lost == (s.lost || (step.Store? && open && pending))
      && Awaiting(Next(s, step), open && (pending || step.TickTrip?))
  {
  }

  lemma {:induction false} LostExactly(s: State, steps: seq<Step>, pending: bool)
    requires Inv(s) && Awaiting(s, pending) && Legal(s, steps)
    ensures Run(s, steps).lost <==> s.lost || Raced(s, steps, pending)
    ensures !s.lost ==> (StaysSet(s, steps) <==> !Raced(s, steps, pending))
    decreases steps
  {
    if steps != [] {
      InvStep(s, steps[0]);
      RaceStep(s, steps[0], pending);
      LostExactly(Next(s, steps[0]), steps[1..], s.main == Loaded(None) && (pending || steps[0].TickTrip?));
    }
  }

  /** In every interleaving: a set abort stays set throughout if and only if no tick trips between a
      load of the final block that found no reason and its store. */
  lemma AbortStays(steps: seq<Step>)
    requires Legal(INITIAL, steps)
    ensures StaysSet(INITIAL, steps) <==> !Raced(INITIAL, steps, false)
    ensures Run(INITIAL, steps).lost <==> Raced(INITIAL, steps, false)
  {
    LostExactly(INITIAL, steps, false);
  }

  /** Without that race a tick that tripped publishes zero. */
  lemma TripsAreSilent(steps: seq<Step>)
    requires Legal(INITIAL, steps) && !Raced(INITIAL, steps, false)
    requires Run(INITIAL, steps).tick.Publishing? && Run(INITIAL, steps).tick.tripped
    ensures Run(INITIAL, steps).tick.cmd == ZERO
  {
    AbortStays(steps);
    TrippedTickIsSilent(steps);
  }
}
