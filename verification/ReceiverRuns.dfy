/** Whole runs of the receiver: reads and waits in any order, in pieces of any size, compose to one
    scan of every byte they took from the port. */
module ReceiverRuns {
  import opened SeqFacts
  import opened Crc
  import opened BinaryProtocol
  import opened StreamScanner
  import opened WheelFeedback
  import Wire
  import AckLatch
  import R = Receiver

  /** What the driver does with the receiver over time: a read of what is available,
      or a wait for an acknowledgement, which reads too. */
  datatype Action =
    | Read(bytes: seq<Byte>)
    | Await(expected: Byte, deadline: int, polls: seq<R.Poll>)

  function Perform(s: R.State, a: Action): R.State {
    match a
    case Read(bytes) => R.Deliver(s, bytes)
    case Await(expected, deadline, polls) => R.Await(s, expected, deadline, polls).state
  }

  function PollBytes(polls: seq<R.Poll>): seq<Byte> {
    if polls == [] then [] else polls[0].bytes + PollBytes(polls[1..])
  }

  /** The bytes an action takes from the port. */
  function Taken(s: R.State, a: Action): seq<Byte> {
    match a
    case Read(bytes) => bytes
    case Await(expected, deadline, polls) =>
      R.PollsBeforeDeadline(s, expected, deadline, polls);
      PollBytes(polls[..R.Await(s, expected, deadline, polls).polls])
  }

  function PerformAll(s: R.State, actions: seq<Action>): R.State
    decreases actions
  {
    if actions == [] then s else PerformAll(Perform(s, actions[0]), actions[1..])
  }

  function TakenAll(s: R.State, actions: seq<Action>): seq<Byte>
    decreases actions
  {
    if actions == [] then [] else Taken(s, actions[0]) + TakenAll(Perform(s, actions[0]), actions[1..])
  }

  /** The receiver is where one scan of `stream` from its initial state leads; the latch and the
      firmware version, which waits consume, are not part of this. */
  ghost predicate Scanned(s: R.State, stream: seq<Byte>) {
    var p := Parse(stream);
    && s.residual == p.residual
    && s.received == |p.messages|
    && s.errors == p.errors
    && s.feedback == OnMessages(WheelFeedback.INITIAL, p.messages)
  }

  lemma ParseMore(stream: seq<Byte>, residual: seq<Byte>, bytes: seq<Byte>)
    requires residual == Parse(stream).residual
    ensures var p, q := Parse(stream), Parse(residual + bytes);
      Parse(stream + bytes) == Then(p, q)
      && OnMessages(WheelFeedback.INITIAL, p.messages + q.messages)
         == OnMessages(OnMessages(WheelFeedback.INITIAL, p.messages), q.messages)
  {
    ParseAppend(stream, bytes);
    OnMessagesAppend(WheelFeedback.INITIAL, Parse(stream).messages, Parse(residual + bytes).messages);
  }

  lemma DeliverScanned(s: R.State, stream: seq<Byte>, bytes: seq<Byte>)
    requires Scanned(s, stream)
    ensures Scanned(R.Deliver(s, bytes), stream + bytes)
  {
    ParseMore(stream, s.residual, bytes);
    R.DispatchParts(s, Parse(s.residual + bytes).messages);
  }

  lemma FirstPoll(polls: seq<R.Poll>, n: nat)
    requires 0 < n <= |polls|
    ensures PollBytes(polls[..n]) == polls[0].bytes + PollBytes(polls[1..][..n - 1])
  {
    assert polls[..n][1..] == polls[1..][..n - 1];
  }

  /** The bytes a wait takes, turn by turn. */
  lemma TakenByTurn(s: R.State, expected: Byte, deadline: int, polls: seq<R.Poll>)
    ensures var taken := Taken(s, Await(expected, deadline, polls));
      if polls == [] || polls[0].now >= deadline then taken == []
      else
        var t := R.Deliver(s, polls[0].bytes);
        taken == polls[0].bytes
                 + if AckLatch.Ready(t.latch, expected) then [] else Taken(t, Await(expected, deadline, polls[1..]))
  {
    R.PollsBeforeDeadline(s, expected, deadline, polls);
    var n := R.Await(s, expected, deadline, polls).polls;
    if n > 0 {
      R.PollsBeforeDeadline(R.Deliver(s, polls[0].bytes), expected, deadline, polls[1..]);
      FirstPoll(polls, n);
      assert PollBytes(polls[1..][..0]) == [];
    }
  }

  /** The wait has delivered the bytes of its turns, and then either taken the acknowledgement that
      was ready or run into the deadline. */
  ghost predicate Outcome(t: R.State, expected: Byte, w: R.Waited) {
    if w.completed then
      AckLatch.Ready(t.latch, expected) && w.status == AckLatch.Returned(t.latch, expected)
      && w.state == R.Consume(t, expected)
    else
      w.status == 0x03 && w.state == t && (AckLatch.Ready(t.latch, expected) ==> w.polls == 0)
  }

  lemma OutcomeLater(t: R.State, expected: Byte, w: R.Waited, v: R.Waited)
    requires Outcome(t, expected, w) && v == R.Waited(w.status, w.completed, w.state, w.polls + 1)
    requires w.polls == 0 ==> !AckLatch.Ready(t.latch, expected)
    ensures Outcome(t, expected, v)
  {
  }

  /** However many turns a wait takes, it is one delivery of all the bytes it reads, followed by
      taking the acknowledgement if it is for the awaited command, and by nothing otherwise. */
  lemma {:induction false} WaitIsOneDelivery(s: R.State, expected: Byte, deadline: int, polls: seq<R.Poll>)
    requires Settled(s.residual)
    ensures Outcome(R.Deliver(s, Taken(s, Await(expected, deadline, polls))), expected,
                    R.Await(s, expected, deadline, polls))
    decreases polls
  {
    TakenByTurn(s, expected, deadline, polls);
    R.DeliverNothing(s);
    if polls != [] && polls[0].now < deadline {
      var t, bytes := R.Deliver(s, polls[0].bytes), polls[0].bytes;
      R.DeliverAppend(s, bytes, []);
      if AckLatch.Ready(t.latch, expected) {
        Join(bytes, [], []);
      } else {
        WaitIsOneDelivery(t, expected, deadline, polls[1..]);
        LaterDelivery(s, expected, deadline, polls);
      }
    }
  }

  /** The first turn of a wait that does not complete in it. */
  lemma LaterDelivery(s: R.State, expected: Byte, deadline: int, polls: seq<R.Poll>)
    requires polls != [] && polls[0].now < deadline
    requires var t := R.Deliver(s, polls[0].bytes);
      && !AckLatch.Ready(t.latch, expected)
      && Outcome(R.Deliver(t, Taken(t, Await(expected, deadline, polls[1..]))), expected,
                 R.Await(t, expected, deadline, polls[1..]))
    ensures Outcome(R.Deliver(s, Taken(s, Await(expected, deadline, polls))), expected,
                    R.Await(s, expected, deadline, polls))
  {
    var t, bytes := R.Deliver(s, polls[0].bytes), polls[0].bytes;
    var rest := Taken(t, Await(expected, deadline, polls[1..]));
    TakenByTurn(s, expected, deadline, polls);
    R.DeliverAppend(s, bytes, rest);
    TakenByTurn(t, expected, deadline, polls[1..]);
    R.DeliverNothing(t);
    OutcomeLater(R.Deliver(t, rest), expected, R.Await(t, expected, deadline, polls[1..]),
                 R.Await(s, expected, deadline, polls));
  }

  lemma {:induction false} AwaitScanned(s: R.State, stream: seq<Byte>, expected: Byte, deadline: int, polls: seq<R.Poll>)
    requires Scanned(s, stream)
    ensures Scanned(R.Await(s, expected, deadline, polls).state, stream + Taken(s, Await(expected, deadline, polls)))
    decreases polls
  {
    TakenByTurn(s, expected, deadline, polls);
    Join(stream, [], []);
    if polls != [] && polls[0].now < deadline {
      var t, bytes := R.Deliver(s, polls[0].bytes), polls[0].bytes;
      DeliverScanned(s, stream, bytes);
      Join(bytes, [], []);
      if !AckLatch.Ready(t.latch, expected) {
        AwaitScanned(t, stream + bytes, expected, deadline, polls[1..]);
        Join(stream, bytes, Taken(t, Await(expected, deadline, polls[1..])));
      }
    }
  }

  lemma ActionScanned(s: R.State, stream: seq<Byte>, a: Action)
    requires Scanned(s, stream)
    ensures Scanned(Perform(s, a), stream + Taken(s, a))
  {
    match a {
      case Read(bytes) => DeliverScanned(s, stream, bytes);
      case Await(expected, deadline, polls) => AwaitScanned(s, stream, expected, deadline, polls);
    }
  }

  /** Whatever mix of reads and waits took the bytes from the port, and in whatever pieces, the
      receiver has dispatched what one scan of them all yields. */
  lemma {:induction false} ActionsScanned(s: R.State, stream: seq<Byte>, actions: seq<Action>)
    requires Scanned(s, stream)
    ensures Scanned(PerformAll(s, actions), stream + TakenAll(s, actions))
    decreases actions
  {
    if actions == [] {
      Join(stream, [], []);
    } else {
      var a := actions[0];
      ActionScanned(s, stream, a);
      ActionsScanned(Perform(s, a), stream + Taken(s, a), actions[1..]);
      Join(stream, Taken(s, a), TakenAll(Perform(s, a), actions[1..]));
    }
  }

  /** From the start: whatever is read and awaited, the receiver is where one scan leads. */
  lemma ReceiverIsOneScan(actions: seq<Action>)
    ensures Scanned(PerformAll(R.INITIAL, actions), TakenAll(R.INITIAL, actions))
  {
    ActionsScanned(R.INITIAL, [], actions);
    Join(TakenAll(R.INITIAL, actions), [], []);
  }

  // ---------- the latch over whole runs ----------

  /** The wait that an action completes, if it is one that does. */
  function CompletionOf(s: R.State, a: Action): seq<AckLatch.Event> {
    if a.Await? && R.Await(s, a.expected, a.deadline, a.polls).completed then
      [AckLatch.Completed(a.expected, R.Await(s, a.expected, a.deadline, a.polls).status)]
    else []
  }

  /** What an action does to the latch: the frames it dispatches arrive, and a wait that completes
      takes it. */
  function EventsOf(s: R.State, a: Action): seq<AckLatch.Event> {
    R.Arrivals(Parse(s.residual + Taken(s, a)).messages) + CompletionOf(s, a)
  }

  function Events(s: R.State, actions: seq<Action>): seq<AckLatch.Event>
    decreases actions
  {
    if actions == [] then [] else EventsOf(s, actions[0]) + Events(Perform(s, actions[0]), actions[1..])
  }

  /** The wait that an action completes: the awaited command, the status returned, and the number of
      frames received by then. */
  function AnswerOf(s: R.State, a: Action): seq<AckLatch.Answer> {
    if a.Await? && R.Await(s, a.expected, a.deadline, a.polls).completed then
      [AckLatch.Answer(a.expected, R.Await(s, a.expected, a.deadline, a.polls).status, Perform(s, a).received)]
    else []
  }

  function AnswersOf(s: R.State, actions: seq<Action>): seq<AckLatch.Answer>
    decreases actions
  {
    if actions == [] then [] else AnswerOf(s, actions[0]) + AnswersOf(Perform(s, actions[0]), actions[1..])
  }

  lemma DeliverLatch(s: R.State, bytes: seq<Byte>)
    ensures var ms, t := Parse(s.residual + bytes).messages, R.Deliver(s, bytes);
      && AckLatch.Legal(s.latch, R.Arrivals(ms)) && AckLatch.Run(s.latch, R.Arrivals(ms)) == t.latch
      && t.received == s.received + |ms| && Settled(t.residual)
  {
    var ms := Parse(s.residual + bytes).messages;
    R.DispatchParts(s, ms);
    R.ArrivalsRun(s.latch, ms);
    ResidualSettled(s.residual + bytes);
  }

  /** An action leaves the latch where its events lead, and its events are legal. */
  lemma ActionLatch(s: R.State, a: Action)
    requires Settled(s.residual)
    ensures AckLatch.Legal(s.latch, EventsOf(s, a)) && AckLatch.Run(s.latch, EventsOf(s, a)) == Perform(s, a).latch
    ensures Settled(Perform(s, a).residual)
    ensures Perform(s, a).received == s.received + |Parse(s.residual + Taken(s, a)).messages|
  {
    var ms := Parse(s.residual + Taken(s, a)).messages;
    DeliverLatch(s, Taken(s, a));
    if a.Await? {
      WaitIsOneDelivery(s, a.expected, a.deadline, a.polls);
    }
    var rest := CompletionOf(s, a);
    assert rest != [] ==> rest[1..] == [];
    R.RunAppend(s.latch, R.Arrivals(ms), rest);
  }

  /** Every program of reads and waits is a legal run of the latch, and leaves it where that leads. */
  lemma {:induction false} ProgramIsLegal(s: R.State, actions: seq<Action>)
    requires Settled(s.residual)
    ensures AckLatch.Legal(s.latch, Events(s, actions))
    ensures AckLatch.Run(s.latch, Events(s, actions)) == PerformAll(s, actions).latch
    decreases actions
  {
    if actions != [] {
      var a := actions[0];
      ActionLatch(s, a);
      ProgramIsLegal(Perform(s, a), actions[1..]);
      R.RunAppend(s.latch, EventsOf(s, a), Events(Perform(s, a), actions[1..]));
    }
  }

  lemma {:induction false} HeardArrivals(es: seq<AckLatch.Event>, ms: seq<Message>)
    ensures AckLatch.Heard(es + R.Arrivals(ms)) == AckLatch.Heard(es) + ms
    ensures AckLatch.Answers(es + R.Arrivals(ms)) == AckLatch.Answers(es)
  {
    if ms == [] {
      assert es + R.Arrivals(ms) == es;
      Join(AckLatch.Heard(es), [], []);
    } else {
      var n := |ms| - 1;
      HeardArrivals(es, ms[..n]);
      assert es + R.Arrivals(ms) == (es + R.Arrivals(ms[..n])) + [AckLatch.Arrived(ms[n])];
      HeardLast(es + R.Arrivals(ms[..n]), AckLatch.Arrived(ms[n]));
      Join(AckLatch.Heard(es), ms[..n], [ms[n]]);
      LastSplit(ms);
      Join(AckLatch.Answers(es), [], []);
    }
  }

  lemma HeardLast(es: seq<AckLatch.Event>, e: AckLatch.Event)
    ensures AckLatch.Heard(es + [e]) == AckLatch.Heard(es) + if e.Arrived? then [e.message] else []
    ensures AckLatch.Answers(es + [e]) == AckLatch.Answers(es)
                                          + if e.Completed? then [AckLatch.Answer(e.id, e.status, |AckLatch.Heard(es)|)] else []
  {
    assert (es + [e])[..|es|] == es;
  }

  lemma CompletionHistory(s: R.State, a: Action, es: seq<AckLatch.Event>)
    requires |AckLatch.Heard(es)| == Perform(s, a).received
    ensures AckLatch.Heard(es + CompletionOf(s, a)) == AckLatch.Heard(es)
    ensures AckLatch.Answers(es + CompletionOf(s, a)) == AckLatch.Answers(es) + AnswerOf(s, a)
  {
    Join(es, [], []);
    Join(AckLatch.Heard(es), [], []);
    Join(AckLatch.Answers(es), [], []);
    if CompletionOf(s, a) != [] {
      HeardLast(es, CompletionOf(s, a)[0]);
    }
  }

  /** What one action adds to the history: the frames it dispatches, and its answer if it is a wait
      that completes. */
  lemma ActionHistory(s: R.State, a: Action, es: seq<AckLatch.Event>)
    requires Settled(s.residual) && |AckLatch.Heard(es)| == s.received
    ensures AckLatch.Heard(es + EventsOf(s, a)) == AckLatch.Heard(es) + Parse(s.residual + Taken(s, a)).messages
    ensures AckLatch.Answers(es + EventsOf(s, a)) == AckLatch.Answers(es) + AnswerOf(s, a)
  {
    var ms := Parse(s.residual + Taken(s, a)).messages;
    HeardArrivals(es, ms);
    ActionLatch(s, a);
    CompletionHistory(s, a, es + R.Arrivals(ms));
    Join(es, R.Arrivals(ms), CompletionOf(s, a));
  }

  lemma {:induction false} ProgramHistory(s: R.State, stream: seq<Byte>, actions: seq<Action>, es: seq<AckLatch.Event>)
    requires Scanned(s, stream) && AckLatch.Heard(es) == Parse(stream).messages
    ensures AckLatch.Heard(es + Events(s, actions)) == Parse(stream + TakenAll(s, actions)).messages
    ensures AckLatch.Answers(es + Events(s, actions)) == AckLatch.Answers(es) + AnswersOf(s, actions)
    decreases actions
  {
    if actions == [] {
      Join(es, [], []);
      Join(stream, [], []);
      Join(AckLatch.Answers(es), [], []);
    } else {
      var a, rest := actions[0], actions[1..];
      var t, bytes := Perform(s, a), Taken(s, a);
      ResidualSettled(stream);
      ActionHistory(s, a, es);
      ParseAppend(stream, bytes);
      ActionScanned(s, stream, a);
      ProgramHistory(t, stream + bytes, rest, es + EventsOf(s, a));
      Join(es, EventsOf(s, a), Events(t, rest));
      Join(stream, bytes, TakenAll(t, rest));
      Join(AckLatch.Answers(es), AnswerOf(s, a), AnswersOf(t, rest));
    }
  }

  /** Every program of reads and waits is a legal run of the latch, whose arrivals are the frames
      dispatched and whose completions are, one to one and in order, the waits that complete. */
  lemma ProgramIsRun(actions: seq<Action>)
    ensures var es := Events(R.INITIAL, actions);
      && AckLatch.Legal(AckLatch.EMPTY, es)
      && AckLatch.Run(AckLatch.EMPTY, es) == PerformAll(R.INITIAL, actions).latch
      && AckLatch.Heard(es) == Parse(TakenAll(R.INITIAL, actions)).messages
      && AckLatch.Answers(es) == AnswersOf(R.INITIAL, actions)
  {
    ProgramIsLegal(R.INITIAL, actions);
    ProgramHistory(R.INITIAL, [], actions, []);
    Join(Events(R.INITIAL, actions), [], []);
    Join(TakenAll(R.INITIAL, actions), [], []);
    Join(AnswersOf(R.INITIAL, actions), [], []);
  }

  // ---------- the firmware version ----------

  /** Arrivals leave the version, a completed handshake takes the status of the latch. */
  lemma {:induction false} ArrivalsKeepVersion(es: seq<AckLatch.Event>, ms: seq<Message>)
    ensures AckLatch.VersionAfter(es + R.Arrivals(ms)) == AckLatch.VersionAfter(es)
    ensures AckLatch.Run(AckLatch.EMPTY, es + R.Arrivals(ms)) == AckLatch.OnAcks(AckLatch.Run(AckLatch.EMPTY, es), ms)
  {
    R.ArrivalsRun(AckLatch.Run(AckLatch.EMPTY, es), ms);
    R.RunAppend(AckLatch.EMPTY, es, R.Arrivals(ms));
    if ms == [] {
      Join(es, [], []);
      assert es + R.Arrivals(ms) == es;
    } else {
      var n := |ms| - 1;
      ArrivalsKeepVersion(es, ms[..n]);
      assert es + R.Arrivals(ms) == (es + R.Arrivals(ms[..n])) + [AckLatch.Arrived(ms[n])];
      VersionLast(es + R.Arrivals(ms[..n]), AckLatch.Arrived(ms[n]));
    }
  }

  lemma VersionLast(es: seq<AckLatch.Event>, e: AckLatch.Event)
    ensures AckLatch.VersionAfter(es + [e])
         == if e.Completed? && e.id == Wire.HANDSHAKE then AckLatch.Run(AckLatch.EMPTY, es).status else AckLatch.VersionAfter(es)
  {
    assert (es + [e])[..|es|] == es;
  }

  /** The receiver has the version, and the latch, that the events lead to. */
  ghost predicate Versioned(s: R.State, es: seq<AckLatch.Event>) {
    s.firmware == AckLatch.VersionAfter(es) && s.latch == AckLatch.Run(AckLatch.EMPTY, es)
  }

  lemma ActionVersioned(s: R.State, a: Action, es: seq<AckLatch.Event>)
    requires Settled(s.residual) && Versioned(s, es)
    ensures Versioned(Perform(s, a), es + EventsOf(s, a))
  {
    var ms, t := Parse(s.residual + Taken(s, a)).messages, R.Deliver(s, Taken(s, a));
    R.DispatchParts(s, ms);
    ArrivalsKeepVersion(es, ms);
    Join(es, R.Arrivals(ms), CompletionOf(s, a));
    Join(es + R.Arrivals(ms), [], []);
    ActionLatch(s, a);
    R.RunAppend(AckLatch.EMPTY, es, EventsOf(s, a));
    if a.Await? {
      WaitIsOneDelivery(s, a.expected, a.deadline, a.polls);
      if CompletionOf(s, a) != [] {
        VersionLast(es + R.Arrivals(ms), CompletionOf(s, a)[0]);
      }
    }
  }

  lemma {:induction false} ProgramVersioned(s: R.State, actions: seq<Action>, es: seq<AckLatch.Event>)
    requires Settled(s.residual) && Versioned(s, es)
    ensures Versioned(PerformAll(s, actions), es + Events(s, actions))
    decreases actions
  {
    Join(es, [], []);
    if actions != [] {
      var a, rest := actions[0], actions[1..];
      ActionLatch(s, a);
      ActionVersioned(s, a, es);
      ProgramVersioned(Perform(s, a), rest, es + EventsOf(s, a));
      Join(es, EventsOf(s, a), Events(Perform(s, a), rest));
    }
  }

  /** In every program of reads and waits each wait that completes is answered by an acknowledgement
      of its own: the newest frame of that kind received by then, received since the previous such
      wait, naming the awaited command and giving the status returned. The firmware version is the
      status byte of the one that answered the last completed handshake. */
  lemma EachWaitHasItsAck(actions: seq<Action>) returns (acks: seq<nat>)
    ensures AckLatch.OneEach(Parse(TakenAll(R.INITIAL, actions)).messages, AnswersOf(R.INITIAL, actions), acks)
    ensures forall i, j :: 0 <= i < j < |acks| ==> acks[i] < acks[j]
    ensures PerformAll(R.INITIAL, actions).firmware
         == AckLatch.LastVersion(Parse(TakenAll(R.INITIAL, actions)).messages, AnswersOf(R.INITIAL, actions), acks)
  {
    ProgramIsRun(actions);
    ProgramVersioned(R.INITIAL, actions, []);
    Join(Events(R.INITIAL, actions), [], []);
    acks := AckLatch.OneAckEach(Events(R.INITIAL, actions));
    AckLatch.AcksIncrease(Parse(TakenAll(R.INITIAL, actions)).messages, AnswersOf(R.INITIAL, actions), acks);
  }

  /** A command is sent, if the port is open, and its acknowledgement awaited. */
  function AfterCommand(s: R.State, isOpen: bool, expected: Byte, deadline: int, polls: seq<R.Poll>): R.Waited {
    if isOpen then R.Await(s, expected, deadline, polls) else R.Waited(AckLatch.STATUS_COMMAND_FAILED, false, s, 0)
  }

  /** It takes some bytes from the port; with them the receiver is still one scan. */
  lemma CommandScanned(
    s: R.State, t: R.State, isOpen: bool, expected: Byte, deadline: int, polls: seq<R.Poll>, stream: seq<Byte>)
    returns (all: seq<Byte>)
    requires t == AfterCommand(s, isOpen, expected, deadline, polls).state && Scanned(s, stream)
    ensures Scanned(t, all) && stream <= all
    ensures all == if isOpen then stream + Taken(s, Await(expected, deadline, polls)) else stream
  {
    all := stream;
    if isOpen {
      AwaitScanned(s, stream, expected, deadline, polls);
      all := stream + Taken(s, Await(expected, deadline, polls));
    }
  }
}
