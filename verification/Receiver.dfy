/** The receiving side of the transport as a value: what any sequence of reads and waits does to
    the buffer, the counters, the acknowledgement latch and the parsed feedback. */
module Receiver {
  import opened SeqFacts
  import opened Crc
  import opened BinaryProtocol
  import opened StreamScanner
  import opened Wire
  import opened AckLatch
  import WheelFeedback

  datatype State = State(
    residual: seq<Byte>,
    received: nat,
    errors: nat,
    latch: Latch,
    firmware: Byte,
    feedback: WheelFeedback.Feedback)

  const INITIAL := State([], 0, 0, EMPTY, 0, WheelFeedback.INITIAL)

  /** One valid frame: the latch first, then the subclass hook. */
  function Dispatch(s: State, m: Message): State {
    s.(received := s.received + 1, latch := OnAck(s.latch, m), feedback := WheelFeedback.OnMessage(s.feedback, m))
  }

  function DispatchAll(s: State, ms: seq<Message>): State
    decreases ms
  {
    if ms == [] then s else DispatchAll(Dispatch(s, ms[0]), ms[1..])
  }

  /** The effect of a scan on the receiver. */
  function Apply(s: State, p: Parsed): State {
    DispatchAll(s, p.messages).(residual := p.residual, errors := s.errors + p.errors)
  }

  /** `bytes` arrive and are read, in however many pieces. */
  function Deliver(s: State, bytes: seq<Byte>): State {
    Apply(s, Parse(s.residual + bytes))
  }

  lemma {:induction false} DispatchParts(s: State, ms: seq<Message>)
    ensures var t := DispatchAll(s, ms);
      && t.residual == s.residual && t.errors == s.errors && t.firmware == s.firmware
      && t.received == s.received + |ms|
      && t.latch == OnAcks(s.latch, ms)
      && t.feedback == WheelFeedback.OnMessages(s.feedback, ms)
    decreases ms
  {
    if ms != [] {
      DispatchParts(Dispatch(s, ms[0]), ms[1..]);
    }
  }

  lemma {:induction false} DispatchOther(s: State, residual: seq<Byte>, errors: nat, ms: seq<Message>)
    ensures DispatchAll(s.(residual := residual, errors := errors), ms)
         == DispatchAll(s, ms).(residual := residual, errors := errors)
    decreases ms
  {
    if ms != [] {
      DispatchOther(Dispatch(s, ms[0]), residual, errors, ms[1..]);
    }
  }

  lemma {:induction false} DispatchAppend(s: State, x: seq<Message>, y: seq<Message>)
    ensures DispatchAll(s, x + y) == DispatchAll(DispatchAll(s, x), y)
    decreases x
  {
    if x == [] {
      assert x + y == y;
    } else {
      assert (x + y)[1..] == x[1..] + y;
      DispatchAppend(Dispatch(s, x[0]), x[1..], y);
    }
  }

  lemma ApplyThen(s: State, p: Parsed, q: Parsed)
    ensures Apply(s, Then(p, q)) == Apply(Apply(s, p), q)
  {
    DispatchAppend(s, p.messages, q.messages);
    DispatchOther(DispatchAll(s, p.messages), p.residual, s.errors + p.errors, q.messages);
    DispatchParts(s, p.messages);
    DispatchParts(Apply(s, p), q.messages);
    DispatchParts(DispatchAll(s, p.messages), q.messages);
  }

  /** Reading bytes in two goes or in one makes no difference to anything the receiver keeps. */
  lemma DeliverAppend(s: State, a: seq<Byte>, b: seq<Byte>)
    ensures Deliver(Deliver(s, a), b) == Deliver(s, a + b)
    ensures Settled(Deliver(s, a).residual)
  {
    var p := Parse(s.residual + a);
    ParseAppend(s.residual + a, b);
    Join(s.residual, a, b);
    ApplyThen(s, p, Parse(p.residual + b));
    ResidualSettled(s.residual + a);
  }

  lemma DeliverNothing(s: State)
    requires Settled(s.residual)
    ensures Deliver(s, []) == s
  {
    SettledBound(s.residual);
    Join(s.residual, [], []);
  }

  lemma ApplyIgnoresResidual(s: State, residual: seq<Byte>, p: Parsed)
    ensures Apply(s.(residual := residual), p) == Apply(s, p)
  {
    DispatchOther(s, residual, s.errors, p.messages);
  }

  /** Draining the buffer: an oversized one is cleared, any other is scanned to the end. */
  function Drain(s: State): State {
    if |s.residual| > MAX_RX_BUFFER_BYTES then s.(residual := []) else Apply(s, Parse(s.residual))
  }

  /** What is left to drain after one frame. */
  lemma DrainFrame(s: State, m: Message, rest: seq<Byte>)
    requires Parse(s.residual) == Then(Parsed([m], 0, []), Parse(rest))
    requires |rest| <= |s.residual| <= MAX_RX_BUFFER_BYTES
    ensures Drain(Dispatch(s, m).(residual := rest)) == Drain(s)
  {
    ApplyThen(s, Parsed([m], 0, []), Parse(rest));
    ApplyOne(s, m);
    ApplyIgnoresResidual(Dispatch(s, m), [], Parse(rest));
    ApplyIgnoresResidual(Dispatch(s, m), rest, Parse(rest));
  }

  /** And after one CRC error. */
  lemma DrainError(s: State, rest: seq<Byte>)
    requires Parse(s.residual) == Then(Parsed([], 1, []), Parse(rest))
    requires |rest| <= |s.residual| <= MAX_RX_BUFFER_BYTES
    ensures Drain(s.(residual := rest, errors := s.errors + 1)) == Drain(s)
  {
    var t := s.(errors := s.errors + 1);
    ApplyThen(s, Parsed([], 1, []), Parse(rest));
    ApplyIgnoresResidual(t, [], Parse(rest));
    ApplyIgnoresResidual(t, rest, Parse(rest));
  }

  /** The receiver after the extraction `x` and what follows from its result. */
  function Acted(s: State, x: Extraction): State {
    var t := s.(residual := x.rest);
    if x.result == OK then Dispatch(t, x.message)
    else if x.result == CRC_MISMATCH then t.(errors := t.errors + 1)
    else t
  }

  function Turn(s: State, unset: Message): State {
    Acted(s, Extract(s.residual, unset))
  }

  predicate Continues(s: State, unset: Message) {
    var x := Extract(s.residual, unset);
    x.result == OK || x.result == CRC_MISMATCH
  }

  lemma DrainStep(s: State, x: Extraction)
    requires |s.residual| <= MAX_RX_BUFFER_BYTES && IsStep(s.residual, x)
    ensures var t := Acted(s, x);
      if x.result == OK || x.result == CRC_MISMATCH then Drain(t) == Drain(s) && |t.residual| < |s.residual|
      else t == Drain(s)
  {
    if x.result == OK {
      DrainFrame(s, x.message, x.rest);
    } else if x.result == CRC_MISMATCH {
      DrainError(s, x.rest);
    } else {
      assert DispatchAll(s, []) == s;
    }
  }

  /** A turn of the extraction loop leaves the rest of the drain to do, and less of the buffer, or is
      the end of it. */
  lemma DrainTurn(s: State, unset: Message)
    ensures var t := Turn(s, unset);
      if Continues(s, unset) then Drain(t) == Drain(s) && |t.residual| < |s.residual| else t == Drain(s)
  {
    if |s.residual| <= MAX_RX_BUFFER_BYTES {
      ExtractionStep(s.residual, unset);
      DrainStep(s, Extract(s.residual, unset));
    }
  }

  lemma ApplyOne(s: State, m: Message)
    ensures Apply(s, Parsed([m], 0, [])) == Dispatch(s, m).(residual := [])
  {
    assert [m][1..] == [];
    assert DispatchAll(s, [m]) == DispatchAll(Dispatch(s, m), []);
  }

  // ---------- waiting for an acknowledgement ----------

  /** One turn of the waiting loop: the clock at the loop test and the bytes available to the read. */
  datatype Poll = Poll(now: int, bytes: seq<Byte>)

  /** `completed`: by an acknowledgement, and not by the deadline. */
  datatype Waited = Waited(status: Byte, completed: bool, state: State, polls: nat)

  function Consume(s: State, expected: Byte): State {
    s.(latch := Take(s.latch, expected), firmware := if expected == HANDSHAKE then s.latch.status else s.firmware)
  }

  /** Poll until the latch holds an acknowledgement of the awaited command or the deadline passes. */
  function Await(s: State, expected: Byte, deadline: int, polls: seq<Poll>): Waited
    decreases polls
  {
    if polls == [] || polls[0].now >= deadline then Waited(STATUS_TIMEOUT, false, s, 0)
    else
      var t := Deliver(s, polls[0].bytes);
      if Ready(t.latch, expected) then
        Waited(Returned(t.latch, expected), true, Consume(t, expected), 1)
      else
        var w := Await(t, expected, deadline, polls[1..]);
        Waited(w.status, w.completed, w.state, w.polls + 1)
  }

  predicate SameOutcome(v: Waited, w: Waited) {
    v.status == w.status && v.state == w.state
  }

  /** After `i` turns the receiver is in `s`, and the wait is still to end in `w`. */
  ghost predicate Waiting(s: State, expected: Byte, deadline: int, polls: seq<Poll>, i: nat, w: Waited) {
    i < |polls| && SameOutcome(Await(s, expected, deadline, polls[i..]), w)
  }

  /** One turn: the read, and the look at the latch, which took the receiver from `s` to `t`. */
  ghost predicate Polled(s: State, expected: Byte, bytes: seq<Byte>, done: bool, status: Byte, t: State) {
    var d := Deliver(s, bytes);
    && done == Ready(d.latch, expected)
    && (if done then status == Returned(d.latch, expected) && t == Consume(d, expected) else t == d)
  }

  lemma AwaitTurn(
    s: State, expected: Byte, deadline: int, polls: seq<Poll>, i: nat, w: Waited, done: bool, status: Byte, t: State)
    requires Waiting(s, expected, deadline, polls, i, w) && polls[i].now < deadline
    requires Polled(s, expected, polls[i].bytes, done, status, t)
    ensures if done then status == w.status && t == w.state
            else SameOutcome(Await(t, expected, deadline, polls[i + 1..]), w)
  {
    assert polls[i..][1..] == polls[i + 1..];
  }

  lemma AwaitEnd(s: State, expected: Byte, deadline: int, polls: seq<Poll>, i: nat, w: Waited)
    requires Waiting(s, expected, deadline, polls, i, w) && polls[i].now >= deadline
    ensures w.status == STATUS_TIMEOUT && w.state == s
  {
  }

  lemma DeliverChunk(s: State, raw: seq<Byte>, offset: nat, end: nat, t: State)
    requires offset <= end <= |raw| && t == Deliver(Deliver(s, raw[..offset]), raw[offset..end])
    ensures t == Deliver(s, raw[..end])
  {
    DeliverAppend(s, raw[..offset], raw[offset..end]);
    Longer(raw, offset, end);
  }

  /** Nothing is read from a closed port. */
  function Heard(isOpen: bool, polls: seq<Poll>): (heard: seq<Poll>)
    ensures |heard| == |polls| && forall i :: 0 <= i < |polls| ==> heard[i].now == polls[i].now
    ensures isOpen ==> heard == polls
    ensures !isOpen ==> forall i :: 0 <= i < |heard| ==> heard[i].bytes == []
  {
    if isOpen then polls else seq(|polls|, i requires 0 <= i < |polls| => Poll(polls[i].now, []))
  }

  /** The loop sleeps 5 ms between turns, and the clock does not go back. */
  ghost predicate Clocked(start: int, polls: seq<Poll>) {
    && (polls != [] ==> start <= polls[0].now)
    && forall i :: 0 < i < |polls| ==> polls[i - 1].now + 5 <= polls[i].now
  }

  lemma {:induction false} ClockAdvances(start: int, polls: seq<Poll>, i: nat)
    requires Clocked(start, polls) && i < |polls|
    ensures start + 5 * i <= polls[i].now
  {
    if i > 0 {
      ClockAdvances(start, polls, i - 1);
    }
  }

  lemma {:induction false} PollsBeforeDeadline(s: State, expected: Byte, deadline: int, polls: seq<Poll>)
    ensures var n := Await(s, expected, deadline, polls).polls;
      n <= |polls| && (n > 0 ==> polls[n - 1].now < deadline)
    decreases polls
  {
    if polls != [] && polls[0].now < deadline {
      var t := Deliver(s, polls[0].bytes);
      if !Ready(t.latch, expected) {
        PollsBeforeDeadline(t, expected, deadline, polls[1..]);
      }
    }
  }

  /** A wait reads at most ceil(timeout / 5) times. */
  lemma WaitIsBounded(s: State, expected: Byte, start: int, timeout: nat, polls: seq<Poll>)
    requires Clocked(start, polls)
    ensures Await(s, expected, start + timeout, polls).polls <= (timeout + 4) / 5
  {
    var n := Await(s, expected, start + timeout, polls).polls;
    PollsBeforeDeadline(s, expected, start + timeout, polls);
    if n > 0 {
      ClockAdvances(start, polls, n - 1);
    }
  }

  function Arrivals(ms: seq<Message>): seq<Event> {
    seq(|ms|, i requires 0 <= i < |ms| => Arrived(ms[i]))
  }

  lemma {:induction false} ArrivalsRun(l: Latch, ms: seq<Message>)
    ensures Legal(l, Arrivals(ms)) && Run(l, Arrivals(ms)) == OnAcks(l, ms)
    decreases ms
  {
    if ms != [] {
      assert Arrivals(ms)[1..] == Arrivals(ms[1..]);
      ArrivalsRun(OnAck(l, ms[0]), ms[1..]);
    }
  }

  lemma {:induction false} RunAppend(l: Latch, x: seq<Event>, y: seq<Event>)
    ensures Run(l, x + y) == Run(Run(l, x), y)
    ensures Legal(l, x + y) <==> Legal(l, x) && Legal(Run(l, x), y)
    decreases x
  {
    if x == [] {
      assert x + y == y;
    } else {
      assert (x + y)[1..] == x[1..] + y;
      RunAppend(Next(l, x[0]), x[1..], y);
    }
  }
}
