/** The handshake before an activation: up to ten attempts, until the board answers. */
module Bringup {
  import opened Crc
  import opened BinaryProtocol
  import opened Wire
  import opened AckLatch
  import opened Commands
  import opened KestrelTransport
  import Receiver
  import ReceiverRuns

  const MAX_ATTEMPTS := 10
  const ACK_TIMEOUT_MS := 3000

  ghost predicate AllSound(ws: seq<Wait>, timeoutMs: nat) {
    forall i :: 0 <= i < |ws| ==> Sound(ws[i], timeoutMs)
  }

  /** How the attempts end: whether one succeeded, how many were made, and the receiver after them. */
  datatype Attempts = Attempts(ok: bool, made: nat, state: Receiver.State)

  function Attempt(s: Receiver.State, w: Wait): Receiver.Waited {
    ReceiverRuns.AfterCommand(s, true, HANDSHAKE, w.start + ACK_TIMEOUT_MS, w.polls)
  }

  function Retry(s: Receiver.State, ws: seq<Wait>): (r: Attempts)
    ensures r.made <= |ws| && (!r.ok ==> r.made == |ws|)
    decreases ws
  {
    if ws == [] then Attempts(false, 0, s)
    else
      var w := Attempt(s, ws[0]);
      if w.status == STATUS_OK then Attempts(true, 1, w.state)
      else
        var r := Retry(w.state, ws[1..]);
        r.(made := r.made + 1)
  }

  function Handshakes(ws: seq<Wait>): (ms: seq<Message>)
    requires AllSound(ws, ACK_TIMEOUT_MS)
    ensures |ms| == |ws|
  {
    seq(|ws|, i requires 0 <= i < |ws| => HandshakeMessage(ws[i].stamp))
  }

  /** After `made` attempts the receiver is in `s`, with `rest` to go unless one succeeded. */
  ghost predicate Progress(r: Attempts, s: Receiver.State, rest: seq<Wait>, made: nat, ok: bool) {
    if ok then r == Attempts(true, made, s)
    else
      var q := Retry(s, rest);
      r.ok == q.ok && r.state == q.state && r.made == made + q.made
  }

  lemma ProgressStep(r: Attempts, s: Receiver.State, ws: seq<Wait>, made: nat, w: Wait)
    requires made < |ws| && w == ws[made] && Progress(r, s, ws[made..], made, false)
    ensures var a := ReceiverRuns.AfterCommand(s, true, HANDSHAKE, w.start + ACK_TIMEOUT_MS, w.polls);
      Progress(r, a.state, ws[made + 1..], made + 1, a.status == STATUS_OK)
  {
    assert ws[made..][1..] == ws[made + 1..];
  }

  /** Shakes hands until an attempt succeeds; `ws` is what each attempt meets. */
  method HandshakeWithRetry(board: Kestrel, ws: seq<Wait>) returns (ok: bool)
    requires board.Valid() && board.port.isOpen && |ws| == 10 && AllSound(ws, ACK_TIMEOUT_MS)
    modifies board, board.rx, board.port
    ensures board.Valid() && board.port.isOpen && old(board.port.taken) <= board.port.taken
    ensures var r := Retry(old(board.State()), ws);
      ok == r.ok && board.State() == r.state && board.port.sent == old(board.port.sent) + Handshakes(ws[..r.made])
  {
    ghost var r := Retry(board.State(), ws);
    ok := false;
    var attempt := 0;
    while attempt < MAX_ATTEMPTS && !ok
      invariant 0 <= attempt <= MAX_ATTEMPTS
      invariant board.Valid() && board.port.isOpen && old(board.port.taken) <= board.port.taken
      invariant board.port.sent == old(board.port.sent) + Handshakes(ws[..attempt])
      invariant Progress(r, board.State(), ws[attempt..], attempt, ok)
      decreases MAX_ATTEMPTS - attempt
    {
      var w := ws[attempt];
      ProgressStep(r, board.State(), ws, attempt, w);
      ok := TryHandshake(board, w);
      HandshakesMore(old(board.port.sent), ws, attempt);
      attempt := attempt + 1;
    }
  }

  /** One attempt. */
  method TryHandshake(board: Kestrel, w: Wait) returns (ok: bool)
    requires board.Valid() && board.port.isOpen && Sound(w, ACK_TIMEOUT_MS)
    modifies board, board.rx, board.port
    ensures board.Valid() && board.port.isOpen && old(board.port.taken) <= board.port.taken
    ensures board.port.sent == old(board.port.sent) + [HandshakeMessage(w.stamp)]
    ensures var a := ReceiverRuns.AfterCommand(old(board.State()), true, HANDSHAKE, w.start + ACK_TIMEOUT_MS, w.polls);
      board.State() == a.state && ok == (a.status == STATUS_OK)
  {
    var status := board.Handshake(w, ACK_TIMEOUT_MS);
    ok := status == STATUS_OK;
  }

  lemma HandshakesMore(sent: seq<Message>, ws: seq<Wait>, n: nat)
    requires AllSound(ws, ACK_TIMEOUT_MS) && n < |ws|
    ensures sent + Handshakes(ws[..n + 1]) == (sent + Handshakes(ws[..n])) + [HandshakeMessage(ws[n].stamp)]
  {
    assert Handshakes(ws[..n + 1]) == Handshakes(ws[..n]) + [HandshakeMessage(ws[n].stamp)];
  }

  // ---------- what the attempts amount to ----------

  function Waits(ws: seq<Wait>): (actions: seq<ReceiverRuns.Action>)
    ensures |actions| == |ws|
  {
    seq(|ws|, i requires 0 <= i < |ws| => ReceiverRuns.Await(HANDSHAKE, ws[i].start + 3000, ws[i].polls))
  }

  /** A handshake's acknowledgement always counts as OK, whatever version it carries. */
  lemma {:induction false} HandshakeStatus(s: Receiver.State, deadline: int, polls: seq<Receiver.Poll>)
    ensures var w := Receiver.Await(s, HANDSHAKE, deadline, polls); w.status == STATUS_OK <==> w.completed
    decreases polls
  {
    if polls != [] && polls[0].now < deadline {
      HandshakeStatus(Receiver.Deliver(s, polls[0].bytes), deadline, polls[1..]);
    }
  }

  lemma WaitsCons(ws: seq<Wait>, n: nat)
    requires 0 < n <= |ws|
    ensures Waits(ws[..n])[0] == ReceiverRuns.Await(HANDSHAKE, ws[0].start + ACK_TIMEOUT_MS, ws[0].polls)
    ensures Waits(ws[..n])[1..] == Waits(ws[1..][..n - 1])
  {
    assert ws[..n][1..] == ws[1..][..n - 1];
  }

  /** The attempts made are a program of waits, of which the last one completes if they succeed, and
      none if they fail. */
  lemma {:induction false} RetryIsProgram(s: Receiver.State, ws: seq<Wait>)
    ensures var r := Retry(s, ws);
      var actions := Waits(ws[..r.made]);
      && r.state == ReceiverRuns.PerformAll(s, actions)
      && ReceiverRuns.AnswersOf(s, actions) == if r.ok then [Answer(HANDSHAKE, STATUS_OK, r.state.received)] else []
    decreases ws
  {
    if ws != [] {
      var w, r := Attempt(s, ws[0]), Retry(s, ws);
      var actions := Waits(ws[..r.made]);
      HandshakeStatus(s, ws[0].start + ACK_TIMEOUT_MS, ws[0].polls);
      WaitsCons(ws, r.made);
      if w.status == STATUS_OK {
        assert actions[1..] == [];
      } else {
        RetryIsProgram(w.state, ws[1..]);
      }
    }
  }
}
