/** The one-slot acknowledgement latch: ACK frames fill it as they are dispatched, WaitForAck empties
    it. */
module AckLatch {
  import opened SeqFacts
  import opened Crc
  import opened BinaryProtocol
  import opened Wire

  const STATUS_OK: Byte := 0x00
  const STATUS_COMMAND_FAILED: Byte := 0x02
  const STATUS_TIMEOUT: Byte := 0x03
  const STATUS_UNKNOWN: Byte := 0xFF

  datatype Latch = Latch(received: bool, msgId: Byte, status: Byte)

  const EMPTY := Latch(false, 0, STATUS_UNKNOWN)

  predicate IsAck(m: Message) {
    m.id == ACK && |m.payload| >= 10
  }

  function OnAck(l: Latch, m: Message): Latch {
    if IsAck(m) then Latch(true, m.payload[8], m.payload[9]) else l
  }

  lemma OneByte(b: Byte, n: nat, rest: nat, k: nat)
    requires n == b as int + 256 * rest && rest == 0 && k == 0
    ensures LeBytes(n, k + 1) == [b]
  {
    LeBytesCons(b, rest, k);
    assert LeBytes(rest, k) == [];
  }

  /** A field of one byte holds that byte. */
  lemma ByteField(layout: seq<Field>, values: seq<int>, i: nat, at: nat, b: Byte)
    requires AllFit(layout, values) && i < |layout| && at == Size(layout[..i])
    requires layout[i] == U8 && values[i] == b as int
    ensures at < Size(layout) && Pack(layout, values)[at] == b
  {
    FieldAt(layout, values, i);
    OneByte(b, values[i], 0, Width(layout[i]) - 1);
    SliceAt(Pack(layout, values), at, at + 1, 0);
  }

  /** An acknowledgement as the board packs it: a time stamp, the command it answers, a status. Bytes
      after these are ignored. */
  lemma AckFields(l: Latch, sec: int, nsec: int, id: Byte, status: Byte, tail: seq<Byte>)
    requires Fits(U32, sec) && Fits(U32, nsec)
    ensures AllFit([U32, U32, U8, U8], [sec, nsec, id as int, status as int])
    ensures OnAck(l, Message(0xF0, Pack([U32, U32, U8, U8], [sec, nsec, id as int, status as int]) + tail))
         == Latch(true, id, status)
  {
    var layout, values := [U32, U32, U8, U8], [sec, nsec, id as int, status as int];
    ByteRange(id);
    ByteRange(status);
    StampedRun(layout, U8, 2);
    StampedRun(layout[..2], U8, 0);
    StampedRun(layout[..3], U8, 1);
    var payload := Pack(layout, values) + tail;
    ByteField(layout, values, 2, 8, id);
    ByteField(layout, values, 3, 9, status);
    assert payload[8] == id && payload[9] == status;
  }

  function OnAcks(l: Latch, ms: seq<Message>): Latch
    decreases ms
  {
    if ms == [] then l else OnAcks(OnAck(l, ms[0]), ms[1..])
  }

  predicate Ready(l: Latch, expected: Byte) {
    l.received && l.msgId == expected
  }

  /** The status a completed wait returns: a handshake acknowledgement carries the firmware version
      in that byte and counts as OK. */
  function Returned(l: Latch, expected: Byte): Byte {
    if expected == HANDSHAKE then STATUS_OK else l.status
  }

  function Take(l: Latch, expected: Byte): Latch {
    Latch(false, l.msgId, Returned(l, expected))
  }

  // ---------- any interleaving of frames and waits ----------

  datatype Event = Arrived(message: Message) | Completed(id: Byte, status: Byte)

  predicate Enabled(l: Latch, e: Event) {
    e.Arrived? || (Ready(l, e.id) && e.status == Returned(l, e.id))
  }

  function Next(l: Latch, e: Event): Latch {
    match e
    case Arrived(m) => OnAck(l, m)
    case Completed(id, _) => Take(l, id)
  }

  function Run(l: Latch, es: seq<Event>): Latch
    decreases es
  {
    if es == [] then l else Run(Next(l, es[0]), es[1..])
  }

  ghost predicate Legal(l: Latch, es: seq<Event>)
    decreases es
  {
    es == [] || (Enabled(l, es[0]) && Legal(Next(l, es[0]), es[1..]))
  }

  predicate Filling(e: Event) {
    e.Arrived? && IsAck(e.message)
  }

  /** Event `k` is the newest acknowledgement before position `n`. */
  ghost predicate Newest(es: seq<Event>, k: int, n: nat)
    requires n <= |es|
  {
    0 <= k < n && Filling(es[k]) && forall i :: k < i < n ==> !Filling(es[i])
  }

  /** No wait completed strictly between `k` and `n`. */
  ghost predicate Untaken(es: seq<Event>, k: int, n: nat)
    requires 0 <= k && n <= |es|
  {
    forall i :: k < i < n ==> es[i].Arrived?
  }

  /** Event `k` is an acknowledgement that nothing has replaced or taken by the end. */
  ghost predicate Pending(es: seq<Event>, k: int) {
    Newest(es, k, |es|) && Untaken(es, k, |es|)
  }

  /** The latch is full exactly while the newest acknowledgement has not completed a wait, and it
      then holds that acknowledgement. */
  ghost predicate Describes(es: seq<Event>, l: Latch) {
    && (l.received <==> exists k :: Pending(es, k))
    && forall k :: Pending(es, k) ==> l.msgId == es[k].message.payload[8] && l.status == es[k].message.payload[9]
  }

  lemma {:induction false} RunLast(l: Latch, es: seq<Event>, e: Event)
    ensures Run(l, es + [e]) == Next(Run(l, es), e)
    ensures Legal(l, es + [e]) <==> Legal(l, es) && Enabled(Run(l, es), e)
    decreases es
  {
    if es == [] {
      assert [e][1..] == [];
      assert [] + [e] == [e];
    } else {
      assert (es + [e])[1..] == es[1..] + [e];
      RunLast(Next(l, es[0]), es[1..], e);
    }
  }

  /** What one more event does to the pending acknowledgement: an acknowledgement becomes it, any
      other frame leaves it, a completed wait takes it. */
  lemma PendingStep(es: seq<Event>, e: Event, k: int)
    ensures Pending(es + [e], k) <==> if Filling(e) then k == |es| else e.Arrived? && Pending(es, k)
  {
    var more := es + [e];
    assert more[|es|] == e;
    assert forall i :: 0 <= i < |es| ==> more[i] == es[i];
  }

  lemma DescribesStep(es: seq<Event>, l: Latch, e: Event)
    requires Describes(es, l)
    ensures Describes(es + [e], Next(l, e))
  {
    forall k
      ensures Pending(es + [e], k) <==> if Filling(e) then k == |es| else e.Arrived? && Pending(es, k)
    {
      PendingStep(es, e, k);
    }
    if Filling(e) {
      assert Pending(es + [e], |es|);
    } else if e.Arrived? && l.received {
      var k :| Pending(es, k);
      assert Pending(es + [e], k);
    }
  }

  lemma {:induction false} LatchDescribed(es: seq<Event>)
    ensures Describes(es, Run(EMPTY, es))
  {
    if es != [] {
      var n := |es| - 1;
      LatchDescribed(es[..n]);
      RunLast(EMPTY, es[..n], es[n]);
      DescribesStep(es[..n], Run(EMPTY, es[..n]), es[n]);
      assert es == es[..n] + [es[n]];
    }
  }

  lemma {:induction false} LegalPrefix(l: Latch, es: seq<Event>, n: nat)
    requires n <= |es| && Legal(l, es)
    ensures Legal(l, es[..n])
    decreases es
  {
    if n > 0 {
      LegalPrefix(Next(l, es[0]), es[1..], n - 1);
      assert es[..n][1..] == es[1..][..n - 1];
    }
  }

  /** A wait completes only on the newest acknowledgement dispatched so far, that acknowledgement
      names the awaited command, has not completed another wait, and gives the returned status (OK
      for a handshake). */
  lemma WaitUsesNewest(es: seq<Event>, j: nat) returns (k: nat)
    requires Legal(EMPTY, es) && j < |es| && es[j].Completed?
    ensures Newest(es, k, j) && Untaken(es, k, j)
    ensures es[k].message.payload[8] == es[j].id
    ensures es[j].status == if es[j].id == HANDSHAKE then STATUS_OK else es[k].message.payload[9]
  {
    var before := es[..j];
    LegalPrefix(EMPTY, es, j + 1);
    assert es[..j + 1] == before + [es[j]];
    RunLast(EMPTY, before, es[j]);
    LatchDescribed(before);
    var l := Run(EMPTY, before);
    k :| Pending(before, k);
    assert before[k] == es[k];
    assert forall i :: 0 <= i < j ==> before[i] == es[i];
  }

  /** Two waits never complete on the same acknowledgement. */
  lemma AckCompletesOneWait(es: seq<Event>, j: nat, j': nat, k: nat, k': nat)
    requires Legal(EMPTY, es) && j < j' < |es| && es[j].Completed? && es[j'].Completed?
    requires Newest(es, k, j) && Newest(es, k', j')
    ensures k < j < k'
  {
    var n := WaitUsesNewest(es, j');
    assert Filling(es[n]) && Filling(es[k']);
  }

  // ---------- which acknowledgement answered which wait ----------

  /** The frames that arrived, in order. */
  function Heard(es: seq<Event>): seq<Message> {
    if es == [] then []
    else
      var n := |es| - 1;
      Heard(es[..n]) + if es[n].Arrived? then [es[n].message] else []
  }

  /** A completed wait: the awaited command, the status it returned, and how many frames had arrived
      by then. */
  datatype Answer = Answer(id: Byte, status: Byte, heard: nat)

  function Answers(es: seq<Event>): seq<Answer> {
    if es == [] then []
    else
      var n := |es| - 1;
      Answers(es[..n]) + if es[n].Completed? then [Answer(es[n].id, es[n].status, |Heard(es[..n])|)] else []
  }

  /** Frame `p` is an acknowledgement no older than `from`, with none between it and `to`. */
  ghost predicate NewestAck(ms: seq<Message>, p: nat, from: nat, to: nat)
    requires to <= |ms|
  {
    from <= p < to && IsAck(ms[p]) && forall q :: p < q < to ==> !IsAck(ms[q])
  }

  /** How many frames had arrived when the last of these waits completed. */
  function Since(answers: seq<Answer>): nat {
    if answers == [] then 0 else answers[|answers| - 1].heard
  }

  /** Frame `p` answered wait `a`: it is the newest acknowledgement that had arrived by then, it
      arrived after the previous wait was answered, and it names the awaited command and gives the
      returned status (OK for a handshake). */
  ghost predicate Answered(ms: seq<Message>, from: nat, a: Answer, p: nat) {
    && a.heard <= |ms| && NewestAck(ms, p, from, a.heard)
    && ms[p].payload[8] == a.id
    && a.status == if a.id == HANDSHAKE then STATUS_OK else ms[p].payload[9]
  }

  /** Each wait was answered by a frame of its own. */
  ghost predicate OneEach(ms: seq<Message>, answers: seq<Answer>, acks: seq<nat>) {
    && |acks| == |answers|
    && forall i :: 0 <= i < |acks| ==> Answered(ms, Since(answers[..i]), answers[i], acks[i])
  }

  /** A full latch holds the newest acknowledgement, which arrived after the last answered wait. */
  ghost predicate Holding(ms: seq<Message>, since: nat, l: Latch) {
    l.received ==> exists p: nat ::
      NewestAck(ms, p, since, |ms|) && l.msgId == ms[p].payload[8] && l.status == ms[p].payload[9]
  }

  lemma OneEachLater(ms: seq<Message>, m: Message, answers: seq<Answer>, acks: seq<nat>)
    requires OneEach(ms, answers, acks)
    ensures OneEach(ms + [m], answers, acks)
  {
    forall i | 0 <= i < |acks|
      ensures Answered(ms + [m], Since(answers[..i]), answers[i], acks[i])
    {
      assert Answered(ms, Since(answers[..i]), answers[i], acks[i]);
    }
  }

  lemma OneEachMore(ms: seq<Message>, answers: seq<Answer>, acks: seq<nat>, a: Answer, p: nat)
    requires OneEach(ms, answers, acks) && Answered(ms, Since(answers), a, p)
    ensures OneEach(ms, answers + [a], acks + [p])
  {
    var more := answers + [a];
    forall i | 0 <= i < |more|
      ensures Answered(ms, Since(more[..i]), more[i], (acks + [p])[i])
    {
      if i < |answers| {
        assert more[..i] == answers[..i];
        assert Answered(ms, Since(answers[..i]), answers[i], acks[i]);
      } else {
        assert more[..i] == answers;
      }
    }
  }

  lemma HoldingLater(ms: seq<Message>, since: nat, l: Latch, m: Message)
    requires Holding(ms, since, l) && since <= |ms|
    ensures Holding(ms + [m], since, OnAck(l, m))
  {
    var more := ms + [m];
    if IsAck(m) {
      assert NewestAck(more, |ms|, since, |more|);
    } else if l.received {
      var p: nat :| NewestAck(ms, p, since, |ms|) && l.msgId == ms[p].payload[8] && l.status == ms[p].payload[9];
      assert NewestAck(more, p, since, |more|) && more[p] == ms[p];
    }
  }

  /** Each wait so far had its own acknowledgement, and the latch holds none of those. */
  ghost predicate Settles(ms: seq<Message>, answers: seq<Answer>, acks: seq<nat>, l: Latch) {
    OneEach(ms, answers, acks) && Since(answers) <= |ms| && Holding(ms, Since(answers), l)
  }

  lemma SettlesArrived(ms: seq<Message>, answers: seq<Answer>, acks: seq<nat>, l: Latch, m: Message)
    requires Settles(ms, answers, acks, l)
    ensures Settles(ms + [m], answers, acks, OnAck(l, m))
  {
    OneEachLater(ms, m, answers, acks);
    HoldingLater(ms, Since(answers), l, m);
  }

  lemma SettlesCompleted(ms: seq<Message>, answers: seq<Answer>, acks: seq<nat>, l: Latch, id: Byte) returns (p: nat)
    requires Settles(ms, answers, acks, l) && Ready(l, id)
    ensures Settles(ms, answers + [Answer(id, Returned(l, id), |ms|)], acks + [p], Take(l, id))
    ensures p < |ms| && IsAck(ms[p]) && l.status == ms[p].payload[9]
  {
    p :| NewestAck(ms, p, Since(answers), |ms|) && l.msgId == ms[p].payload[8] && l.status == ms[p].payload[9];
    OneEachMore(ms, answers, acks, Answer(id, Returned(l, id), |ms|), p);
  }

  lemma HistoryLast(es: seq<Event>)
    requires Legal(EMPTY, es) && es != []
    ensures var n := |es| - 1;
      && Legal(EMPTY, es[..n]) && Enabled(Run(EMPTY, es[..n]), es[n])
      && Run(EMPTY, es) == Next(Run(EMPTY, es[..n]), es[n])
  {
    var n := |es| - 1;
    assert es == es[..n] + [es[n]];
    RunLast(EMPTY, es[..n], es[n]);
  }

  // ---------- the firmware version ----------

  /** The version byte after the events: a completed handshake takes it from the latch. */
  function VersionAfter(es: seq<Event>): Byte {
    if es == [] then 0
    else
      var n := |es| - 1;
      if es[n].Completed? && es[n].id == HANDSHAKE then Run(EMPTY, es[..n]).status else VersionAfter(es[..n])
  }

  /** The status byte of the frame that answered the last completed handshake, or zero if none did. */
  function LastVersion(ms: seq<Message>, answers: seq<Answer>, acks: seq<nat>): Byte {
    if answers == [] || |acks| < |answers| then 0
    else
      var n := |answers| - 1;
      if answers[n].id == 0x09 && acks[n] < |ms| && IsAck(ms[acks[n]]) then ms[acks[n]].payload[9]
      else LastVersion(ms, answers[..n], acks[..n])
  }

  lemma OneEachPrefix(ms: seq<Message>, answers: seq<Answer>, acks: seq<nat>)
    requires OneEach(ms, answers, acks) && answers != []
    ensures var n := |answers| - 1; OneEach(ms, answers[..n], acks[..n]) && Answered(ms, Since(answers[..n]), answers[n], acks[n])
  {
    var n := |answers| - 1;
    forall i | 0 <= i < n
      ensures Answered(ms, Since(answers[..n][..i]), answers[..n][i], acks[..n][i])
    {
      assert answers[..n][..i] == answers[..i];
      assert Answered(ms, Since(answers[..i]), answers[i], acks[i]);
    }
    assert Answered(ms, Since(answers[..n]), answers[n], acks[n]);
  }

  /** A later frame is no answer to an earlier wait. */
  lemma {:induction false} VersionKept(ms: seq<Message>, m: Message, answers: seq<Answer>, acks: seq<nat>)
    requires OneEach(ms, answers, acks)
    ensures LastVersion(ms + [m], answers, acks) == LastVersion(ms, answers, acks)
    decreases |answers|
  {
    if answers != [] {
      OneEachPrefix(ms, answers, acks);
      VersionKept(ms, m, answers[..|answers| - 1], acks[..|answers| - 1]);
    }
  }

  lemma VersionTaken(ms: seq<Message>, answers: seq<Answer>, acks: seq<nat>, a: Answer, p: nat)
    requires |acks| == |answers| && p < |ms| && IsAck(ms[p])
    ensures LastVersion(ms, answers + [a], acks + [p])
         == if a.id == HANDSHAKE then ms[p].payload[9] else LastVersion(ms, answers, acks)
  {
    assert (answers + [a])[..|answers|] == answers && (acks + [p])[..|acks|] == acks;
  }

  /** In every legal run each completed wait was answered by a different acknowledgement: the newest
      that had arrived, and one that arrived after the previous wait was answered. */
  lemma {:induction false} OneAckEach(es: seq<Event>) returns (acks: seq<nat>)
    requires Legal(EMPTY, es)
    ensures Settles(Heard(es), Answers(es), acks, Run(EMPTY, es))
    ensures VersionAfter(es) == LastVersion(Heard(es), Answers(es), acks)
  {
    if es == [] {
      acks := [];
    } else {
      var n := |es| - 1;
      HistoryLast(es);
      acks := OneAckEach(es[..n]);
      var ms, answers, l := Heard(es[..n]), Answers(es[..n]), Run(EMPTY, es[..n]);
      match es[n] {
        case Arrived(m) =>
          SettlesArrived(ms, answers, acks, l, m);
          VersionKept(ms, m, answers, acks);
          assert answers + [] == answers;
        case Completed(id, status) =>
          var p := SettlesCompleted(ms, answers, acks, l, id);
          VersionTaken(ms, answers, acks, Answer(id, status, |ms|), p);
          acks := acks + [p];
          assert ms + [] == ms;
      }
    }
  }

  /** Later waits were answered by later frames: no two by the same. */
  lemma {:induction false} AckBefore(ms: seq<Message>, answers: seq<Answer>, acks: seq<nat>, i: nat, j: nat)
    requires OneEach(ms, answers, acks) && i < j < |acks|
    ensures acks[i] < acks[j]
    decreases j
  {
    assert Answered(ms, Since(answers[..j - 1]), answers[j - 1], acks[j - 1]);
    assert Answered(ms, Since(answers[..j]), answers[j], acks[j]);
    if i < j - 1 {
      AckBefore(ms, answers, acks, i, j - 1);
    }
  }

  lemma AcksIncrease(ms: seq<Message>, answers: seq<Answer>, acks: seq<nat>)
    requires OneEach(ms, answers, acks)
    ensures forall i, j :: 0 <= i < j < |acks| ==> acks[i] < acks[j]
  {
    forall i, j | 0 <= i < j < |acks|
      ensures acks[i] < acks[j]
    {
      AckBefore(ms, answers, acks, i, j);
    }
  }
}
