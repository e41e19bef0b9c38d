/** A reference scanner over the whole byte stream, with no buffer limit and no chunks: what the
    driver's chunked, in-place extraction is proved to refine. */
module StreamScanner {
  import opened SeqFacts
  import opened Crc
  import opened BinaryProtocol

  /** One piece of the stream, in the order the scanner consumes it. */
  datatype Segment =
    | Noise(byte: Byte)
    | Rejected
    | Framed(message: Message)

  datatype Scan = Scan(segments: seq<Segment>, residual: seq<Byte>)

  /** The scanner stops on an empty stream and inside an unfinished frame. */
  predicate Settled(b: seq<Byte>) {
    b == [] || (b[0] == START && Decide(b).Wait?)
  }

  /** Drop a byte that is not a start byte, take the frame at a start byte if it checks, drop the
      start byte if it does not. */
  function Head(b: seq<Byte>): Segment
    requires !Settled(b)
  {
    if b[0] != START then Noise(b[0])
    else
      match Decide(b)
      case Reject => Rejected
      case Accept(m) => Framed(m)
  }

  function Width(b: seq<Byte>): (n: nat)
    requires !Settled(b)
    ensures 1 <= n <= |b|
  {
    if Head(b).Framed? then FrameSize(b) else 1
  }

  /** One leftmost pass over the stream. */
  function ScanStream(b: seq<Byte>): Scan
    decreases |b|
  {
    if Settled(b) then Scan([], b) else Prepend(Head(b), ScanStream(b[Width(b)..]))
  }

  function Prepend(s: Segment, scan: Scan): Scan {
    Scan([s] + scan.segments, scan.residual)
  }

  /** The dispatched messages, in order. */
  function Messages(segments: seq<Segment>): (ms: seq<Message>)
  {
    if segments == [] then []
    else (if segments[0].Framed? then [segments[0].message] else []) + Messages(segments[1..])
  }

  /** The number of CRC errors counted. */
  function Errors(segments: seq<Segment>): nat {
    if segments == [] then 0 else (if segments[0].Rejected? then 1 else 0) + Errors(segments[1..])
  }

  /** What a receiver observes of a scan. */
  datatype Parsed = Parsed(messages: seq<Message>, errors: nat, residual: seq<Byte>)

  function Parse(b: seq<Byte>): Parsed {
    var scan := ScanStream(b);
    Parsed(Messages(scan.segments), Errors(scan.segments), scan.residual)
  }

  function Then(first: Parsed, second: Parsed): Parsed {
    Parsed(first.messages + second.messages, first.errors + second.errors, second.residual)
  }

  // ---------- the residual ----------

  lemma SettledBound(r: seq<Byte>)
    requires Settled(r)
    ensures |r| < MAX_FRAME
    ensures ScanStream(r) == Scan([], r)
  {
    if |r| >= 3 {
      ByteRange(r[2]);
    }
  }

  lemma {:induction false} ResidualSettled(b: seq<Byte>)
    ensures Settled(ScanStream(b).residual)
    decreases |b|
  {
    if !Settled(b) {
      ResidualSettled(b[Width(b)..]);
    }
  }

  // ---------- chunking does not matter ----------

  lemma DecisionStable(a: seq<Byte>, b: seq<Byte>)
    requires a != [] && a[0] == START && !Decide(a).Wait?
    ensures Decide(a + b) == Decide(a) && FrameSize(a + b) == FrameSize(a)
  {
    var n := FrameSize(a) - 2;
    assert (a + b)[..n] == a[..n] && (a + b)[3..n] == a[3..n];
  }

  lemma HeadStable(a: seq<Byte>, b: seq<Byte>)
    requires !Settled(a)
    ensures !Settled(a + b) && Head(a + b) == Head(a) && Width(a + b) == Width(a)
    ensures (a + b)[Width(a)..] == a[Width(a)..] + b
  {
    if a[0] == START {
      DecisionStable(a, b);
    }
  }

  function Extend(first: Scan, second: Scan): Scan {
    Scan(first.segments + second.segments, second.residual)
  }

  lemma PrependExtend(s: Segment, first: Scan, second: Scan)
    ensures Prepend(s, Extend(first, second)) == Extend(Prepend(s, first), second)
  {
  }

  /** Scanning a stream is scanning a prefix and then the residual followed by the rest. */
  lemma {:induction false} ScanAppend(a: seq<Byte>, b: seq<Byte>)
    ensures ScanStream(a + b) == Extend(ScanStream(a), ScanStream(ScanStream(a).residual + b))
    decreases |a|
  {
    if Settled(a) {
      var second := ScanStream(a + b);
      assert [] + second.segments == second.segments;
    } else {
      var rest := a[Width(a)..];
      HeadStable(a, b);
      ScanAppend(rest, b);
      PrependExtend(Head(a), ScanStream(rest), ScanStream(ScanStream(rest).residual + b));
    }
  }

  lemma {:induction false} MessagesAppend(x: seq<Segment>, y: seq<Segment>)
    ensures Messages(x + y) == Messages(x) + Messages(y)
    ensures Errors(x + y) == Errors(x) + Errors(y)
  {
    if x == [] {
      assert x + y == y;
    } else {
      TailOfSum(x, y);
      MessagesAppend(x[1..], y);
      Join(if x[0].Framed? then [x[0].message] else [], Messages(x[1..]), Messages(y));
    }
  }

  lemma ParseAppend(a: seq<Byte>, b: seq<Byte>)
    ensures Parse(a + b) == Then(Parse(a), Parse(Parse(a).residual + b))
  {
    var first := ScanStream(a);
    ScanAppend(a, b);
    MessagesAppend(first.segments, ScanStream(first.residual + b).segments);
  }

  function Concat(chunks: seq<seq<Byte>>): seq<Byte> {
    if chunks == [] then [] else chunks[0] + Concat(chunks[1..])
  }

  /** A receiver that keeps only the residual between chunks. */
  function ParseChunks(residual: seq<Byte>, chunks: seq<seq<Byte>>): Parsed
    decreases chunks
  {
    if chunks == [] then Parsed([], 0, residual)
    else
      var first := Parse(residual + chunks[0]);
      Then(first, ParseChunks(first.residual, chunks[1..]))
  }

  /** However a stream is cut up, the receiver dispatches the messages, counts the errors and is
      left with the residual of one pass over the whole stream. */
  lemma {:induction false} ChunksAreOneStream(residual: seq<Byte>, chunks: seq<seq<Byte>>)
    requires Settled(residual)
    ensures ParseChunks(residual, chunks) == Parse(residual + Concat(chunks))
    decreases chunks
  {
    if chunks == [] {
      Join(residual, [], []);
    } else {
      var head, rest := residual + chunks[0], Concat(chunks[1..]);
      ResidualSettled(head);
      ChunksAreOneStream(Parse(head).residual, chunks[1..]);
      ParseAppend(head, rest);
      Join(residual, chunks[0], rest);
    }
  }

  // ---------- soundness and conservation ----------

  ghost predicate WellFormed(s: Segment) {
    && (s.Framed? ==> |s.message.payload| <= MAX_PAYLOAD)
    && (s.Noise? ==> s.byte != START)
  }

  function SegmentBytes(s: Segment): (bytes: seq<Byte>)
    requires WellFormed(s)
  {
    match s
    case Noise(b) => [b]
    case Rejected => [START]
    case Framed(m) => Frame(m)
  }

  function Flatten(segments: seq<Segment>): seq<Byte>
    requires AllWellFormed(segments)
  {
    if segments == [] then [] else SegmentBytes(segments[0]) + Flatten(segments[1..])
  }

  lemma HeadSound(b: seq<Byte>)
    requires !Settled(b)
    ensures WellFormed(Head(b)) && SegmentBytes(Head(b)) == b[..Width(b)]
  {
    if Head(b).Framed? {
      AcceptedIsFrame(b);
    }
  }

  ghost predicate AllWellFormed(segments: seq<Segment>) {
    forall s :: s in segments ==> WellFormed(s)
  }

  lemma FlattenPrepend(s: Segment, rest: seq<Segment>)
    requires WellFormed(s) && AllWellFormed(rest)
    ensures AllWellFormed([s] + rest) && Flatten([s] + rest) == SegmentBytes(s) + Flatten(rest)
  {
    assert ([s] + rest)[1..] == rest;
  }

  /** Every byte is accounted for, in order: the stream is the concatenation of the noise bytes,
      the rejected start bytes and, byte for byte, the frames of the dispatched messages, then the
      residual. No start byte is ever dropped as noise. */
  lemma {:induction false} ScanConserves(b: seq<Byte>)
    ensures var scan := ScanStream(b);
      AllWellFormed(scan.segments) && b == Flatten(scan.segments) + scan.residual
    decreases |b|
  {
    if !Settled(b) {
      var n := Width(b);
      var scan := ScanStream(b[n..]);
      HeadSound(b);
      ScanConserves(b[n..]);
      FlattenPrepend(Head(b), scan.segments);
      SplitAt(b, n, Flatten(scan.segments), scan.residual);
    }
  }

  /** The bytes of the dispatched frames. */
  function FrameBytes(ms: seq<Message>): nat {
    if ms == [] then 0 else 5 + |ms[0].payload| + FrameBytes(ms[1..])
  }

  function NoiseBytes(segments: seq<Segment>): nat {
    if segments == [] then 0 else (if segments[0].Noise? then 1 else 0) + NoiseBytes(segments[1..])
  }

  lemma {:induction false} FlattenLength(segments: seq<Segment>)
    requires AllWellFormed(segments)
    ensures |Flatten(segments)| == FrameBytes(Messages(segments)) + NoiseBytes(segments) + Errors(segments)
  {
    if segments != [] {
      FlattenLength(segments[1..]);
      if segments[0].Framed? {
        assert Messages(segments)[1..] == Messages(segments[1..]);
      } else {
        assert Messages(segments) == Messages(segments[1..]);
      }
    }
  }

  /** Bytes in = frame bytes + skipped bytes + one byte per CRC error + residual. */
  lemma ByteAccounting(b: seq<Byte>)
    ensures |b| == FrameBytes(Parse(b).messages) + NoiseBytes(ScanStream(b).segments)
                 + Parse(b).errors + |Parse(b).residual|
  {
    ScanConserves(b);
    FlattenLength(ScanStream(b).segments);
  }

  // ---------- resynchronisation ----------

  /** Where segment `k` starts in the stream. */
  function Offset(segments: seq<Segment>, k: nat): nat
    requires k <= |segments|
    requires AllWellFormed(segments)
  {
    if k == 0 then 0 else |SegmentBytes(segments[0])| + Offset(segments[1..], k - 1)
  }

  /** Segment `k` is the frame of `m` at `p`, or an accepted frame with `p` strictly inside. */
  ghost predicate Decided(segments: seq<Segment>, k: nat, p: nat, m: Message)
    requires AllWellFormed(segments)
  {
    && k < |segments| && segments[k].Framed?
    && (|| (Offset(segments, k) == p && segments[k].message == m)
        || Offset(segments, k) < p < Offset(segments, k + 1))
  }

  lemma DecidedLater(s: Segment, rest: seq<Segment>, k: nat, p: nat, m: Message)
    requires WellFormed(s) && AllWellFormed(rest) && Decided(rest, k, p, m)
    ensures AllWellFormed([s] + rest) && Decided([s] + rest, k + 1, p + |SegmentBytes(s)|, m)
  {
    var all := [s] + rest;
    assert all[1..] == rest && all[k + 1] == rest[k];
  }

  lemma WidthBound(b: seq<Byte>)
    ensures Settled(b) ==> |b| < MAX_FRAME
    ensures !Settled(b) ==> Width(b) <= MAX_FRAME
  {
    if |b| >= 3 {
      ByteRange(b[2]);
    }
  }

  lemma SegmentsWellFormed(b: seq<Byte>)
    ensures AllWellFormed(ScanStream(b).segments)
  {
    ScanConserves(b);
  }

  lemma StartsWithFrame(b: seq<Byte>, m: Message)
    requires |m.payload| <= MAX_PAYLOAD && |Frame(m)| <= |b| && b[..|Frame(m)|] == Frame(m)
    ensures AllWellFormed(ScanStream(b).segments)
    ensures Decided(ScanStream(b).segments, 0, 0, m)
  {
    var tail := b[|Frame(m)|..];
    assert b == Frame(m) + tail;
    SegmentsWellFormed(b);
    AcceptsFrame(m, tail);
    assert !Settled(b) && Head(b) == Framed(m);
    assert ScanStream(b).segments[0] == Framed(m);
  }

  lemma InsideHead(b: seq<Byte>, p: nat, m: Message)
    requires !Settled(b) && 0 < p < Width(b)
    requires AllWellFormed(ScanStream(b).segments)
    ensures Decided(ScanStream(b).segments, 0, p, m)
  {
    HeadSound(b);
    var segments := ScanStream(b).segments;
    assert segments[0] == Head(b);
    assert Offset(segments, 1) == |SegmentBytes(segments[0])| + Offset(segments[1..], 0);
  }

  lemma DecidedInTail(b: seq<Byte>, k: nat, p: nat, m: Message)
    requires !Settled(b) && Width(b) <= p
    requires AllWellFormed(ScanStream(b[Width(b)..]).segments)
    requires Decided(ScanStream(b[Width(b)..]).segments, k, p - Width(b), m)
    ensures AllWellFormed(ScanStream(b).segments)
    ensures Decided(ScanStream(b).segments, k + 1, p, m)
  {
    HeadSound(b);
    DecidedLater(Head(b), ScanStream(b[Width(b)..]).segments, k, p - Width(b), m);
  }

  /** The frame of `m` lies at offset `p`, and the stream extends far enough past its start. */
  ghost predicate FrameAt(b: seq<Byte>, p: nat, m: Message)
    requires |m.payload| <= MAX_PAYLOAD
  {
    p + |Frame(m)| <= |b| && b[p..p + |Frame(m)|] == Frame(m) && p + (MAX_FRAME - 1) <= |b|
  }

  lemma FrameLater(b: seq<Byte>, f: nat, p: nat, m: Message)
    requires |m.payload| <= MAX_PAYLOAD && FrameAt(b, p, m) && f <= p
    ensures FrameAt(b[f..], p - f, m)
  {
    SubSlice(b, f, p, p + |Frame(m)|);
  }

  /** A well-formed frame anywhere in an arbitrary stream is settled once the stream extends 259
      bytes past its first byte (and past its own end): it has been dispatched, or its first byte
      lies strictly inside a frame dispatched earlier. */
  lemma {:induction false} Resynchronises(b: seq<Byte>, p: nat, m: Message) returns (k: nat)
    requires |m.payload| <= MAX_PAYLOAD && FrameAt(b, p, m)
    ensures AllWellFormed(ScanStream(b).segments)
    ensures Decided(ScanStream(b).segments, k, p, m)
    decreases |b|
  {
    SegmentsWellFormed(b);
    WidthBound(b);
    if p == 0 {
      StartsWithFrame(b, m);
      k := 0;
    } else if p < Width(b) {
      InsideHead(b, p, m);
      k := 0;
    } else {
      var f := Width(b);
      FrameLater(b, f, p, m);
      var j := Resynchronises(b[f..], p - f, m);
      DecidedInTail(b, j, p, m);
      k := j + 1;
    }
  }

  // ---------- one extraction is one step of the scan ----------

  lemma PrependParse(s: Segment, b: seq<Byte>, rest: seq<Byte>)
    requires !Settled(b) && s == Head(b) && rest == b[Width(b)..]
    ensures Parse(b) == Then(Parsed(if s.Framed? then [s.message] else [], if s.Rejected? then 1 else 0, []), Parse(rest))
  {
    assert ScanStream(b).segments[1..] == ScanStream(rest).segments;
  }

  lemma ThenNothing(p: Parsed)
    ensures Then(Parsed([], 0, []), p) == p
  {
  }

  lemma ThenAssociative(p: Parsed, q: Parsed, r: Parsed)
    ensures Then(p, Then(q, r)) == Then(Then(p, q), r)
  {
  }

  lemma {:induction false} NoiseIsSkipped(noise: seq<Byte>, b: seq<Byte>)
    requires START !in noise
    ensures Parse(noise + b) == Parse(b)
  {
    Join(b, [], []);
    if noise != [] {
      assert noise[0] in noise;
      assert (noise + b)[1..] == noise[1..] + b;
      NoiseIsSkipped(noise[1..], b);
      PrependParse(Noise(noise[0]), noise + b, noise[1..] + b);
      ThenNothing(Parse(noise[1..] + b));
    }
  }

  /** The extraction dispatches the first message of the scan, or counts its first error, and leaves
      the rest; or the scan is at its end. */
  ghost predicate IsStep(b: seq<Byte>, x: Extraction) {
    match x.result
    case OK => Parse(b) == Then(Parsed([x.message], 0, []), Parse(x.rest)) && |x.rest| < |b|
    case CRC_MISMATCH => Parse(b) == Then(Parsed([], 1, []), Parse(x.rest)) && |x.rest| < |b|
    case INCOMPLETE => Parse(b) == Parsed([], 0, x.rest)
    case NO_START_BYTE => Parse(b) == Parsed([], 0, []) && x.rest == []
    case OVERFLOW => false
  }

  /** Within the size limit an extraction never overflows, and leaves to the following ones exactly
      what the reference scanner would still find. */
  lemma ExtractionStep(b: seq<Byte>, unset: Message)
    requires |b| <= MAX_RX_BUFFER_BYTES
    ensures IsStep(b, Extract(b, unset))
  {
    var k := SkipGarbageSplit(b);
    var s := SkipGarbage(b);
    assert b == b[..k] + s;
    NoiseIsSkipped(b[..k], s);
    if !Settled(s) {
      PrependParse(Head(s), s, s[Width(s)..]);
    }
  }

  // ---------- sequences of frames ----------

  /** A message preceded by noise on the line. */
  datatype Item = Item(noise: seq<Byte>, message: Message)

  ghost predicate Sendable(item: Item) {
    START !in item.noise && |item.message.payload| <= MAX_PAYLOAD
  }

  ghost predicate AllSendable(items: seq<Item>) {
    forall item :: item in items ==> Sendable(item)
  }

  function Encode(items: seq<Item>): seq<Byte>
    requires AllSendable(items)
  {
    if items == [] then []
    else
      assert items[0] in items;
      items[0].noise + (Frame(items[0].message) + Encode(items[1..]))
  }

  function Sent(items: seq<Item>): seq<Message> {
    if items == [] then [] else [items[0].message] + Sent(items[1..])
  }

  lemma FrameIsDispatched(m: Message, b: seq<Byte>)
    requires |m.payload| <= MAX_PAYLOAD
    ensures Parse(Frame(m) + b) == Then(Parsed([m], 0, []), Parse(b))
  {
    AcceptsFrame(m, b);
    assert (Frame(m) + b)[|Frame(m)|..] == b;
    PrependParse(Framed(m), Frame(m) + b, b);
  }

  lemma ItemIsDispatched(item: Item, b: seq<Byte>)
    requires Sendable(item)
    ensures Parse(item.noise + (Frame(item.message) + b)) == Then(Parsed([item.message], 0, []), Parse(b))
  {
    NoiseIsSkipped(item.noise, Frame(item.message) + b);
    FrameIsDispatched(item.message, b);
  }

  /** Frames in a row, with noise free of start bytes between them and anything after them: each
      is dispatched, once and in order, without an error, and the rest is scanned as on its own. */
  lemma {:induction false} FramesRoundTrip(items: seq<Item>, tail: seq<Byte>)
    requires AllSendable(items)
    ensures Parse(Encode(items) + tail) == Then(Parsed(Sent(items), 0, []), Parse(tail))
  {
    Join(tail, [], []);
    ThenNothing(Parse(tail));
    if items != [] {
      var item, rest := items[0], items[1..];
      assert item in items;
      FramesRoundTrip(rest, tail);
      ItemIsDispatched(item, Encode(rest) + tail);
      ThenAssociative(Parsed([item.message], 0, []), Parsed(Sent(rest), 0, []), Parse(tail));
      Join(item.noise, Frame(item.message) + Encode(rest), tail);
      Join(Frame(item.message), Encode(rest), tail);
    }
  }

  /** Fed from an empty buffer in any pieces, exactly the sent messages come out, without an error
      and with an empty buffer left. */
  lemma SequenceRoundTrip(items: seq<Item>, trailing: seq<Byte>, chunks: seq<seq<Byte>>)
    requires AllSendable(items)
    requires START !in trailing && Concat(chunks) == Encode(items) + trailing
    ensures ParseChunks([], chunks) == Parsed(Sent(items), 0, [])
  {
    ChunksAreOneStream([], chunks);
    assert [] + Concat(chunks) == Concat(chunks);
    FramesRoundTrip(items, trailing);
    NoiseIsSkipped(trailing, []);
    assert trailing + [] == trailing;
    assert Sent(items) + [] == Sent(items);
  }

  // ---------- a stream cut anywhere ----------

  /** The number of items that lie wholly within the first `c` bytes. */
  function Complete(items: seq<Item>, c: nat): (j: nat)
    requires AllSendable(items)
    ensures j <= |items|
  {
    if items == [] then 0
    else
      assert items[0] in items;
      var n := |items[0].noise| + |Frame(items[0].message)|;
      if c < n then 0 else 1 + Complete(items[1..], c - n)
  }

  /** An unfinished frame dispatches nothing and counts no error. */
  lemma PartialFrame(m: Message, a: seq<Byte>, b: seq<Byte>)
    requires |m.payload| <= MAX_PAYLOAD && Frame(m) == a + b && b != []
    ensures Parse(a) == Parsed([], 0, a)
  {
    AcceptsFrame(m, []);
    Join(Frame(m), [], []);
    if a != [] && !Decide(a).Wait? {
      DecisionStable(a, b);
      assert false;
    }
    SettledBound(a);
  }

  /** A run of noise cut short leaves nothing behind. */
  lemma PartialNoise(noise: seq<Byte>, c: nat)
    requires START !in noise && c <= |noise|
    ensures Parse(noise[..c]) == Parsed([], 0, [])
  {
    NoiseIsSkipped(noise[..c], []);
    Join(noise[..c], [], []);
  }

  lemma PartialItem(item: Item, c: nat)
    requires Sendable(item) && c < |item.noise| + |Frame(item.message)|
    ensures var p := Parse((item.noise + Frame(item.message))[..c]); p.messages == [] && p.errors == 0
  {
    var noise, frame := item.noise, Frame(item.message);
    if c <= |noise| {
      assert (noise + frame)[..c] == noise[..c];
      PartialNoise(noise, c);
    } else {
      var a, b := frame[..c - |noise|], frame[c - |noise|..];
      assert (noise + frame)[..c] == noise + a;
      assert frame == a + b;
      NoiseIsSkipped(noise, a);
      PartialFrame(item.message, a, b);
    }
  }

  lemma SentPrefix(items: seq<Item>, j: nat)
    requires j < |items|
    ensures Sent(items[..j + 1]) == [items[0].message] + Sent(items[1..][..j])
  {
    assert items[..j + 1][1..] == items[1..][..j];
  }

  /** Cut anywhere, a stream of frames and noise yields exactly the frames that are complete. */
  lemma {:induction false} CutStream(items: seq<Item>, c: nat)
    requires AllSendable(items) && c <= |Encode(items)|
    ensures var p := Parse(Encode(items)[..c]); p.messages == Sent(items[..Complete(items, c)]) && p.errors == 0
  {
    if items == [] {
      assert Encode(items)[..c] == [];
    } else {
      var item, rest := items[0], items[1..];
      assert item in items;
      var head := item.noise + Frame(item.message);
      Join(item.noise, Frame(item.message), Encode(rest));
      if c < |head| {
        CutEarlier(head, Encode(rest), c);
        PartialItem(item, c);
      } else {
        var tail := Encode(rest)[..c - |head|];
        CutLater(head, Encode(rest), c);
        Join(item.noise, Frame(item.message), tail);
        ItemIsDispatched(item, tail);
        CutStream(rest, c - |head|);
        SentPrefix(items, Complete(rest, c - |head|));
      }
    }
  }
}
