/** Frames on the Kestrel serial link: [0xAA][MSG_ID][LENGTH][PAYLOAD][CRC16, low byte first].
    The builder, the extractor that edits the receive buffer in place, and their specification. */
module BinaryProtocol {
  import opened SeqFacts
  import opened Crc

  const START: Byte := 0xAA
  const MAX_RX_BUFFER_BYTES := 1024
  const MAX_PAYLOAD := 255
  const MAX_FRAME := 260

  datatype Message = Message(id: Byte, payload: seq<Byte>)

  // ---------- specification ----------

  function LowByte(c: Register): Byte {
    (c.v & 0xFF) as Byte
  }

  function HighByte(c: Register): Byte {
    (c.v >> 8) as Byte
  }

  /** The CRC as the receiver reassembles it. */
  function Word(low: Byte, high: Byte): Register {
    Register((low as bv16) | ((high as bv16) << 8))
  }

  /** The bytes the CRC covers. */
  function Covered(m: Message): (bytes: seq<Byte>)
    requires |m.payload| <= MAX_PAYLOAD
  {
    [START, m.id, |m.payload| as Byte] + m.payload
  }

  function Frame(m: Message): (bytes: seq<Byte>)
    requires |m.payload| <= MAX_PAYLOAD
    ensures |bytes| == 5 + |m.payload|
  {
    var covered := Covered(m);
    covered + [LowByte(Crc16(covered)), HighByte(Crc16(covered))]
  }

  /** What the extractor decides about a buffer that starts with a start byte. */
  datatype Decision =
    | Accept(message: Message)
    | Wait
    | Reject

  function FrameSize(b: seq<Byte>): nat
    requires |b| >= 3
  {
    5 + b[2] as int
  }

  predicate CrcHolds(b: seq<Byte>, n: nat)
    requires n + 2 <= |b|
  {
    Crc16(b[..n]) == Word(b[n], b[n + 1])
  }

  function Decide(b: seq<Byte>): (d: Decision)
    requires b != [] && b[0] == START
    ensures d.Wait? <==> |b| < 3 || |b| < FrameSize(b)
  {
    if |b| < 3 || |b| < FrameSize(b) then Wait
    else
      var n := FrameSize(b) - 2;
      if CrcHolds(b, n) then Accept(Message(b[1], b[3..n])) else Reject
  }

  /** The buffer without the bytes before its first start byte. */
  function SkipGarbage(b: seq<Byte>): (r: seq<Byte>)
    ensures |r| <= |b|
    ensures r == [] || r[0] == START
  {
    if b == [] || b[0] == START then b else SkipGarbage(b[1..])
  }

  datatype ExtractResult = OK | INCOMPLETE | CRC_MISMATCH | NO_START_BYTE | OVERFLOW

  datatype Extraction = Extraction(result: ExtractResult, message: Message, rest: seq<Byte>)

  /** The whole effect of one extraction; `unset` is what the output arguments held before. */
  function Extract(b: seq<Byte>, unset: Message): Extraction {
    if |b| > MAX_RX_BUFFER_BYTES then Extraction(OVERFLOW, unset, [])
    else
      var s := SkipGarbage(b);
      if s == [] then Extraction(NO_START_BYTE, unset, [])
      else
        match Decide(s)
        case Wait => Extraction(INCOMPLETE, unset, s)
        case Reject => Extraction(CRC_MISMATCH, unset, s[1..])
        case Accept(m) => Extraction(OK, m, s[FrameSize(s)..])
  }

  // ---------- the driver's builder ----------

  /** The length byte keeps only the low eight bits of the payload size, and the copy is that
      long, so an oversized payload is silently cut. */
  method BuildFrame(msgId: Byte, payload: seq<Byte>) returns (frame: seq<Byte>)
    ensures frame == Frame(Message(msgId, payload[..|payload| % 256]))
  {
    var payloadLen := |payload| % 256;
    ghost var m := Message(msgId, payload[..payloadLen]);
    var buffer := new Byte[5 + payloadLen];
    buffer[0] := 0xAA;
    buffer[1] := msgId;
    buffer[2] := payloadLen as Byte;
    forall i | 0 <= i < payloadLen {
      buffer[3 + i] := payload[i];
    }
    var covered := buffer[..3 + payloadLen];
    assert covered == Covered(m);
    var crc := Crc16Ccitt(covered, 3 + payloadLen);
    assert covered[..3 + payloadLen] == covered;
    buffer[3 + payloadLen] := (crc & 0xFF) as Byte;
    buffer[4 + payloadLen] := (crc >> 8) as Byte;
    assert buffer[..3 + payloadLen] == covered;
    assert Register(crc) == Crc16(covered);
    return buffer[..];
  }

  // ---------- the driver's extractor ----------

  /** A byte vector that its users edit in place. */
  class ByteBuffer {
    var bytes: seq<Byte>

    constructor ()
      ensures bytes == []
    {
      bytes := [];
    }
  }

  /** The index of the first start byte, or the size of the buffer if there is none. */
  method FindStart(buffer: seq<Byte>) returns (start: nat)
    ensures start <= |buffer| && buffer[start..] == SkipGarbage(buffer)
  {
    start := |buffer|;
    var i := 0;
    while i < |buffer|
      invariant 0 <= i <= |buffer| && start == |buffer|
      invariant SkipGarbage(buffer[i..]) == SkipGarbage(buffer)
    {
      if buffer[i] == 0xAA {
        return i;
      }
      assert buffer[i..][1..] == buffer[i + 1..];
      i := i + 1;
    }
  }

  method CrcMatches(buffer: seq<Byte>, payloadLen: nat) returns (ok: bool)
    requires 5 + payloadLen <= |buffer|
    ensures ok <==> CrcHolds(buffer, 3 + payloadLen)
  {
    var calcCrc := Crc16Ccitt(buffer, 3 + payloadLen);
    var recvCrc := (buffer[3 + payloadLen] as bv16) | ((buffer[4 + payloadLen] as bv16) << 8);
    ok := calcCrc == recvCrc;
  }

  /** The length and CRC checks on a buffer that starts with a start byte. */
  method Examine(buffer: seq<Byte>) returns (d: Decision)
    requires buffer != [] && buffer[0] == START
    ensures d == Decide(buffer)
  {
    if |buffer| < 3 {
      return Wait;
    }
    var payloadLen := buffer[2] as int;
    var frameSize := 5 + payloadLen;
    if |buffer| < frameSize {
      return Wait;
    }
    var ok := CrcMatches(buffer, payloadLen);
    if !ok {
      return Reject;
    }
    return Accept(Message(buffer[1], buffer[3..3 + payloadLen]));
  }

  method ExtractFrame(buffer: ByteBuffer, outMsgId: Byte, outPayload: seq<Byte>)
    returns (result: ExtractResult, msgId: Byte, payload: seq<Byte>)
    modifies buffer
    ensures Extraction(result, Message(msgId, payload), buffer.bytes)
         == Extract(old(buffer.bytes), Message(outMsgId, outPayload))
  {
    msgId, payload := outMsgId, outPayload;
    if |buffer.bytes| > MAX_RX_BUFFER_BYTES {
      buffer.bytes := [];
      return OVERFLOW, msgId, payload;
    }
    var start := FindStart(buffer.bytes);
    if start > 0 {
      buffer.bytes := buffer.bytes[start..];
    }
    if buffer.bytes == [] {
      return NO_START_BYTE, msgId, payload;
    }
    var d := Examine(buffer.bytes);
    match d {
      case Wait =>
        return INCOMPLETE, msgId, payload;
      case Reject =>
        buffer.bytes := buffer.bytes[1..];
        return CRC_MISMATCH, msgId, payload;
      case Accept(m) =>
        msgId, payload := m.id, m.payload;
        buffer.bytes := buffer.bytes[5 + |payload|..];
        return OK, msgId, payload;
    }
  }

  // ---------- one frame there and back ----------

  /** The bytes of a frame, one by one: the CRC of all before it comes last, low byte first. */
  lemma FrameLayout(m: Message)
    requires |m.payload| <= 255
    ensures var f, n := Frame(m), |m.payload|;
      && |f| == 5 + n && f[0] == 0xAA && f[1] == m.id && f[2] as int == n && f[3..3 + n] == m.payload
      && f[3 + n] as bv16 == Crc16(f[..3 + n]).v & 0xFF
      && f[4 + n] as bv16 == Crc16(f[..3 + n]).v >> 8
  {
    var f, n := Frame(m), |m.payload|;
    LengthByte(n);
    assert f[..3 + n] == Covered(m);
    assert f[3..3 + n] == m.payload;
  }

  lemma WordRoundTrip(c: Register)
    ensures Word(LowByte(c), HighByte(c)) == c
  {
  }

  lemma WordSplit(low: Byte, high: Byte)
    ensures LowByte(Word(low, high)) == low && HighByte(Word(low, high)) == high
  {
  }

  lemma ByteRange(b: Byte)
    ensures 0 <= b as int <= MAX_PAYLOAD && (b as int) as Byte == b
  {
  }

  lemma NextByte(b: Byte)
    requires (b as int) < MAX_PAYLOAD
    ensures (b + 1) as int == b as int + 1
  {
  }

  lemma {:induction false} ByteOf(n: nat) returns (b: Byte)
    requires n <= MAX_PAYLOAD
    ensures b as int == n
  {
    if n == 0 {
      b := 0;
    } else {
      var a := ByteOf(n - 1);
      NextByte(a);
      b := a + 1;
    }
  }

  lemma LengthByte(n: nat)
    requires n <= MAX_PAYLOAD
    ensures (n as Byte) as int == n
  {
    var b := ByteOf(n);
    ByteRange(b);
  }

  /** A frame followed by anything is accepted as the message it was built from. */
  lemma AcceptsFrame(m: Message, tail: seq<Byte>)
    requires |m.payload| <= MAX_PAYLOAD
    ensures Decide(Frame(m) + tail) == Accept(m)
    ensures FrameSize(Frame(m) + tail) == |Frame(m)|
  {
    var b, n := Frame(m) + tail, 3 + |m.payload|;
    LengthByte(|m.payload|);
    assert b[..n] == Covered(m);
    assert b[3..n] == m.payload;
    WordRoundTrip(Crc16(Covered(m)));
  }

  /** Whatever is accepted is, byte for byte, the frame of the message that is delivered. */
  lemma AcceptedIsFrame(b: seq<Byte>)
    requires b != [] && b[0] == START && Decide(b).Accept?
    ensures var m := Decide(b).message;
      |m.payload| <= MAX_PAYLOAD && |b| >= FrameSize(b) && b[..FrameSize(b)] == Frame(m)
  {
    var n, m := FrameSize(b) - 2, Decide(b).message;
    ByteRange(b[2]);
    ThreeFirst(b, n);
    assert b[..n] == Covered(m);
    WordSplit(b[n], b[n + 1]);
    TwoMore(b, n);
  }

  lemma {:induction false} SkipGarbageSplit(b: seq<Byte>) returns (k: nat)
    ensures k <= |b| && SkipGarbage(b) == b[k..] && START !in b[..k]
  {
    if b == [] || b[0] == START {
      k := 0;
    } else {
      var j := SkipGarbageSplit(b[1..]);
      k := j + 1;
      assert b[1..][j..] == b[k..] && b[..k] == [b[0]] + b[1..][..j];
    }
  }

  lemma {:induction false} SkipGarbageOver(garbage: seq<Byte>, b: seq<Byte>)
    requires START !in garbage
    ensures SkipGarbage(garbage + b) == SkipGarbage(b)
  {
    if garbage == [] {
      assert garbage + b == b;
    } else {
      assert garbage[0] in garbage;
      assert (garbage + b)[1..] == garbage[1..] + b;
      SkipGarbageOver(garbage[1..], b);
    }
  }

  /** `b` is some bytes free of start bytes, then the frame of `m`, then `rest`. */
  ghost predicate Holds(b: seq<Byte>, garbage: seq<Byte>, m: Message, rest: seq<Byte>)
    requires |m.payload| <= MAX_PAYLOAD
  {
    START !in garbage && b == garbage + (Frame(m) + rest)
  }

  lemma ExtractedHolds(b: seq<Byte>, unset: Message) returns (garbage: seq<Byte>)
    requires Extract(b, unset).result == OK
    ensures var x := Extract(b, unset);
      |x.message.payload| <= MAX_PAYLOAD && Holds(b, garbage, x.message, x.rest)
  {
    var k := SkipGarbageSplit(b);
    var s := SkipGarbage(b);
    garbage := b[..k];
    AcceptedIsFrame(s);
    Halves(s, FrameSize(s));
    Halves(b, k);
  }

  lemma HoldsExtracted(b: seq<Byte>, unset: Message, garbage: seq<Byte>, m: Message, rest: seq<Byte>)
    requires |b| <= MAX_RX_BUFFER_BYTES && |m.payload| <= MAX_PAYLOAD && Holds(b, garbage, m, rest)
    ensures Extract(b, unset) == Extraction(OK, m, rest)
  {
    SkipGarbageOver(garbage, Frame(m) + rest);
    AcceptsFrame(m, rest);
  }

  /** A buffer yields message `m` exactly when it is, within the size limit, some bytes free of
      start bytes followed by the frame of `m`; what follows the frame stays in the buffer. */
  lemma ExtractsExactly(b: seq<Byte>, unset: Message, m: Message, rest: seq<Byte>)
    ensures Extract(b, unset) == Extraction(OK, m, rest) <==>
      && |b| <= 1024 && |m.payload| <= 255
      && exists garbage :: Holds(b, garbage, m, rest)
  {
    if Extract(b, unset) == Extraction(OK, m, rest) {
      var garbage := ExtractedHolds(b, unset);
    }
    if |b| <= MAX_RX_BUFFER_BYTES && |m.payload| <= MAX_PAYLOAD {
      forall garbage | Holds(b, garbage, m, rest)
        ensures Extract(b, unset) == Extraction(OK, m, rest)
      {
        HoldsExtracted(b, unset, garbage, m, rest);
      }
    }
  }

  /** A built frame is extracted as the message it was built from exactly when the payload fits the
      length byte; a longer payload comes out cut to its size modulo 256. */
  lemma BuiltRoundTrip(msgId: Byte, payload: seq<Byte>, tail: seq<Byte>, unset: Message)
    requires MAX_FRAME + |tail| <= MAX_RX_BUFFER_BYTES
    ensures var built := Frame(Message(msgId, payload[..|payload| % 256]));
      Extract(built + tail, unset) == Extraction(OK, Message(msgId, payload), tail) <==> |payload| <= MAX_PAYLOAD
  {
    var m := Message(msgId, payload[..|payload| % 256]);
    BuiltExtracted(m, tail, unset);
    assert |payload| <= MAX_PAYLOAD ==> m.payload == payload;
  }

  lemma BuiltExtracted(m: Message, tail: seq<Byte>, unset: Message)
    requires |m.payload| <= MAX_PAYLOAD && MAX_FRAME + |tail| <= MAX_RX_BUFFER_BYTES
    ensures Extract(Frame(m) + tail, unset) == Extraction(OK, m, tail)
  {
    Join([], Frame(m), tail);
    Join(Frame(m) + tail, [], []);
    HoldsExtracted(Frame(m) + tail, unset, [], m, tail);
  }

  /** Distinct messages have distinct frames. */
  lemma FrameInjective(m: Message, m': Message)
    requires |m.payload| <= MAX_PAYLOAD && |m'.payload| <= MAX_PAYLOAD
    requires Frame(m) == Frame(m')
    ensures m == m'
  {
    AcceptsFrame(m, []);
    AcceptsFrame(m', []);
    assert Frame(m) + [] == Frame(m') + [];
  }
}
