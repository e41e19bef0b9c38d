/** Which line errors the frame check catches. An error pattern that leaves the start and length
    bytes alone goes unnoticed exactly when, read in CRC order, it is a multiple of the generator;
    hence every odd number of flipped bits, every one to three flipped bits and every burst of at
    most 16 bits is rejected. */
module ErrorDetection {
  import opened SeqFacts
  import opened Crc
  import opened CrcCode
  import opened CrcOrder
  import opened BinaryProtocol

  /** An error pattern on the frame of `m` outside the start and length bytes. */
  ghost predicate Corrupts(e: seq<Byte>, m: Message) {
    && |m.payload| <= MAX_PAYLOAD
    && |e| == 5 + |m.payload|
    && e[0] == 0 && e[2] == 0
  }

  /** The pattern with the two CRC bytes, sent low byte first, in the order of the polynomial. */
  function InCrcOrder<T>(e: seq<T>): (r: seq<T>)
    requires |e| >= 2
    ensures |r| == |e|
  {
    var n := |e| - 2;
    e[..n] + [e[n + 1], e[n]]
  }

  function Remainder(e: seq<Byte>): Register
    requires |e| >= 2
  {
    CrcBits(ZERO, Bits(InCrcOrder(e)))
  }

  // ---------- the syndrome ----------

  function ShiftBy(c: Register, k: nat): Register
    decreases k
  {
    if k == 0 then c else ShiftBy(Shift(c), k - 1)
  }

  lemma ShiftDeeper(c: Register, k: nat)
    requires k <= 15 && UpTo(c, k)
    ensures UpTo(Shift(c), k + 1)
  {
  }

  lemma {:induction false} ShiftSteps(c: Register, k: nat, j: nat)
    requires k + j <= 16 && UpTo(c, k)
    ensures Steps(ShiftBy(c, j), j) == c
    decreases j
  {
    if j > 0 {
      ShiftDeeper(c, k);
      ShiftSteps(Shift(c), k + 1, j - 1);
      StepsAdd(ShiftBy(c, j), j - 1, 1);
      ShiftBack(c, k);
      assert Steps(Shift(c), 1) == Steps(Step(Shift(c)), 0);
    }
  }

  function Low(b: Byte): Register {
    Register(b as bv16)
  }

  lemma ByteShifts(b: Byte)
    ensures UpTo(High(b), 8)
    ensures Shift(Shift(Shift(Shift(Shift(Shift(Shift(Shift(High(b))))))))) == Low(b)
  {
  }

  lemma LowSteps(b: Byte)
    ensures Steps(Low(b), 8) == High(b)
  {
    var c := High(b);
    ByteShifts(b);
    assert ShiftBy(c, 8) == ShiftBy(Shift(Shift(c)), 6) == ShiftBy(Shift(Shift(Shift(Shift(c)))), 4)
        == ShiftBy(Shift(Shift(Shift(Shift(Shift(Shift(c)))))), 2) == Low(b);
    ShiftSteps(c, 8, 8);
  }

  lemma WordHalves(low: Byte, high: Byte)
    ensures Word(low, high) == Plus(High(high), Low(low))
  {
  }

  lemma CrcOfTwo(c: Register, a: Byte, b: Byte)
    ensures CrcFrom(c, [a, b]) == Absorb(Absorb(c, a), b)
  {
    assert [a, b][1..] == [b];
    assert [b][1..] == [];
    assert CrcFrom(Absorb(c, a), [b]) == CrcFrom(Absorb(Absorb(c, a), b), []);
  }

  lemma AbsorbWord(c: Register, low: Byte, high: Byte)
    ensures CrcFrom(c, [high, low]) == Steps(Plus(c, Word(low, high)), 16)
  {
    var l := Low(low);
    CrcOfTwo(c, high, low);
    LowSteps(low);
    StepsPlus(Plus(c, High(high)), l, 8);
    StepsAdd(Plus(Plus(c, High(high)), l), 8, 8);
    WordHalves(low, high);
    PlusAssociative(c, High(high), l);
  }

  lemma WordXor(low: Byte, high: Byte, e0: Byte, e1: Byte)
    ensures Word(low ^ e0, high ^ e1) == Plus(Word(low, high), Word(e0, e1))
  {
  }

  lemma PlusEqual(a: Register, b: Register, c: Register)
    ensures Plus(a, b) == Plus(a, c) <==> b == c
  {
    if Plus(a, b) == Plus(a, c) {
      PlusAssociative(a, a, b);
      PlusAssociative(a, a, c);
      PlusZero(a);
      PlusZero(b);
      PlusZero(c);
    }
  }

  lemma RemainderZero(e: seq<Byte>)
    requires |e| >= 2
    ensures var n := |e| - 2;
      Remainder(e) == ZERO <==> CrcFrom(ZERO, e[..n]) == Word(e[n], e[n + 1])
  {
    var n := |e| - 2;
    var c, w := CrcFrom(ZERO, e[..n]), Word(e[n], e[n + 1]);
    BitSerial(ZERO, InCrcOrder(e));
    CrcAppend(ZERO, e[..n], [e[n + 1], e[n]]);
    AbsorbWord(c, e[n], e[n + 1]);
    if c == w {
      PlusZero(c);
      StepsZero(16);
    } else {
      if Plus(c, w) == ZERO {
        PlusCancel(c, w);
      }
      StepsNonzero(Plus(c, w), 16);
    }
  }

  lemma CorruptedCovered(m: Message, e: seq<Byte>)
    requires Corrupts(e, m)
    ensures var n := 3 + |m.payload|;
      Crc16(Xor(Frame(m), e)[..n]) == Plus(Crc16(Covered(m)), CrcFrom(ZERO, e[..n]))
  {
    var f, n := Frame(m), 3 + |m.payload|;
    assert Xor(f, e)[..n] == Xor(f[..n], e[..n]);
    assert f[..n] == Covered(m);
    PlusZero(INIT);
    CrcXor(INIT, ZERO, f[..n], e[..n]);
  }

  lemma XoredWord(c: Register, b0: Byte, b1: Byte, e0: Byte, e1: Byte)
    requires b0 == LowByte(c) ^ e0 && b1 == HighByte(c) ^ e1
    ensures Word(b0, b1) == Plus(c, Word(e0, e1))
  {
    WordRoundTrip(c);
    WordXor(LowByte(c), HighByte(c), e0, e1);
  }

  lemma CorruptedWord(m: Message, e: seq<Byte>)
    requires Corrupts(e, m)
    ensures var b, n := Xor(Frame(m), e), 3 + |m.payload|;
      Word(b[n], b[n + 1]) == Plus(Crc16(Covered(m)), Word(e[n], e[n + 1]))
  {
    var b, n := Xor(Frame(m), e), 3 + |m.payload|;
    XoredWord(Crc16(Covered(m)), b[n], b[n + 1], e[n], e[n + 1]);
  }

  lemma CorruptedCrc(m: Message, e: seq<Byte>)
    requires Corrupts(e, m)
    ensures CrcHolds(Xor(Frame(m), e), 3 + |m.payload|) <==> Remainder(e) == ZERO
  {
    var n := 3 + |m.payload|;
    CorruptedCovered(m, e);
    CorruptedWord(m, e);
    PlusEqual(Crc16(Covered(m)), CrcFrom(ZERO, e[..n]), Word(e[n], e[n + 1]));
    RemainderZero(e);
  }

  lemma UnchangedBytes(m: Message, e: seq<Byte>)
    requires Corrupts(e, m)
    ensures var b := Xor(Frame(m), e); b[0] == START && FrameSize(b) == |b| == 5 + |m.payload|
  {
    var f := Frame(m);
    XorZero(f[0]);
    XorZero(f[2]);
    LengthByte(|m.payload|);
  }

  lemma XorZero(b: Byte)
    ensures b ^ 0 == b
  {
  }

  /** The error patterns that go unnoticed are exactly the multiples of the generator. */
  lemma DetectedExactly(m: Message, e: seq<Byte>, tail: seq<Byte>)
    requires Corrupts(e, m)
    ensures var b := Xor(Frame(m), e) + tail;
      b[0] == START && (Decide(b).Reject? <==> Remainder(e) != ZERO) && !Decide(b).Wait?
  {
    var b, n := Xor(Frame(m), e), 3 + |m.payload|;
    UnchangedBytes(m, e);
    CorruptedCrc(m, e);
    assert (b + tail)[..n] == b[..n];
    assert CrcHolds(b + tail, n) == CrcHolds(b, n);
  }

  // ---------- what is always caught ----------

  lemma WeightBitsAppend(s: seq<Byte>, t: seq<Byte>)
    ensures Weight(Bits(s + t)) == Weight(Bits(s)) + Weight(Bits(t))
  {
    BitsAppend(s, t);
    WeightAppend(Bits(s), Bits(t));
  }

  lemma LastTwo<T>(e: seq<T>, n: nat)
    requires |e| == n + 2
    ensures e == e[..n] + ([e[n]] + [e[n + 1]])
    ensures InCrcOrder(e) == e[..n] + ([e[n + 1]] + [e[n]])
  {
  }

  lemma SameWeight(e: seq<Byte>)
    requires |e| >= 2
    ensures Weight(Bits(InCrcOrder(e))) == Weight(Bits(e))
  {
    var n := |e| - 2;
    WeightBitsAppend(e[..n], [e[n]] + [e[n + 1]]);
    WeightBitsAppend(e[..n], [e[n + 1]] + [e[n]]);
    WeightBitsAppend([e[n]], [e[n + 1]]);
    WeightBitsAppend([e[n + 1]], [e[n]]);
    LastTwo(e, n);
  }

  /** Any odd number of flipped bits is rejected, for every payload length. */
  lemma OddFlipsRejected(m: Message, e: seq<Byte>, tail: seq<Byte>)
    requires Corrupts(e, m) && Weight(Bits(e)) % 2 == 1
    ensures Decide(Xor(Frame(m), e) + tail).Reject?
  {
    SameWeight(e);
    ParityBits(ZERO, Bits(InCrcOrder(e)));
    OddConstants();
    DetectedExactly(m, e, tail);
  }

  /** The frame check has distance at least four: one, two or three flipped bits anywhere in the
      identifier, the payload and the CRC are always rejected. */
  lemma FewFlipsRejected(m: Message, e: seq<Byte>, tail: seq<Byte>)
    requires Corrupts(e, m) && 1 <= Weight(Bits(e)) <= 3
    ensures Decide(Xor(Frame(m), e) + tail).Reject?
  {
    SameWeight(e);
    LightRemainder(Bits(InCrcOrder(e)));
    DetectedExactly(m, e, tail);
  }

  ghost predicate Confined(bits: seq<bool>, i: nat, width: nat) {
    forall t :: 0 <= t < |bits| && !(i <= t < i + width) ==> !bits[t]
  }

  lemma {:induction false} NoBits(bits: seq<bool>)
    requires forall t :: 0 <= t < |bits| ==> !bits[t]
    ensures Weight(bits) == 0
  {
    if bits != [] {
      NoBits(bits[1..]);
    }
  }

  lemma NoBitsOutside(bits: seq<bool>, i: nat, lo: nat, hi: nat)
    requires Confined(bits, i, 16) && lo <= hi <= |bits| && lo <= i && (hi == |bits| || hi == i + 16)
    ensures Weight(bits[..lo]) == 0 && Weight(bits[hi..]) == 0
  {
    NoBits(bits[..lo]);
    forall t | 0 <= t < |bits| - hi
      ensures !bits[hi..][t]
    {
      assert bits[hi..][t] == bits[hi + t];
    }
    NoBits(bits[hi..]);
  }

  lemma ConfinedRemainder(bits: seq<bool>, i: nat)
    requires Confined(bits, i, 16) && Weight(bits) > 0
    ensures CrcBits(ZERO, bits) != ZERO
  {
    var lo := if i <= |bits| then i else |bits|;
    var hi := if i + 16 <= |bits| then i + 16 else |bits|;
    var before, burst, after := bits[..lo], bits[lo..hi], bits[hi..];
    Thirds(bits, lo, hi);
    NoBitsOutside(bits, i, lo, hi);
    WeightAppend(before + burst, after);
    WeightAppend(before, burst);
    BurstRemainder(before, burst, after);
  }

  /** Any nonzero burst confined to 16 consecutive bits, in the order of the polynomial and not
      aligned to bytes, is rejected. */
  lemma BurstRejected(m: Message, e: seq<Byte>, i: nat, tail: seq<Byte>)
    requires Corrupts(e, m) && Confined(Bits(InCrcOrder(e)), i, 16) && Weight(Bits(e)) > 0
    ensures Decide(Xor(Frame(m), e) + tail).Reject?
  {
    SameWeight(e);
    ConfinedRemainder(Bits(InCrcOrder(e)), i);
    DetectedExactly(m, e, tail);
  }

  lemma EqualLast<T>(e: seq<T>)
    requires |e| >= 2 && e[|e| - 2] == e[|e| - 1]
    ensures InCrcOrder(e) == e
  {
    LastTwo(e, |e| - 2);
  }

  /** In particular every such burst in the identifier and payload, where the order of the
      polynomial is the order of the wire. */
  lemma PayloadBurstRejected(m: Message, e: seq<Byte>, i: nat, tail: seq<Byte>)
    requires Corrupts(e, m) && e[|e| - 2] == 0 && e[|e| - 1] == 0
    requires Confined(Bits(e), i, 16) && Weight(Bits(e)) > 0
    ensures Decide(Xor(Frame(m), e) + tail).Reject?
  {
    EqualLast(e);
    BurstRejected(m, e, i, tail);
  }

  // ---------- and what is not ----------

  lemma {:induction false} CrcOfZeros(k: nat)
    ensures CrcFrom(ZERO, seq(k, i => 0)) == ZERO
  {
    if k > 0 {
      PlusZero(ZERO);
      StepsZero(8);
      assert High(0) == ZERO;
      assert seq(k, i => 0 as Byte)[1..] == seq(k - 1, i => 0 as Byte);
      CrcOfZeros(k - 1);
    }
  }

  lemma PaddedPattern(k: nat, e: seq<Byte>)
    ensures CrcFrom(ZERO, seq(k, i => 0) + e) == CrcFrom(ZERO, e)
  {
    CrcOfZeros(k);
    CrcAppend(ZERO, seq(k, i => 0), e);
  }

  /** Every message with a payload has an undetected burst of 16 bits in wire order across the end
      of its payload: 0x89 on the last payload byte together with 0xA1 on the low CRC byte. */
  lemma BoundaryBurstUndetected(m: Message, tail: seq<Byte>)
    requires 1 <= |m.payload| <= MAX_PAYLOAD
    ensures var e := seq(2 + |m.payload|, i => 0) + [0x89, 0xA1, 0];
      Corrupts(e, m) && Decide(Xor(Frame(m), e) + tail).Accept?
  {
    var k := 2 + |m.payload|;
    var e: seq<Byte> := seq(k, i => 0) + [0x89, 0xA1, 0];
    assert e[..k + 1] == seq(k, i => 0) + [0x89];
    PaddedPattern(k, [0x89]);
    BoundaryConstants();
    RemainderZero(e);
    DetectedExactly(m, e, tail);
  }

  lemma BoundaryConstants()
    ensures CrcFrom(ZERO, [0x89]) == Word(0xA1, 0)
  {
    assert CrcFrom(ZERO, [0x89]) == CrcFrom(Absorb(ZERO, 0x89), []);
    Eight(Plus(ZERO, High(0x89)));
  }

  lemma Eight(c: Register)
    ensures Steps(c, 8) == Step(Step(Step(Step(Step(Step(Step(Step(c))))))))
  {
    assert Steps(c, 8) == Steps(Step(Step(c)), 6) == Steps(Step(Step(Step(Step(c)))), 4)
        == Steps(Step(Step(Step(Step(Step(Step(c)))))), 2);
  }

  lemma {:induction false} WeightOfZeros(k: nat)
    ensures Weight(Bits(seq(k, i => 0))) == 0
  {
    if k > 0 {
      var z: seq<Byte> := seq(k, i => 0);
      assert z[1..] == seq(k - 1, i => 0);
      WeightOfZeros(k - 1);
      WeightAppend(ByteBits(0), Bits(z[1..]));
      NoBits(ByteBits(0));
    }
  }

  lemma {:induction false} WeightAt(bits: seq<bool>, k: nat)
    requires k < |bits| && bits[k]
    ensures Weight(bits) == Weight(bits[..k]) + 1 + Weight(bits[k + 1..])
  {
    WeightAppend(bits[..k], bits[k..]);
    assert bits == bits[..k] + bits[k..];
  }

  lemma LoneBit(bits: seq<bool>, k: nat)
    requires k < |bits| && bits[k]
    requires forall t :: 0 <= t < |bits| && t != k ==> !bits[t]
    ensures Weight(bits) == 1
  {
    WeightAt(bits, k);
    NoBits(bits[..k]);
    NoBits(bits[k + 1..]);
  }

  lemma PairOfBits(bits: seq<bool>, k: nat, l: nat)
    requires k < l < |bits| && bits[k] && bits[l]
    requires forall t :: 0 <= t < |bits| && t != k && t != l ==> !bits[t]
    ensures Weight(bits) == 2
  {
    WeightAt(bits, k);
    NoBits(bits[..k]);
    LoneBit(bits[k + 1..], l - k - 1);
  }

  lemma WeightOf01()
    ensures Weight(ByteBits(0x01)) == 1
  {
    LoneBit(ByteBits(0x01), 7);
  }

  lemma WeightOf10()
    ensures Weight(ByteBits(0x10)) == 1
  {
    LoneBit(ByteBits(0x10), 3);
  }

  lemma WeightOf21()
    ensures Weight(ByteBits(0x21)) == 2
  {
    PairOfBits(ByteBits(0x21), 2, 7);
  }

  lemma GeneratorWeight(k: nat)
    ensures Weight(Bits(seq(k, i => 0) + [0x01, 0x21, 0x10])) == 4
  {
    WeightOfZeros(k);
    WeightBitsAppend(seq(k, i => 0), [0x01, 0x21, 0x10]);
    ThreeBytesWeight(0x01, 0x21, 0x10);
    WeightOf01();
    WeightOf10();
    WeightOf21();
  }

  lemma ThreeBytesWeight(a: Byte, b: Byte, c: Byte)
    ensures Weight(Bits([a, b, c])) == Weight(ByteBits(a)) + Weight(ByteBits(b)) + Weight(ByteBits(c))
  {
    WeightBitsAppend([a], [b] + [c]);
    WeightBitsAppend([b], [c]);
    OneByte(a);
    OneByte(b);
    OneByte(c);
    Three(a, b, c);
  }

  lemma Three<T>(a: T, b: T, c: T)
    ensures [a] + ([b] + [c]) == [a, b, c]
  {
  }

  lemma OneByte(a: Byte)
    ensures Bits([a]) == ByteBits(a)
  {
    assert [a][1..] == [];
    assert Bits([a]) == ByteBits(a) + [];
  }

  /** Four flips are too many as soon as there is a payload: the generator itself, laid over the last
      payload byte and the CRC, is a pattern of weight four that no frame detects. */
  lemma FourFlipsUndetected(m: Message, tail: seq<Byte>)
    requires 1 <= |m.payload| <= MAX_PAYLOAD
    ensures var e := seq(2 + |m.payload|, i => 0) + [0x01, 0x21, 0x10];
      Corrupts(e, m) && Weight(Bits(e)) == 4 && Decide(Xor(Frame(m), e) + tail).Accept?
  {
    var k := 2 + |m.payload|;
    var e: seq<Byte> := seq(k, i => 0) + [0x01, 0x21, 0x10];
    assert e[..k + 1] == seq(k, i => 0) + [0x01];
    PaddedPattern(k, [0x01]);
    GeneratorConstants();
    RemainderZero(e);
    DetectedExactly(m, e, tail);
    GeneratorWeight(k);
  }

  lemma GeneratorConstants()
    ensures CrcFrom(ZERO, [0x01]) == Word(0x21, 0x10)
  {
    assert CrcFrom(ZERO, [0x01]) == CrcFrom(Absorb(ZERO, 0x01), []);
    Eight(Plus(ZERO, High(0x01)));
  }

  // ---------- the weight of a frame ----------

  /** Read in CRC order a frame is a multiple of the generator. */
  lemma FrameRemainder(m: Message)
    requires |m.payload| <= MAX_PAYLOAD
    ensures CrcBits(INIT, Bits(InCrcOrder(Frame(m)))) == ZERO
  {
    var covered := Covered(m);
    var c := Crc16(covered);
    var low, high := LowByte(c), HighByte(c);
    assert Frame(m)[..|covered|] == covered;
    BitSerial(INIT, InCrcOrder(Frame(m)));
    CrcAppend(INIT, covered, [high, low]);
    AbsorbWord(c, low, high);
    WordRoundTrip(c);
    PlusCancel(c, c);
    StepsZero(16);
  }

  /** Every frame has an even number of set bits. */
  lemma EvenWeight(m: Message)
    requires |m.payload| <= MAX_PAYLOAD
    ensures Weight(Bits(Frame(m))) % 2 == 0
  {
    FrameRemainder(m);
    SameWeight(Frame(m));
    ParityBits(INIT, Bits(InCrcOrder(Frame(m))));
    OddConstants();
  }
}
