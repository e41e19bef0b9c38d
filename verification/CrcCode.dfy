/** The CRC as a code: the byte loop equals long division one bit at a time, and a bit pattern is
    a multiple of the generator (leaves remainder zero) only if it has even weight, spans more
    than 16 bits, and is not a pair of bits closer together than 32767. */
module CrcCode {
  import opened Crc

  // ---------- the byte loop is the bit-serial loop ----------

  lemma AbsorbShifted(c: Register, bit: bool, w: Register, k: nat)
    requires k <= 15 && UpTo(w, k)
    ensures Step(Plus(c, Plus(Coefficient(bit), Shift(w)))) == Plus(AbsorbBit(c, bit), w)
  {
    var s := Shift(w);
    PlusAssociative(c, Coefficient(bit), s);
    StepPlus(Plus(c, Coefficient(bit)), s);
    ShiftBack(w, k);
  }

  lemma PlusAssociative(a: Register, b: Register, c: Register)
    ensures Plus(a, Plus(b, c)) == Plus(Plus(a, b), c)
  {
  }

  /** Absorbing up to 16 bits one by one is adding them at the top and stepping once per bit. */
  lemma {:induction false} WindowSteps(c: Register, bits: seq<bool>)
    requires |bits| <= 16
    ensures CrcBits(c, bits) == Steps(Plus(c, Window(bits)), |bits|)
    decreases bits
  {
    if bits == [] {
      PlusZero(c);
    } else {
      var rest := bits[1..];
      WindowUpTo(rest, |rest|);
      AbsorbShifted(c, bits[0], Window(rest), |rest|);
      WindowSteps(AbsorbBit(c, bits[0]), rest);
    }
  }

  lemma WindowCons(bits: seq<bool>, k: nat, w: Register)
    requires k < |bits| && Window(bits[k + 1..]) == w
    ensures Window(bits[k..]) == Plus(Coefficient(bits[k]), Shift(w))
  {
    assert bits[k..][0] == bits[k] && bits[k..][1..] == bits[k + 1..];
  }

  lemma HighStep(b: Byte)
    ensures High(b) == Plus(Coefficient(b & 0x80 != 0), Shift(High(b << 1)))
  {
  }

  /** The byte shifted left `k` times, at the top of the register. */
  function Suffix(b: Byte, k: nat): Register
    decreases k
  {
    if k == 0 then High(b) else Suffix(b << 1, k - 1)
  }

  lemma ByteBitsShift(b: Byte)
    ensures ByteBits(b)[1..] + [false] == ByteBits(b << 1)
  {
  }

  lemma {:induction false} SuffixStep(b: Byte, k: nat)
    requires k < 8
    ensures Suffix(b, k) == Plus(Coefficient(ByteBits(b)[k]), Shift(Suffix(b, k + 1)))
    decreases k
  {
    if k == 0 {
      HighStep(b);
      assert Suffix(b, 1) == Suffix(b << 1, 0);
    } else {
      ByteBitsShift(b);
      assert ByteBits(b)[k] == ByteBits(b << 1)[k - 1];
      SuffixStep(b << 1, k - 1);
    }
  }

  lemma SuffixEnd(b: Byte)
    ensures Suffix(b, 8) == ZERO
  {
    assert Suffix(b, 8) == Suffix(b << 1, 7) == Suffix(b << 2, 6) == Suffix(b << 3, 5) == Suffix(b << 4, 4)
        == Suffix(b << 5, 3) == Suffix(b << 6, 2) == Suffix(b << 7, 1) == Suffix(0, 0);
  }

  lemma {:induction false} ByteWindow(b: Byte, k: nat)
    requires k <= 8
    ensures Window(ByteBits(b)[k..]) == Suffix(b, k)
    decreases 8 - k
  {
    if k == 8 {
      SuffixEnd(b);
    } else {
      ByteWindow(b, k + 1);
      WindowCons(ByteBits(b), k, Suffix(b, k + 1));
      SuffixStep(b, k);
    }
  }

  lemma ByteBitSerial(c: Register, b: Byte)
    ensures Absorb(c, b) == CrcBits(c, ByteBits(b))
  {
    ByteWindow(b, 0);
    assert ByteBits(b)[0..] == ByteBits(b);
    WindowSteps(c, ByteBits(b));
  }

  /** The byte loop of the driver is long division, one bit at a time. */
  lemma {:induction false} BitSerial(c: Register, data: seq<Byte>)
    ensures CrcFrom(c, data) == CrcBits(c, Bits(data))
    decreases data
  {
    if data != [] {
      ByteBitSerial(c, data[0]);
      BitSerial(Absorb(c, data[0]), data[1..]);
      CrcBitsAppend(c, ByteBits(data[0]), Bits(data[1..]));
    }
  }

  // ---------- parity ----------

  function Fold8(c: Register): Register { Register((c.v ^ (c.v >> 8)) & 0xFF) }
  function Fold4(c: Register): Register { Register((c.v ^ (c.v >> 4)) & 0xF) }
  function Fold2(c: Register): Register { Register((c.v ^ (c.v >> 2)) & 3) }
  function Fold1(c: Register): bool { (c.v ^ (c.v >> 1)) & 1 == 1 }

  /** Whether an odd number of bits of the register are set. */
  function Odd(c: Register): bool {
    Fold1(Fold2(Fold4(Fold8(c))))
  }

  function Turn8(c: Register): Register { Register(((c.v << 1) ^ (c.v >> 7)) & 0xFF) }
  function Turn4(c: Register): Register { Register(((c.v << 1) ^ (c.v >> 3)) & 0xF) }
  function Turn2(c: Register): Register { Register(((c.v << 1) ^ (c.v >> 1)) & 3) }

  lemma Fold8Plus(c: Register, d: Register)
    ensures Fold8(Plus(c, d)) == Plus(Fold8(c), Fold8(d))
  {
  }

  lemma Fold4Plus(c: Register, d: Register)
    ensures Fold4(Plus(c, d)) == Plus(Fold4(c), Fold4(d))
  {
  }

  lemma Fold2Plus(c: Register, d: Register)
    ensures Fold2(Plus(c, d)) == Plus(Fold2(c), Fold2(d))
  {
  }

  lemma Fold1Plus(c: Register, d: Register)
    ensures Fold1(Plus(c, d)) == (Fold1(c) != Fold1(d))
  {
  }

  lemma OddPlus(c: Register, d: Register)
    ensures Odd(Plus(c, d)) == (Odd(c) != Odd(d))
  {
    Fold8Plus(c, d);
    Fold4Plus(Fold8(c), Fold8(d));
    Fold2Plus(Fold4(Fold8(c)), Fold4(Fold8(d)));
    Fold1Plus(Fold2(Fold4(Fold8(c))), Fold2(Fold4(Fold8(d))));
  }

  lemma Fold8Step(c: Register)
    requires c.v & 0x8000 == 0
    ensures Fold8(Step(c)) == Turn8(Fold8(c))
  {
  }

  lemma Fold4Turn(c: Register)
    ensures Fold4(Turn8(Fold8(c))) == Turn4(Fold4(Fold8(c)))
  {
  }

  lemma Fold2Turn(c: Register)
    ensures Fold2(Turn4(Fold4(c))) == Turn2(Fold2(Fold4(c)))
  {
  }

  lemma Fold1Turn(c: Register)
    ensures Fold1(Turn2(Fold2(c))) == Fold1(Fold2(c))
  {
  }

  lemma OddStepLow(c: Register)
    requires c.v & 0x8000 == 0
    ensures Odd(Step(c)) == Odd(c)
  {
    Fold8Step(c);
    Fold4Turn(c);
    Fold2Turn(Fold8(c));
    Fold1Turn(Fold4(Fold8(c)));
  }

  lemma ClearTop(c: Register)
    requires c.v & 0x8000 != 0
    ensures Plus(c, TOP).v & 0x8000 == 0 && Plus(Plus(c, TOP), TOP) == c
  {
  }

  lemma OddConstants()
    ensures Odd(TOP) && Odd(Step(TOP)) && !Odd(ZERO) && !Odd(INIT)
  {
  }

  /** x + 1 divides the generator, so multiplying by x keeps the parity of the register. */
  lemma OddStep(c: Register)
    ensures Odd(Step(c)) == Odd(c)
  {
    if c.v & 0x8000 == 0 {
      OddStepLow(c);
    } else {
      var low := Plus(c, TOP);
      ClearTop(c);
      OddStepLow(low);
      StepPlus(low, TOP);
      OddPlus(Step(low), Step(TOP));
      OddPlus(low, TOP);
      OddConstants();
    }
  }

  /** The number of set bits. */
  function Weight(bits: seq<bool>): nat {
    if bits == [] then 0 else (if bits[0] then 1 else 0) + Weight(bits[1..])
  }

  lemma {:induction false} WeightAppend(a: seq<bool>, b: seq<bool>)
    ensures Weight(a + b) == Weight(a) + Weight(b)
  {
    if a == [] {
      assert a + b == b;
    } else {
      assert (a + b)[1..] == a[1..] + b;
      WeightAppend(a[1..], b);
    }
  }

  /** Absorbing bits changes the parity of the register by the parity of the bits. */
  lemma {:induction false} ParityBits(c: Register, bits: seq<bool>)
    ensures Odd(CrcBits(c, bits)) == (Odd(c) != (Weight(bits) % 2 == 1))
    decreases bits
  {
    if bits != [] {
      var mixed := Plus(c, Coefficient(bits[0]));
      OddPlus(c, Coefficient(bits[0]));
      OddConstants();
      OddStep(mixed);
      ParityBits(Step(mixed), bits[1..]);
    }
  }

  /** The parity of the driver's CRC is the parity of all bits it covers, for every length. */
  lemma CrcParity(data: seq<Byte>)
    ensures Odd(Crc16(data)) <==> Weight(Bits(data)) % 2 == 1
  {
    BitSerial(INIT, data);
    ParityBits(INIT, Bits(data));
    OddConstants();
  }

  // ---------- runs of zeros, bursts ----------

  lemma {:induction false} ZeroRun(c: Register, bits: seq<bool>)
    requires Weight(bits) == 0
    ensures CrcBits(c, bits) == Steps(c, |bits|)
    decreases bits
  {
    if bits != [] {
      PlusZero(c);
      ZeroRun(Step(c), bits[1..]);
    }
  }

  lemma {:induction false} WindowNonzero(bits: seq<bool>)
    requires |bits| <= 16 && Weight(bits) > 0
    ensures Window(bits) != ZERO
  {
    var rest := bits[1..];
    WindowUpTo(rest, |rest|);
    if Weight(rest) > 0 {
      WindowNonzero(rest);
      ShiftBack(Window(rest), |rest|);
    }
    ShiftNonzero(Window(rest), bits[0]);
  }

  lemma ShiftNonzero(c: Register, bit: bool)
    ensures Plus(Coefficient(bit), Shift(c)) == ZERO ==> !bit && Shift(c) == ZERO
  {
  }

  lemma PaddedRemainder(before: seq<bool>, middle: seq<bool>, after: seq<bool>)
    requires Weight(before) == 0 && Weight(after) == 0
    ensures CrcBits(ZERO, before + middle + after) == Steps(CrcBits(ZERO, middle), |after|)
  {
    CrcBitsAppend(ZERO, before + middle, after);
    CrcBitsAppend(ZERO, before, middle);
    ZeroRun(ZERO, before);
    StepsZero(|before|);
    ZeroRun(CrcBits(ZERO, middle), after);
  }

  /** A nonzero pattern confined to 16 consecutive bits is never a multiple of the generator. */
  lemma BurstRemainder(before: seq<bool>, burst: seq<bool>, after: seq<bool>)
    requires Weight(before) == 0 && Weight(after) == 0
    requires |burst| <= 16 && Weight(burst) > 0
    ensures CrcBits(ZERO, before + burst + after) != ZERO
  {
    PaddedRemainder(before, burst, after);
    WindowSteps(ZERO, burst);
    PlusZero(Window(burst));
    WindowNonzero(burst);
    StepsNonzero(Window(burst), |burst|);
    StepsNonzero(CrcBits(ZERO, burst), |after|);
  }

  lemma StepsNonzero(c: Register, n: nat)
    requires c != ZERO
    ensures Steps(c, n) != ZERO
  {
    StepsZero(n);
    if Steps(c, n) == ZERO {
      StepsInjective(c, ZERO, n);
    }
  }
}
