/** The start value of the CRC: what it does to a message, and the catalogued check value of
    CRC-16/IBM-3740. */
module CrcStart {
  import opened SeqFacts
  import opened Crc
  import opened CrcCode
  import opened BinaryProtocol
  import opened ErrorDetection

  /** The first two bytes complemented. */
  function Complemented(data: seq<Byte>): (d: seq<Byte>)
    requires |data| >= 2
    ensures |d| == |data|
  {
    [data[0] ^ 0xFF, data[1] ^ 0xFF] + data[2..]
  }

  lemma ComplementWord(a: Byte, b: Byte)
    ensures Plus(Register(0xFFFF), Word(b, a)) == Plus(ZERO, Word(b ^ 0xFF, a ^ 0xFF))
  {
    WordXor(b, a, 0xFF, 0xFF);
    AllOnes();
    PlusSwap(Word(b, a), Register(0xFFFF));
  }

  lemma AllOnes()
    ensures Word(0xFF, 0xFF) == Register(0xFFFF)
  {
  }

  lemma PlusSwap(c: Register, d: Register)
    ensures Plus(ZERO, Plus(c, d)) == Plus(d, c)
  {
  }

  lemma TwoFirst<T>(s: seq<T>)
    requires |s| >= 2
    ensures s == [s[0], s[1]] + s[2..]
  {
  }

  /** Starting from all ones is starting from zero on a message whose first two bytes are
      complemented; and no bytes at all leave all ones. */
  lemma StartsFromOnes(data: seq<Byte>)
    ensures data == [] ==> Crc16(data) == Register(0xFFFF)
    ensures |data| >= 2 ==> Crc16(data) == CrcFrom(ZERO, Complemented(data))
  {
    if |data| >= 2 {
      var a, b, rest := data[0], data[1], data[2..];
      TwoFirst(data);
      CrcAppend(INIT, [a, b], rest);
      CrcAppend(ZERO, [a ^ 0xFF, b ^ 0xFF], rest);
      AbsorbWord(INIT, b, a);
      AbsorbWord(ZERO, b ^ 0xFF, a ^ 0xFF);
      ComplementWord(a, b);
    }
  }

  // ---------- the check value ----------

  lemma AbsorbEight(c: Register, b: Byte)
    ensures Absorb(c, b) == Step(Step(Step(Step(Step(Step(Step(Step(Plus(c, High(b))))))))))
  {
    Eight(Plus(c, High(b)));
  }

  /** The digits 1 to 9 in ASCII. */
  const NINE_DIGITS: seq<Byte> := [0x31, 0x32, 0x33, 0x34, 0x35, 0x36, 0x37, 0x38, 0x39]

  lemma CrcCons(c: Register, data: seq<Byte>, next: Register)
    requires data != [] && Absorb(c, data[0]) == next
    ensures CrcFrom(c, data) == CrcFrom(next, data[1..])
  {
  }

  lemma FirstThree()
    ensures CrcFrom(Register(0xFFFF), [0x31, 0x32, 0x33]) == Register(0x5BCE)
  {
    AbsorbEight(Register(0xFFFF), 0x31);
    AbsorbEight(Register(0xC782), 0x32);
    AbsorbEight(Register(0x3DBA), 0x33);
    ThreeBytesCrc(Register(0xFFFF), 0x31, 0x32, 0x33, Register(0xC782), Register(0x3DBA), Register(0x5BCE));
  }

  lemma NextThree()
    ensures CrcFrom(Register(0x5BCE), [0x34, 0x35, 0x36]) == Register(0x2EF4)
  {
    AbsorbEight(Register(0x5BCE), 0x34);
    AbsorbEight(Register(0x5349), 0x35);
    AbsorbEight(Register(0x4560), 0x36);
    ThreeBytesCrc(Register(0x5BCE), 0x34, 0x35, 0x36, Register(0x5349), Register(0x4560), Register(0x2EF4));
  }

  lemma LastThree()
    ensures CrcFrom(Register(0x2EF4), [0x37, 0x38, 0x39]) == Register(0x29B1)
  {
    AbsorbEight(Register(0x2EF4), 0x37);
    AbsorbEight(Register(0x7718), 0x38);
    AbsorbEight(Register(0xA12B), 0x39);
    ThreeBytesCrc(Register(0x2EF4), 0x37, 0x38, 0x39, Register(0x7718), Register(0xA12B), Register(0x29B1));
  }

  lemma ThreeBytesCrc(c: Register, x: Byte, y: Byte, z: Byte, c1: Register, c2: Register, c3: Register)
    requires Absorb(c, x) == c1 && Absorb(c1, y) == c2 && Absorb(c2, z) == c3
    ensures CrcFrom(c, [x, y, z]) == c3
  {
    CrcCons(c, [x, y, z], c1);
    assert [x, y, z][1..] == [y, z];
    CrcOfTwo(c1, y, z);
  }

  lemma NineDigits()
    ensures NINE_DIGITS == ([0x31, 0x32, 0x33] + [0x34, 0x35, 0x36]) + [0x37, 0x38, 0x39]
  {
  }

  /** The CRC of the nine digits, by which implementations of the variant are told apart. */
  lemma CheckValue()
    ensures Crc16(NINE_DIGITS) == Register(0x29B1)
  {
    StartsFromOnes([]);
    NineDigits();
    FirstThree();
    NextThree();
    LastThree();
    CrcAppend(INIT, [0x31, 0x32, 0x33] + [0x34, 0x35, 0x36], [0x37, 0x38, 0x39]);
    CrcAppend(INIT, [0x31, 0x32, 0x33], [0x34, 0x35, 0x36]);
  }
}
