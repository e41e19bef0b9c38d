/** The CRC of the Kestrel serial protocol (polynomial 0x1021, initial value 0xFFFF, most
    significant bit first): the driver's bit loop, the functions that specify it, and their
    algebra as linear maps over GF(2). */
module Crc {

  type Byte = bv8

  /** The 16-bit shift register. Bit 15 is the coefficient of x^15. */
  datatype Register = Register(v: bv16)

  const ZERO := Register(0)
  const ONE := Register(1)
  const TOP := Register(0x8000)
  const INIT := Register(0xFFFF)

  // ---------- specification ----------

  /** Addition in GF(2)[x]. */
  function Plus(a: Register, b: Register): Register {
    Register(a.v ^ b.v)
  }

  /** Multiplication by x modulo x^16 + x^12 + x^5 + 1. */
  function Step(c: Register): Register {
    Register((c.v << 1) ^ (c.v >> 15) ^ ((c.v >> 15) << 5) ^ ((c.v >> 15) << 12))
  }

  /** Multiplication by x^n. */
  function Steps(c: Register, n: nat): Register
    decreases n
  {
    if n == 0 then c else Steps(Step(c), n - 1)
  }

  function High(b: Byte): Register {
    Register((b as bv16) << 8)
  }

  function Absorb(c: Register, b: Byte): Register {
    Steps(Plus(c, High(b)), 8)
  }

  function CrcFrom(c: Register, data: seq<Byte>): Register
    decreases data
  {
    if data == [] then c else CrcFrom(Absorb(c, data[0]), data[1..])
  }

  function Crc16(data: seq<Byte>): Register {
    CrcFrom(INIT, data)
  }

  // ---------- the driver's loop ----------

  /** The branch the loop takes on the top bit is multiplication by x. */
  lemma StepBranches(c: bv16)
    ensures c & 0x8000 != 0 ==> Step(Register(c)) == Register((c << 1) ^ 0x1021)
    ensures c & 0x8000 == 0 ==> Step(Register(c)) == Register(c << 1)
  {
    if c & 0x8000 != 0 {
      assert c >> 15 == 1;
    } else {
      assert c >> 15 == 0;
    }
  }

  method Crc16Ccitt(data: seq<Byte>, length: nat) returns (crc: bv16)
    requires length <= |data|
    ensures Register(crc) == Crc16(data[..length])
  {
    crc := 0xFFFF;
    ghost var rest := data[..length];
    var i := 0;
    while i < length
      invariant 0 <= i <= length
      invariant rest == data[i..length]
      invariant CrcFrom(Register(crc), rest) == Crc16(data[..length])
    {
      ghost var absorbed := Absorb(Register(crc), data[i]);
      ghost var mixed := Plus(Register(crc), High(data[i]));
      crc := crc ^ ((data[i] as bv16) << 8);
      assert Register(crc) == mixed;
      var j := 0;
      while j < 8
        invariant 0 <= j <= 8
        invariant Steps(Register(crc), 8 - j) == absorbed
      {
        StepBranches(crc);
        if crc & 0x8000 != 0 {
          crc := (crc << 1) ^ 0x1021;
        } else {
          crc := crc << 1;
        }
        j := j + 1;
      }
      rest := rest[1..];
      i := i + 1;
    }
  }

  // ---------- linear maps ----------

  lemma StepPlus(a: Register, b: Register)
    ensures Step(Plus(a, b)) == Plus(Step(a), Step(b))
  {
  }

  lemma StepInjective(a: Register, b: Register)
    requires Step(a) == Step(b)
    ensures a == b
  {
  }

  lemma PlusZero(a: Register)
    ensures Plus(a, ZERO) == a && Plus(ZERO, a) == a && Plus(a, a) == ZERO
  {
  }

  lemma PlusCancel(a: Register, b: Register)
    requires Plus(a, b) == ZERO
    ensures a == b
  {
  }

  lemma PlusMix(a: Register, b: Register, c: Register, d: Register)
    ensures Plus(Plus(a, b), Plus(c, d)) == Plus(Plus(a, c), Plus(b, d))
  {
  }

  lemma {:induction false} StepsPlus(a: Register, b: Register, n: nat)
    ensures Steps(Plus(a, b), n) == Plus(Steps(a, n), Steps(b, n))
    decreases n
  {
    if n > 0 {
      StepPlus(a, b);
      StepsPlus(Step(a), Step(b), n - 1);
    }
  }

  lemma {:induction false} StepsAdd(c: Register, m: nat, n: nat)
    ensures Steps(Steps(c, m), n) == Steps(c, m + n)
    decreases m
  {
    if m > 0 {
      StepsAdd(Step(c), m - 1, n);
    }
  }

  lemma StepsSwap(c: Register, n: nat)
    ensures Step(Steps(c, n)) == Steps(Step(c), n)
  {
    StepsAdd(c, n, 1);
    assert Steps(Steps(c, n), 1) == Steps(Step(Steps(c, n)), 0);
  }

  lemma {:induction false} StepsInjective(a: Register, b: Register, n: nat)
    requires Steps(a, n) == Steps(b, n)
    ensures a == b
    decreases n
  {
    if n > 0 {
      StepsInjective(Step(a), Step(b), n - 1);
      StepInjective(a, b);
    }
  }

  lemma {:induction false} StepsZero(n: nat)
    ensures Steps(ZERO, n) == ZERO
  {
    if n > 0 {
      assert Step(ZERO) == ZERO;
      StepsZero(n - 1);
    }
  }

  /** Bytewise exclusive or: the bytes `s` after the error pattern `e`. */
  function Xor(s: seq<Byte>, e: seq<Byte>): (r: seq<Byte>)
    requires |s| == |e|
    ensures |r| == |s| && forall i :: 0 <= i < |s| ==> r[i] == s[i] ^ e[i]
  {
    seq(|s|, i requires 0 <= i < |s| => s[i] ^ e[i])
  }

  lemma HighXor(x: Byte, y: Byte)
    ensures High(x ^ y) == Plus(High(x), High(y))
  {
  }

  lemma AbsorbXor(c: Register, d: Register, x: Byte, y: Byte)
    ensures Absorb(Plus(c, d), x ^ y) == Plus(Absorb(c, x), Absorb(d, y))
  {
    HighXor(x, y);
    PlusMix(c, d, High(x), High(y));
    StepsPlus(Plus(c, High(x)), Plus(d, High(y)), 8);
  }

  /** The CRC is affine: an error pattern changes it by the CRC of the pattern alone, taken from
      an all-zero register. */
  lemma {:induction false} CrcXor(c: Register, d: Register, s: seq<Byte>, e: seq<Byte>)
    requires |s| == |e|
    ensures CrcFrom(Plus(c, d), Xor(s, e)) == Plus(CrcFrom(c, s), CrcFrom(d, e))
    decreases s
  {
    if s != [] {
      AbsorbXor(c, d, s[0], e[0]);
      assert Xor(s, e)[1..] == Xor(s[1..], e[1..]);
      CrcXor(Absorb(c, s[0]), Absorb(d, e[0]), s[1..], e[1..]);
    }
  }

  lemma {:induction false} CrcAppend(c: Register, s: seq<Byte>, t: seq<Byte>)
    ensures CrcFrom(c, s + t) == CrcFrom(CrcFrom(c, s), t)
    decreases s
  {
    if s == [] {
      assert s + t == t;
    } else {
      assert (s + t)[1..] == s[1..] + t;
      CrcAppend(Absorb(c, s[0]), s[1..], t);
    }
  }

  // ---------- the bit-serial form ----------

  function Coefficient(bit: bool): Register {
    if bit then TOP else ZERO
  }

  function AbsorbBit(c: Register, bit: bool): Register {
    Step(Plus(c, Coefficient(bit)))
  }

  function CrcBits(c: Register, bits: seq<bool>): Register
    decreases bits
  {
    if bits == [] then c else CrcBits(AbsorbBit(c, bits[0]), bits[1..])
  }

  /** The bits of a byte, most significant first. */
  function ByteBits(b: Byte): (bits: seq<bool>)
    ensures |bits| == 8
  {
    [b & 0x80 != 0, b & 0x40 != 0, b & 0x20 != 0, b & 0x10 != 0,
     b & 0x08 != 0, b & 0x04 != 0, b & 0x02 != 0, b & 0x01 != 0]
  }

  function Bits(data: seq<Byte>): (bits: seq<bool>)
    ensures |bits| == 8 * |data|
  {
    if data == [] then [] else ByteBits(data[0]) + Bits(data[1..])
  }

  lemma {:induction false} BitsAppend(s: seq<Byte>, t: seq<Byte>)
    ensures Bits(s + t) == Bits(s) + Bits(t)
  {
    if s == [] {
      assert s + t == t;
    } else {
      assert (s + t)[1..] == s[1..] + t;
      BitsAppend(s[1..], t);
    }
  }

  lemma {:induction false} CrcBitsAppend(c: Register, a: seq<bool>, b: seq<bool>)
    ensures CrcBits(c, a + b) == CrcBits(CrcBits(c, a), b)
    decreases a
  {
    if a == [] {
      assert a + b == b;
    } else {
      assert (a + b)[1..] == a[1..] + b;
      CrcBitsAppend(AbsorbBit(c, a[0]), a[1..], b);
    }
  }

  function Shift(c: Register): Register {
    Register(c.v >> 1)
  }

  /** `bits` at the top of the register, the first bit uppermost. */
  function Window(bits: seq<bool>): Register {
    if bits == [] then ZERO else Plus(Coefficient(bits[0]), Shift(Window(bits[1..])))
  }

  /** The `k` uppermost bits are the only ones that may be set. */
  ghost predicate UpTo(c: Register, k: nat)
    requires k <= 16
  {
    c.v & (0xFFFF >> k) == 0
  }

  lemma ShiftUpTo(c: Register, bit: bool, k: nat)
    requires 1 <= k <= 16 && UpTo(c, k - 1)
    ensures UpTo(Plus(Coefficient(bit), Shift(c)), k)
  {
  }

  lemma {:induction false} WindowUpTo(bits: seq<bool>, k: nat)
    requires |bits| <= k <= 16
    ensures UpTo(Window(bits), k)
    decreases k
  {
    if bits != [] {
      WindowUpTo(bits[1..], k - 1);
      ShiftUpTo(Window(bits[1..]), bits[0], k);
    }
  }

  lemma ShiftBack(c: Register, k: nat)
    requires k <= 15 && UpTo(c, k)
    ensures Step(Shift(c)) == c
    ensures Shift(c) == ZERO ==> c == ZERO
  {
  }
}
