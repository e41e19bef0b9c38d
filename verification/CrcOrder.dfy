/** The order of x modulo the generator is exactly 32767 = 7 * 31 * 151, so two flipped bits that
    are less than 32767 positions apart never cancel. */
module CrcOrder {
  import opened Crc
  import opened CrcCode

  // ---------- multiplication, to reach large powers by squaring ----------

  function Horner(r: Register, c: Register, q: Register): Register {
    Plus(Step(r), if c.v & 1 == 1 then q else ZERO)
  }

  function Shift4(c: Register): Register {
    Shift(Shift(Shift(Shift(c))))
  }

  function Nibble(r: Register, c: Register, q: Register): Register {
    Horner(Horner(Horner(Horner(r, Shift(Shift(Shift(c))), q), Shift(Shift(c)), q), Shift(c), q), c, q)
  }

  /** The product of two polynomials modulo the generator. */
  function Times(c: Register, q: Register): Register {
    Nibble(Nibble(Nibble(Nibble(ZERO, Shift4(Shift4(Shift4(c))), q), Shift4(Shift4(c)), q), Shift4(c), q), c, q)
  }

  lemma LowBit(c: Register)
    ensures c == Plus(Step(Shift(c)), if c.v & 1 == 1 then ONE else ZERO)
  {
  }

  lemma HornerSteps(c: Register, n: nat)
    ensures Steps(c, n) == Horner(Steps(Shift(c), n), c, Steps(ONE, n))
  {
    var low := if c.v & 1 == 1 then ONE else ZERO;
    LowBit(c);
    StepsPlus(Step(Shift(c)), low, n);
    StepsSwap(Shift(c), n);
    StepsZero(n);
  }

  lemma NibbleSteps(c: Register, n: nat)
    ensures Steps(c, n) == Nibble(Steps(Shift4(c), n), c, Steps(ONE, n))
  {
    HornerSteps(Shift(Shift(Shift(c))), n);
    HornerSteps(Shift(Shift(c)), n);
    HornerSteps(Shift(c), n);
    HornerSteps(c, n);
  }

  lemma AllShifted(c: Register)
    ensures Shift4(Shift4(Shift4(Shift4(c)))) == ZERO
  {
  }

  /** Multiplying by x^n is multiplying by the residue of x^n. */
  lemma TimesSteps(c: Register, n: nat)
    ensures Steps(c, n) == Times(c, Steps(ONE, n))
  {
    AllShifted(c);
    StepsZero(n);
    NibbleSteps(Shift4(Shift4(Shift4(c))), n);
    NibbleSteps(Shift4(Shift4(c)), n);
    NibbleSteps(Shift4(c), n);
    NibbleSteps(c, n);
  }

  // ---------- the powers of x that decide its order ----------

  function Power(n: nat): Register {
    Steps(ONE, n)
  }

  lemma PowerAdd(m: nat, n: nat, p: Register, q: Register)
    requires Power(m) == p && Power(n) == q
    ensures Power(m + n) == Times(p, q)
  {
    StepsAdd(ONE, m, n);
    TimesSteps(p, n);
  }

  lemma SmallPowers()
    ensures Power(1) == Register(0x0002) && Power(2) == Register(0x0004)
  {
    assert Power(1) == Steps(Step(ONE), 0);
    PowerAdd(1, 1, Register(0x0002), Register(0x0002));
  }

  lemma Powers16()
    ensures Power(1) == Register(0x0002)
    ensures Power(8) == Register(0x0100)
    ensures Power(16) == Register(0x1021)
  {
    SmallPowers();
    PowerAdd(2, 2, Register(0x0004), Register(0x0004));
    PowerAdd(4, 4, Register(0x0010), Register(0x0010));
    PowerAdd(8, 8, Register(0x0100), Register(0x0100));
  }

  lemma Powers128()
    ensures Power(1) == Register(0x0002)
    ensures Power(8) == Register(0x0100)
    ensures Power(16) == Register(0x1021)
    ensures Power(32) == Register(0x3730)
    ensures Power(64) == Register(0xB861)
    ensures Power(128) == Register(0xAEFC)
  {
    Powers16();
    PowerAdd(16, 16, Register(0x1021), Register(0x1021));
    PowerAdd(32, 32, Register(0x3730), Register(0x3730));
    PowerAdd(64, 64, Register(0xB861), Register(0xB861));
  }

  lemma Powers1024()
    ensures Power(1) == Register(0x0002)
    ensures Power(8) == Register(0x0100)
    ensures Power(16) == Register(0x1021)
    ensures Power(32) == Register(0x3730)
    ensures Power(64) == Register(0xB861)
    ensures Power(128) == Register(0xAEFC)
    ensures Power(512) == Register(0x13FC)
    ensures Power(1024) == Register(0x36C4)
  {
    Powers128();
    PowerAdd(128, 128, Register(0xAEFC), Register(0xAEFC));
    PowerAdd(256, 256, Register(0x8E29), Register(0x8E29));
    PowerAdd(512, 512, Register(0x13FC), Register(0x13FC));
  }

  lemma Powers8192()
    ensures Power(1) == Register(0x0002)
    ensures Power(8) == Register(0x0100)
    ensures Power(16) == Register(0x1021)
    ensures Power(32) == Register(0x3730)
    ensures Power(64) == Register(0xB861)
    ensures Power(128) == Register(0xAEFC)
    ensures Power(512) == Register(0x13FC)
    ensures Power(1024) == Register(0x36C4)
    ensures Power(4096) == Register(0xAA9E)
    ensures Power(8192) == Register(0x881C)
  {
    Powers1024();
    PowerAdd(1024, 1024, Register(0x36C4), Register(0x36C4));
    PowerAdd(2048, 2048, Register(0xFD50), Register(0xFD50));
    PowerAdd(4096, 4096, Register(0xAA9E), Register(0xAA9E));
  }

  lemma Power32768()
    ensures Power(1) == Register(0x0002)
    ensures Power(32768) == Register(0x0002)
  {
    Powers8192();
    PowerAdd(8192, 8192, Register(0x881C), Register(0x881C));
    PowerAdd(16384, 16384, Register(0x4458), Register(0x4458));
  }

  lemma Power217()
    ensures Power(217) == Register(0x48E3)
  {
    Powers128();
    PowerAdd(128, 64, Register(0xAEFC), Register(0xB861));
    PowerAdd(192, 16, Register(0x650B), Register(0x1021));
    PowerAdd(208, 8, Register(0x45B4), Register(0x0100));
    PowerAdd(216, 1, Register(0xAC61), Register(0x0002));
  }

  lemma Power1057()
    ensures Power(1057) == Register(0xF2AF)
  {
    Powers1024();
    PowerAdd(1024, 32, Register(0x36C4), Register(0x3730));
    PowerAdd(1056, 1, Register(0xF147), Register(0x0002));
  }

  lemma Power4681()
    ensures Power(4681) == Register(0x2C42)
  {
    Powers8192();
    PowerAdd(4096, 512, Register(0xAA9E), Register(0x13FC));
    PowerAdd(4608, 64, Register(0x54A0), Register(0xB861));
    PowerAdd(4672, 8, Register(0x0106), Register(0x0100));
    PowerAdd(4680, 1, Register(0x1621), Register(0x0002));
  }

  // ---------- periods ----------

  /** x^d leaves remainder 1. */
  ghost predicate Period(d: nat) {
    Power(d) == ONE
  }

  lemma FullPeriod()
    ensures Period(32767)
  {
    Power32768();
    StepsSwap(ONE, 32767);
    assert Power(32768) == Steps(Step(ONE), 32767) && Power(1) == Steps(Step(ONE), 0);
    StepInjective(Power(32767), ONE);
  }

  lemma NotPeriods()
    ensures !Period(217) && !Period(1057) && !Period(4681)
  {
    Power217();
    Power1057();
    Power4681();
  }

  lemma PeriodPlus(m: nat, n: nat)
    requires Period(m)
    ensures Period(m + n) <==> Period(n)
  {
    StepsAdd(ONE, m, n);
  }

  lemma {:induction false} PeriodTimes(d: nat, k: nat)
    requires Period(d)
    ensures Period(k * d)
    decreases k
  {
    if k > 0 {
      PeriodTimes(d, k - 1);
      PeriodPlus(d, (k - 1) * d);
      assert k * d == d + (k - 1) * d;
    }
  }

  /** A period may be reduced modulo another one. */
  lemma PeriodMod(d: nat, p: nat)
    requires p > 0 && Period(p)
    ensures Period(d % p) <==> Period(d)
  {
    var k := d / p;
    PeriodTimes(p, k);
    PeriodPlus(k * p, d % p);
    assert d == k * p + d % p;
  }

  ghost predicate Prime(p: nat) {
    p > 1 && forall a {:trigger p % a} :: 1 < a < p ==> p % a != 0
  }

  /** If r * m and p * m are periods, p is prime and 0 < r < p, then m is a period. */
  lemma {:induction false} PeriodDescent(m: nat, p: nat, r: nat)
    requires m > 0 && Prime(p) && 0 < r < p
    requires Period(p * m) && Period(r * m)
    ensures Period(m)
    decreases r
  {
    if r == 1 {
      assert 1 * m == m;
    } else {
      var s := p % r;
      assert s != 0;
      ModScale(p, r, m);
      assert r * m > 0;
      PeriodMod(p * m, r * m);
      PeriodDescent(m, p, s);
    }
  }

  lemma ModScale(p: nat, r: nat, m: nat)
    requires r > 0 && m > 0
    ensures r * m > 0 && (p * m) % (r * m) == (p % r) * m
  {
    var q, s := p / r, p % r;
    assert p * m == q * (r * m) + s * m;
    assert 0 <= s * m < r * m;
    ModUnique(p * m, r * m, q, s * m);
  }

  lemma ModUnique(n: nat, d: nat, q: nat, s: nat)
    requires d > 0 && n == q * d + s && s < d
    ensures n % d == s
  {
    var k := q - n / d;
    assert k * d == n % d - s by {
      assert n == (n / d) * d + n % d;
      assert k * d == q * d - (n / d) * d;
    }
    if k != 0 {
      NonzeroMultiple(k, d);
    }
  }

  lemma {:induction false} NonzeroMultiple(k: int, d: int)
    requires k != 0 && d > 0
    ensures k * d >= d || k * d <= -d
    decreases if k > 0 then k else -k
  {
    if k > 1 {
      NonzeroMultiple(k - 1, d);
    } else if k < -1 {
      NonzeroMultiple(k + 1, d);
    }
  }

  lemma PrimeFactors()
    ensures Prime(7) && Prime(31) && Prime(151)
  {
    forall a | 1 < a < 151
      ensures 151 % a != 0
    {
      var q := 151 / a;
      assert 151 == q * a + 151 % a;
      if a > 12 {
        assert 1 <= q <= 11;
      }
    }
  }

  /** A period not divisible by the prime factor p of 32767 leaves the cofactor a period. */
  lemma CofactorPeriod(d: nat, p: nat, m: nat)
    requires Period(d) && Prime(p) && m > 0 && p * m == 32767 && d % p != 0
    ensures Period(m)
  {
    FullPeriod();
    PeriodTimes(d, m);
    ModScale(d, p, m);
    PeriodMod(m * d, p * m);
    assert m * d == d * m;
    PeriodDescent(m, p, d % p);
  }

  /** 9 * 7 - 2 * 31 is 1, and so is 23 * 151 - 16 * 217. */
  lemma CommonMultiple(d: nat, a: nat, b: nat, c: nat) returns (q: int)
    requires d == 7 * a && d == 31 * b && d == 151 * c
    ensures d == 32767 * q
  {
    var e := 9 * b - 2 * a;
    assert d == 217 * e;
    q := 23 * e - 16 * c;
  }

  lemma Multiple(d: nat, q: int)
    requires d == 32767 * q
    ensures d % 32767 == 0
  {
  }

  lemma Quotients(d: nat)
    requires d % 7 == 0 && d % 31 == 0 && d % 151 == 0
    ensures d == 7 * (d / 7) && d == 31 * (d / 31) && d == 151 * (d / 151)
  {
  }

  lemma NoOtherPeriod(d: nat)
    requires Period(d)
    ensures d % 32767 == 0
  {
    PrimeFactors();
    NotPeriods();
    if d % 7 != 0 {
      CofactorPeriod(d, 7, 4681);
    } else if d % 31 != 0 {
      CofactorPeriod(d, 31, 1057);
    } else if d % 151 != 0 {
      CofactorPeriod(d, 151, 217);
    } else {
      Quotients(d);
      var q := CommonMultiple(d, d / 7, d / 31, d / 151);
      Multiple(d, q);
    }
  }

  /** The order of x modulo the generator is exactly 32767. */
  lemma OrderOfX(d: nat)
    ensures Period(d) <==> d % 32767 == 0
  {
    if d % 32767 == 0 {
      FullPeriod();
      PeriodMod(d, 32767);
      assert Period(0);
    }
    if Period(d) {
      NoOtherPeriod(d);
    }
  }

  // ---------- light patterns ----------

  lemma TopPower(n: nat)
    ensures Steps(TOP, n) == Power(15 + n)
  {
    Powers16();
    StepsSwap(ONE, 15);
    assert Power(16) == Steps(Step(ONE), 15);
    StepInjective(Power(15), TOP);
    StepsAdd(ONE, 15, n);
  }

  /** A single set bit, `k` places from the end, contributes x^(15 + k). */
  lemma {:induction false} OneBit(c: Register, bits: seq<bool>) returns (k: nat)
    requires Weight(bits) == 1
    ensures 1 <= k <= |bits|
    ensures CrcBits(c, bits) == Plus(Steps(c, |bits|), Steps(TOP, k))
    decreases bits
  {
    var rest := bits[1..];
    if bits[0] {
      k := |bits|;
      ZeroRun(Step(Plus(c, TOP)), rest);
      StepsPlus(c, TOP, k);
    } else {
      PlusZero(c);
      k := OneBit(Step(c), rest);
    }
  }

  /** Two set bits less than 32767 places apart are never a multiple of the generator. */
  lemma {:induction false} TwoBits(bits: seq<bool>)
    requires Weight(bits) == 2 && |bits| <= 32767
    ensures CrcBits(ZERO, bits) != ZERO
    decreases bits
  {
    var rest := bits[1..];
    if bits[0] {
      PlusZero(TOP);
      var k := OneBit(Step(TOP), rest);
      var far, near := Steps(TOP, |bits|), Steps(TOP, k);
      assert Steps(Step(TOP), |rest|) == far;
      if Plus(far, near) == ZERO {
        PlusCancel(far, near);
        var d := |bits| - k;
        TopPower(|bits|);
        TopPower(k);
        StepsAdd(ONE, d, 15 + k);
        StepsInjective(Power(d), ONE, 15 + k);
        OrderOfX(d);
      }
    } else {
      PlusZero(ZERO);
      StepsZero(1);
      TwoBits(rest);
    }
  }

  /** Distance four: no pattern of one, two or three bits is a multiple of the generator. */
  lemma LightRemainder(bits: seq<bool>)
    requires 1 <= Weight(bits) <= 3 && |bits| <= 32767
    ensures CrcBits(ZERO, bits) != ZERO
  {
    ParityBits(ZERO, bits);
    OddConstants();
    if Weight(bits) == 2 {
      TwoBits(bits);
    }
  }
}
