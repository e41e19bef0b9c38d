/** Quotients of reals, and the bytes of an integer. */
module NumberFacts {
  lemma DivideSum(x: real, y: real, d: real)
    requires d != 0.0
    ensures (x + y) / d == x / d + y / d
  {
  }

  lemma QuotientUnique(x: real, d: real, q: real)
    requires d != 0.0 && q * d == x
    ensures q == x / d
  {
  }

  lemma ProductNonzero(a: real, b: real)
    requires a != 0.0 && b != 0.0
    ensures a * b != 0.0
  {
  }

  lemma Cancelled(x: real, y: real, d: real)
    requires d != 0.0 && x * d == y * d
    ensures x == y
  {
    QuotientUnique(x * d, d, x);
    QuotientUnique(y * d, d, y);
  }

  lemma Regrouped(x: real, y: real, z: real)
    ensures x * (y * z) == x * y * z
  {
  }

  lemma NotNegative(x: real, d: real)
    requires x >= 0.0 && d > 0.0
    ensures x / d >= 0.0
  {
  }

  lemma SameSign(x: real, d: real)
    requires d > 0.0
    ensures x >= 0.0 ==> x / d >= 0.0
    ensures x <= 0.0 ==> x / d <= 0.0
  {
  }

  lemma Scaled(x: real, y: real, d: real)
    requires x <= y && d > 0.0
    ensures x * d <= y * d
  {
  }

  lemma ScaledLess(x: real, y: real, d: real)
    requires x < y && d > 0.0
    ensures x * d < y * d
  {
  }

  lemma LessThanOne(x: real, d: real)
    requires 0.0 <= x < d
    ensures x / d < 1.0
  {
  }

  lemma Low24(over: nat, rest: nat, n: nat)
    requires rest < 0x100_0000 && n == over * 0x100_0000 + rest
    ensures n % 0x100_0000 == rest
  {
  }

  lemma ThreeBytes(n: nat)
    ensures n / 0x1_0000 % 0x100 * 0x1_0000 + n / 0x100 % 0x100 * 0x100 + n % 0x100 == n % 0x100_0000
  {
    var high, low := n / 0x100, n % 0x100;
    var top, mid := high / 0x100, high % 0x100;
    var over, red := top / 0x100, top % 0x100;
    assert top == n / 0x1_0000;
    Low24(over, red * 0x1_0000 + mid * 0x100 + low, n);
  }
}
