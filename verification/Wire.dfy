/** The packed, little-endian payload structs of the protocol. */
module Wire {
  import opened SeqFacts
  import opened Crc
  import opened BinaryProtocol

  // ---------- message identifiers ----------

  const HANDSHAKE: Byte := 0x09
  const WHEEL_VELOCITY: Byte := 0x01
  const SET_PID_GAINS: Byte := 0x03
  const SET_CMD_TIMEOUT: Byte := 0x04
  const RESET: Byte := 0x05
  const DEACTIVATE: Byte := 0x08
  const RGB_LED_SET: Byte := 0x36
  const WHEEL_FEEDBACK: Byte := 0x10
  const ACK: Byte := 0xF0

  // ---------- struct layouts ----------

  /** The integer types of the struct fields. */
  datatype Field = U8 | U16 | U32 | I32 | I64

  function Width(f: Field): nat {
    match f
    case U8 => 1
    case U16 => 2
    case U32 => 4
    case I32 => 4
    case I64 => 8
  }

  /** The number of values of a field type. */
  function Range(f: Field): nat {
    match f
    case U8 => 0x100
    case U16 => 0x1_0000
    case U32 => 0x1_0000_0000
    case I32 => 0x1_0000_0000
    case I64 => 0x1_0000_0000_0000_0000
  }

  predicate Fits(f: Field, v: int) {
    if f.I32? || f.I64? then -(Range(f) / 2) <= v < Range(f) / 2 else 0 <= v < Range(f)
  }

  const HANDSHAKE_LAYOUT := [U32, U32, U32]
  const TIMESTAMP_LAYOUT := [U32, U32]
  const WHEEL_VELOCITY_LAYOUT := [U32, U32, I32, I32]
  const PID_GAINS_LAYOUT := [U32, U32, I32, I32, I32, I32, I32, I32]
  const CMD_TIMEOUT_LAYOUT := [U32, U32, U16]
  const RGB_LED_LAYOUT := [U32, U32, U8, U8, U8, U8]
  const WHEEL_FEEDBACK_LAYOUT := [U32, U32, I64, I64, U32, U32]

  function Size(layout: seq<Field>): nat {
    if layout == [] then 0 else Width(layout[0]) + Size(layout[1..])
  }

  ghost predicate AllFit(layout: seq<Field>, values: seq<int>) {
    |values| == |layout| && forall i :: 0 <= i < |layout| ==> Fits(layout[i], values[i])
  }

  // ---------- little-endian integers ----------

  function Pow256(k: nat): nat {
    if k == 0 then 1 else 256 * Pow256(k - 1)
  }

  function LeBytes(n: nat, k: nat): (bytes: seq<Byte>)
    ensures |bytes| == k
    decreases k
  {
    if k == 0 then [] else [(n % 256) as Byte] + LeBytes(n / 256, k - 1)
  }

  function LeValue(bytes: seq<Byte>): nat {
    if bytes == [] then 0 else bytes[0] as int + 256 * LeValue(bytes[1..])
  }

  lemma {:induction false} LeRoundTrip(n: nat, k: nat)
    requires n < Pow256(k)
    ensures LeValue(LeBytes(n, k)) == n
    decreases k
  {
    if k > 0 {
      LengthByte(n % 256);
      LeRoundTrip(n / 256, k - 1);
      assert LeBytes(n, k)[1..] == LeBytes(n / 256, k - 1);
    }
  }

  lemma DigitSplit(d: int, rest: nat)
    requires 0 <= d < 256
    ensures (d + 256 * rest) % 256 == d && (d + 256 * rest) / 256 == rest
  {
  }

  lemma {:induction false} LeValueBound(bytes: seq<Byte>)
    ensures LeValue(bytes) < Pow256(|bytes|)
  {
    if bytes != [] {
      ByteRange(bytes[0]);
      LeValueBound(bytes[1..]);
    }
  }

  lemma LeBytesCons(b: Byte, rest: nat, k: nat)
    ensures LeBytes(b as int + 256 * rest, k + 1) == [b] + LeBytes(rest, k)
  {
    ByteRange(b);
    DigitSplit(b as int, rest);
  }

  lemma {:induction false} LeBytesRoundTrip(bytes: seq<Byte>)
    ensures LeBytes(LeValue(bytes), |bytes|) == bytes
  {
    if bytes != [] {
      LeBytesRoundTrip(bytes[1..]);
      LeBytesCons(bytes[0], LeValue(bytes[1..]), |bytes| - 1);
      Cons(bytes);
    }
  }

  lemma FieldRange(f: Field)
    ensures Pow256(Width(f)) == Range(f)
  {
    assert Pow256(2) == 0x1_0000;
    assert Pow256(4) == 0x1_0000_0000 by { assert Pow256(3) == 0x100_0000; }
    assert Pow256(6) == 0x1_0000_0000_0000 by { assert Pow256(5) == 0x100_0000_0000; }
    assert Pow256(8) == 0x1_0000_0000_0000_0000 by { assert Pow256(7) == 0x100_0000_0000_0000; }
  }

  // ---------- structs ----------

  /** Two's complement for negative values. */
  function Unsigned(f: Field, v: int): nat
    requires Fits(f, v)
  {
    if v < 0 then v + Range(f) else v
  }

  function Signed(f: Field, n: nat): int {
    if (f.I32? || f.I64?) && n >= Range(f) / 2 then n - Range(f) else n
  }

  function Pack(layout: seq<Field>, values: seq<int>): (bytes: seq<Byte>)
    requires AllFit(layout, values)
    ensures |bytes| == Size(layout)
  {
    if layout == [] then []
    else LeBytes(Unsigned(layout[0], values[0]), Width(layout[0])) + Pack(layout[1..], values[1..])
  }

  /** Reads the leading bytes; any bytes after the struct are ignored, as memcpy of its size does. */
  function Unpack(layout: seq<Field>, bytes: seq<Byte>): (values: seq<int>)
    requires |bytes| >= Size(layout)
    ensures |values| == |layout|
  {
    if layout == [] then []
    else
      var w := Width(layout[0]);
      [Signed(layout[0], LeValue(bytes[..w]))] + Unpack(layout[1..], bytes[w..])
  }

  lemma FieldRoundTrip(f: Field, v: int)
    requires Fits(f, v)
    ensures Signed(f, LeValue(LeBytes(Unsigned(f, v), Width(f)))) == v
  {
    FieldRange(f);
    LeRoundTrip(Unsigned(f, v), Width(f));
  }

  /** Every struct survives the wire, whatever follows it. */
  lemma {:induction false} PackRoundTrip(layout: seq<Field>, values: seq<int>, tail: seq<Byte>)
    requires AllFit(layout, values)
    ensures Unpack(layout, Pack(layout, values) + tail) == values
  {
    if layout != [] {
      var f, w := layout[0], Width(layout[0]);
      var first, rest := LeBytes(Unsigned(f, values[0]), w), Pack(layout[1..], values[1..]);
      FieldRoundTrip(f, values[0]);
      PackRoundTrip(layout[1..], values[1..], tail);
      Regroup(first, rest, tail);
      assert values == [values[0]] + values[1..];
    }
  }

  lemma SignedRoundTrip(f: Field, n: nat)
    requires n < Range(f)
    ensures Fits(f, Signed(f, n)) && Unsigned(f, Signed(f, n)) == n
  {
  }

  lemma FieldBytesRoundTrip(f: Field, bytes: seq<Byte>)
    requires |bytes| == Width(f)
    ensures Fits(f, Signed(f, LeValue(bytes)))
    ensures LeBytes(Unsigned(f, Signed(f, LeValue(bytes))), Width(f)) == bytes
  {
    FieldRange(f);
    LeValueBound(bytes);
    LeBytesRoundTrip(bytes);
    SignedRoundTrip(f, LeValue(bytes));
  }

  /** And every byte string of the right size is exactly one struct. */
  lemma {:induction false} UnpackRoundTrip(layout: seq<Field>, bytes: seq<Byte>)
    requires |bytes| == Size(layout)
    ensures AllFit(layout, Unpack(layout, bytes))
    ensures Pack(layout, Unpack(layout, bytes)) == bytes
  {
    if layout != [] {
      var w := Width(layout[0]);
      var values := Unpack(layout, bytes);
      FieldBytesRoundTrip(layout[0], bytes[..w]);
      UnpackRoundTrip(layout[1..], bytes[w..]);
      assert values[1..] == Unpack(layout[1..], bytes[w..]);
      assert bytes == bytes[..w] + bytes[w..];
    }
  }

  /** A time stamp of two words, and `n` fields of one type. */
  lemma StampedRun(layout: seq<Field>, f: Field, n: nat)
    requires |layout| == n + 2 && layout[0] == U32 && layout[1] == U32
    requires forall i :: 2 <= i < n + 2 ==> layout[i] == f
    ensures Size(layout) == 8 + Width(f) * n
  {
    var rest := layout[1..][1..];
    SizeOfRun(rest, f);
    assert layout[1..][0] == U32;
  }

  lemma {:induction false} SizeOfRun(layout: seq<Field>, f: Field)
    requires forall i :: 0 <= i < |layout| ==> layout[i] == f
    ensures Size(layout) == Width(f) * |layout|
  {
    if layout != [] {
      SizeOfRun(layout[1..], f);
    }
  }

  // ---------- where each byte of a field is ----------

  /** Digit `j` of a number to the base 256, counting up from the lowest; a negative number has
      infinitely many. */
  function Digit(v: int, j: nat): int
    decreases j
  {
    if j == 0 then v % 256 else Digit(v / 256, j - 1)
  }

  lemma ShiftSum(v: int, carry: int)
    ensures (v + 256 * carry) % 256 == v % 256 && (v + 256 * carry) / 256 == v / 256 + carry
  {
  }

  lemma Carried(q: int, p: int)
    ensures q * (256 * p) == 256 * (q * p)
  {
  }

  /** Numbers that agree modulo 256 to the `k` have the same first `k` digits. */
  lemma {:induction false} LeDigit(v: int, n: nat, q: int, k: nat, j: nat)
    requires j < k && n == v + q * Pow256(k)
    ensures LeBytes(n, k)[j] as int == Digit(v, j)
    decreases k
  {
    LengthByte(n % 256);
    Carried(q, Pow256(k - 1));
    ShiftSum(v, q * Pow256(k - 1));
    if j > 0 {
      LeDigit(v / 256, n / 256, q, k - 1, j - 1);
    }
  }

  lemma SizeOfMore(layout: seq<Field>, i: nat)
    requires 0 < i <= |layout|
    ensures Size(layout[..i]) == Width(layout[0]) + Size(layout[1..][..i - 1])
  {
    assert layout[..i][0] == layout[0] && layout[..i][1..] == layout[1..][..i - 1];
  }

  /** Field `i` starts where the fields before it end. */
  lemma {:induction false} FieldAt(layout: seq<Field>, values: seq<int>, i: nat)
    requires AllFit(layout, values) && i < |layout|
    ensures var at, w := Size(layout[..i]), Width(layout[i]);
      at + w <= Size(layout) && Pack(layout, values)[at..at + w] == LeBytes(Unsigned(layout[i], values[i]), w)
  {
    var first, rest := LeBytes(Unsigned(layout[0], values[0]), Width(layout[0])), Pack(layout[1..], values[1..]);
    if i == 0 {
      Starts(first, rest);
    } else {
      var at, w := Size(layout[1..][..i - 1]), Width(layout[i]);
      FieldAt(layout[1..], values[1..], i - 1);
      SizeOfMore(layout, i);
      Later(first, rest, at, at + w);
    }
  }

  lemma FieldDigit(f: Field, v: int, j: nat)
    requires Fits(f, v) && j < Width(f)
    ensures LeBytes(Unsigned(f, v), Width(f))[j] as int == Digit(v, j)
  {
    FieldRange(f);
    LeDigit(v, Unsigned(f, v), if v < 0 then 1 else 0, Width(f), j);
  }

  /** The offset of a field, its byte order and its two's complement: byte `j` of field `i` is digit
      `j` of its value. */
  lemma FieldByte(layout: seq<Field>, values: seq<int>, i: nat, j: nat)
    requires AllFit(layout, values) && i < |layout| && j < Width(layout[i])
    ensures var at := Size(layout[..i]) + j;
      at < Size(layout) && Pack(layout, values)[at] as int == Digit(values[i], j)
  {
    var f, v, at := layout[i], values[i], Size(layout[..i]);
    FieldAt(layout, values, i);
    FieldDigit(f, v, j);
    SliceIs(Pack(layout, values), at, LeBytes(Unsigned(f, v), Width(f)), j);
  }

  /** All digits of -1 are 255. */
  lemma {:induction false} MinusOne(j: nat)
    ensures Digit(-1, j) == 255
  {
    if j > 0 {
      MinusOne(j - 1);
    }
  }
}
