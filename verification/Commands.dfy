/** The host's commands as messages: units, struct contents and what a receiver of the wire reads
    back from them. */
module Commands {
  import opened SeqFacts
  import opened NumberFacts
  import opened Crc
  import opened BinaryProtocol
  import opened StreamScanner
  import opened Wire

  /** The double nearest to pi, as M_PI. */
  const PI: real := 3.141592653589793115997963468544185161590576171875

  /** A cast from a floating-point to an integer type drops the fraction. */
  function Truncate(x: real): (n: int)
    ensures x >= 0.0 ==> n as real <= x < n as real + 1.0
    ensures x <= 0.0 ==> n as real - 1.0 < x <= n as real
  {
    if x >= 0.0 then x.Floor else -((-x).Floor)
  }

  /** The double is 884279719003555 over 2^48. */
  lemma PiIsDouble()
    ensures PI * 281474976710656.0 == 884279719003555.0
  {
  }

  /** rad/s to thousandths of a revolution per second. */
  function ToMrps(radS: real): int {
    Truncate(radS * 1000.0 / (2.0 * PI))
  }

  /** At `v` rad/s a wheel makes `n` whole thousandths of a revolution per second, and less than one
      more. Backward speeds are counted backward. */
  ghost predicate Thousandths(n: int, v: real) {
    && (v >= 0.0 ==> n >= 0 && n as real * (2.0 * PI) <= v * 1000.0 < (n + 1) as real * (2.0 * PI))
    && (v <= 0.0 ==> n <= 0 && (n - 1) as real * (2.0 * PI) < v * 1000.0 <= n as real * (2.0 * PI))
  }

  lemma QuotientBetween(q: real, lo: int, hi: int, d: real, x: real)
    requires d > 0.0 && q * d == x
    ensures lo as real <= q ==> lo as real * d <= x
    ensures q <= hi as real ==> x <= hi as real * d
    ensures lo as real < q ==> lo as real * d < x
    ensures q < hi as real ==> x < hi as real * d
  {
    if lo as real <= q {
      Scaled(lo as real, q, d);
    }
    if q <= hi as real {
      Scaled(q, hi as real, d);
    }
    if lo as real < q {
      ScaledLess(lo as real, q, d);
    }
    if q < hi as real {
      ScaledLess(q, hi as real, d);
    }
  }

  lemma TruncatedQuotient(x: real, d: real, n: int)
    requires d > 0.0 && n == Truncate(x / d)
    ensures x >= 0.0 ==> n >= 0 && n as real * d <= x < (n + 1) as real * d
    ensures x <= 0.0 ==> n <= 0 && (n - 1) as real * d < x <= n as real * d
  {
    var q := x / d;
    SameSign(x, d);
    if x >= 0.0 {
      QuotientBetween(q, n, n + 1, d, x);
    }
    if x <= 0.0 {
      QuotientBetween(q, n - 1, n, d, x);
    }
  }

  lemma ToMrpsThousandths(v: real)
    ensures Thousandths(ToMrps(v), v)
  {
    TruncatedQuotient(v * 1000.0, 2.0 * PI, ToMrps(v));
  }

  /** No two counts are right for the same speed. */
  lemma ThousandthsUnique(m: int, n: int, v: real)
    requires Thousandths(m, v) && Thousandths(n, v)
    ensures m == n
  {
    var d := 2.0 * PI;
    if m < n {
      Scaled((m + 1) as real, n as real, d);
      Scaled(m as real, (n - 1) as real, d);
    } else if n < m {
      Scaled((n + 1) as real, m as real, d);
      Scaled(n as real, (m - 1) as real, d);
    }
  }

  /** A command of `k` thousandths of a revolution per second is counted as `k`. */
  lemma WholeThousandths(k: int, v: real)
    requires v * 1000.0 == k as real * (2.0 * PI)
    ensures ToMrps(v) == k
  {
    var d := 2.0 * PI;
    QuotientUnique(v * 1000.0, d, k as real);
  }

  datatype Timestamp = Timestamp(sec: int, nsec: int)

  ghost predicate ValidStamp(t: Timestamp) {
    Fits(U32, t.sec) && Fits(U32, t.nsec)
  }

  /** The velocity is representable in the struct; the cast is undefined otherwise. */
  ghost predicate Representable(radS: real) {
    Fits(I32, ToMrps(radS))
  }

  function WheelVelocity(left: real, right: real, t: Timestamp): Message
    requires ValidStamp(t) && Representable(left) && Representable(right)
  {
    Message(WHEEL_VELOCITY, Pack(WHEEL_VELOCITY_LAYOUT, [t.sec, t.nsec, ToMrps(left), ToMrps(right)]))
  }

  function PidGains(gains: seq<int>, t: Timestamp): Message
    requires ValidStamp(t) && |gains| == 6 && forall i :: 0 <= i < 6 ==> Fits(I32, gains[i])
  {
    Message(SET_PID_GAINS, Pack(PID_GAINS_LAYOUT, [t.sec, t.nsec] + gains))
  }

  function CommandTimeout(timeoutMs: int, t: Timestamp): Message
    requires ValidStamp(t) && Fits(U16, timeoutMs)
  {
    Message(SET_CMD_TIMEOUT, Pack(CMD_TIMEOUT_LAYOUT, [t.sec, t.nsec, timeoutMs]))
  }

  function RgbLed(red: int, green: int, blue: int, mode: int, t: Timestamp): Message
    requires ValidStamp(t) && Fits(U8, red) && Fits(U8, green) && Fits(U8, blue) && Fits(U8, mode)
  {
    Message(RGB_LED_SET, Pack(RGB_LED_LAYOUT, [t.sec, t.nsec, red, green, blue, mode]))
  }

  /** Version 1.0.0. */
  const PROTOCOL_VERSION := 1_000_000

  function HandshakeMessage(t: Timestamp): Message
    requires ValidStamp(t)
  {
    Message(HANDSHAKE, Pack(HANDSHAKE_LAYOUT, [t.sec, t.nsec, PROTOCOL_VERSION]))
  }

  /** Deactivate and reset carry a time stamp only. */
  function TimestampOnly(id: Byte, t: Timestamp): Message
    requires ValidStamp(t)
  {
    Message(id, Pack(TIMESTAMP_LAYOUT, [t.sec, t.nsec]))
  }

  lemma {:induction false} SizeBound(layout: seq<Field>)
    ensures Size(layout) <= 8 * |layout|
  {
    if layout != [] {
      SizeBound(layout[1..]);
    }
  }

  lemma CommandsAreShort()
    ensures Size(WHEEL_VELOCITY_LAYOUT) <= MAX_PAYLOAD && Size(PID_GAINS_LAYOUT) <= MAX_PAYLOAD
    ensures Size(CMD_TIMEOUT_LAYOUT) <= MAX_PAYLOAD && Size(RGB_LED_LAYOUT) <= MAX_PAYLOAD
    ensures Size(TIMESTAMP_LAYOUT) <= MAX_PAYLOAD && Size(HANDSHAKE_LAYOUT) <= MAX_PAYLOAD
  {
    SizeBound(WHEEL_VELOCITY_LAYOUT);
    SizeBound(PID_GAINS_LAYOUT);
    SizeBound(CMD_TIMEOUT_LAYOUT);
    SizeBound(RGB_LED_LAYOUT);
    SizeBound(TIMESTAMP_LAYOUT);
    SizeBound(HANDSHAKE_LAYOUT);
  }

  // ---------- what the other end decodes ----------

  /** The fields of the struct a message carries, without its time stamp. */
  function Fields(layout: seq<Field>, m: Message): seq<int>
    requires |m.payload| >= Size(layout) && |layout| >= 2
  {
    Unpack(layout, m.payload)[2..]
  }

  /** The message carries this struct, and nothing else. */
  ghost predicate Carries(m: Message, id: Byte, layout: seq<Field>, t: Timestamp, fields: seq<int>) {
    && m.id == id && |m.payload| == Size(layout)
    && Unpack(layout, m.payload) == [t.sec, t.nsec] + fields
  }

  lemma PackedFields(layout: seq<Field>, values: seq<int>)
    requires AllFit(layout, values)
    ensures Unpack(layout, Pack(layout, values)) == values
  {
    PackRoundTrip(layout, values, []);
    assert Pack(layout, values) + [] == Pack(layout, values);
  }

  /** A board reads each wheel's command as its whole thousandths of a revolution per second. */
  lemma WheelVelocityFields(left: real, right: real, t: Timestamp)
    requires ValidStamp(t) && Representable(left) && Representable(right)
    ensures var m := WheelVelocity(left, right, t);
      |m.payload| == 16 && Carries(m, 0x01, WHEEL_VELOCITY_LAYOUT, t, [ToMrps(left), ToMrps(right)])
    ensures Thousandths(ToMrps(left), left) && Thousandths(ToMrps(right), right)
  {
    PackedFields(WHEEL_VELOCITY_LAYOUT, [t.sec, t.nsec, ToMrps(left), ToMrps(right)]);
    StampedRun(WHEEL_VELOCITY_LAYOUT, I32, 2);
    ToMrpsThousandths(left);
    ToMrpsThousandths(right);
  }

  lemma PidGainsFields(gains: seq<int>, t: Timestamp)
    requires ValidStamp(t) && |gains| == 6 && forall i :: 0 <= i < 6 ==> Fits(I32, gains[i])
    ensures var m := PidGains(gains, t); |m.payload| == 32 && Carries(m, 0x03, PID_GAINS_LAYOUT, t, gains)
  {
    PackedFields(PID_GAINS_LAYOUT, [t.sec, t.nsec] + gains);
    StampedRun(PID_GAINS_LAYOUT, I32, 6);
  }

  lemma CommandTimeoutFields(timeoutMs: int, t: Timestamp)
    requires ValidStamp(t) && Fits(U16, timeoutMs)
    ensures var m := CommandTimeout(timeoutMs, t);
      |m.payload| == 10 && Carries(m, 0x04, CMD_TIMEOUT_LAYOUT, t, [timeoutMs])
  {
    PackedFields(CMD_TIMEOUT_LAYOUT, [t.sec, t.nsec, timeoutMs]);
    StampedRun(CMD_TIMEOUT_LAYOUT, U16, 1);
  }

  lemma RgbLedFields(red: int, green: int, blue: int, mode: int, t: Timestamp)
    requires ValidStamp(t) && Fits(U8, red) && Fits(U8, green) && Fits(U8, blue) && Fits(U8, mode)
    ensures var m := RgbLed(red, green, blue, mode, t);
      |m.payload| == 12 && Carries(m, 0x36, RGB_LED_LAYOUT, t, [red, green, blue, mode])
  {
    PackedFields(RGB_LED_LAYOUT, [t.sec, t.nsec, red, green, blue, mode]);
    StampedRun(RGB_LED_LAYOUT, U8, 4);
  }

  /** A handshake carries the protocol version 1.0.0. */
  lemma HandshakeFields(t: Timestamp)
    requires ValidStamp(t)
    ensures var m := HandshakeMessage(t); |m.payload| == 12 && Carries(m, 0x09, HANDSHAKE_LAYOUT, t, [1_000_000])
  {
    PackedFields(HANDSHAKE_LAYOUT, [t.sec, t.nsec, PROTOCOL_VERSION]);
    StampedRun(HANDSHAKE_LAYOUT, U32, 1);
  }

  lemma TimestampFields(id: Byte, t: Timestamp)
    requires ValidStamp(t)
    ensures var m := TimestampOnly(id, t); |m.payload| == 8 && Carries(m, id, TIMESTAMP_LAYOUT, t, [])
  {
    PackedFields(TIMESTAMP_LAYOUT, [t.sec, t.nsec]);
    StampedRun(TIMESTAMP_LAYOUT, U8, 0);
  }

  // ---------- frames sent back to back ----------

  ghost predicate AllShort(ms: seq<Message>) {
    forall m :: m in ms ==> |m.payload| <= MAX_PAYLOAD
  }

  function FramesOf(ms: seq<Message>): seq<Byte>
    requires AllShort(ms)
  {
    if ms == [] then []
    else
      assert ms[|ms| - 1] in ms;
      FramesOf(ms[..|ms| - 1]) + Frame(ms[|ms| - 1])
  }

  /** A receiver that scans what the host wrote, in any pieces, gets exactly the sent messages. */
  lemma {:induction false} SentIsReceived(ms: seq<Message>)
    requires AllShort(ms)
    ensures Parse(FramesOf(ms)) == Parsed(ms, 0, [])
  {
    if ms != [] {
      var n := |ms| - 1;
      var m := ms[n];
      assert m in ms;
      SentIsReceived(ms[..n]);
      ParseAppend(FramesOf(ms[..n]), Frame(m));
      LoneFrame(m);
      Join(Frame(m), [], []);
      LastSplit(ms);
    }
  }

  lemma LoneFrame(m: Message)
    requires |m.payload| <= MAX_PAYLOAD
    ensures Parse(Frame(m)) == Parsed([m], 0, [])
  {
    FrameIsDispatched(m, []);
    Join(Frame(m), [], []);
  }
}
