/** The status light: one colour resolved from the mode, two colours, a period and the time, sent when
    it changes and once a second. */
module Led {
  import opened NumberFacts
  import opened Wire
  import opened Commands
  import opened Tuning
  import opened Options

  const LED_OFF := 0
  const LED_SOLID := 1
  const LED_BLINK := 2
  const LED_ALTERNATE := 3

  const REFRESH_SEC: real := 1.0

  datatype Output = Output(red: int, green: int, blue: int, fwMode: int)

  /** The low three bytes of a colour. */
  function Rgb(color: nat): (led: Output)
    ensures Fits(U8, led.red) && Fits(U8, led.green) && Fits(U8, led.blue) && Fits(U8, led.fwMode)
  {
    Output(color / 0x1_0000 % 256, color / 0x100 % 256, color % 256, LED_SOLID)
  }

  /** The remainder of a division that truncates: it has the sign of the dividend. */
  function Remainder(n: int, d: int): int
    requires d > 0
  {
    if n >= 0 then n % d else -(-n % d)
  }

  /** The second of two phases of `periodMs` each. */
  predicate SecondPhase(periodMs: real, t: real)
    requires periodMs > 0.0
  {
    Remainder(Truncate(t * 1000.0 / periodMs), 2) == 1
  }

  /** The frame for the led commands at time `t`, or none for an unknown mode. */
  function ResolveLed(mode: int, color: nat, colorAlt: nat, periodMs: real, t: real): (led: Option<Output>)
    ensures led.Some? <==> LED_OFF <= mode <= LED_ALTERNATE
    ensures led.Some? ==> Fits(U8, led.value.red) && Fits(U8, led.value.green) && Fits(U8, led.value.blue)
                          && Fits(U8, led.value.fwMode)
  {
    if mode == LED_OFF then Some(Output(0, 0, 0, LED_OFF))
    else if mode < LED_OFF || mode > LED_ALTERNATE then None
    else
      var alt := if mode == LED_BLINK then 0 else colorAlt;
      var flipped := mode != LED_SOLID && periodMs > 0.0 && SecondPhase(periodMs, t);
      Some(Rgb(if flipped then alt else color))
  }

  /** The three bytes are the colour's, red first; anything above them is dropped. */
  lemma ColourBytes(color: nat)
    ensures Rgb(color).red * 0x1_0000 + Rgb(color).green * 0x100 + Rgb(color).blue == color % 0x100_0000
  {
    ThreeBytes(color);
  }

  // ---------- what the light shows over time ----------

  lemma PhaseLater(periodMs: real, t: real)
    requires periodMs > 0.0
    ensures (t + periodMs / 1000.0) * 1000.0 / periodMs == t * 1000.0 / periodMs + 1.0
  {
    assert (t + periodMs / 1000.0) * 1000.0 == t * 1000.0 + periodMs;
    SumOver(t * 1000.0, periodMs);
  }

  lemma SumOver(x: real, d: real)
    requires d != 0.0
    ensures (x + d) / d == x / d + 1.0
  {
    assert x / d * d == x;
    QuotientUnique(x + d, d, x / d + 1.0);
  }

  lemma TruncateLater(x: real)
    requires x >= 0.0
    ensures Truncate(x + 1.0) == Truncate(x) + 1
  {
  }

  /** From time zero on the phase flips every period. */
  lemma PhaseFlips(periodMs: real, t: real)
    requires periodMs > 0.0 && t >= 0.0
    ensures SecondPhase(periodMs, t + periodMs / 1000.0) <==> !SecondPhase(periodMs, t)
  {
    PhaseLater(periodMs, t);
    NotNegative(t * 1000.0, periodMs);
    TruncateLater(t * 1000.0 / periodMs);
  }

  /** An alternating light shows its first colour in the first period, and at any time the other
      colour than one period before. */
  lemma AlternateFlips(color: nat, colorAlt: nat, periodMs: real, t: real)
    requires periodMs > 0.0 && t >= 0.0
    ensures t < periodMs / 1000.0 ==> ResolveLed(LED_ALTERNATE, color, colorAlt, periodMs, t) == Some(Rgb(color))
    ensures ResolveLed(LED_ALTERNATE, color, colorAlt, periodMs, t + periodMs / 1000.0)
         == ResolveLed(LED_ALTERNATE, colorAlt, color, periodMs, t)
  {
    PhaseFlips(periodMs, t);
    if t < periodMs / 1000.0 {
      FirstPhase(periodMs, t);
    }
  }

  lemma FirstPhase(periodMs: real, t: real)
    requires periodMs > 0.0 && 0.0 <= t < periodMs / 1000.0
    ensures !SecondPhase(periodMs, t)
  {
    NotNegative(t * 1000.0, periodMs);
    LessThanOne(t * 1000.0, periodMs);
  }

  /** Blinking alternates with black, and a period that is not positive, or the solid mode, holds
      the colour. */
  lemma SteadyModes(color: nat, colorAlt: nat, periodMs: real, t: real)
    ensures ResolveLed(LED_BLINK, color, colorAlt, periodMs, t) == ResolveLed(LED_ALTERNATE, color, 0, periodMs, t)
    ensures ResolveLed(LED_SOLID, color, colorAlt, periodMs, t) == Some(Rgb(color))
    ensures periodMs <= 0.0 ==> ResolveLed(LED_ALTERNATE, color, colorAlt, periodMs, t) == Some(Rgb(color))
  {
  }

  /** Mode 0 is black and sent as off. Any other mode is sent as solid: the light shows `color`, or the
      other colour of its mode, which the host chooses by the time. */
  lemma SentModes(mode: int, color: nat, colorAlt: nat, periodMs: real, t: real)
    requires 0 <= mode <= 3
    ensures var led := ResolveLed(mode, color, colorAlt, periodMs, t);
      && (mode == 0 ==> led == Some(Output(0, 0, 0, 0)))
      && (mode != 0 ==> led.Some? && led.value.fwMode == 1 && (led == Some(Rgb(color))
                          || (mode == 2 && led == Some(Output(0, 0, 0, 1))) || (mode == 3 && led == Some(Rgb(colorAlt)))))
  {
  }

  // ---------- the cache ----------

  /** The led command interfaces as the write finds them. */
  datatype Command = Command(mode: Gpio, color: Gpio, colorAlt: Gpio, periodMs: Gpio)

  /** What the command asks for at time `t`: nothing when the light has no mode interface. */
  function Wanted(c: Command, t: real): (led: Option<Output>)
    ensures led.Some? ==> Fits(U8, led.value.red) && Fits(U8, led.value.green) && Fits(U8, led.value.blue)
                          && Fits(U8, led.value.fwMode)
  {
    if c.mode.Absent? then None
    else
      ResolveLed(CastGpio(I32, c.mode), CastGpio(U32, c.color), CastGpio(U32, c.colorAlt),
                 if c.periodMs.Finite? then c.periodMs.value else 0.0, t)
  }

  /** Commands of whole numbers are taken as they are. Alternating from `first` to `second`, the light
      shows `first` in the first period and `second` one period later. */
  lemma CommandShown(first: nat, second: nat, periodMs: real, t: real)
    requires Fits(U32, first) && Fits(U32, second) && periodMs > 0.0 && 0.0 <= t < periodMs / 1000.0
    ensures var c := Command(Finite(3.0), Finite(first as real), Finite(second as real), Finite(periodMs));
      Wanted(c, t) == Some(Rgb(first)) && Wanted(c, t + periodMs / 1000.0) == Some(Rgb(second))
  {
    ClampCastNearest(U32, 0.0, first);
    ClampCastNearest(U32, 0.0, second);
    ClampCastNearest(I32, 0.0, 3);
    AlternateFlips(first, second, periodMs, t);
    AlternateFlips(second, first, periodMs, t);
  }

  /** A mode that is not a number turns the light off; without a mode interface nothing is sent. */
  lemma NoMode(color: Gpio, colorAlt: Gpio, periodMs: Gpio, t: real)
    ensures Wanted(Command(NonFinite, color, colorAlt, periodMs), t) == Some(Output(0, 0, 0, 0))
    ensures Wanted(Command(Absent, color, colorAlt, periodMs), t) == None
  {
  }

  /** A solid light shows its first colour, whatever the rest of the command says. */
  lemma SolidShown(color: nat, colorAlt: Gpio, periodMs: Gpio, t: real)
    requires Fits(U32, color)
    ensures Wanted(Command(Finite(1.0), Finite(color as real), colorAlt, periodMs), t) == Some(Rgb(color))
  {
    ClampCastNearest(U32, 0.0, color);
    ClampCastNearest(I32, 0.0, 1);
  }

  /** One write: what its command asks for, and the clock before and after the send. */
  datatype Write = Write(wants: Option<Output>, check: real, done: real)

  datatype Cache = Cache(sent: Option<Output>, lastSend: real)

  predicate Sends(cache: Cache, w: Write) {
    w.wants.Some? && (cache.sent != w.wants || w.check - cache.lastSend >= REFRESH_SEC)
  }

  function Step(cache: Cache, w: Write): Cache {
    if Sends(cache, w) then Cache(w.wants, w.done) else cache
  }

  /** The cache after the writes that follow an activation at `start`. */
  function After(start: real, ws: seq<Write>): Cache {
    if ws == [] then Cache(None, start) else Step(After(start, ws[..|ws| - 1]), ws[|ws| - 1])
  }

  predicate SentIn(start: real, ws: seq<Write>, i: nat)
    requires i < |ws|
  {
    Sends(After(start, ws[..i]), ws[i])
  }

  /** The last frame after the writes went out in write `k`. */
  ghost predicate LastSend(start: real, ws: seq<Write>, k: int) {
    0 <= k < |ws| && SentIn(start, ws, k) && forall i :: k < i < |ws| ==> !SentIn(start, ws, i)
  }

  lemma SentInPrefix(start: real, ws: seq<Write>, n: nat, i: nat)
    requires i < n <= |ws|
    ensures SentIn(start, ws[..n], i) == SentIn(start, ws, i)
  {
    assert ws[..n][..i] == ws[..i];
  }

  /** A write that sends nothing leaves the last send where it was. */
  lemma LastSendKept(start: real, ws: seq<Write>, k: int)
    requires ws != [] && !SentIn(start, ws, |ws| - 1)
    ensures LastSend(start, ws, k) <==> LastSend(start, ws[..|ws| - 1], k)
  {
    var n := |ws| - 1;
    forall i | 0 <= i < n
      ensures SentIn(start, ws[..n], i) == SentIn(start, ws, i)
    {
      SentInPrefix(start, ws, n, i);
    }
  }

  lemma NoneSentPrefix(start: real, ws: seq<Write>)
    requires ws != [] && NoneSent(start, ws)
    ensures NoneSent(start, ws[..|ws| - 1])
  {
    var n := |ws| - 1;
    forall i | 0 <= i < n
      ensures !SentIn(start, ws[..n], i)
    {
      SentInPrefix(start, ws, n, i);
    }
  }

  ghost predicate NoneSent(start: real, ws: seq<Write>) {
    forall i :: 0 <= i < |ws| ==> !SentIn(start, ws, i)
  }

  /** The cache is the last frame sent and the time it was sent, in every run. */
  lemma {:induction false} CacheIsLastSend(start: real, ws: seq<Write>, k: int)
    ensures LastSend(start, ws, k) ==> After(start, ws) == Cache(ws[k].wants, ws[k].done)
    ensures NoneSent(start, ws) ==> After(start, ws) == Cache(None, start)
  {
    if ws != [] && !SentIn(start, ws, |ws| - 1) {
      CacheIsLastSend(start, ws[..|ws| - 1], k);
      LastSendKept(start, ws, k);
      if NoneSent(start, ws) {
        NoneSentPrefix(start, ws);
      }
    }
  }

  /** After every write that asks for a light, the last frame on the wire shows that light and, by
      the clock of that write, is less than a second old. */
  lemma LightIsCurrent(start: real, ws: seq<Write>) returns (k: nat)
    requires ws != [] && ws[|ws| - 1].wants.Some?
    ensures LastSend(start, ws, k) && ws[k].wants == ws[|ws| - 1].wants
    ensures k == |ws| - 1 || ws[|ws| - 1].check - ws[k].done < 1.0
  {
    var n := |ws| - 1;
    if SentIn(start, ws, n) {
      k := n;
    } else {
      k := FindLastSend(start, ws[..n]);
      CacheIsLastSend(start, ws[..n], k);
      LastSendKept(start, ws, k);
    }
  }

  lemma {:induction false} FindLastSend(start: real, ws: seq<Write>) returns (k: nat)
    requires After(start, ws).sent.Some?
    ensures LastSend(start, ws, k)
  {
    var n := |ws| - 1;
    if SentIn(start, ws, n) {
      k := n;
    } else {
      k := FindLastSend(start, ws[..n]);
      LastSendKept(start, ws, k);
    }
  }

  /** A frame equal to the one before it is a refresh, at least a second after it. */
  lemma RepeatsAreRefreshes(start: real, ws: seq<Write>, j: nat, k: nat)
    requires j < k < |ws| && LastSend(start, ws[..k], j) && SentIn(start, ws, k)
    ensures ws[j].wants == ws[k].wants ==> ws[k].check - ws[j].done >= 1.0
  {
    CacheIsLastSend(start, ws[..k], j);
  }
}
