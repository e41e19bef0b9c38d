/** Runtime tuning of the board: gains and timeout are sent only when a value changes. The frames
    this puts on the wire are those of sending every cycle, without the repeats. */
module Tuning {
  import opened Wire
  import opened Commands

  /** The command interface of a gpio: missing, holding a NaN or an infinity, or a number. */
  datatype Gpio = Absent | NonFinite | Finite(value: real)

  // ---------- the cast ----------

  /** The limits of an integer type. */
  function Lowest(f: Field): int {
    if f.I32? || f.I64? then -(Range(f) / 2) else 0
  }

  function Highest(f: Field): int {
    Lowest(f) + Range(f) - 1
  }

  /** A finite value in range is truncated; one out of range becomes the nearest limit. */
  function ClampCast(f: Field, v: real): (n: int)
    ensures Fits(f, n)
  {
    if v < Lowest(f) as real then Lowest(f)
    else if v > Highest(f) as real then Highest(f)
    else Truncate(v)
  }

  /** The cast of a gpio that is there: what is not finite becomes zero. */
  function CastGpio(f: Field, g: Gpio): (n: int)
    ensures Fits(f, n)
  {
    if g.Finite? then ClampCast(f, g.value) else 0
  }

  /** No integer of the type is closer to a value beyond the limits. Inside them the cast is off by
      less than one, towards zero. */
  lemma ClampCastNearest(f: Field, v: real, n: int)
    requires Fits(f, n)
    ensures v > Highest(f) as real || v < Lowest(f) as real ==>
              Abs(v - ClampCast(f, v) as real) <= Abs(v - n as real)
    ensures Lowest(f) as real <= v <= Highest(f) as real ==>
              && (v >= 0.0 ==> 0.0 <= v - ClampCast(f, v) as real < 1.0 && ClampCast(f, v) >= 0)
              && (v <= 0.0 ==> -1.0 < v - ClampCast(f, v) as real <= 0.0 && ClampCast(f, v) <= 0)
    ensures ClampCast(f, n as real) == n
  {
  }

  function Abs(x: real): real {
    if x < 0.0 then -x else x
  }

  // ---------- one cache ----------

  type Values = seq<real>

  /** The effective command: a value that is missing or not finite keeps what was last sent. */
  function Effective(sent: Values, cmd: seq<Gpio>): (e: Values)
    requires |cmd| == |sent|
    ensures |e| == |sent|
  {
    seq(|sent|, i requires 0 <= i < |sent| => if cmd[i].Finite? then cmd[i].value else sent[i])
  }

  ghost predicate Sized(n: nat, cmds: seq<seq<Gpio>>) {
    forall cmd :: cmd in cmds ==> |cmd| == n
  }

  /** The cache after the writes, from the values sent at activation. */
  function Cached(seed: Values, cmds: seq<seq<Gpio>>): (v: Values)
    requires Sized(|seed|, cmds)
    ensures |v| == |seed|
  {
    if cmds == [] then seed
    else
      var n := |cmds| - 1;
      assert cmds[n] in cmds;
      Effective(Cached(seed, cmds[..n]), cmds[n])
  }

  /** What the writes send, after the one at activation: the effective command where it differs
      from the cache. */
  function Sends(seed: Values, cmds: seq<seq<Gpio>>): seq<Values>
    requires Sized(|seed|, cmds)
  {
    if cmds == [] then [seed]
    else
      var n := |cmds| - 1;
      var v := Cached(seed, cmds);
      if v != Cached(seed, cmds[..n]) then Sends(seed, cmds[..n]) + [v] else Sends(seed, cmds[..n])
  }

  /** `prev` are the writes but the last. */
  lemma CachedStep(seed: Values, cmds: seq<seq<Gpio>>, prev: seq<seq<Gpio>>)
    requires Sized(|seed|, cmds) && cmds != [] && prev == cmds[..|cmds| - 1]
    ensures var n := |cmds| - 1;
      cmds[n] in cmds && Sized(|seed|, prev) && Cached(seed, cmds) == Effective(Cached(seed, prev), cmds[n])
  {
  }

  lemma SendsStep(seed: Values, cmds: seq<seq<Gpio>>, prev: seq<seq<Gpio>>)
    requires Sized(|seed|, cmds) && cmds != [] && prev == cmds[..|cmds| - 1]
    ensures Sized(|seed|, prev)
    ensures |Sends(seed, cmds)| == |Sends(seed, prev)| + if Cached(seed, cmds) != Cached(seed, prev) then 1 else 0
  {
  }

  // ---------- the simple policy ----------

  /** Value `i` was last finite in write `k`. */
  ghost predicate LastFinite(cmds: seq<seq<Gpio>>, i: nat, k: int)
    requires forall cmd :: cmd in cmds ==> i < |cmd|
  {
    && 0 <= k < |cmds|
    && cmds[k] in cmds && cmds[k][i].Finite?
    && forall j :: k < j < |cmds| ==> cmds[j] in cmds && !cmds[j][i].Finite?
  }

  /** The value in force: the last finite command since activation, or the one sent then. */
  ghost predicate InForce(seed: Values, cmds: seq<seq<Gpio>>, i: nat, v: real)
    requires i < |seed| && Sized(|seed|, cmds)
  {
    && (forall k {:trigger LastFinite(cmds, i, k)} :: LastFinite(cmds, i, k) ==> cmds[k] in cmds && v == cmds[k][i].value)
    && ((forall j :: 0 <= j < |cmds| ==> cmds[j] in cmds && !cmds[j][i].Finite?) ==> v == seed[i])
  }

  ghost predicate AllInForce(seed: Values, cmds: seq<seq<Gpio>>, v: Values)
    requires Sized(|seed|, cmds) && |v| == |seed|
  {
    forall i :: 0 <= i < |seed| ==> InForce(seed, cmds, i, v[i])
  }

  lemma {:induction false} CacheHoldsInForce(seed: Values, cmds: seq<seq<Gpio>>, i: nat)
    requires i < |seed| && Sized(|seed|, cmds)
    ensures InForce(seed, cmds, i, Cached(seed, cmds)[i])
  {
    if cmds != [] {
      var n := |cmds| - 1;
      CacheHoldsInForce(seed, cmds[..n], i);
      assert cmds[n] in cmds;
      forall k | LastFinite(cmds, i, k)
        ensures Cached(seed, cmds)[i] == cmds[k][i].value
      {
        if k < n {
          assert LastFinite(cmds[..n], i, k);
        }
      }
    }
  }

  /** Sending the values in force at activation and in every write. */
  function EveryCycle(seed: Values, cmds: seq<seq<Gpio>>): (vs: seq<Values>)
    requires Sized(|seed|, cmds)
    ensures |vs| == |cmds| + 1
  {
    if cmds == [] then [seed] else EveryCycle(seed, cmds[..|cmds| - 1]) + [Cached(seed, cmds)]
  }

  /** A sequence without immediate repeats. */
  function Compact<T(==, !new)>(xs: seq<T>): (ys: seq<T>)
    ensures xs != [] ==> ys != [] && ys[|ys| - 1] == xs[|xs| - 1]
    ensures forall i :: 0 < i < |ys| ==> ys[i - 1] != ys[i]
    ensures forall y :: y in ys <==> y in xs
  {
    if |xs| <= 1 then xs
    else
      var n := |xs| - 1;
      var ys := Compact(xs[..n]);
      assert xs == xs[..n] + [xs[n]];
      if xs[n] == xs[n - 1] then ys else ys + [xs[n]]
  }

  /** The number of places where a sequence changes. */
  function Changes<T(==)>(xs: seq<T>): nat {
    if |xs| <= 1 then 0
    else Changes(xs[..|xs| - 1]) + if xs[|xs| - 1] != xs[|xs| - 2] then 1 else 0
  }

  lemma {:induction false} EveryCycleLast(seed: Values, cmds: seq<seq<Gpio>>)
    requires Sized(|seed|, cmds)
    ensures EveryCycle(seed, cmds)[|cmds|] == Cached(seed, cmds)
  {
  }

  /** Sending on change sends what sending every cycle sends, without the immediate repeats. */
  lemma {:induction false} SendOnChangeIsCompact(seed: Values, cmds: seq<seq<Gpio>>)
    requires Sized(|seed|, cmds)
    ensures Sends(seed, cmds) == Compact(EveryCycle(seed, cmds))
  {
    if cmds != [] {
      var n := |cmds| - 1;
      var all := EveryCycle(seed, cmds);
      SendOnChangeIsCompact(seed, cmds[..n]);
      EveryCycleLast(seed, cmds[..n]);
      assert all[..n + 1] == EveryCycle(seed, cmds[..n]);
    }
  }

  lemma {:induction false} CompactLength<T(!new)>(xs: seq<T>)
    requires xs != []
    ensures |Compact(xs)| == 1 + Changes(xs)
  {
    if |xs| > 1 {
      CompactLength(xs[..|xs| - 1]);
    }
  }

  /** After every write the board was last sent the values in force, and the number of sends is the
      number of changes of the values in force, after the one at activation. */
  lemma LastSentIsInForce(seed: Values, cmds: seq<seq<Gpio>>)
    requires Sized(|seed|, cmds)
    ensures var sends := Sends(seed, cmds);
      && sends != [] && sends[|sends| - 1] == Cached(seed, cmds)
      && |sends| == 1 + Changes(EveryCycle(seed, cmds))
      && AllInForce(seed, cmds, Cached(seed, cmds))
  {
    SendOnChangeIsCompact(seed, cmds);
    EveryCycleLast(seed, cmds);
    CompactLength(EveryCycle(seed, cmds));
    forall i | 0 <= i < |seed|
      ensures InForce(seed, cmds, i, Cached(seed, cmds)[i])
    {
      CacheHoldsInForce(seed, cmds, i);
    }
  }

  // ---------- activation ----------

  /** Deactivation zeroes every command interface that exists. */
  function Zeroed(cmd: seq<Gpio>): (z: seq<Gpio>)
    ensures |z| == |cmd|
  {
    seq(|cmd|, i requires 0 <= i < |cmd| => if cmd[i].Absent? then Absent else Finite(0.0))
  }

  /** Activation writes the values it sent into every command interface that exists. */
  function Seeded(seed: Values, cmd: seq<Gpio>): (s: seq<Gpio>)
    requires |cmd| == |seed|
    ensures |s| == |cmd|
  {
    seq(|cmd|, i requires 0 <= i < |cmd| => if cmd[i].Absent? then Absent else Finite(seed[i]))
  }

  lemma SeededKeepsCache(seed: Values, cmd: seq<Gpio>)
    requires |cmd| == |seed|
    ensures Effective(seed, Seeded(seed, Zeroed(cmd))) == seed
  {
  }

  /** Whatever was commanded before, a deactivation and a new activation leave nothing to send: as
      long as no command is written, no write sends, even where the zeros differ from the seed. */
  lemma {:induction false} ZeroingIsNoChange(seed: Values, cmd: seq<Gpio>, cmds: seq<seq<Gpio>>)
    requires |cmd| == |seed| && forall c :: c in cmds ==> c == Seeded(seed, Zeroed(cmd))
    ensures Sized(|seed|, cmds) && Sends(seed, cmds) == [seed] && Cached(seed, cmds) == seed
  {
    if cmds != [] {
      var n := |cmds| - 1;
      assert cmds[n] in cmds;
      assert forall c :: c in cmds[..n] ==> c in cmds;
      ZeroingIsNoChange(seed, cmd, cmds[..n]);
      SeededKeepsCache(seed, cmd);
    }
  }

  /** Without the seeding the zeros would be sent: any interface that exists and was not zero. */
  lemma UnseededZeroIsAChange(seed: Values, cmd: seq<Gpio>)
    requires |cmd| == |seed|
    ensures Effective(seed, Zeroed(cmd)) != seed <==>
              exists i :: 0 <= i < |seed| && !cmd[i].Absent? && seed[i] != 0.0
  {
    var z := Effective(seed, Zeroed(cmd));
    if z == seed {
      assert forall i :: 0 <= i < |seed| ==> z[i] == seed[i];
    } else {
      assert exists i :: 0 <= i < |seed| && z[i] != seed[i];
    }
  }

  // ---------- what the board is sent ----------

  function CastAll(f: Field, v: Values): (ns: seq<int>)
    ensures |ns| == |v| && forall i :: 0 <= i < |v| ==> Fits(f, ns[i]) && ns[i] == ClampCast(f, v[i])
  {
    seq(|v|, i requires 0 <= i < |v| => ClampCast(f, v[i]))
  }
}
