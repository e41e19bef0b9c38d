/** The record of a run of the hardware interface: what the odometry looked at since activation. */
module SystemHistory {
  import opened SeqFacts
  import opened Crc
  import opened StreamScanner
  import opened WheelFeedback
  import opened Odometry
  import opened EndToEnd

  /** The looks lead the odometry from `start` to `o`. */
  ghost predicate Explains(start: Odom, looks: seq<Look>, o: Odom, cpr: real)
    requires cpr != 0.0
  {
    Fresh(start) && Growing(looks) && o == Run(start, Cycles(looks), cpr)
  }

  /** The port has been read at least as far as the last look. */
  ghost predicate Behind(looks: seq<Look>, taken: seq<Byte>) {
    looks != [] ==> looks[|looks| - 1].stream <= taken
  }

  lemma CyclesAppend(looks: seq<Look>, look: Look)
    ensures Cycles(looks + [look]) == Cycles(looks) + [Cycle(SnapshotOf(look.stream), look.now)]
  {
    AppendedSeq(Cycles(looks + [look]), Cycles(looks), Cycle(SnapshotOf(look.stream), look.now));
  }

  lemma RunAppend(o: Odom, cycles: seq<Cycle>, c: Cycle, cpr: real)
    requires cpr != 0.0
    ensures Run(o, cycles + [c], cpr) == ReadWheels(Run(o, cycles, cpr), c.feedback, c.now, cpr)
  {
    assert (cycles + [c])[..|cycles|] == cycles;
  }

  lemma GrowingAppend(looks: seq<Look>, look: Look)
    requires Growing(looks) && Behind(looks, look.stream)
    ensures Growing(looks + [look]) && Behind(looks + [look], look.stream)
  {
  }

  lemma ExplainsLook(start: Odom, looks: seq<Look>, o: Odom, cpr: real, look: Look)
    requires cpr != 0.0 && Explains(start, looks, o, cpr) && Behind(looks, look.stream)
    ensures Explains(start, looks + [look], ReadWheels(o, SnapshotOf(look.stream), look.now, cpr), cpr)
    ensures Behind(looks + [look], look.stream)
  {
    GrowingAppend(looks, look);
    CyclesAppend(looks, look);
    RunAppend(start, Cycles(looks), Cycle(SnapshotOf(look.stream), look.now), cpr);
  }

  lemma BehindGrows(looks: seq<Look>, taken: seq<Byte>, more: seq<Byte>)
    requires Behind(looks, taken) && taken <= more
    ensures Behind(looks, more)
  {
    if looks != [] {
      PrefixOfPrefix(looks[|looks| - 1].stream, taken, more);
    }
  }

  lemma ExplainsStart(o: Odom, now: real, cpr: real)
    requires cpr != 0.0
    ensures Explains(Activate(o, now), [], Activate(o, now), cpr)
  {
  }

  lemma ExplainedRecent(start: Odom, looks: seq<Look>, o: Odom, cpr: real, side: Side, k: nat) returns (j: nat)
    requires cpr != 0.0 && Explains(start, looks, o, cpr) && k + 1 < |looks| && Seeds(looks, k)
    requires o.Of(side).velocity != 0.0
    ensures k < j && LastArrival(looks, j) && looks[|looks| - 1].now - looks[j].now <= 0.5
  {
    j := BytesNonzeroIsRecent(looks, start, cpr, side, k);
  }
}
