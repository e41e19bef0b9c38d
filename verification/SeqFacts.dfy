/** Sequences regrouped, cut and extended. */
module SeqFacts {
  lemma Join<T>(a: seq<T>, b: seq<T>, c: seq<T>)
    ensures (a + b) + c == a + (b + c)
    ensures a + [] == a && [] + a == a
  {
  }

  lemma TailOfSum<T>(x: seq<T>, y: seq<T>)
    requires x != []
    ensures (x + y)[0] == x[0] && (x + y)[1..] == x[1..] + y
  {
  }

  lemma LastSplit<T>(xs: seq<T>)
    requires xs != []
    ensures xs == xs[..|xs| - 1] + [xs[|xs| - 1]]
  {
  }

  lemma Cons<T>(s: seq<T>)
    requires s != []
    ensures s == [s[0]] + s[1..]
  {
  }

  lemma Regroup<T>(a: seq<T>, b: seq<T>, c: seq<T>)
    ensures ((a + b) + c)[..|a|] == a && ((a + b) + c)[|a|..] == b + c
  {
  }

  lemma AppendedSeq<T>(x: seq<T>, y: seq<T>, t: T)
    requires |x| == |y| + 1 && x[|y|] == t && forall i :: 0 <= i < |y| ==> x[i] == y[i]
    ensures x == y + [t]
  {
  }

  lemma PrefixOfPrefix<T>(x: seq<T>, y: seq<T>, z: seq<T>)
    requires x <= y <= z
    ensures x <= z
  {
  }

  lemma SplitAt<T>(b: seq<T>, n: nat, x: seq<T>, y: seq<T>)
    requires n <= |b| && b[n..] == x + y
    ensures b == (b[..n] + x) + y
  {
  }

  lemma Halves<T>(s: seq<T>, n: nat)
    requires n <= |s|
    ensures s == s[..n] + s[n..]
  {
  }

  lemma Longer<T>(s: seq<T>, n: nat, m: nat)
    requires n <= m <= |s|
    ensures s[..n] + s[n..m] == s[..m]
  {
  }

  lemma TwoMore<T>(s: seq<T>, n: nat)
    requires n + 2 <= |s|
    ensures s[..n + 2] == s[..n] + [s[n], s[n + 1]]
  {
  }

  lemma ThreeFirst<T>(s: seq<T>, n: nat)
    requires 3 <= n <= |s|
    ensures s[..n] == [s[0], s[1], s[2]] + s[3..n]
  {
  }

  lemma Thirds<T>(s: seq<T>, n: nat, m: nat)
    requires n <= m <= |s|
    ensures s == s[..n] + s[n..m] + s[m..]
  {
  }

  lemma SubSlice<T>(b: seq<T>, f: nat, i: nat, j: nat)
    requires f <= i <= j <= |b|
    ensures b[f..][i - f..j - f] == b[i..j]
  {
  }

  lemma CutLater<T>(head: seq<T>, tail: seq<T>, c: nat)
    requires |head| <= c <= |head| + |tail|
    ensures (head + tail)[..c] == head + tail[..c - |head|]
  {
  }

  lemma CutEarlier<T>(head: seq<T>, tail: seq<T>, c: nat)
    requires c <= |head|
    ensures (head + tail)[..c] == head[..c]
  {
  }

  lemma Later<T>(head: seq<T>, tail: seq<T>, i: nat, j: nat)
    requires i <= j <= |tail|
    ensures (head + tail)[|head| + i..|head| + j] == tail[i..j]
  {
  }

  lemma SliceAt<T>(s: seq<T>, from: nat, to: nat, j: nat)
    requires from + j < to <= |s|
    ensures s[from..to][j] == s[from + j]
  {
  }

  lemma SliceIs<T>(s: seq<T>, from: nat, part: seq<T>, j: nat)
    requires from + |part| <= |s| && s[from..from + |part|] == part && j < |part|
    ensures s[from + j] == part[j]
  {
    SliceAt(s, from, from + |part|, j);
  }

  lemma Starts<T>(head: seq<T>, tail: seq<T>)
    ensures (head + tail)[0..|head|] == head
  {
  }

  lemma ThreeMore<T>(s: seq<T>, a: T, b: T, c: T)
    ensures s + [a] + [b] + [c] == s + ([a] + [b] + [c])
  {
  }
}
