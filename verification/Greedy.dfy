/** Feeding the longest path one shot at a time, for lengths given by any function of rank and cores. */
module Greedy {
  import opened Sums

  /** The rank of the longest path, -1 when none has a positive length, and that length. */
  datatype Path = Path(rank: int, length: real)

  type Lengths = (nat, nat) -> real

  predicate HaveCores(ns: seq<nat>) {
    forall i {:trigger ns[i]} :: 0 <= i < |ns| ==> ns[i] >= 1
  }

  function CriticalBelow(f: Lengths, ns: seq<nat>, k: nat): (p: Path)
    requires k <= |ns|
    ensures -1 <= p.rank < k
  {
    if k == 0 then Path(-1, 0.0)
    else
      var p, l := CriticalBelow(f, ns, k - 1), f(k - 1, ns[k - 1]);
      if l > p.length then Path(k - 1, l) else p
  }

  function Critical(f: Lengths, ns: seq<nat>): (p: Path)
    ensures -1 <= p.rank < |ns|
  {
    CriticalBelow(f, ns, |ns|)
  }

  /** The path found is the first among the longest ones. */
  lemma {:induction false} CriticalIsLongest(f: Lengths, ns: seq<nat>, k: nat)
    requires k <= |ns|
    ensures var p := CriticalBelow(f, ns, k);
            && p.length >= 0.0 && (p.rank == -1 <==> p.length == 0.0)
            && (p.rank >= 0 ==> p.length == f(p.rank, ns[p.rank]))
            && (forall i {:trigger ns[i]} :: 0 <= i < p.rank ==> f(i, ns[i]) < p.length)
            && forall i {:trigger ns[i]} :: 0 <= i < k ==> f(i, ns[i]) <= p.length
  {
    if k > 0 { CriticalIsLongest(f, ns, k - 1); }
  }

  datatype Shares = Shares(cores: seq<nat>, remaining: int)

  /** Adds one shot to the critical path as long as the remaining cores allow it. */
  function Grow(f: Lengths, shots: seq<nat>, ns: seq<nat>, remaining: int): (s: Shares)
    requires |shots| == |ns| && HaveCores(shots)
    ensures |s.cores| == |ns|
    decreases if remaining < 0 then 0 else remaining
  {
    var r := Critical(f, ns).rank;
    if r == -1 || remaining < shots[r] then Shares(ns, remaining)
    else Grow(f, shots, ns[r := ns[r] + shots[r]], remaining - shots[r])
  }

  /** What the loop keeps: no path shrinks, and no core is lost or lent. */
  lemma {:induction false} GrowConserves(f: Lengths, shots: seq<nat>, ns: seq<nat>, remaining: int)
    requires |shots| == |ns| && HaveCores(shots)
    ensures var g := Grow(f, shots, ns, remaining);
            && Sum(g.cores) + g.remaining == Sum(ns) + remaining
            && (remaining >= 0 ==> g.remaining >= 0)
            && (forall i {:trigger g.cores[i]} :: 0 <= i < |ns| ==> g.cores[i] >= ns[i])
    decreases if remaining < 0 then 0 else remaining
  {
    var r := Critical(f, ns).rank;
    if r != -1 && remaining >= shots[r] {
      SumOfUpdate(ns, r, ns[r] + shots[r]);
      GrowConserves(f, shots, ns[r := ns[r] + shots[r]], remaining - shots[r]);
    }
  }

  // ----- optimality

  /** More cores never lengthen a path. */
  ghost predicate Shrinks(f: Lengths, count: nat) {
    forall i: nat, m: nat, n: nat {:trigger f(i, m), f(i, n)} :: i < count && 1 <= m <= n ==> 0.0 <= f(i, n) <= f(i, m)
  }

  /** n is a plus a number of shots of s cores. */
  predicate ShotsFrom(a: nat, n: int, s: nat)
    requires s >= 1
    decreases n - a
  {
    n == a || (n >= a + s && ShotsFrom(a, n - s, s))
  }

  lemma {:induction false} ShotsApart(start: nat, a: nat, b: nat, s: nat)
    requires s >= 1 && ShotsFrom(start, a, s) && ShotsFrom(start, b, s) && a < b
    ensures a + s <= b
    decreases a
  {
    if a != start { ShotsApart(start, a - s, b - s, s); }
  }

  /** m gives every path its start and then whole shots of its own size. */
  ghost predicate WholeShots(start: seq<nat>, shots: seq<nat>, m: seq<int>)
    requires |shots| == |start| && HaveCores(shots)
  {
    |m| == |start| && forall i {:trigger m[i]} :: 0 <= i < |m| ==> ShotsFrom(start[i], m[i], shots[i])
  }

  /** A path that was fed was as long as the longest one is now before its last shot. */
  ghost predicate FedForAReason(f: Lengths, start: seq<nat>, shots: seq<nat>, ns: seq<nat>)
    requires |shots| == |start| && HaveCores(shots) && HaveCores(start) && WholeShots(start, shots, ns)
  {
    forall i {:trigger ns[i]} :: 0 <= i < |ns| && ns[i] > start[i] ==> f(i, ns[i] - shots[i]) >= Critical(f, ns).length
  }

  ghost predicate Fair(f: Lengths, start: seq<nat>, shots: seq<nat>, ns: seq<nat>)
    requires |shots| == |start| && HaveCores(shots) && HaveCores(start)
  {
    WholeShots(start, shots, ns) && HaveCores(ns) && FedForAReason(f, start, shots, ns)
  }

  lemma {:induction false} FeedingIsFair(f: Lengths, start: seq<nat>, shots: seq<nat>, ns: seq<nat>, r: nat)
    requires |shots| == |start| && HaveCores(shots) && HaveCores(start) && Fair(f, start, shots, ns)
    requires Shrinks(f, |ns|) && r == Critical(f, ns).rank
    ensures Fair(f, start, shots, ns[r := ns[r] + shots[r]])
  {
    var next := ns[r := ns[r] + shots[r]];
    CriticalIsLongest(f, ns, |ns|);
    CriticalIsLongest(f, next, |ns|);
    assert ShotsFrom(start[r], ns[r] + shots[r], shots[r]);
    assert Critical(f, next).length <= Critical(f, ns).length by {
      var q := Critical(f, next).rank;
      if q >= 0 { assert f(q, next[q]) <= f(q, ns[q]); }
    }
  }

  /** The loop leaves every fed path fed for a reason. */
  lemma {:induction false} GrowStaysFair(f: Lengths, start: seq<nat>, shots: seq<nat>, ns: seq<nat>, remaining: int)
    requires |shots| == |start| && HaveCores(shots) && HaveCores(start) && Fair(f, start, shots, ns)
    requires Shrinks(f, |ns|)
    ensures var g := Grow(f, shots, ns, remaining);
            Fair(f, start, shots, g.cores)
    decreases if remaining < 0 then 0 else remaining
  {
    var r := Critical(f, ns).rank;
    if r != -1 && remaining >= shots[r] {
      FeedingIsFair(f, start, shots, ns, r);
      GrowStaysFair(f, start, shots, ns[r := ns[r] + shots[r]], remaining - shots[r]);
    }
  }

  /** Whatever the lengths, the loop feeds by whole shots, and stops when the longest path cannot be fed. */
  lemma {:induction false} GrowStops(f: Lengths, start: seq<nat>, shots: seq<nat>, ns: seq<nat>, remaining: int)
    requires |shots| == |start| && HaveCores(shots) && WholeShots(start, shots, ns)
    ensures var g := Grow(f, shots, ns, remaining);
            && WholeShots(start, shots, g.cores)
            && var r := Critical(f, g.cores).rank; r == -1 || g.remaining < shots[r]
    decreases if remaining < 0 then 0 else remaining
  {
    var r := Critical(f, ns).rank;
    if r != -1 && remaining >= shots[r] {
      assert ShotsFrom(start[r], ns[r] + shots[r], shots[r]);
      GrowStops(f, start, shots, ns[r := ns[r] + shots[r]], remaining - shots[r]);
    }
  }

  lemma {:induction false} NoBetter(f: Lengths, start: seq<nat>, shots: seq<nat>, ns: seq<nat>, m: seq<nat>, i: nat)
    requires |shots| == |start| && HaveCores(shots) && HaveCores(start) && Fair(f, start, shots, ns)
    requires Shrinks(f, |ns|) && WholeShots(start, shots, m) && HaveCores(m) && i < |ns|
    requires Critical(f, m).length < Critical(f, ns).length
    ensures m[i] >= if i == Critical(f, ns).rank then ns[i] + shots[i] else ns[i]
  {
    CriticalIsLongest(f, ns, |ns|);
    CriticalIsLongest(f, m, |m|);
    assert f(i, m[i]) <= Critical(f, m).length;
    if m[i] < ns[i] {
      ShotsApart(start[i], m[i], ns[i], shots[i]);
    } else if i == Critical(f, ns).rank {
      assert m[i] != ns[i];
      ShotsApart(start[i], ns[i], m[i], shots[i]);
    }
  }

  /** What is better costs one shot more, of the longest path. */
  lemma {:induction false} BetterCostsMore(f: Lengths, start: seq<nat>, shots: seq<nat>, ns: seq<nat>, m: seq<nat>)
    requires |shots| == |start| && HaveCores(shots) && HaveCores(start) && Fair(f, start, shots, ns)
    requires Shrinks(f, |ns|) && WholeShots(start, shots, m) && HaveCores(m)
    requires Critical(f, m).length < Critical(f, ns).length
    ensures var r := Critical(f, ns).rank;
            r >= 0 && Sum(m) >= Sum(ns) + shots[r]
  {
    var r := Critical(f, ns).rank;
    SomeIsLongest(f, ns, m);
    forall i | 0 <= i < |ns| ensures ns[r := ns[r] + shots[r]][i] <= m[i] { NoBetter(f, start, shots, ns, m, i); }
    SumOfMore(ns, r, shots[r], m);
  }

  lemma {:induction false} SomeIsLongest(f: Lengths, ns: seq<nat>, m: seq<nat>)
    requires Critical(f, m).length < Critical(f, ns).length
    ensures Critical(f, ns).rank >= 0
  {
    CriticalIsLongest(f, ns, |ns|);
    CriticalIsLongest(f, m, |m|);
  }

  lemma {:induction false} SumOfMore(ns: seq<int>, r: nat, add: int, m: seq<int>)
    requires r < |ns| == |m|
    requires forall i {:trigger m[i]} :: 0 <= i < |ns| ==> ns[r := ns[r] + add][i] <= m[i]
    ensures Sum(m) >= Sum(ns) + add
  {
    SumOfUpdate(ns, r, ns[r] + add);
    SumGrows(ns[r := ns[r] + add], m);
  }

  /** Whatever else the cores are used for, the longest path is at least as long. */
  lemma {:induction false} GrowIsOptimal(f: Lengths, start: seq<nat>, shots: seq<nat>, remaining: int, m: seq<nat>)
    requires |shots| == |start| && HaveCores(shots) && HaveCores(start) && Shrinks(f, |start|)
    requires WholeShots(start, shots, m) && HaveCores(m) && Sum(m) <= Sum(start) + remaining
    ensures Critical(f, Grow(f, shots, start, remaining).cores).length <= Critical(f, m).length
  {
    var g := Grow(f, shots, start, remaining);
    GrowStaysFair(f, start, shots, start, remaining);
    GrowStops(f, start, shots, start, remaining);
    GrowConserves(f, shots, start, remaining);
    CriticalIsLongest(f, g.cores, |g.cores|);
    CriticalIsLongest(f, m, |m|);
    if Critical(f, m).length < Critical(f, g.cores).length {
      BetterCostsMore(f, start, shots, g.cores, m);
    }
  }
}
