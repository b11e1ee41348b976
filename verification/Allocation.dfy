/** How many cores each branch of a fork gets. */
module Allocations {
  import opened CriticalPaths
  import opened Greedy
  import opened Sums
  import opened Wrappers

  /** A branch: its weight, and the cores one shot of it takes. */
  datatype Branch = Branch(weight: ComplexWeight, shot: nat)

  datatype PathError = InternalError | NothingAllocated

  predicate AreBranches(bs: seq<Branch>) {
    forall i {:trigger bs[i]} :: 0 <= i < |bs| ==> bs[i].weight.Valid() && bs[i].shot >= 1
  }

  /** The length of branch i on n cores. */
  function LengthsOf(bs: seq<Branch>): Lengths
    requires AreBranches(bs)
  {
    (i: nat, n: nat) => if i < |bs| && n >= 1 then Length(bs[i].weight, n) else 0.0
  }

  function Shots(bs: seq<Branch>): (shots: seq<nat>)
    requires AreBranches(bs)
    ensures |shots| == |bs| && HaveCores(shots)
    ensures forall i {:trigger shots[i]} :: 0 <= i < |shots| ==> shots[i] == bs[i].shot
  {
    seq(|bs|, i requires 0 <= i < |bs| => bs[i].shot)
  }

  method GetCriticalPath(bs: seq<Branch>, ns: seq<nat>) returns (r: Result<int, PathError>)
    requires AreBranches(bs)
    ensures |bs| != |ns| || |bs| == 0 <==> r == Failure(InternalError)
    ensures |bs| == |ns| > 0 && !HaveCores(ns) <==> r == Failure(NothingAllocated)
    ensures |bs| == |ns| > 0 && HaveCores(ns) ==> r == Success(Critical(LengthsOf(bs), ns).rank)
  {
    var maxWeight, rankMaxPath := 0.0, -1;
    if |bs| != |ns| || |bs| == 0 { return Failure(InternalError); }
    for i := 0 to |bs|
      invariant forall j {:trigger ns[j]} :: 0 <= j < i ==> ns[j] >= 1
      invariant maxWeight >= 0.0 && Path(rankMaxPath, maxWeight) == CriticalBelow(LengthsOf(bs), ns, i)
    {
      if ns[i] == 0 { return Failure(NothingAllocated); }
      if !bs[i].weight.IsDefaultValue() {
        var pathWeight := CalculateTotalLength(bs[i].weight, ns[i]);
        if pathWeight > maxWeight { maxWeight, rankMaxPath := pathWeight, i; }
      }
    }
    return Success(rankMaxPath);
  }

  /** There stays a critical path while cores are added to it. */
  lemma {:induction false} CriticalStays(bs: seq<Branch>, ns: seq<nat>)
    requires AreBranches(bs) && HaveCores(ns) && |ns| == |bs| && Critical(LengthsOf(bs), ns).rank != -1
    ensures var r := Critical(LengthsOf(bs), ns).rank;
            Critical(LengthsOf(bs), ns[r := ns[r] + bs[r].shot]).rank != -1
  {
    var f := LengthsOf(bs);
    var r := Critical(f, ns).rank;
    var next := ns[r := ns[r] + bs[r].shot];
    CriticalIsLongest(f, ns, |ns|);
    CriticalIsLongest(f, next, |ns|);
    StaysPositive(bs[r].weight, ns[r], next[r]);
    assert f(r, next[r]) > 0.0;
  }

  /** Adds cores to the critical path while enough cores are available. */
  method GrowCriticalPath(bs: seq<Branch>, ns: seq<nat>, rank: nat, remaining: int)
    returns (cores: seq<nat>, left: int)
    requires AreBranches(bs) && HaveCores(ns) && |ns| == |bs| > 0 && rank == Critical(LengthsOf(bs), ns).rank
    ensures Shares(cores, left) == Grow(LengthsOf(bs), Shots(bs), ns, remaining) && HaveCores(cores)
  {
    cores, left := ns, remaining;
    var criticalPathRank: int := rank;
    while left >= bs[criticalPathRank].shot
      invariant HaveCores(cores) && |cores| == |bs| && 0 <= criticalPathRank < |bs|
      invariant criticalPathRank == Critical(LengthsOf(bs), cores).rank
      invariant Grow(LengthsOf(bs), Shots(bs), cores, left) == Grow(LengthsOf(bs), Shots(bs), ns, remaining)
      decreases left
    {
      CriticalStays(bs, cores);
      cores := cores[criticalPathRank := cores[criticalPathRank] + bs[criticalPathRank].shot];
      left := left - bs[criticalPathRank].shot;
      var r := GetCriticalPath(bs, cores);
      criticalPathRank := r.value;
    }
  }

  // ----- the other steps of the split

  /** Division of C++, which rounds towards zero. */
  function Div(a: int, b: nat): int
    requires b >= 1
  {
    if a >= 0 then a / b else -((-a) / b)
  }

  /** The minimal part of a branch; without a valid weight it is its part in proportion. */
  function FirstShare(b: Branch, totalSpace: nat, sz: nat): nat
    requires b.weight.Valid() && sz >= 1
  {
    if !b.weight.IsUnsetLoopWeight() && !b.weight.HasValidLoopWeight() && totalSpace / sz > b.shot then totalSpace / sz
    else b.shot
  }

  function FirstShares(bs: seq<Branch>, totalSpace: nat): (ns: seq<nat>)
    requires AreBranches(bs)
    ensures |ns| == |bs| && HaveCores(ns)
    ensures forall i {:trigger ns[i]} :: 0 <= i < |bs| ==> ns[i] == FirstShare(bs[i], totalSpace, |bs|)
  {
    seq(|bs|, i requires 0 <= i < |bs| => FirstShare(bs[i], totalSpace, |bs|))
  }

  datatype Filled = Filled(cores: seq<int>, remaining: int)

  /** The cores of the whole shots that are left; when less than none is left, of those that are missing. */
  function CoresToAdd(left: int, shot: nat): (n: int)
    requires shot >= 1
    ensures left >= 0 ==> 0 <= n <= left < n + shot
    ensures left <= 0 ==> n - shot < left <= n <= 0
    decreases if left < 0 then -left else left
  {
    if left >= shot then shot + CoresToAdd(left - shot, shot)
    else if left + shot <= 0 then CoresToAdd(left + shot, shot) - shot
    else 0
  }

  lemma {:induction false} ShotsByDivision(left: int, shot: nat)
    requires shot >= 1
    ensures CoresToAdd(left, shot) == Div(left, shot) * shot
    decreases if left < 0 then -left else left
  {
    if left >= shot {
      ShotsByDivision(left - shot, shot);
      OneShotLess(left, shot);
    } else if left + shot <= 0 {
      ShotsByDivision(left + shot, shot);
      OneShotLess(-left, shot);
    } else {
      NoShot(if left < 0 then -left else left, shot);
    }
  }

  lemma {:induction false} OneShotLess(a: int, b: nat)
    requires 1 <= b <= a
    ensures Div(a, b) * b == b + Div(a - b, b) * b && Div(-a, b) * b == Div(b - a, b) * b - b
  {
    DivIs(a - b, b, a / b - 1, a % b);
    var q := a / b;
    assert (q - 1) * b == q * b - b && (-q) * b == -(q * b) && (1 - q) * b == b - q * b;
  }

  lemma {:induction false} DivIs(a: int, b: nat, q: int, r: int)
    requires b >= 1 && a == q * b + r && 0 <= r < b
    ensures a / b == q
  {
    var d := a / b - q;
    assert a == a / b * b + a % b;
    assert d * b == a / b * b - q * b == r - a % b;
    MultipleIsFar(d, b);
  }

  lemma {:induction false} MultipleIsFar(d: int, b: nat)
    requires b >= 1
    ensures d >= 1 ==> d * b >= b
    ensures d <= -1 ==> d * b + b <= 0
  {
    if d >= 1 { assert (d - 1) * b >= 0; }
    if d <= -1 { assert (-1 - d) * b >= 0; }
  }

  lemma {:induction false} NoShot(a: nat, b: nat)
    requires a < b
    ensures a / b == 0
  {
  }

  /** What is left goes to the first branches that can use it, by whole shots. */
  function Fill(bs: seq<Branch>, ns: seq<int>, remaining: int, k: nat): (r: Filled)
    requires AreBranches(bs) && |ns| == |bs| && k <= |bs|
    ensures |r.cores| == |bs| && forall i {:trigger r.cores[i]} :: k <= i < |bs| ==> r.cores[i] == ns[i]
  {
    if k == 0 then Filled(ns, remaining)
    else
      var before := Fill(bs, ns, remaining, k - 1);
      var coresToAdd := CoresToAdd(before.remaining, bs[k - 1].shot);
      Filled(before.cores[k - 1 := before.cores[k - 1] + coresToAdd], before.remaining - coresToAdd)
  }

  /** From the minimal parts on. */
  function AllocationFrom(bs: seq<Branch>, start: seq<nat>, totalSpace: nat): (ns: seq<int>)
    requires AreBranches(bs) && bs != [] && |start| == |bs|
    ensures |ns| == |bs|
  {
    if Critical(LengthsOf(bs), start).rank == -1 then start
    else
      var g := Grow(LengthsOf(bs), Shots(bs), start, totalSpace - Sum(start));
      Fill(bs, g.cores, g.remaining, |bs|).cores
  }

  function Allocation(bs: seq<Branch>, totalSpace: nat): (ns: seq<int>)
    requires AreBranches(bs) && bs != []
    ensures |ns| == |bs|
  {
    AllocationFrom(bs, FirstShares(bs, totalSpace), totalSpace)
  }

  method Accumulate(ns: seq<int>) returns (r: int)
    ensures r == Sum(ns)
  {
    r := 0;
    for i := 0 to |ns|
      invariant r == Sum(ns[..i])
    {
      assert ns[..i + 1][..i] == ns[..i];
      r := r + ns[i];
    }
    assert ns[..|ns|] == ns;
  }

  method Allocate(bs: seq<Branch>, totalSpace: nat) returns (cores: seq<int>)
    requires AreBranches(bs) && bs != []
    ensures cores == Allocation(bs, totalSpace)
  {
    var start := FirstShares(bs, totalSpace);
    var taken := Accumulate(start);
    var remainingSpace := totalSpace - taken;
    var r := GetCriticalPath(bs, start);
    if r.value == -1 { return start; }
    var grown, left := GrowCriticalPath(bs, start, r.value, remainingSpace);
    cores := FillPaths(bs, grown, left);
  }

  /** Gives what is left to the branches that can use it. */
  method FillPaths(bs: seq<Branch>, grown: seq<int>, remaining: int) returns (cores: seq<int>)
    requires AreBranches(bs) && |grown| == |bs|
    ensures cores == Fill(bs, grown, remaining, |bs|).cores
  {
    cores := grown;
    var left := remaining;
    for j := 0 to |bs|
      invariant Filled(cores, left) == Fill(bs, grown, remaining, j)
    {
      ShotsByDivision(left, bs[j].shot);
      var coresToAdd := Div(left, bs[j].shot) * bs[j].shot;
      cores, left := cores[j := cores[j] + coresToAdd], left - coresToAdd;
    }
  }

  // ----- what the split guarantees

  /** No core is lost or lent, and no branch has less than before. */
  ghost predicate Conserves(ns: seq<int>, remaining: nat, r: Filled) {
    && |r.cores| == |ns| && Sum(r.cores) + r.remaining == Sum(ns) + remaining && 0 <= r.remaining <= remaining
    && forall i {:trigger r.cores[i]} :: 0 <= i < |ns| ==> r.cores[i] >= ns[i]
  }

  /** The cores that are left go to some branches. */
  lemma {:induction false} FillConserves(bs: seq<Branch>, ns: seq<int>, remaining: nat, k: nat)
    requires AreBranches(bs) && |ns| == |bs| && k <= |bs|
    ensures Conserves(ns, remaining, Fill(bs, ns, remaining, k))
  {
    if k > 0 {
      FillConserves(bs, ns, remaining, k - 1);
      var before := Fill(bs, ns, remaining, k - 1);
      var add := CoresToAdd(before.remaining, bs[k - 1].shot);
      AddingConserves(ns, remaining, before, k - 1, add);
      assert Fill(bs, ns, remaining, k) ==
        Filled(before.cores[k - 1 := before.cores[k - 1] + add], before.remaining - add);
    }
  }

  lemma {:induction false} AddingConserves(ns: seq<int>, remaining: nat, before: Filled, k: nat, add: int)
    requires Conserves(ns, remaining, before) && k < |ns| && before.cores[k] == ns[k] && 0 <= add <= before.remaining
    ensures Conserves(ns, remaining, Filled(before.cores[k := before.cores[k] + add], before.remaining - add))
  {
    SumOfUpdate(before.cores, k, ns[k] + add);
  }

  /** When the minimal parts fit, every branch gets at least its own, and never more cores than there are. */
  lemma {:induction false} AllocationFits(bs: seq<Branch>, start: seq<nat>, totalSpace: nat)
    requires AreBranches(bs) && bs != [] && |start| == |bs| && Sum(start) <= totalSpace
    ensures var ns := AllocationFrom(bs, start, totalSpace);
            && Sum(ns) <= totalSpace
            && forall i {:trigger ns[i]} :: 0 <= i < |ns| ==> ns[i] >= start[i]
  {
    var f := LengthsOf(bs);
    GrowConserves(f, Shots(bs), start, totalSpace - Sum(start));
    var g := Grow(f, Shots(bs), start, totalSpace - Sum(start));
    FillConserves(bs, g.cores, g.remaining, |bs|);
    var filled := Fill(bs, g.cores, g.remaining, |bs|).cores;
    forall i | 0 <= i < |bs| ensures filled[i] >= start[i] { assert filled[i] >= g.cores[i]; }
  }

  lemma {:induction false} LengthsShrink(bs: seq<Branch>)
    requires AreBranches(bs) && forall i {:trigger bs[i]} :: 0 <= i < |bs| ==> NonNegative(bs[i].weight)
    ensures Shrinks(LengthsOf(bs), |bs|)
  {
    var f := LengthsOf(bs);
    forall i: nat, m: nat, n: nat | i < |bs| && 1 <= m <= n ensures 0.0 <= f(i, n) <= f(i, m) {
      LengthShrinks(bs[i].weight, m, n);
    }
  }

  /** Filling does not lengthen the longest branch. */
  lemma {:induction false} FillShortens(bs: seq<Branch>, grown: seq<nat>, ns: seq<nat>)
    requires AreBranches(bs) && HaveCores(grown) && |grown| == |ns| == |bs| && Shrinks(LengthsOf(bs), |bs|)
    requires forall i {:trigger ns[i]} :: 0 <= i < |ns| ==> ns[i] >= grown[i]
    ensures Critical(LengthsOf(bs), ns).length <= Critical(LengthsOf(bs), grown).length
  {
    var f := LengthsOf(bs);
    CriticalIsLongest(f, ns, |ns|);
    CriticalIsLongest(f, grown, |grown|);
    var q := Critical(f, ns).rank;
    if q >= 0 { assert f(q, ns[q]) <= f(q, grown[q]); }
  }

  /** No sharing of the cores by whole shots, of whatever sizes, has a shorter longest branch. */
  lemma {:induction false} AllocationIsOptimal(bs: seq<Branch>, totalSpace: nat, ns: seq<nat>, m: seq<nat>)
    requires AreBranches(bs) && bs != [] && forall i {:trigger bs[i]} :: 0 <= i < |bs| ==> NonNegative(bs[i].weight)
    requires Sum(FirstShares(bs, totalSpace)) <= totalSpace && ns == Allocation(bs, totalSpace)
    requires WholeShots(FirstShares(bs, totalSpace), Shots(bs), m) && HaveCores(m) && Sum(m) <= totalSpace
    ensures WholeShots(FirstShares(bs, totalSpace), Shots(bs), ns) && Sum(ns) <= totalSpace
    ensures Critical(LengthsOf(bs), ns).length <= Critical(LengthsOf(bs), m).length
  {
    FromStartIsOptimal(bs, FirstShares(bs, totalSpace), totalSpace, ns, m);
  }

  lemma {:induction false} FromStartIsOptimal(bs: seq<Branch>, start: seq<nat>, totalSpace: nat, ns: seq<nat>,
      m: seq<nat>)
    requires AreBranches(bs) && bs != [] && forall i {:trigger bs[i]} :: 0 <= i < |bs| ==> NonNegative(bs[i].weight)
    requires Sum(start) <= totalSpace && |start| == |bs| && HaveCores(start)
    requires ns == AllocationFrom(bs, start, totalSpace)
    requires WholeShots(start, Shots(bs), m) && HaveCores(m) && Sum(m) <= totalSpace
    ensures WholeShots(start, Shots(bs), ns) && Sum(ns) <= totalSpace
    ensures Critical(LengthsOf(bs), ns).length <= Critical(LengthsOf(bs), m).length
  {
    LengthsShrink(bs);
    AllocationFits(bs, start, totalSpace);
    AllocationIsWhole(bs, start, totalSpace, ns);
    GrowIsOptimal(LengthsOf(bs), start, Shots(bs), totalSpace - Sum(start), m);
    NotLongerThanGrown(bs, start, totalSpace, ns);
  }

  lemma {:induction false} NotLongerThanGrown(bs: seq<Branch>, start: seq<nat>, totalSpace: nat, ns: seq<nat>)
    requires AreBranches(bs) && bs != [] && |start| == |bs| && HaveCores(start) && Sum(start) <= totalSpace
    requires ns == AllocationFrom(bs, start, totalSpace) && Shrinks(LengthsOf(bs), |bs|)
    ensures var g := Grow(LengthsOf(bs), Shots(bs), start, totalSpace - Sum(start));
            Critical(LengthsOf(bs), ns).length <= Critical(LengthsOf(bs), g.cores).length
  {
    var f, rem := LengthsOf(bs), totalSpace - Sum(start);
    var g := Grow(f, Shots(bs), start, rem);
    GrowKeepsCritical(bs, start, rem);
    if Critical(f, start).rank != -1 {
      GrowConserves(f, Shots(bs), start, rem);
      FillConserves(bs, g.cores, g.remaining, |bs|);
      FillShortens(bs, g.cores, ns);
    }
  }

  lemma {:induction false} ShotsAdd(a: nat, n: int, left: nat, s: nat)
    requires s >= 1 && ShotsFrom(a, n, s)
    ensures ShotsFrom(a, n + CoresToAdd(left, s), s)
    decreases left
  {
    if left >= s { ShotsAdd(a, n + s, left - s, s); }
  }

  /** Filling gives whole shots. */
  lemma {:induction false} FillGivesShots(bs: seq<Branch>, start: seq<nat>, ns: seq<int>, remaining: nat, k: nat)
    requires AreBranches(bs) && |start| == |ns| == |bs| && k <= |bs| && WholeShots(start, Shots(bs), ns)
    ensures WholeShots(start, Shots(bs), Fill(bs, ns, remaining, k).cores)
    ensures Fill(bs, ns, remaining, k).remaining >= 0
  {
    if k > 0 {
      FillGivesShots(bs, start, ns, remaining, k - 1);
      var before := Fill(bs, ns, remaining, k - 1);
      ShotsAdd(start[k - 1], before.cores[k - 1], before.remaining, bs[k - 1].shot);
      OneIsWhole(start, Shots(bs), before.cores, k - 1,
        before.cores[k - 1] + CoresToAdd(before.remaining, bs[k - 1].shot));
    }
  }

  lemma {:induction false} OneIsWhole(start: seq<nat>, shots: seq<nat>, m: seq<int>, k: nat, v: int)
    requires |shots| == |start| && HaveCores(shots) && WholeShots(start, shots, m) && k < |m|
    requires ShotsFrom(start[k], v, shots[k])
    ensures WholeShots(start, shots, m[k := v])
  {
  }

  /** Every branch gets its first share and whole shots. */
  lemma {:induction false} AllocationIsWhole(bs: seq<Branch>, start: seq<nat>, totalSpace: nat, ns: seq<nat>)
    requires AreBranches(bs) && bs != [] && |start| == |bs| && Sum(start) <= totalSpace
    requires ns == AllocationFrom(bs, start, totalSpace)
    ensures WholeShots(start, Shots(bs), ns)
  {
    var f, rem := LengthsOf(bs), totalSpace - Sum(start);
    var g := Grow(f, Shots(bs), start, rem);
    GrowConserves(f, Shots(bs), start, rem);
    GrowStops(f, start, Shots(bs), start, rem);
    if Critical(f, start).rank != -1 {
      FillGivesShots(bs, start, g.cores, g.remaining, |bs|);
    }
  }

  lemma {:induction false} GrowKeepsCritical(bs: seq<Branch>, ns: seq<nat>, remaining: int)
    requires AreBranches(bs) && HaveCores(ns) && |ns| == |bs|
    ensures var g := Grow(LengthsOf(bs), Shots(bs), ns, remaining);
            && (Critical(LengthsOf(bs), g.cores).rank == -1 <==> Critical(LengthsOf(bs), ns).rank == -1)
            && (Critical(LengthsOf(bs), ns).rank == -1 ==> g.cores == ns)
    decreases if remaining < 0 then 0 else remaining
  {
    var f := LengthsOf(bs);
    var r := Critical(f, ns).rank;
    if r != -1 && remaining >= Shots(bs)[r] {
      CriticalStays(bs, ns);
      GrowKeepsCritical(bs, ns[r := ns[r] + Shots(bs)[r]], remaining - Shots(bs)[r]);
    }
  }
}
