/** What the branches of a fork get, told without the steps that compute it. */
module Sharing {
  import opened Allocations
  import opened CriticalPaths
  import opened Greedy
  import opened Sums

  /** The shot of the branch; if no loop weight is valid or unset, its part in proportion when that is larger. */
  ghost predicate IsFirstShare(b: Branch, totalSpace: nat, sz: nat, s: nat)
    requires b.weight.Valid()
  {
    var l := b.weight.loops[0];
    if l.cores == 0 || (l.weight > 0.0 && l.cores != -1) then s == b.shot
    else s >= b.shot && totalSpace < (s + 1) * sz && (s > b.shot ==> s * sz <= totalSpace)
  }

  ghost predicate AreFirstShares(bs: seq<Branch>, totalSpace: nat, start: seq<nat>)
    requires AreBranches(bs)
  {
    |start| == |bs| && forall i {:trigger start[i]} :: 0 <= i < |bs| ==> IsFirstShare(bs[i], totalSpace, |bs|, start[i])
  }

  lemma {:induction false} ShareIsFirst(b: Branch, totalSpace: nat, sz: nat)
    requires b.weight.Valid() && sz >= 1
    ensures IsFirstShare(b, totalSpace, sz, FirstShare(b, totalSpace, sz))
  {
    var q, s := totalSpace / sz, FirstShare(b, totalSpace, sz);
    assert totalSpace == q * sz + totalSpace % sz;
    assert (q + 1) * sz == q * sz + sz;
    MoreShares(q + 1, s + 1, sz);
  }

  lemma {:induction false} MoreShares(a: nat, b: nat, sz: nat)
    ensures a <= b ==> a * sz <= b * sz
  {
    if a <= b { assert (b - a) * sz >= 0; }
  }

  /** What the branches get at first. */
  lemma {:induction false} FirstSharesAre(bs: seq<Branch>, totalSpace: nat)
    requires AreBranches(bs)
    ensures AreFirstShares(bs, totalSpace, FirstShares(bs, totalSpace))
  {
    forall i | 0 <= i < |bs| ensures IsFirstShare(bs[i], totalSpace, |bs|, FirstShares(bs, totalSpace)[i]) {
      ShareIsFirst(bs[i], totalSpace, |bs|);
    }
  }

  /** Branch r is the first of the longest ones, and takes some time. */
  ghost predicate IsLongest(bs: seq<Branch>, ns: seq<nat>, r: nat)
    requires AreBranches(bs) && |ns| == |bs| && HaveCores(ns)
  {
    && r < |bs| && Length(bs[r].weight, ns[r]) > 0.0
    && forall i {:trigger ns[i]} :: 0 <= i < |bs| ==>
      if i < r then Length(bs[i].weight, ns[i]) < Length(bs[r].weight, ns[r])
      else Length(bs[i].weight, ns[i]) <= Length(bs[r].weight, ns[r])
  }

  ghost predicate NoneTakesTime(bs: seq<Branch>, ns: seq<nat>)
    requires AreBranches(bs) && |ns| == |bs| && HaveCores(ns)
  {
    forall i {:trigger ns[i]} :: 0 <= i < |bs| ==> Length(bs[i].weight, ns[i]) <= 0.0
  }

  lemma {:induction false} CriticalIsFirst(bs: seq<Branch>, ns: seq<nat>)
    requires AreBranches(bs) && |ns| == |bs| && HaveCores(ns)
    ensures var c := Critical(LengthsOf(bs), ns).rank;
            && (c == -1 <==> NoneTakesTime(bs, ns))
            && (c != -1 ==> IsLongest(bs, ns, c)) && forall r :: IsLongest(bs, ns, r) ==> r == c
  {
    var f := LengthsOf(bs);
    CriticalIsLongest(f, ns, |ns|);
    forall i | 0 <= i < |bs| ensures f(i, ns[i]) == Length(bs[i].weight, ns[i]) {}
  }

  /** Cores were given by whole shots from start on, until the longest branch could not be given one;
      with weights that are not negative, only to branches that needed them. */
  ghost predicate IsGrown(bs: seq<Branch>, start: seq<nat>, totalSpace: int, grown: seq<nat>)
    requires AreBranches(bs) && |start| == |grown| == |bs| && HaveCores(start)
  {
    && WholeShots(start, Shots(bs), grown) && HaveCores(grown)
    && (if Sum(start) <= totalSpace then Sum(grown) <= totalSpace else grown == start)
    && (forall r: nat :: IsLongest(bs, grown, r) ==> totalSpace - Sum(grown) < bs[r].shot)
    && ((forall i {:trigger bs[i]} :: 0 <= i < |bs| ==> NonNegative(bs[i].weight)) ==> AreNeeded(bs, start, grown))
  }

  /** Without its last shot a branch would be as long as the longest one is. */
  ghost predicate AreNeeded(bs: seq<Branch>, start: seq<nat>, grown: seq<nat>)
    requires AreBranches(bs) && |start| == |grown| == |bs| && HaveCores(grown)
  {
    forall i, j {:trigger grown[i], grown[j]} :: 0 <= i < |bs| && 0 <= j < |bs| && grown[i] > start[i] ==>
      grown[i] > bs[i].shot && Length(bs[j].weight, grown[j]) <= Length(bs[i].weight, grown[i] - bs[i].shot)
  }

  /** What is left once the first j branches have been filled. */
  function LeftAfter(ns: seq<int>, filled: seq<int>, remaining: int, j: nat): int
    requires j <= |ns| == |filled|
  {
    remaining - (Sum(filled[..j]) - Sum(ns[..j]))
  }

  ghost predicate IsShots(n: int, shot: nat) {
    exists c: int :: n == c * shot
  }

  /** Branch j got as many whole shots as what was left allows; a rest below zero is taken back in the same way. */
  ghost predicate FilledAt(bs: seq<Branch>, ns: seq<int>, remaining: int, filled: seq<int>, j: nat)
    requires AreBranches(bs) && |ns| == |filled| == |bs| && j < |bs|
  {
    var left := LeftAfter(ns, filled, remaining, j + 1);
    && IsShots(filled[j] - ns[j], bs[j].shot)
    && if remaining >= 0 then filled[j] >= ns[j] && 0 <= left < bs[j].shot
       else filled[j] <= ns[j] && 0 < left + bs[j].shot <= bs[j].shot
  }

  /** One branch was filled after the other. */
  ghost predicate IsFilled(bs: seq<Branch>, ns: seq<int>, remaining: int, filled: seq<int>)
    requires AreBranches(bs) && |ns| == |filled| == |bs|
  {
    forall j: nat {:trigger FilledAt(bs, ns, remaining, filled, j)} :: j < |bs| ==>
      FilledAt(bs, ns, remaining, filled, j)
  }

  /** What the branches get from first shares on: those, when no branch takes time; else more by whole shots, first
      to the longest branch, then to all of them in turn. */
  ghost predicate IsAllocation(bs: seq<Branch>, start: seq<nat>, totalSpace: nat, ns: seq<int>)
    requires AreBranches(bs) && |start| == |bs| && HaveCores(start)
  {
    if NoneTakesTime(bs, start) then ns == start
    else |ns| == |bs| && exists grown: seq<nat> {:trigger IsGrown(bs, start, totalSpace, grown)} ::
      |grown| == |bs| && IsGrown(bs, start, totalSpace, grown) && IsFilled(bs, grown, totalSpace - Sum(grown), ns)
  }

  lemma {:induction false} GrowIsGrown(bs: seq<Branch>, start: seq<nat>, totalSpace: int)
    requires AreBranches(bs) && |start| == |bs| && HaveCores(start)
    ensures var g := Grow(LengthsOf(bs), Shots(bs), start, totalSpace - Sum(start));
            && IsGrown(bs, start, totalSpace, g.cores) && g.remaining == totalSpace - Sum(g.cores)
  {
    var f, rem := LengthsOf(bs), totalSpace - Sum(start);
    var g := Grow(f, Shots(bs), start, rem);
    GrowConserves(f, Shots(bs), start, rem);
    GrowStops(f, start, Shots(bs), start, rem);
    assert HaveCores(g.cores) by {
      forall i | 0 <= i < |bs| ensures g.cores[i] >= 1 { assert g.cores[i] >= start[i] >= 1; }
    }
    CriticalIsFirst(bs, g.cores);
    if forall i {:trigger bs[i]} :: 0 <= i < |bs| ==> NonNegative(bs[i].weight) { GrownAreNeeded(bs, start, rem); }
  }

  lemma {:induction false} GrownAreNeeded(bs: seq<Branch>, start: seq<nat>, rem: int)
    requires AreBranches(bs) && |start| == |bs| && HaveCores(start)
    requires forall i {:trigger bs[i]} :: 0 <= i < |bs| ==> NonNegative(bs[i].weight)
    ensures var g := Grow(LengthsOf(bs), Shots(bs), start, rem);
            HaveCores(g.cores) && AreNeeded(bs, start, g.cores)
  {
    LengthsShrink(bs);
    GrowStaysFair(LengthsOf(bs), start, Shots(bs), start, rem);
    FairIsNeeded(bs, start, Grow(LengthsOf(bs), Shots(bs), start, rem).cores);
  }

  lemma {:induction false} FairIsNeeded(bs: seq<Branch>, start: seq<nat>, ns: seq<nat>)
    requires AreBranches(bs) && |start| == |bs| && HaveCores(start) && Fair(LengthsOf(bs), start, Shots(bs), ns)
    ensures AreNeeded(bs, start, ns)
  {
    CriticalIsLongest(LengthsOf(bs), ns, |bs|);
    forall i, j | 0 <= i < |bs| && 0 <= j < |bs| && ns[i] > start[i]
      ensures ns[i] > bs[i].shot && Length(bs[j].weight, ns[j]) <= Length(bs[i].weight, ns[i] - bs[i].shot)
    {
      ShotIsNeeded(bs, start, ns, i, j);
    }
  }

  lemma {:induction false} ShotIsNeeded(bs: seq<Branch>, start: seq<nat>, ns: seq<nat>, i: nat, j: nat)
    requires AreBranches(bs) && |start| == |bs| && HaveCores(start) && Fair(LengthsOf(bs), start, Shots(bs), ns)
    requires i < |bs| && j < |bs| && ns[i] > start[i]
    requires LengthsOf(bs)(j, ns[j]) <= Critical(LengthsOf(bs), ns).length
    ensures ns[i] > bs[i].shot && Length(bs[j].weight, ns[j]) <= Length(bs[i].weight, ns[i] - bs[i].shot)
  {
    assert ShotsFrom(start[i], ns[i], Shots(bs)[i]) && start[i] >= 1;
    assert LengthsOf(bs)(i, ns[i] - bs[i].shot) == Length(bs[i].weight, ns[i] - bs[i].shot);
  }

  ghost predicate FilledTo(bs: seq<Branch>, ns: seq<int>, remaining: int, filled: seq<int>, k: nat)
    requires AreBranches(bs) && |ns| == |filled| == |bs| && k <= |bs|
  {
    forall j: nat {:trigger FilledAt(bs, ns, remaining, filled, j)} :: j < k ==> FilledAt(bs, ns, remaining, filled, j)
  }

  lemma {:induction false} FilledOneMore(bs: seq<Branch>, ns: seq<int>, remaining: int, before: seq<int>, k: nat,
      add: int)
    requires AreBranches(bs) && |ns| == |before| == |bs| && k < |bs| && FilledTo(bs, ns, remaining, before, k)
    requires IsShots(add, bs[k].shot)
    requires var left := LeftAfter(ns, before, remaining, k) - add;
      if remaining >= 0 then add >= 0 && 0 <= left < bs[k].shot else add <= 0 && 0 < left + bs[k].shot <= bs[k].shot
    ensures var filled := before[k := ns[k] + add];
      && FilledTo(bs, ns, remaining, filled, k + 1)
      && LeftAfter(ns, filled, remaining, k + 1) == LeftAfter(ns, before, remaining, k) - add
  {
    var filled := before[k := ns[k] + add];
    assert filled[..k + 1][..k] == before[..k] && ns[..k + 1][..k] == ns[..k];
    forall j: nat | j < k + 1 ensures FilledAt(bs, ns, remaining, filled, j) {
      if j < k {
        assert FilledAt(bs, ns, remaining, before, j);
        assert filled[..j + 1] == before[..j + 1];
      }
    }
  }

  lemma {:induction false} ShotsAreWhole(left: int, shot: nat)
    requires shot >= 1
    ensures IsShots(CoresToAdd(left, shot), shot)
  {
    ShotsByDivision(left, shot);
    assert CoresToAdd(left, shot) == Div(left, shot) * shot;
  }

  /** Filling, by the rest that each branch leaves. */
  lemma {:induction false} FillIsFilled(bs: seq<Branch>, ns: seq<int>, remaining: int, k: nat)
    requires AreBranches(bs) && |ns| == |bs| && k <= |bs|
    ensures var r := Fill(bs, ns, remaining, k);
            && r.remaining == LeftAfter(ns, r.cores, remaining, k) && FilledTo(bs, ns, remaining, r.cores, k)
            && if remaining >= 0 then r.remaining >= 0 else r.remaining <= 0
  {
    if k > 0 {
      FillIsFilled(bs, ns, remaining, k - 1);
      var before := Fill(bs, ns, remaining, k - 1);
      ShotsAreWhole(before.remaining, bs[k - 1].shot);
      FilledOneMore(bs, ns, remaining, before.cores, k - 1, CoresToAdd(before.remaining, bs[k - 1].shot));
    }
  }

  /** The number of cores that every branch gets. */
  lemma {:induction false} AllocationIs(bs: seq<Branch>, totalSpace: nat)
    requires AreBranches(bs) && bs != []
    ensures var start := FirstShares(bs, totalSpace);
            AreFirstShares(bs, totalSpace, start) && IsAllocation(bs, start, totalSpace, Allocation(bs, totalSpace))
  {
    FirstSharesAre(bs, totalSpace);
    AllocatedFrom(bs, FirstShares(bs, totalSpace), totalSpace);
  }

  lemma {:induction false} AllocatedFrom(bs: seq<Branch>, start: seq<nat>, totalSpace: nat)
    requires AreBranches(bs) && bs != [] && |start| == |bs| && HaveCores(start)
    ensures IsAllocation(bs, start, totalSpace, AllocationFrom(bs, start, totalSpace))
  {
    CriticalIsFirst(bs, start);
    if Critical(LengthsOf(bs), start).rank != -1 { GrownAndFilled(bs, start, totalSpace); }
  }

  lemma {:induction false} GrownAndFilled(bs: seq<Branch>, start: seq<nat>, totalSpace: nat)
    requires AreBranches(bs) && bs != [] && |start| == |bs| && HaveCores(start)
    requires Critical(LengthsOf(bs), start).rank != -1
    ensures var g := Grow(LengthsOf(bs), Shots(bs), start, totalSpace - Sum(start));
            && |g.cores| == |bs| && IsGrown(bs, start, totalSpace, g.cores)
            && IsFilled(bs, g.cores, totalSpace - Sum(g.cores), AllocationFrom(bs, start, totalSpace))
  {
    GrowIsGrown(bs, start, totalSpace);
    var g := Grow(LengthsOf(bs), Shots(bs), start, totalSpace - Sum(start));
    GrownIsFilled(bs, g.cores, g.remaining);
  }

  lemma {:induction false} GrownIsFilled(bs: seq<Branch>, ns: seq<int>, remaining: int)
    requires AreBranches(bs) && |ns| == |bs|
    ensures IsFilled(bs, ns, remaining, Fill(bs, ns, remaining, |bs|).cores)
  {
    FillIsFilled(bs, ns, remaining, |bs|);
    var filled := Fill(bs, ns, remaining, |bs|).cores;
    forall j: nat | j < |bs| ensures FilledAt(bs, ns, remaining, filled, j) {}
  }

  /** Once filled, less is left than any branch takes for one shot. */
  lemma {:induction false} LeftIsShort(bs: seq<Branch>, ns: seq<int>, filled: seq<int>, remaining: nat, j: nat)
    requires AreBranches(bs) && |ns| == |filled| == |bs| && j < |bs| && IsFilled(bs, ns, remaining, filled)
    ensures 0 <= remaining - (Sum(filled) - Sum(ns)) < bs[j].shot
  {
    assert filled[..|bs|] == filled && ns[..|bs|] == ns;
    LeftShrinks(bs, ns, filled, remaining, j + 1, |bs|);
    assert FilledAt(bs, ns, remaining, filled, j) && FilledAt(bs, ns, remaining, filled, |bs| - 1);
  }

  lemma {:induction false} LeftShrinks(bs: seq<Branch>, ns: seq<int>, filled: seq<int>, remaining: nat, j: nat, k: nat)
    requires AreBranches(bs) && |ns| == |filled| == |bs| && j <= k <= |bs| && IsFilled(bs, ns, remaining, filled)
    ensures LeftAfter(ns, filled, remaining, k) <= LeftAfter(ns, filled, remaining, j)
    decreases k
  {
    if j < k {
      LeftShrinks(bs, ns, filled, remaining, j, k - 1);
      assert filled[..k][..k - 1] == filled[..k - 1] && ns[..k][..k - 1] == ns[..k - 1];
      assert FilledAt(bs, ns, remaining, filled, k - 1);
    }
  }

  // ----- two forks

  /** A branch of undefined weight. */
  function Undefined(): Branch {
    Branch(ComplexWeight(-1.0, [LoopWeight(-1.0, -1)]), 1)
  }

  /** Two such branches share ten cores. */
  lemma {:induction false} UndefinedShareAlike()
    ensures AreBranches([Undefined(), Undefined()]) && Allocation([Undefined(), Undefined()], 10) == [5, 5]
  {
    var bs := [Undefined(), Undefined()];
    AllocationIs(bs, 10);
    var start := FirstShares(bs, 10);
    assert IsFirstShare(bs[0], 10, 2, start[0]) && IsFirstShare(bs[1], 10, 2, start[1]);
    assert start == [5, 5];
    UnsetElementary(-1.0, [LoopWeight(-1.0, -1)], 5);
  }

  function LongElementary(): Branch {
    Branch(ComplexWeight(100.0, [LoopWeight(1.0, 1)]), 1)
  }

  function ShortLoop(): Branch {
    Branch(ComplexWeight(0.0, [LoopWeight(5.0, 1)]), 1)
  }

  lemma {:induction false} TwoLengths(m: nat, n: nat)
    requires m >= 1 && n >= 1
    ensures Length(LongElementary().weight, m) > 100.0 && 0.0 < Length(ShortLoop().weight, n) <= 5.0
  {
    LengthOfOneLoop(100.0, LoopWeight(1.0, 1), m);
    LengthOfOneLoop(0.0, LoopWeight(5.0, 1), n);
    DivShrinks(1.0, 1.0, m as real);
    DivShrinks(5.0, 1.0, n as real);
  }

  lemma {:induction false} FirstOfTwo(start: seq<nat>)
    requires AreBranches([LongElementary(), ShortLoop()])
    requires AreFirstShares([LongElementary(), ShortLoop()], 6, start)
    ensures start == [1, 1]
  {
    assert IsFirstShare(LongElementary(), 6, 2, start[0]) && IsFirstShare(ShortLoop(), 6, 2, start[1]);
  }

  /** A branch that is longest for its elementary weight gets all cores but one. */
  lemma {:induction false} LongestGetsTheRest()
    ensures AreBranches([LongElementary(), ShortLoop()]) && Allocation([LongElementary(), ShortLoop()], 6) == [5, 1]
  {
    var bs := [LongElementary(), ShortLoop()];
    AllocationIs(bs, 6);
    FirstOfTwo(FirstShares(bs, 6));
    FiveAndOne(Allocation(bs, 6));
  }

  lemma {:induction false} FiveAndOne(ns: seq<int>)
    requires AreBranches([LongElementary(), ShortLoop()])
    requires IsAllocation([LongElementary(), ShortLoop()], [1, 1], 6, ns)
    ensures ns == [5, 1]
  {
    TwoLengths(1, 1);
    var bs, start := [LongElementary(), ShortLoop()], [1, 1];
    assert Length(bs[0].weight, start[0]) > 0.0;
    var grown: seq<nat> :| |grown| == 2 && IsGrown(bs, start, 6, grown) && IsFilled(bs, grown, 6 - Sum(grown), ns);
    GrownToFiveAndOne(grown);
    NothingToFill(grown, ns);
  }

  lemma {:induction false} SumOfTwo(ns: seq<int>)
    requires |ns| == 2
    ensures Sum(ns[..1]) == ns[0] && Sum(ns) == ns[0] + ns[1]
  {
    assert ns[..2] == ns && ns[..1][..0] == [] && ns[..2][..1] == ns[..1];
  }

  lemma {:induction false} GrownToFiveAndOne(grown: seq<nat>)
    requires AreBranches([LongElementary(), ShortLoop()]) && |grown| == 2
    requires IsGrown([LongElementary(), ShortLoop()], [1, 1], 6, grown)
    ensures grown == [5, 1] && Sum(grown) == 6
  {
    var bs := [LongElementary(), ShortLoop()];
    SumOfTwo(grown);
    SumOfTwo([1, 1]);
    TwoLengths(grown[0], grown[1]);
    assert IsLongest(bs, grown, 0);
    assert ShotsFrom(1, grown[0], Shots(bs)[0]) && ShotsFrom(1, grown[1], Shots(bs)[1]);
    if grown[1] > 1 {
      TwoLengths(grown[0], grown[1] - 1);
    }
  }

  lemma {:induction false} NothingToFill(grown: seq<nat>, ns: seq<int>)
    requires AreBranches([LongElementary(), ShortLoop()]) && |grown| == |ns| == 2
    requires IsFilled([LongElementary(), ShortLoop()], grown, 0, ns)
    ensures ns == grown
  {
    var bs := [LongElementary(), ShortLoop()];
    assert FilledAt(bs, grown, 0, ns, 0) && FilledAt(bs, grown, 0, ns, 1);
    SumOfTwo(grown);
    SumOfTwo(ns);
    assert ns[..2] == ns && grown[..2] == grown;
  }
}
