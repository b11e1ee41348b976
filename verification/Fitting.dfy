/** When the cores of some branches can be split: a condition that is known before any core is placed. */
module Fitting {
  import opened Allocations
  import opened CriticalPaths
  import opened Greedy
  import opened Lists
  import opened Numbering
  import opened Placing
  import opened Ranks
  import opened Splitting
  import opened Sums
  import opened Wrappers

  /** The number of free cores. */
  function Count(free: seq<bool>): nat {
    |Positions(free, true)|
  }

  lemma {:induction false} CountOfSet(free: seq<bool>, s: set<nat>)
    requires forall x: nat :: x in s <==> x < |free| && free[x]
    ensures Count(free) == |s|
  {
    PositionsAreRanks(free, true);
    DistinctLength(Positions(free, true));
    assert AsSet(Positions(free, true)) == s;
  }

  /** Clearing distinct free cores takes them off the count. */
  lemma {:induction false} CountOfCleared(free: seq<bool>, p: seq<nat>)
    requires Distinct(p) && forall x :: x in p ==> x < |free| && free[x]
    ensures Count(Cleared(free, p)) == Count(free) - |p|
  {
    var s := AsSet(Positions(free, true));
    PositionsAreRanks(free, true);
    CountOfSet(free, s);
    CountOfSet(Cleared(free, p), s - AsSet(p));
    DistinctLength(p);
    assert AsSet(p) <= s;
  }

  lemma {:induction false} CountOfListed(n: nat, ids: seq<nat>)
    requires Distinct(ids) && forall x :: x in ids ==> x < n
    ensures Count(Highlight(n, ids)) == |ids|
  {
    DistinctLength(ids);
    CountOfSet(Highlight(n, ids), AsSet(ids));
  }

  lemma {:induction false} SumOfPositive(ns: seq<int>)
    requires forall i :: 0 <= i < |ns| ==> ns[i] >= 1
    ensures Sum(ns) >= |ns|
    decreases |ns|
  {
    if ns != [] { SumOfPositive(ns[..|ns| - 1]); }
  }

  lemma {:induction false} SumOfPrefix(ns: seq<int>, k: nat)
    requires k <= |ns| && forall i :: 0 <= i < |ns| ==> ns[i] >= 1
    ensures Sum(ns[..k]) + |ns| - k <= Sum(ns)
    decreases |ns|
  {
    if k < |ns| {
      var m := |ns| - 1;
      assert ns[..m][..k] == ns[..k];
      SumOfPrefix(ns[..m], k);
    } else {
      assert ns[..k] == ns;
    }
  }

  /** Each branch but the last takes its own number of cores at most, so that a core is left for the next one. */
  lemma {:induction false} EveryBranchIsServed(free: seq<bool>, sizes: seq<nat>, ns: seq<int>, shots: seq<nat>, k: nat)
    requires |ns| == |shots| && k <= |ns| && HaveCores(shots) && |free| == Total(sizes)
    requires (forall i :: 0 <= i < |ns| ==> ns[i] >= 1) && Sum(ns) <= Count(free)
    ensures var r := TakeFirst(free, sizes, ns, shots, k);
            r.Success? && (k < |ns| ==> Count(r.value.free) >= Count(free) - Sum(ns[..k]))
    decreases k
  {
    if k > 0 {
      EveryBranchIsServed(free, sizes, ns, shots, k - 1);
      var left := TakeFirst(free, sizes, ns, shots, k - 1).value.free;
      SumOfPrefix(ns, k - 1);
      BranchIsServed(left, sizes, ns[k - 1], shots[k - 1], k == |ns|);
      assert ns[..k][..k - 1] == ns[..k - 1];
    }
  }

  /** A branch is served while a core is left, and one that is not the last takes its own number at most. */
  lemma {:induction false} BranchIsServed(free: seq<bool>, sizes: seq<nat>, cores: int, shot: nat, last: bool)
    requires shot >= 1 && |free| == Total(sizes) && cores >= 1 && Count(free) >= 1
    ensures var r := Place(free, sizes, cores, shot, last);
            r.Success? && (!last ==> Count(Cleared(free, r.value)) >= Count(free) - cores)
  {
    PositionsAreRanks(free, true);
    assert Positions(free, true)[0] in Positions(free, true);
    PlaceIsRight(free, sizes, cores, shot, last);
    CountOfCleared(free, Place(free, sizes, cores, shot, last).value);
  }

  // ----- the order of the branches does not matter

  function Kept(ns: seq<int>, picked: seq<nat>): (r: seq<int>)
    ensures |r| == |ns| && forall i {:trigger r[i]} :: 0 <= i < |ns| ==> r[i] == if i in picked then ns[i] else 0
  {
    seq(|ns|, i requires 0 <= i < |ns| => if i in picked then ns[i] else 0)
  }

  lemma {:induction false} SumOfPicked(ns: seq<int>, picked: seq<nat>)
    requires Distinct(picked) && forall i :: 0 <= i < |picked| ==> picked[i] < |ns|
    ensures Sum(Permute(ns, picked)) == Sum(Kept(ns, picked))
    decreases |picked|
  {
    if picked == [] {
      SumOfNothing(Kept(ns, []));
    } else {
      var m := |picked| - 1;
      var front, last := picked[..m], picked[m];
      SumOfPicked(ns, front);
      assert Permute(ns, picked)[..m] == Permute(ns, front);
      assert Kept(ns, picked) == Kept(ns, front)[last := ns[last]];
      SumOfUpdate(Kept(ns, front), last, ns[last]);
    }
  }

  lemma {:induction false} SumOfNothing(ns: seq<int>)
    requires forall i :: 0 <= i < |ns| ==> ns[i] == 0
    ensures Sum(ns) == 0
    decreases |ns|
  {
    if ns != [] { SumOfNothing(ns[..|ns| - 1]); }
  }

  lemma {:induction false} SharesPermuted(bs: seq<Branch>, order: seq<nat>, totalSpace: nat)
    requires AreBranches(bs) && |order| == |bs| && forall i :: 0 <= i < |order| ==> order[i] < |bs|
    ensures var ns: seq<int> := FirstShares(bs, totalSpace);
            FirstShares(Permute(bs, order), totalSpace) == Permute(ns, order)
  {
    var ns: seq<int> := FirstShares(bs, totalSpace);
    var sorted := Permute(bs, order);
    forall i | 0 <= i < |order| ensures FirstShares(sorted, totalSpace)[i] == Permute(ns, order)[i] {
      assert sorted[i] == bs[order[i]] && Permute(ns, order)[i] == ns[order[i]];
    }
  }

  lemma {:induction false} SumInOrder(ns: seq<int>, order: seq<nat>)
    requires Distinct(order) && |order| == |ns| && forall i :: 0 <= i < |order| ==> order[i] < |ns|
    ensures Sum(Permute(ns, order)) == Sum(ns)
  {
    AllRanks(order);
    SumOfPicked(ns, order);
    assert forall i: nat :: i < |ns| ==> i in order;
    assert Kept(ns, order) == ns;
  }

  /** The first shares add up to the same in every order of the branches. */
  lemma {:induction false} SharesInOrder(bs: seq<Branch>, order: seq<nat>, totalSpace: nat)
    requires AreBranches(bs) && Distinct(order) && |order| == |bs| && forall i :: 0 <= i < |order| ==> order[i] < |bs|
    ensures Sum(FirstShares(Permute(bs, order), totalSpace)) == Sum(FirstShares(bs, totalSpace))
  {
    SharesPermuted(bs, order, totalSpace);
    SumInOrder(FirstShares(bs, totalSpace), order);
  }

  /** The first shares of the branches fit into the given cores. */
  predicate SharesFit(bs: seq<Branch>, cores: nat)
    requires AreBranches(bs)
  {
    Sum(FirstShares(bs, cores)) <= cores
  }

  lemma {:induction false} SortedShares(bs: seq<Branch>, order: seq<nat>, n: nat)
    requires AreBranches(bs) && bs != [] && SharesFit(bs, n)
    requires Distinct(order) && |order| == |bs| && forall i :: 0 <= i < |order| ==> order[i] < |bs|
    ensures var ns := Allocation(Permute(bs, order), n);
            Sum(ns) <= n && forall i :: 0 <= i < |ns| ==> ns[i] >= 1
  {
    SharesInOrder(bs, order, n);
    var sorted := Permute(bs, order);
    AllocationFits(sorted, FirstShares(sorted, n), n);
  }

  /** Distinct cores can be split between the branches when the first shares fit. */
  lemma {:induction false} SplitSucceeds(sizes: seq<nat>, coreIds: seq<nat>, bs: seq<Branch>)
    requires AreBranches(bs) && SharesFit(bs, |coreIds|)
    requires Distinct(coreIds) && forall x :: x in coreIds ==> x < Total(sizes)
    ensures Split(sizes, coreIds, bs).Success?
  {
    if bs != [] {
      var order := Order(Shots(bs));
      OrderIsSorted(Shots(bs), []);
      AllRanks(order);
      SortedShares(bs, order, |coreIds|);
      var sorted, free := Permute(bs, order), Highlight(Total(sizes), coreIds);
      CountOfListed(Total(sizes), coreIds);
      EveryBranchIsServed(free, sizes, Allocation(sorted, |coreIds|), Shots(sorted), |bs|);
    }
  }

  // ----- what the condition leaves open

  lemma {:induction false} EachTakesOne(free: seq<bool>, sizes: seq<nat>, ns: seq<int>, shots: seq<nat>, k: nat)
    requires |ns| == |shots| && k <= |ns| && HaveCores(shots) && |free| == Total(sizes)
    requires TakeFirst(free, sizes, ns, shots, k).Success?
    ensures Count(TakeFirst(free, sizes, ns, shots, k).value.free) + k <= Count(free)
    decreases k
  {
    if k > 0 {
      EachTakesOne(free, sizes, ns, shots, k - 1);
      var left := TakeFirst(free, sizes, ns, shots, k - 1).value.free;
      PlaceIsRight(left, sizes, ns[k - 1], shots[k - 1], k == |ns|);
      CountOfCleared(left, Place(left, sizes, ns[k - 1], shots[k - 1], k == |ns|).value);
    }
  }

  /** Cores that can be split are at least as many as the branches. */
  lemma {:induction false} SplitNeedsCores(sizes: seq<nat>, coreIds: seq<nat>, bs: seq<Branch>)
    requires AreBranches(bs) && Split(sizes, coreIds, bs).Success?
    ensures |bs| <= Count(Highlight(Total(sizes), coreIds))
  {
    if bs != [] {
      var order := Order(Shots(bs));
      OrderIsSorted(Shots(bs), []);
      AllRanks(order);
      var sorted := Permute(bs, order);
      EachTakesOne(Highlight(Total(sizes), coreIds), sizes, Allocation(sorted, |coreIds|), Shots(sorted), |bs|);
    }
  }

  lemma {:induction false} OneShare(b: Branch, totalSpace: nat)
    requires AreBranches([b]) && totalSpace >= 1
    ensures Allocation([b], totalSpace)[0] >= 1
  {
    var start := FirstShares([b], totalSpace);
    assert start == [start[0]] && start[..0] == [] && Sum(start) == start[0];
    if start[0] <= totalSpace {
      AllocationFits([b], start, totalSpace);
    } else {
      assert start[0] == b.shot by { assert totalSpace / 1 == totalSpace; }
      assert CoresToAdd(totalSpace - b.shot, b.shot) == 0;
      assert Fill([b], start, totalSpace - b.shot, 0).cores == start;
    }
  }

  /** A branch alone is served whenever there is a core, whether its first share fits or not. */
  lemma {:induction false} OneBranchIsServedIff(sizes: seq<nat>, coreIds: seq<nat>, b: Branch)
    requires AreBranches([b])
    ensures Split(sizes, coreIds, [b]).Success? <==> Count(Highlight(Total(sizes), coreIds)) >= 1
  {
    var order, free := Order(Shots([b])), Highlight(Total(sizes), coreIds);
    OrderIsSorted(Shots([b]), []);
    AllRanks(order);
    var sorted := Permute([b], order);
    assert order[0] == 0 && sorted == [b];
    var ns := Allocation([b], |coreIds|);
    if Count(free) >= 1 {
      PositionsAreRanks(free, true);
      assert Positions(free, true)[0] in Positions(free, true);
      OneShare(b, |coreIds|);
      BranchIsServed(free, sizes, ns[0], b.shot, true);
      assert TakeFirst(free, sizes, ns, Shots(sorted), 0).Success?;
    } else if Split(sizes, coreIds, [b]).Success? {
      SplitNeedsCores(sizes, coreIds, [b]);
    }
  }

  /** A branch without work, for shots of two cores. */
  function TwoCores(): Branch {
    Branch(ComplexWeight(0.0, [LoopWeight(0.0, 0)]), 2)
  }

  /** One core is split although the first share of two cores does not fit. */
  lemma {:induction false} SharesNeedNotFit()
    ensures AreBranches([TwoCores()]) && !SharesFit([TwoCores()], 1) && Split([1], [0], [TwoCores()]).Success?
  {
    var start := FirstShares([TwoCores()], 1);
    assert start == [2] && start[..0] == [];
    CountOfListed(1, [0]);
    assert Total([1]) == 1 by { assert [1][..0] == []; }
    OneBranchIsServedIff([1], [0], TwoCores());
  }

  lemma {:induction false} NoWorkTakesShares(totalSpace: nat)
    ensures AreBranches([TwoCores(), TwoCores()]) && Allocation([TwoCores(), TwoCores()], totalSpace) == [2, 2]
  {
    var bs := [TwoCores(), TwoCores()];
    var start := FirstShares(bs, totalSpace);
    assert start == [2, 2];
    CriticalIsLongest(LengthsOf(bs), start, 2);
    var w := TwoCores().weight;
    assert LoopsLength(w.loops, 2) == 0.0 by { assert LoopsLength(w.loops[..0], 2) == 0.0; }
  }

  lemma {:induction false} FirstTakesBoth(free: seq<bool>)
    requires free == [true, true]
    ensures var r := Place(free, [2], 2, 2, false);
            r.Success? && Cleared(free, r.value) == [false, false]
  {
    assert Total([2]) == 2 by { assert [2][..0] == []; }
    assert Owns([2], 0, 0) && Owns([2], 0, 1);
    assert Fits(free, [2], 2, 0);
    assert Starts(free, [2], 2, 2, 0) == [0] + Starts(free, [2], 2, 0, 2) == [0];
    RunHas(0, 2, 0);
    RunHas(0, 2, 1);
    assert CoresOf([0], 2) == Run(0, 2) by { assert [0][..0] == []; }
  }

  /** Two cores are not split between two branches: the first branch takes both. */
  lemma {:induction false} CoresNeedNotDo()
    ensures AreBranches([TwoCores(), TwoCores()]) && Split([2], [0, 1], [TwoCores(), TwoCores()]).Failure?
    ensures Count(Highlight(Total([2]), [0, 1])) == 2
  {
    var bs := [TwoCores(), TwoCores()];
    assert Total([2]) == 2 by { assert [2][..0] == []; }
    var free := Highlight(2, [0, 1]);
    TwoInOrder(bs);
    CountOfListed(2, [0, 1]);
    assert free == [true, true];
    NoWorkTakesShares(2);
    SecondGetsNone(free, Shots(bs));
  }

  lemma {:induction false} TwoInOrder(bs: seq<Branch>)
    requires AreBranches(bs) && |bs| == 2 && bs[0].shot == bs[1].shot
    ensures Order(Shots(bs)) == [0, 1] && Permute(bs, [0, 1]) == bs
  {
    var order := Order(Shots(bs));
    OrderIsSorted(Shots(bs), []);
    assert Before(Shots(bs), order[0], order[1]);
    assert order[0] == 0 && order[1] == 1;
  }

  lemma {:induction false} SecondFails(free: seq<bool>, sizes: seq<nat>, ns: seq<int>, shots: seq<nat>)
    requires |ns| == |shots| == 2 && HaveCores(shots)
    requires var r := Place(free, sizes, ns[0], shots[0], false);
      r.Success? && Place(Cleared(free, r.value), sizes, ns[1], shots[1], true).Failure?
    ensures TakeFirst(free, sizes, ns, shots, 2).Failure?
  {
    var first := Place(free, sizes, ns[0], shots[0], false).value;
    assert TakeFirst(free, sizes, ns, shots, 0) == Success(Taken([], free));
    assert [] + [first] == [first];
    assert TakeFirst(free, sizes, ns, shots, 1) == Success(Taken([first], Cleared(free, first)));
  }

  lemma {:induction false} SecondGetsNone(free: seq<bool>, shots: seq<nat>)
    requires free == [true, true] && shots == [2, 2]
    ensures TakeFirst(free, [2], [2, 2], shots, 2).Failure?
  {
    assert Total([2]) == 2 by { assert [2][..0] == []; }
    FirstTakesBoth(free);
    PlaceIsRight([false, false], [2], 2, 2, true);
    SecondFails(free, [2], [2, 2], shots);
  }
}
