/** Splitting a set of cores between the branches of a fork. */
module Splitting {
  import opened Allocations
  import opened Greedy
  import opened Lists
  import opened Numbering
  import opened Placing
  import opened TakePlaces
  import opened Wrappers

  // ----- branches sorted by shot size

  /** The first rank among the first k that is not picked and has the largest shot; 0 if there is none. */
  function NextRank(shots: seq<nat>, picked: seq<nat>, k: nat): (r: Option<nat>)
    requires k <= |shots|
    ensures r.Some? ==> r.value < k && r.value !in picked
  {
    if k == 0 then None
    else
      var r := NextRank(shots, picked, k - 1);
      if (if r.Some? then shots[r.value] else 0) < shots[k - 1] && k - 1 !in picked then Some(k - 1) else r
  }

  /** Comes first in the sorted order: a larger shot, or the same one at a lower rank. */
  predicate Before(shots: seq<nat>, a: nat, b: nat)
    requires a < |shots| && b < |shots|
  {
    shots[a] > shots[b] || (shots[a] == shots[b] && a < b)
  }

  lemma {:induction false} NextRankIsLargest(shots: seq<nat>, picked: seq<nat>, k: nat)
    requires k <= |shots| && HaveCores(shots)
    ensures var r := NextRank(shots, picked, k);
            forall i: nat {:trigger shots[i]} :: i < k && i !in picked ==>
              r.Some? && (i == r.value || Before(shots, r.value, i))
  {
    if k > 0 {
      NextRankIsLargest(shots, picked, k - 1);
      var p, r := NextRank(shots, picked, k - 1), NextRank(shots, picked, k);
      assert shots[k - 1] >= 1;
      forall i: nat | i < k && i !in picked ensures r.Some? && (i == r.value || Before(shots, r.value, i)) {
        if i < k - 1 { assert shots[i] >= 1 && p.Some?; }
      }
    }
  }

  /** The list that goes on with the largest shots. */
  function OrderFrom(shots: seq<nat>, picked: seq<nat>): seq<nat>
    decreases |shots| - |picked|
  {
    if |picked| >= |shots| then picked
    else
      var r := NextRank(shots, picked, |shots|);
      OrderFrom(shots, picked + [if r.Some? then r.value else 0])
  }

  function Order(shots: seq<nat>): seq<nat> {
    OrderFrom(shots, [])
  }

  /** Picked so far: distinct ranks, sorted, ahead of all the others. */
  ghost predicate Sorted(shots: seq<nat>, picked: seq<nat>) {
    && Distinct(picked) && (forall i :: 0 <= i < |picked| ==> picked[i] < |shots|)
    && (forall i, j :: 0 <= i < j < |picked| ==> Before(shots, picked[i], picked[j]))
    && forall i, b: nat :: 0 <= i < |picked| && b < |shots| && b !in picked ==> Before(shots, picked[i], b)
  }

  lemma {:induction false} PickKeepsSorted(shots: seq<nat>, picked: seq<nat>)
    requires HaveCores(shots) && Sorted(shots, picked) && |picked| < |shots|
    ensures var r := NextRank(shots, picked, |shots|);
            r.Some? && Sorted(shots, picked + [r.value])
  {
    NextRankIsLargest(shots, picked, |shots|);
    SomeRankIsMissing(picked, |shots|);
    var b: nat :| b < |shots| && b !in picked;
    assert shots[b] >= 1;
    var v := NextRank(shots, picked, |shots|).value;
    var next := picked + [v];
    forall i, j | 0 <= i < j < |next| ensures Before(shots, next[i], next[j]) {}
    forall i, b: nat | 0 <= i < |next| && b < |shots| && b !in next ensures Before(shots, next[i], b) {
      assert b !in picked && shots[b] >= 1;
    }
  }

  /** The order is a permutation of the ranks, sorted by decreasing shots, equal shots keeping their order. */
  lemma {:induction false} OrderIsSorted(shots: seq<nat>, picked: seq<nat>)
    requires HaveCores(shots) && Sorted(shots, picked) && |picked| <= |shots|
    ensures Sorted(shots, OrderFrom(shots, picked)) && |OrderFrom(shots, picked)| == |shots|
    decreases |shots| - |picked|
  {
    if |picked| < |shots| {
      PickKeepsSorted(shots, picked);
      OrderIsSorted(shots, picked + [NextRank(shots, picked, |shots|).value]);
    }
  }

  function Permute<T>(s: seq<T>, order: seq<nat>): (r: seq<T>)
    requires forall i :: 0 <= i < |order| ==> order[i] < |s|
    ensures |r| == |order| && forall i {:trigger r[i]} :: 0 <= i < |r| ==> r[i] == s[order[i]]
  {
    seq(|order|, i requires 0 <= i < |order| => s[order[i]])
  }

  /** saveOrder gives the place of each rank in the order. */
  ghost predicate Saves(saveOrder: map<nat, nat>, order: seq<nat>) {
    (forall r: nat :: r in saveOrder <==> r in order) &&
    forall i {:trigger order[i]} :: 0 <= i < |order| ==> order[i] in saveOrder && saveOrder[order[i]] == i
  }

  /** The rank that comes next, or the given one when every rank is saved. */
  method FindBiggest(bs: seq<Branch>, saveOrder: map<nat, nat>, last: nat, ghost picked: seq<nat>)
    returns (rankMax: nat)
    requires AreBranches(bs) && Saves(saveOrder, picked)
    ensures var r := NextRank(Shots(bs), picked, |bs|);
            rankMax == if r.Some? then r.value else last
  {
    var maxCoresPerShot := 0;
    rankMax := last;
    for i := 0 to |bs|
      invariant var r := NextRank(Shots(bs), picked, i);
        if r.Some? then rankMax == r.value && maxCoresPerShot == Shots(bs)[rankMax]
        else rankMax == last && maxCoresPerShot == 0
    {
      if maxCoresPerShot < bs[i].shot && i !in saveOrder {
        maxCoresPerShot, rankMax := bs[i].shot, i;
      }
    }
  }

  method BigToTiny(bs: seq<Branch>) returns (ret: seq<Branch>, saveOrder: map<nat, nat>)
    requires AreBranches(bs)
    ensures var order := Order(Shots(bs));
            && Sorted(Shots(bs), order) && |order| == |bs|
            && ret == Permute(bs, order) && Saves(saveOrder, order)
  {
    ret, saveOrder := [], map[];
    var rankMax := 0;
    ghost var shots, picked: seq<nat> := Shots(bs), [];
    while |ret| < |bs|
      invariant |ret| == |picked| <= |bs| && Sorted(shots, picked) && OrderFrom(shots, picked) == Order(shots)
      invariant ret == Permute(bs, picked) && Saves(saveOrder, picked)
      decreases |bs| - |ret|
    {
      rankMax := FindBiggest(bs, saveOrder, rankMax, picked);
      PickKeepsSorted(shots, picked);
      ret, saveOrder, picked := ret + [bs[rankMax]], saveOrder[rankMax := |ret|], picked + [rankMax];
    }
  }

  /** The place of rank r in the order. */
  function PlaceOf(order: seq<nat>, r: nat): (i: nat)
    requires r in order
    ensures i < |order| && order[i] == r
  {
    if order[|order| - 1] == r then |order| - 1
    else
      assert order == order[..|order| - 1] + [order[|order| - 1]];
      PlaceOf(order[..|order| - 1], r)
  }

  ghost predicate Covers(order: seq<nat>) {
    forall r: nat {:trigger r in order} :: r < |order| ==> r in order
  }

  ghost function BackInOrder<T>(s: seq<T>, order: seq<nat>): (r: seq<T>)
    requires |s| == |order| && Covers(order)
    ensures |r| == |s|
    ensures forall i {:trigger r[i]} :: 0 <= i < |r| ==> r[i] == s[PlaceOf(order, i)]
  {
    seq(|s|, i requires 0 <= i < |s| => s[PlaceOf(order, i)])
  }

  method BackToOriginalOrder(disorderVec: seq<seq<nat>>, saveOrder: map<nat, nat>, ghost order: seq<nat>)
    returns (ret: seq<seq<nat>>)
    requires |disorderVec| == |order| && Covers(order) && Distinct(order) && Saves(saveOrder, order)
    ensures ret == BackInOrder(disorderVec, order)
  {
    ret := [];
    for i := 0 to |disorderVec|
      invariant |ret| == i && forall k {:trigger ret[k]} :: 0 <= k < i ==> ret[k] == disorderVec[PlaceOf(order, k)]
    {
      assert i in order && order[PlaceOf(order, i)] == i;
      ret := ret + [disorderVec[saveOrder[i]]];
    }
  }

  // ----- taking the cores

  datatype Taken = Taken(parts: seq<seq<nat>>, free: seq<bool>)

  /** The first k branches served one after the other; only the last of all may take more than its part. */
  ghost function TakeFirst(free: seq<bool>, sizes: seq<nat>, ns: seq<int>, shots: seq<nat>, k: nat)
    : (r: Result<Taken, PlaceError>)
    requires |ns| == |shots| && k <= |ns| && HaveCores(shots)
    ensures r.Success? ==> |r.value.parts| == k && |r.value.free| == |free|
  {
    if k == 0 then Success(Taken([], free))
    else
      var r := TakeFirst(free, sizes, ns, shots, k - 1);
      if r.Failure? then r
      else
        var p := Place(r.value.free, sizes, ns[k - 1], shots[k - 1], k == |ns|);
        if p.Failure? then Failure(p.error)
        else Success(Taken(r.value.parts + [p.value], Cleared(r.value.free, p.value)))
  }

  /** The parts share no core, and are made of cores that were free. */
  ghost predicate Apart(free: seq<bool>, parts: seq<seq<nat>>) {
    && (forall i {:trigger parts[i]} :: 0 <= i < |parts| ==> parts[i] != [] && Distinct(parts[i]))
    && (forall i, x: nat {:trigger x in parts[i]} :: 0 <= i < |parts| && x in parts[i] ==> x < |free| && free[x])
    && forall i, j, x: nat {:trigger x in parts[i], x in parts[j]} ::
      0 <= i < j < |parts| && x in parts[i] ==> x !in parts[j]
  }

  ghost predicate FreeIsLeft(free: seq<bool>, t: Taken) {
    |t.free| == |free| && forall x: nat {:trigger t.free[x]} :: x < |free| && t.free[x] ==>
      free[x] && forall i {:trigger t.parts[i]} :: 0 <= i < |t.parts| ==> x !in t.parts[i]
  }

  lemma {:induction false} TakenAreApart(free: seq<bool>, sizes: seq<nat>, ns: seq<int>, shots: seq<nat>, k: nat)
    requires |ns| == |shots| && k <= |ns| && HaveCores(shots) && |free| == Total(sizes)
    ensures var r := TakeFirst(free, sizes, ns, shots, k);
            r.Success? ==> Apart(free, r.value.parts) && FreeIsLeft(free, r.value)
  {
    if k > 0 && TakeFirst(free, sizes, ns, shots, k).Success? {
      TakenAreApart(free, sizes, ns, shots, k - 1);
      var t := TakeFirst(free, sizes, ns, shots, k - 1).value;
      OneMorePlaced(free, sizes, t, ns[k - 1], shots[k - 1], k == |ns|);
    }
  }

  lemma {:induction false} OneMorePlaced(free: seq<bool>, sizes: seq<nat>, t: Taken, cores: int, shot: nat, last: bool)
    requires |free| == |t.free| == Total(sizes) && shot >= 1 && Apart(free, t.parts) && FreeIsLeft(free, t)
    requires Place(t.free, sizes, cores, shot, last).Success?
    ensures var p := Place(t.free, sizes, cores, shot, last).value;
            Apart(free, t.parts + [p]) && FreeIsLeft(free, Taken(t.parts + [p], Cleared(t.free, p)))
  {
    PlaceIsRight(t.free, sizes, cores, shot, last);
    OneMoreApart(free, t, Place(t.free, sizes, cores, shot, last).value);
  }

  lemma {:induction false} OneMoreApart(free: seq<bool>, t: Taken, p: seq<nat>)
    requires Apart(free, t.parts) && FreeIsLeft(free, t) && p != [] && Distinct(p)
    requires forall x :: x in p ==> x < |t.free| && t.free[x]
    ensures Apart(free, t.parts + [p]) && FreeIsLeft(free, Taken(t.parts + [p], Cleared(t.free, p)))
  {
    var parts := t.parts + [p];
    assert forall i {:trigger parts[i]} {:trigger t.parts[i]} :: 0 <= i < |t.parts| ==> parts[i] == t.parts[i];
    forall i, x: nat | 0 <= i < |parts| && x in parts[i] ensures x < |free| && free[x] {}
    forall x | x in p ensures x < |free| && forall i {:trigger t.parts[i]} :: 0 <= i < |t.parts| ==> x !in t.parts[i] {
      assert t.free[x];
    }
  }

  function Highlight(n: nat, ids: seq<nat>): (free: seq<bool>)
    ensures |free| == n && forall i {:trigger free[i]} :: 0 <= i < n ==> free[i] == (i in ids)
  {
    seq(n, i => i in ids)
  }

  /** One list of cores per branch, in the order of the branches. */
  ghost function Split(sizes: seq<nat>, coreIds: seq<nat>, bs: seq<Branch>): (r: Result<seq<seq<nat>>, PlaceError>)
    requires AreBranches(bs)
  {
    var order := Order(Shots(bs));
    OrderIsSorted(Shots(bs), []);
    AllRanks(order);
    var sorted := Permute(bs, order);
    if bs == [] then Success([])
    else
      var t := TakeFirst(Highlight(Total(sizes), coreIds), sizes, Allocation(sorted, |coreIds|), Shots(sorted), |bs|);
      if t.Failure? then Failure(t.error) else Success(BackInOrder(t.value.parts, order))
  }

  lemma {:induction false} AllRanks(order: seq<nat>)
    requires Distinct(order) && forall i :: 0 <= i < |order| ==> order[i] < |order|
    ensures Covers(order)
  {
    forall r: nat | r < |order| ensures r in order { EveryRankIsListed(order, |order|, r); }
  }

  lemma {:induction false} BackKeepsApart(free: seq<bool>, parts: seq<seq<nat>>, order: seq<nat>)
    requires Apart(free, parts) && |parts| == |order| && Covers(order)
    ensures Apart(free, BackInOrder(parts, order))
  {
    var back := BackInOrder(parts, order);
    forall i, j, x: nat | 0 <= i < j < |back| && x in back[i] ensures x !in back[j] {
      var a, b := PlaceOf(order, i), PlaceOf(order, j);
      assert a < b || b < a;
      assert x in parts[a];
    }
    forall i, x: nat | 0 <= i < |back| && x in back[i] ensures x < |free| && free[x] {
      assert x in parts[PlaceOf(order, i)];
    }
  }

  /** Every branch gets some of the given cores, and no core twice. */
  lemma {:induction false} SplitIsApart(sizes: seq<nat>, coreIds: seq<nat>, bs: seq<Branch>)
    requires AreBranches(bs) && Split(sizes, coreIds, bs).Success?
    ensures var parts := Split(sizes, coreIds, bs).value;
            |parts| == |bs| && Apart(Highlight(Total(sizes), coreIds), parts)
  {
    if bs != [] {
      var order := Order(Shots(bs));
      OrderIsSorted(Shots(bs), []);
      AllRanks(order);
      var sorted, free := Permute(bs, order), Highlight(Total(sizes), coreIds);
      TakenAreApart(free, sizes, Allocation(sorted, |coreIds|), Shots(sorted), |bs|);
      var taken := TakeFirst(free, sizes, Allocation(sorted, |coreIds|), Shots(sorted), |bs|).value;
      BackKeepsApart(free, taken.parts, order);
    }
  }

  /** The free cores but those of the first k parts. */
  function Without(free: seq<bool>, parts: seq<seq<nat>>, k: nat): (r: seq<bool>)
    requires k <= |parts|
    ensures |r| == |free| && forall x {:trigger r[x]} :: 0 <= x < |r| ==>
      (r[x] <==> free[x] && forall i :: 0 <= i < k ==> x !in parts[i])
  {
    seq(|free|, x requires 0 <= x < |free| => free[x] && forall i :: 0 <= i < k ==> x !in parts[i])
  }

  lemma {:induction false} PartIsPlaced(free: seq<bool>, sizes: seq<nat>, ns: seq<int>, shots: seq<nat>, j: nat, k: nat)
    requires |ns| == |shots| && j < k <= |ns| && HaveCores(shots) && TakeFirst(free, sizes, ns, shots, k).Success?
    ensures var t := TakeFirst(free, sizes, ns, shots, j);
            t.Success? && Place(t.value.free, sizes, ns[j], shots[j], j + 1 == |ns|)
              == Success(TakeFirst(free, sizes, ns, shots, k).value.parts[j])
    ensures TakeFirst(free, sizes, ns, shots, j).value.parts == TakeFirst(free, sizes, ns, shots, k).value.parts[..j]
    decreases k
  {
    var t := TakeFirst(free, sizes, ns, shots, k - 1).value.parts;
    assert TakeFirst(free, sizes, ns, shots, k).value.parts[..j] == t[..j];
    if j + 1 < k { PartIsPlaced(free, sizes, ns, shots, j, k - 1); } else { assert t[..j] == t; }
  }

  lemma {:induction false} TakenAreGone(free: seq<bool>, sizes: seq<nat>, ns: seq<int>, shots: seq<nat>, k: nat)
    requires |ns| == |shots| && k <= |ns| && HaveCores(shots) && TakeFirst(free, sizes, ns, shots, k).Success?
    ensures var t := TakeFirst(free, sizes, ns, shots, k).value; t.free == Without(free, t.parts, k)
    decreases k
  {
    if k > 0 {
      TakenAreGone(free, sizes, ns, shots, k - 1);
      var before, t := TakeFirst(free, sizes, ns, shots, k - 1).value, TakeFirst(free, sizes, ns, shots, k).value;
      var p := t.parts[k - 1];
      assert t == Taken(before.parts + [p], Cleared(before.free, p));
      forall x | 0 <= x < |free| ensures t.free[x] == Without(free, t.parts, k)[x] {
        assert t.free[x] == (Without(free, before.parts, k - 1)[x] && x !in p);
        assert forall i :: 0 <= i < k - 1 ==> t.parts[i] == before.parts[i];
        assert (forall i :: 0 <= i < k ==> x !in t.parts[i]) <==>
               (forall i :: 0 <= i < k - 1 ==> x !in before.parts[i]) && x !in p by {
          if forall i :: 0 <= i < k ==> x !in t.parts[i] {
            forall i | 0 <= i < k - 1 ensures x !in before.parts[i] { assert t.parts[i] == before.parts[i]; }
          }
        }
      }
    }
  }

  /** The parts taken in turn are placed on what the parts before have left. */
  lemma {:induction false} TakenInTurn(free: seq<bool>, sizes: seq<nat>, ns: seq<int>, shots: seq<nat>, j: nat)
    requires |ns| == |shots| && j < |ns| && HaveCores(shots) && |free| == Total(sizes)
    requires TakeFirst(free, sizes, ns, shots, |ns|).Success?
    ensures var parts := TakeFirst(free, sizes, ns, shots, |ns|).value.parts;
            Placed(Without(free, parts, j), sizes, ns[j], j + 1 == |ns|, shots[j], parts[j])
  {
    PartIsPlaced(free, sizes, ns, shots, j, |ns|);
    TakenAreGone(free, sizes, ns, shots, j);
    var t, parts := TakeFirst(free, sizes, ns, shots, j).value, TakeFirst(free, sizes, ns, shots, |ns|).value.parts;
    PlaceIsRight(t.free, sizes, ns[j], shots[j], j + 1 == |ns|);
    assert Without(free, parts, j) == Without(free, t.parts, j) by {
      assert forall i :: 0 <= i < j ==> parts[i] == t.parts[i];
    }
  }

  /** Branch order[j] was served after those before it in the order, on what they had left of the given cores: with
      its own shot size and its own number of cores, or all that is left if it is the last. */
  ghost predicate IsServed(sizes: seq<nat>, coreIds: seq<nat>, bs: seq<Branch>, order: seq<nat>,
    parts: seq<seq<nat>>, j: nat)
    requires AreBranches(bs) && |order| == |parts| == |bs| && forall i :: 0 <= i < |order| ==> order[i] < |bs|
    requires j < |order|
  {
    var inTurn := Permute(parts, order);
    Placed(Without(Highlight(Total(sizes), coreIds), inTurn, j), sizes,
      Allocation(Permute(bs, order), |coreIds|)[j], j + 1 == |order|, bs[order[j]].shot, inTurn[j])
  }

  lemma {:induction false} BackAndForth<T>(s: seq<T>, order: seq<nat>)
    requires |s| == |order| && Covers(order) && Distinct(order)
    requires forall i :: 0 <= i < |order| ==> order[i] < |s|
    ensures Permute(BackInOrder(s, order), order) == s
  {
    var back := BackInOrder(s, order);
    forall j | 0 <= j < |s| ensures Permute(back, order)[j] == s[j] {
      assert order[j] in order && order[PlaceOf(order, order[j])] == order[j];
    }
  }

  /** The branches are served in their order, by decreasing shot size. */
  lemma {:induction false} PartServesItsBranch(sizes: seq<nat>, coreIds: seq<nat>, bs: seq<Branch>, j: nat)
    requires AreBranches(bs) && j < |bs| && Split(sizes, coreIds, bs).Success?
    ensures var order, parts := Order(Shots(bs)), Split(sizes, coreIds, bs).value;
            && Sorted(Shots(bs), order) && |order| == |parts| == |bs|
            && IsServed(sizes, coreIds, bs, order, parts, j)
  {
    var order := Order(Shots(bs));
    OrderIsSorted(Shots(bs), []);
    AllRanks(order);
    var sorted, free := Permute(bs, order), Highlight(Total(sizes), coreIds);
    var ns := Allocation(sorted, |coreIds|);
    TakenInTurn(free, sizes, ns, Shots(sorted), j);
    BackAndForth(TakeFirst(free, sizes, ns, Shots(sorted), |bs|).value.parts, order);
  }

  method TakeAll(sizes: seq<nat>, bs: seq<Branch>, ns: seq<int>, dist: array<bool>)
    returns (r: Result<seq<seq<nat>>, PlaceError>)
    requires AreBranches(bs) && |ns| == |bs| && dist.Length == Total(sizes)
    modifies dist
    ensures var t := TakeFirst(old(dist[..]), sizes, ns, Shots(bs), |bs|);
            r == if t.Failure? then Failure(t.error) else Success(t.value.parts)
  {
    var disorder := [];
    ghost var free := dist[..];
    for k := 0 to |bs|
      invariant TakeFirst(free, sizes, ns, Shots(bs), k) == Success(Taken(disorder, dist[..]))
    {
      var p := TakePlace(sizes, ns[k], bs[k].shot, dist, k == |bs| - 1);
      if p.Failure? {
        TakeFails(free, sizes, ns, Shots(bs), k + 1, |bs|);
        return Failure(p.error);
      }
      disorder := disorder + [p.value];
    }
    return Success(disorder);
  }

  method SplitIntoParts(sizes: seq<nat>, coreIds: seq<nat>, bs: seq<Branch>)
    returns (r: Result<seq<seq<nat>>, PlaceError>)
    requires AreBranches(bs)
    ensures r == Split(sizes, coreIds, bs)
  {
    if bs == [] { return Success([]); }
    ghost var order := Order(Shots(bs));
    OrderIsSorted(Shots(bs), []);
    AllRanks(order);
    var n := Total(sizes);
    var zeArr := new bool[n](i => i in coreIds);
    assert zeArr[..] == Highlight(n, coreIds);
    var sorted, saveOrder := BigToTiny(bs);
    var ns := Allocate(sorted, |coreIds|);
    var t := TakeAll(sizes, sorted, ns, zeArr);
    if t.Failure? { return Failure(t.error); }
    var ret := BackToOriginalOrder(t.value, saveOrder, order);
    return Success(ret);
  }

  lemma {:induction false} TakeFails(free: seq<bool>, sizes: seq<nat>, ns: seq<int>, shots: seq<nat>, j: nat, k: nat)
    requires |ns| == |shots| && j <= k <= |ns| && HaveCores(shots) && TakeFirst(free, sizes, ns, shots, j).Failure?
    ensures TakeFirst(free, sizes, ns, shots, k) == TakeFirst(free, sizes, ns, shots, j)
    decreases k
  {
    if j < k { TakeFails(free, sizes, ns, shots, j, k - 1); }
  }
}
