/** Placing shots of cores on machines, without letting a shot straddle two machines. */
module Placing {
  import opened Lists
  import opened Numbering
  import opened Ranks
  import opened Wrappers

  datatype PlaceError = NoSpaceToAlloc | AllOccupied

  /** The n cores from p on. */
  function Run(p: nat, n: nat): (r: seq<nat>)
    ensures |r| == n && forall i {:trigger r[i]} :: 0 <= i < n ==> r[i] == p + i
  {
    seq(n, i requires 0 <= i < n => p + i)
  }

  lemma {:induction false} RunHas(p: nat, n: nat, x: nat)
    ensures x in Run(p, n) <==> p <= x < p + n
  {
    if p <= x < p + n { assert Run(p, n)[x - p] == x; }
  }

  ghost predicate InMachine(sizes: seq<nat>, p: nat, n: nat) {
    exists k: nat {:trigger Offset(sizes, k)} ::
      k < |sizes| && Offset(sizes, k) <= p && p + n <= Offset(sizes, k) + sizes[k]
  }

  predicate AllFree(free: seq<bool>, p: nat, n: nat) {
    p + n <= |free| && forall i {:trigger free[i]} :: p <= i < p + n ==> free[i]
  }

  /** n free cores of one machine start at p. */
  ghost predicate Fits(free: seq<bool>, sizes: seq<nat>, n: nat, p: nat) {
    InMachine(sizes, p, n) && AllFree(free, p, n)
  }

  /** Where the shots start, scanning the cores from p on while the budget allows one more shot. */
  ghost function Starts(free: seq<bool>, sizes: seq<nat>, shot: nat, budget: int, p: nat): seq<nat>
    requires shot >= 1
    decreases |free| - p
  {
    if p >= |free| || budget < shot then []
    else if Fits(free, sizes, shot, p) then [p] + Starts(free, sizes, shot, budget - shot, p + shot)
    else Starts(free, sizes, shot, budget, p + 1)
  }

  function CoresOf(starts: seq<nat>, n: nat): seq<nat> {
    if starts == [] then [] else CoresOf(starts[..|starts| - 1], n) + Run(starts[|starts| - 1], n)
  }

  /** Every listed core is cleared. */
  function Cleared(free: seq<bool>, cores: seq<nat>): (r: seq<bool>)
    ensures |r| == |free|
    ensures forall i {:trigger r[i]} :: 0 <= i < |r| ==> r[i] == (free[i] && i !in cores)
  {
    seq(|free|, i requires 0 <= i < |free| => free[i] && i !in cores)
  }

  /** The first run of n free cores in one machine, from p on. */
  ghost function FirstFit(free: seq<bool>, sizes: seq<nat>, n: nat, p: nat): (r: Option<nat>)
    ensures r.Some? ==> Fits(free, sizes, n, r.value)
    ensures forall q: nat {:trigger Fits(free, sizes, n, q)} ::
      p <= q < |free| && Fits(free, sizes, n, q) ==> r.Some? && p <= r.value <= q
    decreases |free| - p
  {
    if p >= |free| then None
    else if Fits(free, sizes, n, p) then Some(p)
    else FirstFit(free, sizes, n, p + 1)
  }

  /** The widest run of at most n cores, the first of those. */
  ghost function WidestRun(free: seq<bool>, sizes: seq<nat>, n: nat): Option<seq<nat>> {
    if n == 0 then None
    else if FirstFit(free, sizes, n, 0).Some? then Some(Run(FirstFit(free, sizes, n, 0).value, n))
    else WidestRun(free, sizes, n - 1)
  }

  function Budget(free: seq<bool>, maxNb: int, lastOne: bool): int {
    if lastOne && maxNb < |Positions(free, true)| then |Positions(free, true)| else maxNb
  }

  ghost function Place(free: seq<bool>, sizes: seq<nat>, maxNb: int, shot: nat, lastOne: bool)
    : Result<seq<nat>, PlaceError>
    requires shot >= 1
  {
    if maxNb < 1 then Failure(NoSpaceToAlloc)
    else
      var budget := Budget(free, maxNb, lastOne);
      var starts := Starts(free, sizes, shot, budget, 0);
      if starts != [] then Success(CoresOf(starts, shot))
      else match WidestRun(free, sizes, if shot - 1 < budget then shot - 1 else budget)
        case Some(run) => Success(run)
        case None => Failure(AllOccupied)
  }

  // ----- what the placement guarantees

  ghost predicate Spaced(starts: seq<nat>, n: nat, from: nat) {
    && (forall i {:trigger starts[i]} :: 0 <= i < |starts| ==> from <= starts[i])
    && forall i, j {:trigger starts[i], starts[j]} :: 0 <= i < j < |starts| ==> starts[i] + n <= starts[j]
  }

  ghost predicate AllFit(free: seq<bool>, sizes: seq<nat>, n: nat, starts: seq<nat>) {
    forall i {:trigger starts[i]} :: 0 <= i < |starts| ==> Fits(free, sizes, n, starts[i])
  }

  lemma {:induction false} OneMoreShot(free: seq<bool>, sizes: seq<nat>, shot: nat, budget: int, p: nat,
      rest: seq<nat>)
    requires shot >= 1 && Spaced(rest, shot, p + shot) && AllFit(free, sizes, shot, rest)
    requires Fits(free, sizes, shot, p) && budget >= shot && (rest != [] ==> |rest| * shot <= budget - shot)
    ensures var starts := [p] + rest;
            Spaced(starts, shot, p) && AllFit(free, sizes, shot, starts) && |starts| * shot <= budget
  {
    assert (|rest| + 1) * shot == |rest| * shot + shot;
    if rest == [] { assert |rest| * shot == 0; }
  }

  lemma {:induction false} SpacedFromBefore(starts: seq<nat>, n: nat, p: nat)
    requires Spaced(starts, n, p + 1)
    ensures Spaced(starts, n, p)
  {
    forall i | 0 <= i < |starts| ensures p <= starts[i] { assert p + 1 <= starts[i]; }
  }

  /** The shots are disjoint, free, inside machines, and within the budget. */
  lemma {:induction false} StartsAreShots(free: seq<bool>, sizes: seq<nat>, shot: nat, budget: int, p: nat)
    requires shot >= 1
    ensures var starts := Starts(free, sizes, shot, budget, p);
            && Spaced(starts, shot, p) && AllFit(free, sizes, shot, starts)
            && (starts != [] ==> |starts| * shot <= budget)
    decreases |free| - p
  {
    if p < |free| && budget >= shot {
      if Fits(free, sizes, shot, p) {
        StartsAreShots(free, sizes, shot, budget - shot, p + shot);
        OneMoreShot(free, sizes, shot, budget, p, Starts(free, sizes, shot, budget - shot, p + shot));
      } else {
        StartsAreShots(free, sizes, shot, budget, p + 1);
        SpacedFromBefore(Starts(free, sizes, shot, budget, p + 1), shot, p);
      }
    }
  }

  /** No other choice of disjoint shots within the budget places more of them. */
  lemma {:induction false} StartsAreMost(free: seq<bool>, sizes: seq<nat>, shot: nat, budget: int, p: nat,
      other: seq<nat>)
    requires shot >= 1 && Spaced(other, shot, p) && AllFit(free, sizes, shot, other)
    requires other != [] ==> |other| * shot <= budget
    ensures |other| <= |Starts(free, sizes, shot, budget, p)|
    decreases |free| - p
  {
    if other != [] {
      var n, rest := |other|, other[1..];
      assert n * shot == (n - 1) * shot + shot;
      assert (n - 1) * shot >= 0 by { MulIsNat(n - 1, shot); }
      assert Fits(free, sizes, shot, other[0]) && p <= other[0];
      if Fits(free, sizes, shot, p) {
        StartsAreMost(free, sizes, shot, budget - shot, p + shot, rest);
      } else {
        assert forall i :: 0 < i < n ==> other[0] + shot <= other[i];
        StartsAreMost(free, sizes, shot, budget, p + 1, other);
      }
    }
  }

  lemma {:induction false} MulIsNat(a: nat, b: nat)
    ensures a * b >= 0
  {
  }

  ghost predicate Overlaps(starts: seq<nat>, n: nat, s: nat) {
    exists i {:trigger starts[i]} :: 0 <= i < |starts| && starts[i] < s + n && s < starts[i] + n
  }

  /** A whole free shot is left over only if the budget cannot pay for it. */
  lemma {:induction false} NoShotIsLeft(free: seq<bool>, sizes: seq<nat>, shot: nat, budget: int, p: nat, s: nat)
    requires shot >= 1 && p <= s && Fits(free, sizes, shot, s)
    requires !Overlaps(Starts(free, sizes, shot, budget, p), shot, s)
    ensures budget - |Starts(free, sizes, shot, budget, p)| * shot < shot
    decreases |free| - p
  {
    var starts := Starts(free, sizes, shot, budget, p);
    if budget < shot {
      assert starts == [];
    } else if Fits(free, sizes, shot, p) {
      var rest := Starts(free, sizes, shot, budget - shot, p + shot);
      assert starts[0] == p && starts[1..] == rest;
      assert forall i {:trigger rest[i]} :: 0 <= i < |rest| ==> rest[i] == starts[i + 1];
      NoShotIsLeft(free, sizes, shot, budget - shot, p + shot, s);
      assert (|rest| + 1) * shot == |rest| * shot + shot;
    } else {
      NoShotIsLeft(free, sizes, shot, budget, p + 1, s);
    }
  }

  /** Core x belongs to one of the shots. */
  ghost predicate InShot(starts: seq<nat>, n: nat, x: nat) {
    exists i {:trigger starts[i]} :: 0 <= i < |starts| && starts[i] <= x < starts[i] + n
  }

  lemma {:induction false} CoresLast(starts: seq<nat>, n: nat, p: nat)
    ensures CoresOf(starts + [p], n) == CoresOf(starts, n) + Run(p, n)
    ensures forall x: nat :: InShot(starts + [p], n, x) <==> InShot(starts, n, x) || p <= x < p + n
  {
    var all := starts + [p];
    assert all[..|starts|] == starts && all[|starts|] == p;
    forall x: nat ensures InShot(all, n, x) <==> InShot(starts, n, x) || p <= x < p + n {
      if InShot(starts, n, x) {
        var i :| 0 <= i < |starts| && starts[i] <= x < starts[i] + n;
        assert all[i] == starts[i];
      }
    }
  }

  lemma {:induction false} CoresOfHas(starts: seq<nat>, n: nat, x: nat)
    ensures x in CoresOf(starts, n) <==> InShot(starts, n, x)
    decreases |starts|
  {
    if starts != [] {
      var front, last := starts[..|starts| - 1], starts[|starts| - 1];
      assert starts == front + [last];
      CoresOfHas(front, n, x);
      CoresLast(front, n, last);
      RunHas(last, n, x);
    }
  }

  lemma {:induction false} CoresOfCount(starts: seq<nat>, n: nat)
    ensures |CoresOf(starts, n)| == |starts| * n
    decreases |starts|
  {
    if starts != [] {
      var m := |starts| - 1;
      CoresOfCount(starts[..m], n);
      assert (m + 1) * n == m * n + n;
    }
  }

  lemma {:induction false} CoresOfDistinct(starts: seq<nat>, n: nat)
    requires Spaced(starts, n, 0)
    ensures Distinct(CoresOf(starts, n))
    decreases |starts|
  {
    if starts != [] {
      var front, last := starts[..|starts| - 1], starts[|starts| - 1];
      CoresOfDistinct(front, n);
      var a, b := CoresOf(front, n), Run(last, n);
      forall i, j | 0 <= i < |a| && 0 <= j < |b| ensures a[i] < b[j] {
        assert a[i] in a;
        CoresOfHas(front, n, a[i]);
        var k :| 0 <= k < |front| && front[k] <= a[i] < front[k] + n;
        assert starts[k] == front[k];
      }
    }
  }

  // ----- the whole operation

  /** What takePlace gives when it does not throw. */
  ghost predicate Placed(free: seq<bool>, sizes: seq<nat>, maxNb: int, lastOne: bool, shot: nat, cores: seq<nat>)
    requires shot >= 1
  {
    && cores != [] && (lastOne || |cores| <= maxNb) && Distinct(cores)
    && (forall x :: x in cores ==> x < |free| && free[x])
    && ((exists starts :: IsFullPlacement(free, sizes, maxNb, lastOne, shot, cores, starts))
        || (exists p, n :: IsFallBack(free, sizes, maxNb, lastOne, shot, cores, p, n)))
  }

  /** Each shot is the first one that fits behind the one before. */
  ghost predicate AreFirst(free: seq<bool>, sizes: seq<nat>, shot: nat, starts: seq<nat>, from: nat) {
    forall i, s: nat {:trigger starts[i], Fits(free, sizes, shot, s)} ::
      0 <= i < |starts| && (if i == 0 then from else starts[i - 1] + shot) <= s < starts[i] ==>
        !Fits(free, sizes, shot, s)
  }

  /** Whole shots inside machines, the first ones, as many as the free cores and the number of cores asked for allow;
      the last one to be served is not bound by that number, and leaves no shot over. */
  ghost predicate IsFullPlacement(free: seq<bool>, sizes: seq<nat>, maxNb: int, lastOne: bool, shot: nat,
    cores: seq<nat>, starts: seq<nat>)
    requires shot >= 1
  {
    && cores == CoresOf(starts, shot) && Spaced(starts, shot, 0) && AllFit(free, sizes, shot, starts)
    && AreFirst(free, sizes, shot, starts, 0)
    && (forall other :: Spaced(other, shot, 0) && AllFit(free, sizes, shot, other) ==>
          |other| <= |starts| || (!lastOne && |other| * shot > maxNb))
    && forall s: nat :: Fits(Cleared(free, cores), sizes, shot, s) ==> !lastOne && maxNb - |cores| < shot
  }

  /** No whole shot can be placed: one run of n cores is taken, the first, and no wider run was possible. */
  ghost predicate IsFallBack(free: seq<bool>, sizes: seq<nat>, maxNb: int, lastOne: bool, shot: nat, cores: seq<nat>,
    p: nat, n: nat)
    requires shot >= 1
  {
    && cores == Run(p, n) && 1 <= n < shot && (lastOne || n <= maxNb) && Fits(free, sizes, n, p)
    && (forall s: nat :: Fits(free, sizes, shot, s) ==> !lastOne && maxNb < shot)
    && (forall m: nat, s: nat :: n < m < shot && (lastOne || m <= maxNb) ==> !Fits(free, sizes, m, s))
    && forall s: nat :: s < p ==> !Fits(free, sizes, n, s)
  }

  lemma {:induction false} FirstGoesOn(free: seq<bool>, sizes: seq<nat>, shot: nat, p: nat, rest: seq<nat>)
    requires AreFirst(free, sizes, shot, rest, p + shot)
    ensures AreFirst(free, sizes, shot, [p] + rest, p)
  {
    var starts := [p] + rest;
    forall i, s: nat | 0 <= i < |starts| && (if i == 0 then p else starts[i - 1] + shot) <= s < starts[i]
      ensures !Fits(free, sizes, shot, s)
    {
      assert rest[i - 1] == starts[i];
    }
  }

  lemma {:induction false} FirstFromBehind(free: seq<bool>, sizes: seq<nat>, shot: nat, p: nat, starts: seq<nat>)
    requires AreFirst(free, sizes, shot, starts, p + 1) && !Fits(free, sizes, shot, p)
    ensures AreFirst(free, sizes, shot, starts, p)
  {
  }

  lemma {:induction false} StartsAreFirst(free: seq<bool>, sizes: seq<nat>, shot: nat, budget: int, p: nat)
    requires shot >= 1
    ensures AreFirst(free, sizes, shot, Starts(free, sizes, shot, budget, p), p)
    decreases |free| - p
  {
    if p < |free| && budget >= shot {
      if Fits(free, sizes, shot, p) {
        StartsAreFirst(free, sizes, shot, budget - shot, p + shot);
        FirstGoesOn(free, sizes, shot, p, Starts(free, sizes, shot, budget - shot, p + shot));
      } else {
        StartsAreFirst(free, sizes, shot, budget, p + 1);
        FirstFromBehind(free, sizes, shot, p, Starts(free, sizes, shot, budget, p + 1));
      }
    }
  }

  // ----- the free cores bound what can be placed

  lemma {:induction false} FreeListIsShort(free: seq<bool>, l: seq<nat>)
    requires Distinct(l) && forall x :: x in l ==> x < |free| && free[x]
    ensures |l| <= |Positions(free, true)|
  {
    PositionsAreRanks(free, true);
    DistinctLength(l);
    DistinctLength(Positions(free, true));
    SubsetSize(AsSet(l), AsSet(Positions(free, true)));
  }

  lemma {:induction false} RunIsShort(free: seq<bool>, sizes: seq<nat>, n: nat, s: nat)
    requires Fits(free, sizes, n, s)
    ensures n <= |Positions(free, true)|
  {
    forall x | x in Run(s, n) ensures x < |free| && free[x] { RunHas(s, n, x); }
    FreeListIsShort(free, Run(s, n));
  }

  lemma {:induction false} ShotsAreFree(free: seq<bool>, sizes: seq<nat>, shot: nat, starts: seq<nat>)
    requires Spaced(starts, shot, 0) && AllFit(free, sizes, shot, starts)
    ensures var cores := CoresOf(starts, shot);
            && Distinct(cores) && |cores| == |starts| * shot <= |Positions(free, true)|
            && forall x :: x in cores ==> x < |free| && free[x]
  {
    var cores := CoresOf(starts, shot);
    CoresOfCount(starts, shot);
    CoresOfDistinct(starts, shot);
    forall x | x in cores ensures x < |free| && free[x] {
      CoresOfHas(starts, shot, x);
      var i :| 0 <= i < |starts| && starts[i] <= x < starts[i] + shot;
      assert Fits(free, sizes, shot, starts[i]);
    }
    FreeListIsShort(free, cores);
  }

  /** A shot left over is made of free cores that are not placed. */
  lemma {:induction false} LeftOverIsShort(free: seq<bool>, sizes: seq<nat>, shot: nat, cores: seq<nat>, s: nat)
    requires Distinct(cores) && (forall x :: x in cores ==> x < |free| && free[x])
    requires Fits(Cleared(free, cores), sizes, shot, s)
    ensures |cores| + shot <= |Positions(free, true)|
  {
    var more := cores + Run(s, shot);
    forall x | x in Run(s, shot) ensures x < |free| && free[x] && x !in cores {
      RunHas(s, shot, x);
      assert Cleared(free, cores)[x];
    }
    forall i, j | 0 <= i < j < |more| ensures more[i] != more[j] {
      if i < |cores| <= j { assert more[i] in cores && more[j] in Run(s, shot); }
    }
    FreeListIsShort(free, more);
  }

  lemma {:induction false} WidestRunIsWidest(free: seq<bool>, sizes: seq<nat>, n: nat)
    ensures var r := WidestRun(free, sizes, n);
            if r.None? then forall m: nat, s: nat :: 1 <= m <= n ==> !Fits(free, sizes, m, s)
            else exists p: nat, k: nat :: IsWidest(free, sizes, n, r.value, p, k)
    decreases n
  {
    if n > 0 {
      var f := FirstFit(free, sizes, n, 0);
      if f.Some? {
        assert IsWidest(free, sizes, n, Run(f.value, n), f.value, n);
      } else {
        WidestRunIsWidest(free, sizes, n - 1);
        var r := WidestRun(free, sizes, n - 1);
        if r.Some? {
          var p: nat, k: nat :| IsWidest(free, sizes, n - 1, r.value, p, k);
          assert IsWidest(free, sizes, n, r.value, p, k);
        }
      }
    }
  }

  ghost predicate IsWidest(free: seq<bool>, sizes: seq<nat>, n: nat, run: seq<nat>, p: nat, k: nat) {
    && run == Run(p, k) && 1 <= k <= n && Fits(free, sizes, k, p)
    && (forall m: nat, s: nat :: k < m <= n ==> !Fits(free, sizes, m, s))
    && forall s: nat :: s < p ==> !Fits(free, sizes, k, s)
  }

  lemma {:induction false} LeftOverFits(free: seq<bool>, sizes: seq<nat>, starts: seq<nat>, shot: nat, s: nat)
    requires Fits(Cleared(free, CoresOf(starts, shot)), sizes, shot, s)
    ensures Fits(free, sizes, shot, s) && !Overlaps(starts, shot, s)
  {
    var cores := CoresOf(starts, shot);
    forall i | s <= i < s + shot ensures free[i] && i !in cores { assert Cleared(free, cores)[i]; }
    if Overlaps(starts, shot, s) {
      var i :| 0 <= i < |starts| && starts[i] < s + shot && s < starts[i] + shot;
      var x := if starts[i] < s then s else starts[i];
      CoresOfHas(starts, shot, x);
    }
  }

  lemma {:induction false} FullPlacement(free: seq<bool>, sizes: seq<nat>, maxNb: int, lastOne: bool, shot: nat)
    requires shot >= 1 && Starts(free, sizes, shot, Budget(free, maxNb, lastOne), 0) != []
    ensures Placed(free, sizes, maxNb, lastOne, shot,
      CoresOf(Starts(free, sizes, shot, Budget(free, maxNb, lastOne), 0), shot))
  {
    var budget := Budget(free, maxNb, lastOne);
    var starts := Starts(free, sizes, shot, budget, 0);
    var cores := CoresOf(starts, shot);
    StartsAreShots(free, sizes, shot, budget, 0);
    StartsAreFirst(free, sizes, shot, budget, 0);
    ShotsAreFree(free, sizes, shot, starts);
    assert cores != [] by { CoresLast(starts[..|starts| - 1], shot, starts[|starts| - 1]); }
    forall other | Spaced(other, shot, 0) && AllFit(free, sizes, shot, other) && (lastOne || |other| * shot <= maxNb)
      ensures |other| <= |starts|
    {
      ShotsAreFree(free, sizes, shot, other);
      StartsAreMost(free, sizes, shot, budget, 0, other);
    }
    forall s: nat | Fits(Cleared(free, cores), sizes, shot, s) ensures !lastOne && maxNb - |cores| < shot {
      LeftOverFits(free, sizes, starts, shot, s);
      NoShotIsLeft(free, sizes, shot, budget, 0, s);
      LeftOverIsShort(free, sizes, shot, cores, s);
    }
    assert IsFullPlacement(free, sizes, maxNb, lastOne, shot, cores, starts);
  }

  lemma {:induction false} FallBack(free: seq<bool>, sizes: seq<nat>, maxNb: int, lastOne: bool, shot: nat,
      run: seq<nat>)
    requires shot >= 1 && maxNb >= 1 && Starts(free, sizes, shot, Budget(free, maxNb, lastOne), 0) == []
    requires var budget := Budget(free, maxNb, lastOne);
      WidestRun(free, sizes, if shot - 1 < budget then shot - 1 else budget) == Some(run)
    ensures Placed(free, sizes, maxNb, lastOne, shot, run)
  {
    var budget := Budget(free, maxNb, lastOne);
    var n := if shot - 1 < budget then shot - 1 else budget;
    WidestRunIsWidest(free, sizes, n);
    var p: nat, k: nat :| IsWidest(free, sizes, n, run, p, k);
    forall x ensures x in run <==> p <= x < p + k { if x >= 0 { RunHas(p, k, x); } }
    forall s: nat | Fits(free, sizes, shot, s) ensures !lastOne && maxNb < shot {
      NoShotIsLeft(free, sizes, shot, budget, 0, s);
      RunIsShort(free, sizes, shot, s);
    }
    forall m: nat, s: nat | k < m < shot && (lastOne || m <= maxNb) ensures !Fits(free, sizes, m, s) {
      if Fits(free, sizes, m, s) { RunIsShort(free, sizes, m, s); }
    }
    assert IsFallBack(free, sizes, maxNb, lastOne, shot, run, p, k);
  }

  lemma {:induction false} OneCoreFits(free: seq<bool>, sizes: seq<nat>, x: nat)
    requires |free| == Total(sizes) && x < |free| && free[x]
    ensures Fits(free, sizes, 1, x)
  {
    assert Owns(sizes, Owner(sizes, x), x);
  }

  /** takePlace fails exactly when it is asked for nothing or no core is free; otherwise it places as said above. */
  lemma {:induction false} PlaceIsRight(free: seq<bool>, sizes: seq<nat>, maxNb: int, shot: nat, lastOne: bool)
    requires shot >= 1 && |free| == Total(sizes)
    ensures var r := Place(free, sizes, maxNb, shot, lastOne);
            && (r.Failure? <==> maxNb < 1 || forall x :: 0 <= x < |free| ==> !free[x])
            && (r.Success? ==> Placed(free, sizes, maxNb, lastOne, shot, r.value))
  {
    if maxNb >= 1 {
      var budget := Budget(free, maxNb, lastOne);
      var n := if shot - 1 < budget then shot - 1 else budget;
      if Starts(free, sizes, shot, budget, 0) != [] {
        FullPlacement(free, sizes, maxNb, lastOne, shot);
        var c := CoresOf(Starts(free, sizes, shot, budget, 0), shot);
        assert c[0] in c;
      } else {
        WidestRunIsWidest(free, sizes, n);
        if WidestRun(free, sizes, n).Some? {
          var run := WidestRun(free, sizes, n).value;
          FallBack(free, sizes, maxNb, lastOne, shot, run);
          assert run[0] in run;
        } else {
          forall x | 0 <= x < |free| ensures !free[x] {
            if free[x] {
              OneCoreFits(free, sizes, x);
              if shot == 1 { NoShotIsLeft(free, sizes, shot, budget, 0, x); }
            }
          }
        }
      }
    }
  }
}
