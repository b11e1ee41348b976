/** The loops of takePlace, which clear the cores they hand out. */
module TakePlaces {
  import opened Numbering
  import opened Placing
  import opened Wrappers

  lemma {:induction false} ClearedTwice(free: seq<bool>, a: seq<nat>, b: seq<nat>)
    ensures Cleared(Cleared(free, a), b) == Cleared(free, a + b)
    ensures Cleared(free, []) == free
  {
    assert Cleared(free, []) == free;
    assert Cleared(Cleared(free, a), b) == Cleared(free, a + b);
  }

  /** No run of n cores of one machine starts less than n cores before the end of a machine. */
  lemma {:induction false} NoFitInTail(free: seq<bool>, sizes: seq<nat>, k: nat, p: nat, n: nat)
    requires Owns(sizes, k, p) && p + n > Offset(sizes, k) + sizes[k]
    ensures !Fits(free, sizes, n, p)
  {
    if InMachine(sizes, p, n) {
      var m: nat :| m < |sizes| && Offset(sizes, m) <= p && p + n <= Offset(sizes, m) + sizes[m];
      if m == k {} else if m < k { EndsBefore(sizes, m, k); } else { EndsBefore(sizes, k, m); }
    }
  }

  /** The scan has reached pos: `taken` shots are placed, tmp is left of the budget. */
  ghost predicate Progress(free: seq<bool>, sizes: seq<nat>, shot: nat, budget: int, pos: nat, taken: seq<nat>,
    tmp: int, ret: seq<nat>, now: seq<bool>)
    requires shot >= 1
  {
    && Starts(free, sizes, shot, budget, 0) == taken + Starts(free, sizes, shot, tmp, pos)
    && ret == CoresOf(taken, shot) && now == Cleared(free, ret) && (taken == [] ==> tmp == budget)
    && forall x :: x in ret ==> x < pos
  }

  /** The scan is over: the shots are those of the specification. */
  ghost predicate AllTaken(free: seq<bool>, sizes: seq<nat>, shot: nat, budget: int, taken: seq<nat>,
    tmp: int, ret: seq<nat>, now: seq<bool>)
    requires shot >= 1
  {
    && Starts(free, sizes, shot, budget, 0) == taken
    && ret == CoresOf(taken, shot) && now == Cleared(free, ret) && (taken == [] ==> tmp == budget)
  }

  lemma {:induction false} ProgressTakes(free: seq<bool>, sizes: seq<nat>, shot: nat, budget: int, pos: nat,
      taken: seq<nat>, tmp: int, ret: seq<nat>, now: seq<bool>)
    requires shot >= 1 && Progress(free, sizes, shot, budget, pos, taken, tmp, ret, now)
    requires tmp >= shot && Fits(free, sizes, shot, pos)
    ensures Progress(free, sizes, shot, budget, pos + shot, taken + [pos], tmp - shot, ret + Run(pos, shot),
      Cleared(now, Run(pos, shot)))
  {
    CoresLast(taken, shot, pos);
    ClearedTwice(free, ret, Run(pos, shot));
    forall x | x in Run(pos, shot) ensures x < pos + shot { RunHas(pos, shot, x); }
    var rest := Starts(free, sizes, shot, tmp - shot, pos + shot);
    assert taken + ([pos] + rest) == taken + [pos] + rest;
  }

  lemma {:induction false} ProgressSkips(free: seq<bool>, sizes: seq<nat>, shot: nat, budget: int, pos: nat, to: nat,
      taken: seq<nat>, tmp: int, ret: seq<nat>, now: seq<bool>)
    requires shot >= 1 && Progress(free, sizes, shot, budget, pos, taken, tmp, ret, now) && pos <= to <= |free|
    requires forall p: nat {:trigger Fits(free, sizes, shot, p)} :: pos <= p < to ==> !Fits(free, sizes, shot, p)
    ensures Progress(free, sizes, shot, budget, to, taken, tmp, ret, now)
    decreases |free| - pos
  {
    if pos < to { ProgressSkips(free, sizes, shot, budget, pos + 1, to, taken, tmp, ret, now); }
  }

  method ClearRun(dist: array<bool>, p: nat, n: nat)
    requires p + n <= dist.Length
    modifies dist
    ensures dist[..] == Cleared(old(dist[..]), Run(p, n))
  {
    for i := 0 to n
      invariant forall x :: 0 <= x < dist.Length ==> dist[x] == (old(dist[x]) && !(p <= x < p + i))
    {
      dist[p + i] := false;
    }
    forall x | 0 <= x < dist.Length ensures dist[x] == Cleared(old(dist[..]), Run(p, n))[x] { RunHas(p, n, x); }
  }

  /** Takes the n cores from p on when they are all free. */
  method TakeWindow(dist: array<bool>, p: nat, n: nat) returns (taken: bool)
    requires p + n <= dist.Length
    modifies dist
    ensures taken <==> AllFree(old(dist[..]), p, n)
    ensures dist[..] == if taken then Cleared(old(dist[..]), Run(p, n)) else old(dist[..])
  {
    taken := forall i :: p <= i < p + n ==> dist[i];
    assert taken <==> forall i {:trigger dist[..][i]} :: p <= i < p + n ==> dist[..][i];
    if taken { ClearRun(dist, p, n); }
  }

  /** Ahead of the scan nothing has been cleared yet. */
  lemma {:induction false} FreshAhead(free: seq<bool>, ret: seq<nat>, p: nat, n: nat)
    requires forall x :: x in ret ==> x < p
    ensures AllFree(Cleared(free, ret), p, n) <==> AllFree(free, p, n)
  {
    var now := Cleared(free, ret);
    assert forall i {:trigger free[i]} {:trigger now[i]} :: p <= i < |free| ==> now[i] == free[i];
  }

  /** Looks for a shot at core p of machine k. */
  method ScanAt(ghost free: seq<bool>, ghost sizes: seq<nat>, ghost k: nat, p: nat, shot: nat, ghost budget: int,
      ghost taken: seq<nat>, tmp: int, before: seq<nat>, dist: array<bool>)
    returns (t: bool, ret: seq<nat>, left: int, ghost all: seq<nat>)
    requires shot >= 1 && tmp >= shot && |free| == dist.Length
    requires k < |sizes| && Offset(sizes, k) <= p && p + shot <= Offset(sizes, k) + sizes[k] <= |free|
    requires Progress(free, sizes, shot, budget, p, taken, tmp, before, dist[..])
    modifies dist
    ensures Progress(free, sizes, shot, budget, p + if t then shot else 1, all, left, ret, dist[..])
  {
    ghost var now := dist[..];
    FreshAhead(free, before, p, shot);
    assert InMachine(sizes, p, shot);
    t := TakeWindow(dist, p, shot);
    if t {
      ProgressTakes(free, sizes, shot, budget, p, taken, tmp, before, now);
      ret, left, all := before + Run(p, shot), tmp - shot, taken + [p];
    } else {
      ProgressSkips(free, sizes, shot, budget, p, p + 1, taken, tmp, before, now);
      ret, left, all := before, tmp, taken;
    }
  }

  /** Scans one machine. */
  method ScanMachine(ghost free: seq<bool>, sizes: seq<nat>, k: nat, offset: nat, shot: nat, ghost budget: int,
      ghost taken: seq<nat>, tmp: int, before: seq<nat>, dist: array<bool>)
    returns (ret: seq<nat>, left: int, ghost all: seq<nat>)
    requires shot >= 1 && k < |sizes| && offset == Offset(sizes, k) && |free| == dist.Length == Total(sizes)
    requires Progress(free, sizes, shot, budget, offset, taken, tmp, before, dist[..])
    modifies dist
    ensures Progress(free, sizes, shot, budget, offset + sizes[k], all, left, ret, dist[..])
      || (left < shot && AllTaken(free, sizes, shot, budget, all, left, ret, dist[..]))
  {
    ret, left, all := before, tmp, taken;
    EndsBefore(sizes, k, |sizes|);
    var d, j := sizes[k], 0;
    while j + shot <= d && left >= shot
      invariant j <= d && Progress(free, sizes, shot, budget, offset + j, all, left, ret, dist[..])
    {
      var t;
      t, ret, left, all := ScanAt(free, sizes, k, offset + j, shot, budget, all, left, ret, dist);
      j := if t then j + shot else j + 1;
    }
    if left >= shot { SkipTail(free, sizes, k, j, shot, budget, all, left, ret, dist[..]); }
    assert all + [] == all;
  }

  lemma {:induction false} SkipTail(free: seq<bool>, sizes: seq<nat>, k: nat, j: nat, shot: nat, budget: int,
      taken: seq<nat>, tmp: int, ret: seq<nat>, now: seq<bool>)
    requires shot >= 1 && k < |sizes| && j <= sizes[k] < j + shot && |free| == Total(sizes)
    requires Progress(free, sizes, shot, budget, Offset(sizes, k) + j, taken, tmp, ret, now)
    ensures Progress(free, sizes, shot, budget, Offset(sizes, k) + sizes[k], taken, tmp, ret, now)
  {
    EndsBefore(sizes, k, |sizes|);
    var to := Offset(sizes, k) + sizes[k];
    forall p: nat | Offset(sizes, k) + j <= p < to ensures !Fits(free, sizes, shot, p) {
      NoFitInTail(free, sizes, k, p, shot);
    }
    ProgressSkips(free, sizes, shot, budget, Offset(sizes, k) + j, to, taken, tmp, ret, now);
  }

  /** The first run of n free cores inside machine k. */
  method FindRunOn(sizes: seq<nat>, k: nat, offset: nat, n: nat, dist: array<bool>) returns (r: Option<nat>)
    requires n >= 1 && k < |sizes| && offset == Offset(sizes, k) && dist.Length == Total(sizes)
    ensures r.Some? ==> Fits(dist[..], sizes, n, r.value) && offset <= r.value < offset + sizes[k]
    ensures forall p: nat {:trigger Fits(dist[..], sizes, n, p)} ::
      offset <= p < (if r.Some? then r.value else offset + sizes[k]) ==> !Fits(dist[..], sizes, n, p)
  {
    var d, j := sizes[k], 0;
    EndsBefore(sizes, k, |sizes|);
    ghost var free := dist[..];
    while j + n <= d
      invariant j <= d
      invariant forall p: nat {:trigger Fits(free, sizes, n, p)} ::
        offset <= p < offset + j ==> !Fits(free, sizes, n, p)
    {
      var p := offset + j;
      assert InMachine(sizes, p, n);
      if forall i :: p <= i < p + n ==> dist[i] { return Some(p); }
      assert !AllFree(free, p, n);
      j := j + 1;
    }
    forall p: nat | offset + j <= p < offset + d ensures !Fits(free, sizes, n, p) {
      NoFitInTail(free, sizes, k, p, n);
    }
    return None;
  }

  /** The first run of n free cores inside a machine. */
  method FindRun(sizes: seq<nat>, n: nat, dist: array<bool>) returns (r: Option<nat>)
    requires n >= 1 && dist.Length == Total(sizes)
    ensures r == FirstFit(dist[..], sizes, n, 0)
  {
    var offset := 0;
    ghost var free := dist[..];
    for k := 0 to |sizes|
      invariant offset == Offset(sizes, k)
      invariant forall p: nat {:trigger Fits(free, sizes, n, p)} :: p < offset ==> !Fits(free, sizes, n, p)
    {
      r := FindRunOn(sizes, k, offset, n, dist);
      EndsBefore(sizes, k, |sizes|);
      assert dist[..] == free;
      if r.Some? { return; }
      offset := offset + sizes[k];
    }
    return None;
  }

  /** Places whole shots, machine by machine, while the budget allows. */
  method PlaceShots(sizes: seq<nat>, budget: int, shot: nat, dist: array<bool>)
    returns (ret: seq<nat>, left: int)
    requires shot >= 1 && dist.Length == Total(sizes)
    modifies dist
    ensures ret == CoresOf(Starts(old(dist[..]), sizes, shot, budget, 0), shot)
    ensures dist[..] == Cleared(old(dist[..]), ret)
    ensures ret == [] ==> left == budget && Starts(old(dist[..]), sizes, shot, budget, 0) == []
  {
    ret, left := [], budget;
    var offset, i := 0, 0;
    ghost var free, taken := dist[..], [];
    ClearedTwice(free, [], []);
    assert [] + Starts(free, sizes, shot, budget, 0) == Starts(free, sizes, shot, budget, 0);
    while i < |sizes| && left >= shot
      invariant i <= |sizes| && offset == Offset(sizes, i)
      invariant Progress(free, sizes, shot, budget, offset, taken, left, ret, dist[..])
        || (left < shot && AllTaken(free, sizes, shot, budget, taken, left, ret, dist[..]))
    {
      if shot <= sizes[i] {
        ret, left, taken := ScanMachine(free, sizes, i, offset, shot, budget, taken, left, ret, dist);
      } else {
        SkipTail(free, sizes, i, 0, shot, budget, taken, left, ret, dist[..]);
      }
      offset, i := offset + sizes[i], i + 1;
    }
    assert taken + [] == taken;
    assert AllTaken(free, sizes, shot, budget, taken, left, ret, dist[..]);
    if taken != [] { CoresLast(taken[..|taken| - 1], shot, taken[|taken| - 1]); }
  }

  /** Takes the widest run of at most n cores. */
  method PlaceWidest(sizes: seq<nat>, n: nat, dist: array<bool>) returns (r: Option<seq<nat>>)
    requires dist.Length == Total(sizes)
    modifies dist
    ensures r == WidestRun(old(dist[..]), sizes, n)
    ensures dist[..] == if r.Some? then Cleared(old(dist[..]), r.value) else old(dist[..])
  {
    var kk := n;
    ghost var free := dist[..];
    while kk >= 1
      invariant 0 <= kk && WidestRun(free, sizes, n) == WidestRun(free, sizes, kk) && dist[..] == free
    {
      var p := FindRun(sizes, kk, dist);
      if p.Some? {
        ClearRun(dist, p.value, kk);
        return Some(Run(p.value, kk));
      }
      kk := kk - 1;
    }
    return None;
  }

  method TakePlace(sizes: seq<nat>, maxNb: int, shot: nat, dist: array<bool>, lastOne: bool)
    returns (r: Result<seq<nat>, PlaceError>)
    requires shot >= 1 && dist.Length == Total(sizes)
    modifies dist
    ensures r == Place(old(dist[..]), sizes, maxNb, shot, lastOne)
    ensures dist[..] == if r.Success? then Cleared(old(dist[..]), r.value) else old(dist[..])
  {
    if maxNb < 1 { return Failure(NoSpaceToAlloc); }
    var tmp := Budget(dist[..], maxNb, lastOne);
    ghost var free := dist[..];
    var ret, left := PlaceShots(sizes, tmp, shot, dist);
    if ret != [] { return Success(ret); }
    ClearedTwice(free, [], []);
    if shot <= 1 { return Failure(AllOccupied); }
    var run := PlaceWidest(sizes, if shot - 1 < left then shot - 1 else left, dist);
    if run.None? { return Failure(AllOccupied); }
    return Success(run.value);
  }
}
