/** Worker ids numbered through all the machines of a play ground. */
module PlayGrounds {
  import opened Numbering
  import opened Wrappers
  import opened Ranks
  import opened Resources

  // ----- global numbering

  /** How many cores each machine has. */
  function Sizes(occs: seq<seq<bool>>): (r: seq<nat>)
    ensures |r| == |occs| && forall k {:trigger r[k]} :: 0 <= k < |r| ==> r[k] == |occs[k]|
  {
    seq(|occs|, k requires 0 <= k < |occs| => |occs[k]|)
  }

  /** How many workers of c cores each machine hosts. */
  function Counts(sizes: seq<nat>, c: nat): (r: seq<nat>)
    requires c >= 1
    ensures |r| == |sizes|
  {
    seq(|sizes|, k requires 0 <= k < |sizes| => sizes[k] / c)
  }

  // ----- the cores of a worker

  /** Core i of machine k is one of the cores of worker w. */
  predicate IsCoreOf(counts: seq<nat>, c: nat, w: nat, k: nat, i: nat) {
    Owns(counts, k, w) && InChunk(c, w - Offset(counts, k), i)
  }

  ghost predicate CoreCovered(counts: seq<nat>, c: nat, ws: seq<nat>, k: nat, i: nat) {
    exists w {:trigger IsCoreOf(counts, c, w, k, i)} :: w in ws && IsCoreOf(counts, c, w, k, i)
  }

  /** Every core of worker w carries v. */
  ghost predicate WorkerIs(occs: seq<seq<bool>>, c: nat, w: nat, v: bool)
    requires c >= 1
  {
    var counts := Counts(Sizes(occs), c);
    w < Total(counts) && ChunkIs(occs[Owner(counts, w)], c, Local(counts, w), v)
  }

  ghost function SetOnMachine(occ: seq<bool>, counts: seq<nat>, c: nat, ws: seq<nat>, k: nat, v: bool): (r: seq<bool>)
    ensures |r| == |occ|
    ensures forall i {:trigger r[i]} :: 0 <= i < |r| ==>
      r[i] == (if CoreCovered(counts, c, ws, k, i) then v else occ[i])
  {
    seq(|occ|, i requires 0 <= i < |occ| => if CoreCovered(counts, c, ws, k, i) then v else occ[i])
  }

  /** The occupancy with the cores of the workers set to v. */
  ghost function SetWorkers(occs: seq<seq<bool>>, c: nat, ws: seq<nat>, v: bool): (r: seq<seq<bool>>)
    requires c >= 1
    ensures Sizes(r) == Sizes(occs) && |r| == |occs|
    ensures forall k {:trigger r[k]} :: 0 <= k < |r| ==>
      r[k] == SetOnMachine(occs[k], Counts(Sizes(occs), c), c, ws, k, v)
  {
    seq(|occs|, k requires 0 <= k < |occs| => SetOnMachine(occs[k], Counts(Sizes(occs), c), c, ws, k, v))
  }

  lemma {:induction false} OneWorker(counts: seq<nat>, c: nat, v: nat, w: nat, k: nat, i: nat)
    requires IsCoreOf(counts, c, v, k, i) && IsCoreOf(counts, c, w, k, i)
    ensures v == w
  {
    OneChunk(c, v - Offset(counts, k), w - Offset(counts, k), i);
  }

  /** Setting the cores of some workers shows on those workers and on no other. */
  lemma {:induction false} WorkerAfterSet(occs: seq<seq<bool>>, c: nat, ws: seq<nat>, v: bool, w: nat, u: bool)
    requires c >= 1
    ensures WorkerIs(SetWorkers(occs, c, ws, v), c, w, u) <==>
      (if w in ws then w < Total(Counts(Sizes(occs), c)) && u == v else WorkerIs(occs, c, w, u))
  {
    var counts, r := Counts(Sizes(occs), c), SetWorkers(occs, c, ws, v);
    if w < Total(counts) {
      var k, j := Owner(counts, w), Local(counts, w);
      ChunkFits(|occs[k]|, c, j);
      forall i | j * c <= i < j * c + c ensures r[k][i] == (if w in ws then v else occs[k][i]) {
        assert IsCoreOf(counts, c, w, k, i);
        if CoreCovered(counts, c, ws, k, i) {
          var x :| x in ws && IsCoreOf(counts, c, x, k, i);
          OneWorker(counts, c, x, w, k, i);
        }
      }
      assert r[k][j * c] == (if w in ws then v else occs[k][j * c]);
    }
  }

  // ----- lists of workers

  function Shift(ws: seq<nat>, offset: nat): (r: seq<nat>)
    ensures |r| == |ws| && forall i {:trigger r[i]} :: 0 <= i < |r| ==> r[i] == ws[i] + offset
  {
    seq(|ws|, i requires 0 <= i < |ws| => ws[i] + offset)
  }

  /** The workers of the first n machines whose cores all carry v. */
  ghost function WorkersBelow(occs: seq<seq<bool>>, c: nat, v: bool, n: nat): seq<nat>
    requires c >= 1 && n <= |occs|
  {
    if n == 0 then []
    else WorkersBelow(occs, c, v, n - 1) + Shift(WorkersWith(occs[n - 1], c, v), Offset(Counts(Sizes(occs), c), n - 1))
  }

  ghost function AllWorkers(occs: seq<seq<bool>>, c: nat, v: bool): seq<nat>
    requires c >= 1
  {
    WorkersBelow(occs, c, v, |occs|)
  }

  lemma {:induction false} WorkersBelowAt(occs: seq<seq<bool>>, c: nat, v: bool, n: nat)
    requires c >= 1 && n <= |occs|
    ensures Increasing(WorkersBelow(occs, c, v, n))
    ensures forall w: nat :: w in WorkersBelow(occs, c, v, n) <==>
      w < Offset(Counts(Sizes(occs), c), n) && WorkerIs(occs, c, w, v)
  {
    if n > 0 {
      var counts, m := Counts(Sizes(occs), c), n - 1;
      var ls, off := WorkersWith(occs[m], c, v), Offset(counts, m);
      WorkersBelowAt(occs, c, v, m);
      MaskAt(occs[m], c, v);
      var front, all := WorkersBelow(occs, c, v, m), WorkersBelow(occs, c, v, n);
      assert all == front + Shift(ls, off);
      forall i, j | 0 <= i < j < |all| ensures all[i] < all[j] {
        if i < |front| {
          assert front[i] in front;
          if j < |front| { assert front[i] < front[j]; }
        } else {
          assert ls[i - |front|] < ls[j - |front|];
        }
      }
      forall w: nat ensures w in all <==> w < off + counts[m] && WorkerIs(occs, c, w, v) {
        if off <= w < off + counts[m] {
          OwnsIsOwner(counts, m, w);
          ShiftAt(ls, off, w);
        } else {
          ShiftAt(ls, off, w);
        }
      }
    }
  }

  lemma {:induction false} ShiftAt(ws: seq<nat>, offset: nat, w: nat)
    ensures w in Shift(ws, offset) <==> w >= offset && w - offset in ws
  {
    if w >= offset && w - offset in ws {
      var i :| 0 <= i < |ws| && ws[i] == w - offset;
      assert Shift(ws, offset)[i] == w;
    }
  }

  lemma {:induction false} AllWorkersAt(occs: seq<seq<bool>>, c: nat, v: bool)
    requires c >= 1
    ensures Increasing(AllWorkers(occs, c, v))
    ensures forall w: nat :: w in AllWorkers(occs, c, v) <==> WorkerIs(occs, c, w, v)
  {
    WorkersBelowAt(occs, c, v, |occs|);
  }

  // ----- round trips

  /** Taking the first m free workers leaves the other free ones free, in the same order. */
  lemma {:induction false} TakingLowersFree(occs: seq<seq<bool>>, c: nat, m: nat)
    requires c >= 1 && m <= |AllWorkers(occs, c, false)|
    ensures AllWorkers(SetWorkers(occs, c, AllWorkers(occs, c, false)[..m], true), c, false)
      == AllWorkers(occs, c, false)[m..]
  {
    var free := AllWorkers(occs, c, false);
    var r := SetWorkers(occs, c, free[..m], true);
    AllWorkersAt(occs, c, false);
    AllWorkersAt(r, c, false);
    forall w: nat ensures w in AllWorkers(r, c, false) <==> w in free[m..] {
      WorkerAfterSet(occs, c, free[..m], true, w, false);
      CutApart(free, m, w);
    }
    IncreasingListsAreEqual(AllWorkers(r, c, false), free[m..]);
  }

  /** The taken workers are exactly those that become fully fetched. */
  lemma {:induction false} TakenAreFetched(occs: seq<seq<bool>>, c: nat, ws: seq<nat>, w: nat)
    requires c >= 1
    ensures w in AllWorkers(SetWorkers(occs, c, ws, true), c, true) <==>
      w in AllWorkers(occs, c, true) || (w in ws && w < Total(Counts(Sizes(occs), c)))
  {
    AllWorkersAt(occs, c, true);
    AllWorkersAt(SetWorkers(occs, c, ws, true), c, true);
    WorkerAfterSet(occs, c, ws, true, w, true);
  }

  lemma {:induction false} CoreOfWorker(occs: seq<seq<bool>>, c: nat, w: nat, k: nat, i: nat, v: bool)
    requires c >= 1 && WorkerIs(occs, c, w, v) && IsCoreOf(Counts(Sizes(occs), c), c, w, k, i)
    ensures i < |occs[k]| && occs[k][i] == v
  {
    OwnsIsOwner(Counts(Sizes(occs), c), k, w);
  }

  /** Giving back free workers that were taken restores the occupancy. */
  lemma {:induction false} GivingBackRestores(occs: seq<seq<bool>>, c: nat, ws: seq<nat>)
    requires c >= 1 && forall w :: w in ws ==> WorkerIs(occs, c, w, false)
    ensures SetWorkers(SetWorkers(occs, c, ws, true), c, ws, false) == occs
  {
    var counts, taken := Counts(Sizes(occs), c), SetWorkers(occs, c, ws, true);
    forall k | 0 <= k < |occs| ensures SetOnMachine(taken[k], counts, c, ws, k, false) == occs[k] {
      forall i: nat | i < |occs[k]| && CoreCovered(counts, c, ws, k, i) ensures !occs[k][i] {
        var w :| w in ws && IsCoreOf(counts, c, w, k, i);
        CoreOfWorker(occs, c, w, k, i, false);
      }
      assert taken[k] == SetOnMachine(occs[k], counts, c, ws, k, true);
    }
  }

  lemma {:induction false} SetWorkersAppend(occs: seq<seq<bool>>, c: nat, a: seq<nat>, b: seq<nat>, v: bool)
    requires c >= 1
    ensures SetWorkers(occs, c, a + b, v) == SetWorkers(SetWorkers(occs, c, a, v), c, b, v)
  {
    var counts, r := Counts(Sizes(occs), c), SetWorkers(occs, c, a, v);
    forall k | 0 <= k < |occs| ensures SetWorkers(occs, c, a + b, v)[k] == SetWorkers(r, c, b, v)[k] {
      assert r[k] == SetOnMachine(occs[k], counts, c, a, k, v);
      forall i: nat
        ensures CoreCovered(counts, c, a + b, k, i) <==>
                CoreCovered(counts, c, a, k, i) || CoreCovered(counts, c, b, k, i)
      {
      }
      assert SetOnMachine(occs[k], counts, c, a + b, k, v) == SetOnMachine(r[k], counts, c, b, k, v);
    }
  }

  lemma {:induction false} SetNoWorker(occs: seq<seq<bool>>, c: nat, v: bool)
    requires c >= 1
    ensures SetWorkers(occs, c, [], v) == occs
  {
    forall k | 0 <= k < |occs| ensures SetWorkers(occs, c, [], v)[k] == occs[k] {
      assert forall i: nat :: !CoreCovered(Counts(Sizes(occs), c), c, [], k, i);
    }
  }

  /** Setting workers of machine k only changes that machine, by its local chunks. */
  lemma {:induction false} SetWorkersOnMachine(occs: seq<seq<bool>>, c: nat, k: nat, js: seq<nat>, v: bool)
    requires c >= 1 && k < |occs| && forall j :: j in js ==> j < Counts(Sizes(occs), c)[k]
    ensures SetWorkers(occs, c, Shift(js, Offset(Counts(Sizes(occs), c), k)), v)
      == occs[k := SetChunks(occs[k], c, js, v)]
  {
    var counts, off := Counts(Sizes(occs), c), Offset(Counts(Sizes(occs), c), k);
    var ws := Shift(js, off);
    forall m | 0 <= m < |occs|
      ensures SetOnMachine(occs[m], counts, c, ws, m, v) == if m == k then SetChunks(occs[k], c, js, v) else occs[m]
    {
      forall i: nat ensures CoreCovered(counts, c, ws, m, i) <==> m == k && CoveredBy(js, c, i) {
        ShiftCovers(counts, c, k, js, m, i);
      }
    }
  }

  lemma {:induction false} SetOneWorker(occs: seq<seq<bool>>, c: nat, k: nat, j: nat, v: bool)
    requires c >= 1 && k < |occs| && j < Counts(Sizes(occs), c)[k]
    ensures SetWorkers(occs, c, [j + Offset(Counts(Sizes(occs), c), k)], v) == occs[k := SetChunk(occs[k], c, j, v)]
  {
    SetWorkersOnMachine(occs, c, k, [j], v);
    assert Shift([j], Offset(Counts(Sizes(occs), c), k)) == [j + Offset(Counts(Sizes(occs), c), k)];
    SetOneMore(occs[k], c, [], j, v);
    assert [] + [j] == [j];
  }

  lemma {:induction false} ShiftCovers(counts: seq<nat>, c: nat, k: nat, js: seq<nat>, m: nat, i: nat)
    requires k < |counts| && m < |counts| && forall j :: j in js ==> j < counts[k]
    ensures CoreCovered(counts, c, Shift(js, Offset(counts, k)), m, i) <==> m == k && CoveredBy(js, c, i)
  {
    var off := Offset(counts, k);
    if CoreCovered(counts, c, Shift(js, off), m, i) {
      var w :| w in Shift(js, off) && IsCoreOf(counts, c, w, m, i);
      ShiftAt(js, off, w);
      OneOwner(counts, k, m, w);
      assert InChunk(c, w - off, i);
    }
    if m == k && CoveredBy(js, c, i) {
      var j :| j in js && InChunk(c, j, i);
      ShiftAt(js, off, j + off);
      assert IsCoreOf(counts, c, j + off, k, i);
    }
  }

  // ----- release, whose worker offset never advances

  /** The first machine from n on with more workers than w. */
  function FirstHosting(counts: seq<nat>, w: nat, n: nat): (t: nat)
    requires n <= |counts|
    ensures n <= t <= |counts| && (t < |counts| ==> w < counts[t])
    ensures forall k :: n <= k < t ==> counts[k] <= w
    decreases |counts| - n
  {
    if n == |counts| || w < counts[n] then n else FirstHosting(counts, w, n + 1)
  }

  ghost function AfterRelease(occs: seq<seq<bool>>, c: nat, w: nat): seq<seq<bool>>
    requires c >= 1
  {
    var t := FirstHosting(Counts(Sizes(occs), c), w, 0);
    if t == |occs| then occs else occs[t := Released(occs[t], c, w)]
  }

  /** Releasing a taken worker frees its cores exactly when no machine before its own hosts a worker. */
  lemma {:induction false} ReleaseFreesItsWorkerIff(occs: seq<seq<bool>>, c: nat, w: nat)
    requires c >= 1 && WorkerIs(occs, c, w, true)
    ensures AfterRelease(occs, c, w) == SetWorkers(occs, c, [w], false) <==>
      Offset(Counts(Sizes(occs), c), Owner(Counts(Sizes(occs), c), w)) == 0
  {
    var counts := Counts(Sizes(occs), c);
    var k, j, t := Owner(counts, w), Local(counts, w), FirstHosting(counts, w, 0);
    NothingBefore(counts, k);
    SetOneWorker(occs, c, k, j, false);
    if Offset(counts, k) == 0 {
      assert t == k && j == w;
    } else {
      assert InChunk(c, j, j * c) && occs[k][j * c];
      if InChunk(c, w, j * c) { OneChunk(c, w, j, j * c); }
      assert AfterRelease(occs, c, w)[k][j * c] && !SetChunk(occs[k], c, j, false)[j * c];
    }
  }

  /** Two machines of one and two cores, all taken by workers of one core. */
  lemma {:induction false} ReleaseMissesItsWorker()
    ensures var occs := [[true], [true, true]];
            && WorkerIs(occs, 1, 1, true) && AfterRelease(occs, 1, 1) == [[true], [true, false]]
            && SetWorkers(occs, 1, [1], false) == [[true], [false, true]]
            && WorkerIs(occs, 1, 2, true) && AfterRelease(occs, 1, 2) == occs
  {
    var occs := [[true], [true, true]];
    var counts := Counts(Sizes(occs), 1);
    assert Offset(counts, 0) == 0 && Offset(counts, 1) == 1 && Offset(counts, 2) == 3;
    OwnsIsOwner(counts, 1, 1);
    OwnsIsOwner(counts, 1, 2);
    assert FirstHosting(counts, 1, 0) == 1 && FirstHosting(counts, 2, 0) == 2;
    assert Released(occs[1], 1, 1) == [true, false];
    SetOneWorker(occs, 1, 1, 0, false);
    assert SetChunk(occs[1], 1, 0, false) == [false, true];
  }

  // ----- cores numbered through all machines

  function PartOf(sizes: seq<nat>, flags: seq<bool>, k: nat): (part: seq<bool>)
    requires |flags| == Total(sizes) && k < |sizes|
    ensures |part| == sizes[k] && IsPartFrom(flags, Offset(sizes, k), part)
  {
    EndsBefore(sizes, k, |sizes|);
    flags[Offset(sizes, k)..Offset(sizes, k) + sizes[k]]
  }

  /** One flag per core, cut machine by machine. */
  function CutByMachine(sizes: seq<nat>, flags: seq<bool>): (r: seq<seq<bool>>)
    requires |flags| == Total(sizes)
    ensures Sizes(r) == sizes
    ensures forall k {:trigger r[k]} :: 0 <= k < |r| ==> IsPartFrom(flags, Offset(sizes, k), r[k])
  {
    seq(|sizes|, k requires 0 <= k < |sizes| => PartOf(sizes, flags, k))
  }

  predicate IsPartFrom(flags: seq<bool>, from: nat, part: seq<bool>) {
    from + |part| <= |flags| && part == flags[from..from + |part|]
  }

  function Prefix(s: seq<nat>, n: nat): (r: seq<nat>)
    ensures |r| <= n
  {
    if n < |s| then s[..n] else s
  }

  lemma {:induction false} NextPrefix(occs: seq<seq<bool>>, c: nat, k: nat, n: nat)
    requires c >= 1 && k < |occs|
    ensures var ret := Prefix(WorkersBelow(occs, c, false, k), n);
            Prefix(WorkersBelow(occs, c, false, k + 1), n)
              == ret + Shift(Prefix(FreeIds(occs[k], c), n - |ret|), Offset(Counts(Sizes(occs), c), k))
  {
    var below, js, offset := WorkersBelow(occs, c, false, k), FreeIds(occs[k], c), Offset(Counts(Sizes(occs), c), k);
    assert WorkersBelow(occs, c, false, k + 1) == below + Shift(js, offset);
    assert Prefix(below + Shift(js, offset), n)
      == Prefix(below, n) + Shift(Prefix(js, n - |Prefix(below, n)|), offset);
  }

  /** The first k machines have been asked for n workers: ret were taken, and nothing else changed. */
  ghost predicate TakenBelow(occs: seq<seq<bool>>, now: seq<seq<bool>>, c: nat, k: nat, n: nat, ret: seq<nat>)
    requires c >= 1 && k <= |occs|
  {
    && ret == Prefix(WorkersBelow(occs, c, false, k), n)
    && now == SetWorkers(occs, c, ret, true)
    && Sizes(now) == Sizes(occs) && forall j :: k <= j < |occs| ==> now[j] == occs[j]
  }

  lemma {:induction false} TakenOnMachine(occs: seq<seq<bool>>, now: seq<seq<bool>>, c: nat, k: nat, n: nat,
      ret: seq<nat>, js: seq<nat>)
    requires c >= 1 && k < |occs| && TakenBelow(occs, now, c, k, n, ret)
    requires js == Prefix(FreeIds(occs[k], c), n - |ret|)
    ensures TakenBelow(occs, now[k := SetChunks(occs[k], c, js, true)], c, k + 1, n,
      ret + Shift(js, Offset(Counts(Sizes(occs), c), k)))
  {
    var ws, next := Shift(js, Offset(Counts(Sizes(occs), c), k)), now[k := SetChunks(occs[k], c, js, true)];
    NextPrefix(occs, c, k, n);
    MaskAt(occs[k], c, false);
    assert forall j :: j in js ==> j in FreeIds(occs[k], c);
    SetWorkersOnMachine(now, c, k, js, true);
    SetWorkersAppend(occs, c, ret, ws, true);
    assert Sizes(next) == Sizes(occs);
  }

  lemma {:induction false} SameFlags(flags: seq<bool>, from: nat, part: seq<bool>, c: nat, j: nat)
    requires IsPartFrom(flags, from, part) && j * c + c <= |part|
    ensures ChunkIs(part, c, j, true) <==> forall i :: from + j * c <= i < from + j * c + c ==> flags[i]
  {
    forall i | j * c <= i < j * c + c ensures part[i] == flags[from + i] {}
    if ChunkIs(part, c, j, true) {
      forall i | from + j * c <= i < from + j * c + c ensures flags[i] { assert part[i - from]; }
    }
  }

  class PlayGround {
    const data: seq<Resource>

    constructor (data: seq<Resource>)
      ensures this.data == data
    {
      this.data := data;
    }

    /** Every machine has its own cores. */
    ghost predicate Valid() {
      forall j, k :: 0 <= j < k < |data| ==> data[j].occupied != data[k].occupied
    }

    ghost function Cores(): set<object> {
      set r | r in data :: r.occupied
    }

    ghost function Occupancy(): (occs: seq<seq<bool>>)
      reads Cores()
      ensures |occs| == |data| && forall k {:trigger occs[k]} :: 0 <= k < |occs| ==> occs[k] == data[k].occupied[..]
    {
      seq(|data|, k requires 0 <= k < |data| reads Cores() => data[k].occupied[..])
    }

    ghost function MachineSizes(): (sizes: seq<nat>)
      ensures |sizes| == |data| && forall k {:trigger sizes[k]} :: 0 <= k < |sizes| ==> sizes[k] == data[k].NbCores()
    {
      seq(|data|, k requires 0 <= k < |data| => data[k].NbCores())
    }

    ghost function WorkerCounts(c: nat): (counts: seq<nat>)
      requires c >= 1
      ensures |counts| == |data|
      ensures forall k {:trigger counts[k]} :: 0 <= k < |counts| ==> counts[k] == data[k].NbCores() / c
    {
      Counts(MachineSizes(), c)
    }

    method GetNumberOfFreePlace(c: nat) returns (ret: nat)
      requires c >= 1
      ensures ret == |AllWorkers(Occupancy(), c, false)|
    {
      ret := 0;
      ghost var occs := Occupancy();
      for k := 0 to |data|
        invariant ret == |WorkersBelow(occs, c, false, k)|
      {
        assert data[k].occupied[..] == occs[k];
        var n := data[k].GetNumberOfFreePlace(c);
        ret := ret + n;
      }
      assert |occs| == |data| && occs == Occupancy();
    }

    method AllocateOn(k: nat, nbOfPlacesToTake: nat, c: nat) returns (js: seq<nat>, left: nat)
      requires c >= 1 && Valid() && k < |data|
      modifies data[k].occupied
      ensures js == Prefix(FreeIds(old(Occupancy())[k], c), nbOfPlacesToTake) && left == nbOfPlacesToTake - |js|
      ensures Occupancy() == old(Occupancy())[k := SetChunks(old(Occupancy())[k], c, js, true)]
    {
      ghost var occs := Occupancy();
      js, left := data[k].AllocateFor(nbOfPlacesToTake, c);
      forall j | 0 <= j < |data| && j != k ensures Occupancy()[j] == occs[j] {
        assert data[j].occupied != data[k].occupied;
      }
    }

    /** Takes the first free workers; when there are too few, those are taken all the same. */
    method AllocateFor(nbOfPlacesToTake: nat, c: nat) returns (r: Result<seq<nat>, Error>)
      requires c >= 1 && Valid()
      modifies Cores()
      ensures var free := AllWorkers(old(Occupancy()), c, false);
              var taken := Prefix(free, nbOfPlacesToTake);
              && Occupancy() == SetWorkers(old(Occupancy()), c, taken, true)
              && r == if nbOfPlacesToTake <= |free| then Success(taken) else Failure(PlaceMissing)
    {
      var left, offset, ret := nbOfPlacesToTake, 0, [];
      ghost var occs := Occupancy();
      SetNoWorker(occs, c, true);
      for k := 0 to |data|
        invariant offset == Offset(Counts(Sizes(occs), c), k)
        invariant left == nbOfPlacesToTake - |ret| && TakenBelow(occs, Occupancy(), c, k, nbOfPlacesToTake, ret)
      {
        ghost var now := Occupancy();
        var contIdsInRes, l := AllocateOn(k, left, c);
        TakenOnMachine(occs, now, c, k, nbOfPlacesToTake, ret, contIdsInRes);
        left, ret := l, ret + Shift(contIdsInRes, offset);
        assert Sizes(occs)[k] == data[k].NbCores();
        offset := offset + data[k].NbCores() / c;
      }
      if left != 0 || |ret| != nbOfPlacesToTake { return Failure(PlaceMissing); }
      return Success(ret);
    }

    method Release(workerId: nat, c: nat) returns (r: Result<(), Error>)
      requires c >= 1 && Valid()
      modifies Cores()
      ensures Occupancy() == AfterRelease(old(Occupancy()), c, workerId)
      ensures var t := FirstHosting(WorkerCounts(c), workerId, 0);
              r == if t == |data| || ChunkIs(old(Occupancy())[t], c, workerId, true) then Success(())
                   else Failure(CoreNotOccupied)
    {
      var offset := 0;
      ghost var occs := Occupancy();
      assert Counts(Sizes(occs), c) == WorkerCounts(c);
      for k := 0 to |data|
        invariant Occupancy() == occs
        invariant FirstHosting(WorkerCounts(c), workerId, 0) == FirstHosting(WorkerCounts(c), workerId, k)
      {
        var nbOfWorker := data[k].NbCores() / c;
        var minId, maxId := offset, offset + nbOfWorker;
        if minId <= workerId < maxId {
          r := data[k].Release(workerId - minId, c);
          return;
        }
      }
      return Success(());
    }

    /** The machine of a worker; ids past the last worker wrap round. */
    method FromWorkerIdToResId(workerId: nat, c: nat) returns (zePos: nat)
      requires c >= 1 && |data| > 0
      ensures zePos == if workerId < Total(WorkerCounts(c)) then Owner(WorkerCounts(c), workerId)
                       else workerId % |data|
    {
      var deltas := new nat[|data| + 1];
      deltas[0] := 0;
      ghost var counts := WorkerCounts(c);
      for i := 0 to |data|
        invariant forall k {:trigger deltas[k]} :: 0 <= k <= i ==> deltas[k] == Offset(counts, k)
      {
        deltas[i + 1] := deltas[i] + data[i].NbCores() / c;
      }
      zePos := 0;
      while zePos < |data| && (workerId < deltas[zePos] || workerId >= deltas[zePos + 1])
        invariant zePos <= |data| && Offset(counts, zePos) <= workerId
      {
        zePos := zePos + 1;
      }
      if zePos == |data| {
        zePos := workerId % |data|;
      } else {
        OwnsIsOwner(counts, zePos, workerId);
      }
    }

    /** Appends the workers of one machine all of whose cores are flagged. */
    static method AppendFetched(before: seq<nat>, coreFlags: seq<bool>, posBg: nat, nbCores: nat, posWorker: nat,
        c: nat, ghost part: seq<bool>) returns (ret: seq<nat>, nbWorker: nat)
      requires c >= 1 && IsPartFrom(coreFlags, posBg, part) && nbCores == |part|
      ensures ret == before + Shift(WorkersWith(part, c, true), posWorker) && nbWorker == nbCores / c
    {
      ret, nbWorker := before, nbCores / c;
      ghost var mask := ChunkMask(part, c, true);
      for j := 0 to nbWorker
        invariant ret == before + Shift(FirstRanks(mask, j), posWorker)
      {
        ChunkFits(|part|, c, j);
        SameFlags(coreFlags, posBg, part, c, j);
        FirstRanksNext(mask, j);
        if forall i :: posBg + j * c <= i < posBg + j * c + c ==> coreFlags[i] {
          ret := ret + [posWorker + j];
        }
      }
    }

    /** The workers all of whose cores are flagged. */
    method GetWorkerIdsFullyFetchedBy(c: nat, coreFlags: seq<bool>) returns (ret: seq<nat>)
      requires c >= 1 && |coreFlags| == Total(MachineSizes())
      ensures ret == AllWorkers(CutByMachine(MachineSizes(), coreFlags), c, true)
    {
      var posBg, posWorker := 0, 0;
      ret := [];
      ghost var sizes, counts := MachineSizes(), WorkerCounts(c);
      ghost var occs := CutByMachine(sizes, coreFlags);
      assert |occs| == |Sizes(occs)| == |data|;
      for k := 0 to |data|
        invariant posBg == Offset(sizes, k) && posWorker == Offset(counts, k)
        invariant ret == WorkersBelow(occs, c, true, k)
      {
        var nbWorker;
        assert |occs[k]| == Sizes(occs)[k] == data[k].NbCores();
        assert IsPartFrom(coreFlags, Offset(sizes, k), occs[k]);
        ret, nbWorker := AppendFetched(ret, coreFlags, posBg, data[k].NbCores(), posWorker, c, occs[k]);
        posWorker := posWorker + nbWorker;
        posBg := posBg + data[k].NbCores();
      }
    }
  }
}
