/** The cores of one machine, taken and given back by whole chunks. */
module Resources {
  import opened Wrappers
  import opened Ranks

  datatype Error = InvalidWorker | CoreNotOccupied | PlaceMissing

  lemma {:induction false} MulMonotone(v: nat, w: nat, c: nat)
    requires v <= w
    ensures v * c <= w * c
  {
  }

  /** The chunks of c cores that fit in n cores are those below n / c. */
  lemma {:induction false} ChunkFits(n: nat, c: nat, w: nat)
    requires c >= 1
    ensures w < n / c <==> w * c + c <= n
    ensures n / c * c <= n < n / c * c + c
  {
    var q := n / c;
    assert n == q * c + n % c;
    if w < q {
      MulMonotone(w + 1, q, c);
      assert (w + 1) * c == w * c + c;
    } else {
      MulMonotone(q, w, c);
    }
  }

  /** Different chunks have no core in common. */
  lemma {:induction false} ChunksApart(c: nat, v: nat, w: nat)
    requires v < w
    ensures v * c + c <= w * c
  {
    MulMonotone(v + 1, w, c);
    assert (v + 1) * c == v * c + c;
  }

  /** pos is where worker w starts on n cores, or the end of them when w is past the last worker. */
  predicate AtChunk(pos: nat, w: nat, n: nat, c: nat)
    requires c >= 1
  {
    if w <= n / c then pos == w * c else pos == n
  }

  lemma {:induction false} NextChunk(pos: nat, w: nat, n: nat, c: nat, size: nat)
    requires c >= 1 && AtChunk(pos, w, n, c) && pos < n
    requires size == if pos + c <= n then c else n - pos
    ensures w <= n / c && pos == w * c && (size == c <==> w < n / c)
    ensures AtChunk(pos + size, w + 1, n, c)
  {
    ChunkFits(n, c, w);
    assert (w + 1) * c == w * c + c;
    if size < c { assert w >= n / c; }
  }

  predicate InChunk(c: nat, w: nat, i: int) {
    w * c <= i < w * c + c
  }

  ghost predicate CoveredBy(ws: seq<nat>, c: nat, i: int) {
    exists w {:trigger InChunk(c, w, i)} :: w in ws && InChunk(c, w, i)
  }

  lemma {:induction false} OneChunk(c: nat, v: nat, w: nat, i: int)
    requires InChunk(c, v, i) && InChunk(c, w, i)
    ensures v == w
  {
    if v < w { ChunksApart(c, v, w); }
    if w < v { ChunksApart(c, w, v); }
  }

  ghost predicate ChunkIs(occ: seq<bool>, c: nat, w: nat, v: bool) {
    w * c + c <= |occ| && forall i {:trigger occ[i]} :: w * c <= i < w * c + c ==> occ[i] == v
  }

  ghost function ChunkMask(occ: seq<bool>, c: nat, v: bool): (m: seq<bool>)
    requires c >= 1
    ensures |m| == |occ| / c
  {
    seq(|occ| / c, w requires w >= 0 => ChunkIs(occ, c, w, v))
  }

  lemma {:induction false} MaskIsScan(occ: seq<bool>, now: seq<bool>, c: nat, w: nat, start: nat, pos: nat, free: bool)
    requires c >= 1 && |now| == |occ| && start == w * c && start < pos <= |occ|
    requires forall i :: start <= i < |occ| ==> now[i] == occ[i]
    requires free <==> forall i :: start <= i < pos ==> !now[i]
    requires pos - start == c <==> w < |occ| / c
    ensures w < |ChunkMask(occ, c, false)| && ChunkMask(occ, c, false)[w] <==> pos - start == c && free
  {
    if w < |occ| / c {
      ChunkFits(|occ|, c, w);
      assert ChunkIs(occ, c, w, false) <==> forall i :: start <= i < pos ==> !now[i];
    }
  }

  /** The workers whose cores all carry v, in increasing order. */
  ghost function WorkersWith(occ: seq<bool>, c: nat, v: bool): seq<nat>
    requires c >= 1
  {
    Positions(ChunkMask(occ, c, v), true)
  }

  /** The workers whose cores are all free. */
  ghost function FreeIds(occ: seq<bool>, c: nat): seq<nat>
    requires c >= 1
  {
    WorkersWith(occ, c, false)
  }

  /** The cores with chunk w set to v. */
  function SetChunk(occ: seq<bool>, c: nat, w: nat, v: bool): (r: seq<bool>)
    ensures |r| == |occ|
    ensures forall i {:trigger r[i]} :: 0 <= i < |occ| ==> r[i] == (if InChunk(c, w, i) then v else occ[i])
  {
    seq(|occ|, i requires 0 <= i < |occ| => if InChunk(c, w, i) then v else occ[i])
  }

  ghost function SetChunks(occ: seq<bool>, c: nat, ws: seq<nat>, v: bool): (r: seq<bool>)
    ensures |r| == |occ|
    ensures forall i {:trigger r[i]} :: 0 <= i < |occ| ==> r[i] == (if CoveredBy(ws, c, i) then v else occ[i])
  {
    seq(|occ|, i requires 0 <= i < |occ| => if CoveredBy(ws, c, i) then v else occ[i])
  }

  lemma {:induction false} SetOneMore(occ: seq<bool>, c: nat, ws: seq<nat>, w: nat, v: bool)
    ensures SetChunks(occ, c, ws + [w], v) == SetChunk(SetChunks(occ, c, ws, v), c, w, v)
    ensures SetChunks(occ, c, [], v) == occ
  {
    forall i ensures CoveredBy(ws + [w], c, i) <==> CoveredBy(ws, c, i) || InChunk(c, w, i) {
      assert w in ws + [w];
    }
    assert SetChunks(occ, c, ws + [w], v) == SetChunk(SetChunks(occ, c, ws, v), c, w, v);
  }

  /** What giving chunk w back leaves: the cores are freed up to the first one that was not occupied. */
  ghost function Released(occ: seq<bool>, c: nat, w: nat): (r: seq<bool>)
    ensures |r| == |occ|
    ensures ChunkIs(occ, c, w, true) ==> r == SetChunk(occ, c, w, false)
  {
    seq(|occ|, i requires 0 <= i < |occ| => occ[i] && !(InChunk(c, w, i) && forall k :: w * c <= k <= i ==> occ[k]))
  }

  /** A chunk that is not wholly occupied is freed up to its first free core f, and no further. */
  lemma {:induction false} ReleasedUpTo(occ: seq<bool>, c: nat, w: nat, f: nat)
    requires InChunk(c, w, f) && f < |occ| && !occ[f] && forall k :: w * c <= k < f ==> occ[k]
    ensures !ChunkIs(occ, c, w, true)
    ensures forall i {:trigger Released(occ, c, w)[i]} :: 0 <= i < |occ| ==>
      Released(occ, c, w)[i] == (occ[i] && !(w * c <= i < f))
  {
    var r := Released(occ, c, w);
    forall i | 0 <= i < |occ| ensures r[i] == (occ[i] && !(w * c <= i < f)) {
      if occ[i] && w * c <= i < f {
        assert InChunk(c, w, i);
      } else if occ[i] && InChunk(c, w, i) {
        assert i > f;
      }
    }
  }

  class Resource {
    const name: string
    const occupied: array<bool>

    function NbCores(): nat { occupied.Length }

    constructor (name: string, nbCores: nat)
      ensures this.name == name && fresh(occupied) && occupied[..] == seq(nbCores, i => false)
    {
      this.name := name;
      occupied := new bool[nbCores](i => false);
    }

    function GetNumberOfWorkers(c: nat): nat
      requires c >= 1
    {
      NbCores() / c
    }

    /** Looks at the chunk that starts at pos, or at what is left of it. */
    method ScanChunk(start: nat, c: nat) returns (isChunkFree: bool, posInChunk: nat, pos: nat)
      requires start <= occupied.Length
      ensures pos == start + posInChunk
      ensures posInChunk == if start + c <= occupied.Length then c else occupied.Length - start
      ensures isChunkFree <==> forall i :: start <= i < pos ==> !occupied[i]
    {
      isChunkFree, posInChunk, pos := true, 0, start;
      while posInChunk < c && pos < occupied.Length
        invariant posInChunk <= c && pos == start + posInChunk <= occupied.Length
        invariant isChunkFree <==> forall i :: start <= i < pos ==> !occupied[i]
      {
        if occupied[pos] { isChunkFree := false; }
        posInChunk, pos := posInChunk + 1, pos + 1;
      }
    }

    /** How many chunks of c cores are wholly free. */
    method GetNumberOfFreePlace(c: nat) returns (ret: nat)
      requires c >= 1
      ensures ret == |FreeIds(occupied[..], c)|
    {
      ret := 0;
      var pos := 0;
      ghost var occ, mask, w := occupied[..], ChunkMask(occupied[..], c, false), 0;
      while pos < occupied.Length
        invariant pos <= |occ| && AtChunk(pos, w, |occ|, c)
        invariant ret == |FirstRanks(mask, w)|
      {
        ghost var start := pos;
        var isChunkFree, posInChunk;
        isChunkFree, posInChunk, pos := ScanChunk(pos, c);
        NextChunk(start, w, |occ|, c, posInChunk);
        if isChunkFree && posInChunk == c { ret := ret + 1; }
        MaskIsScan(occ, occ, c, w, start, pos, isChunkFree);
        FirstRanksNext(mask, w);
        w := w + 1;
      }
      ChunkFits(|occ|, c, w);
    }

    /** Occupies the c cores that end at pos, which are those of chunk w. */
    method FillChunk(pos: nat, c: nat, w: nat)
      requires w * c + c == pos <= occupied.Length
      modifies occupied
      ensures occupied[..] == SetChunk(old(occupied[..]), c, w, true)
    {
      for i := 0 to c
        invariant forall k :: 0 <= k < occupied.Length ==>
          occupied[k] == if pos - c <= k < pos - c + i then true else old(occupied[k])
      {
        occupied[pos - c + i] := true;
      }
    }

    /** Takes the first free chunks, as many as asked for or as there are; `left` are missing. */
    method AllocateFor(nbOfPlacesToTake: nat, c: nat) returns (ret: seq<nat>, left: nat)
      requires c >= 1
      modifies occupied
      ensures var free := FreeIds(old(occupied[..]), c);
              var taken := if nbOfPlacesToTake < |free| then nbOfPlacesToTake else |free|;
              ret == free[..taken] && left == nbOfPlacesToTake - taken
      ensures occupied[..] == SetChunks(old(occupied[..]), c, ret, true)
    {
      ret, left := [], nbOfPlacesToTake;
      var pos, curWorkerId := 0, 0;
      ghost var occ, mask := occupied[..], ChunkMask(occupied[..], c, false);
      SetOneMore(occ, c, [], 0, true);
      while pos < occupied.Length && left > 0
        invariant pos <= |occ| && AtChunk(pos, curWorkerId, |occ|, c) && left + |ret| == nbOfPlacesToTake
        invariant ret == FirstRanks(mask, curWorkerId)
        invariant occupied[..] == SetChunks(occ, c, ret, true)
        invariant forall i :: pos <= i < |occ| ==> occupied[i] == occ[i]
      {
        ghost var start := pos;
        var isChunkFree, posInChunk;
        isChunkFree, posInChunk, pos := ScanChunk(pos, c);
        NextChunk(start, curWorkerId, |occ|, c, posInChunk);
        MaskIsScan(occ, occupied[..], c, curWorkerId, start, pos, isChunkFree);
        FirstRanksNext(mask, curWorkerId);
        if isChunkFree && posInChunk == c {
          FillChunk(pos, c, curWorkerId);
          SetOneMore(occ, c, ret, curWorkerId, true);
          ret := ret + [curWorkerId];
          left := left - 1;
        }
        curWorkerId := curWorkerId + 1;
      }
      FirstRanksPrefix(mask, curWorkerId);
      ChunkFits(|occ|, c, curWorkerId);
    }

    /** Gives a chunk back; every core of it is expected to be occupied. */
    method Release(workerId: nat, c: nat) returns (r: Result<(), Error>)
      requires c >= 1
      modifies occupied
      ensures workerId >= occupied.Length / c ==> r == Failure(InvalidWorker) && occupied[..] == old(occupied[..])
      ensures workerId < occupied.Length / c ==>
        && r == (if ChunkIs(old(occupied[..]), c, workerId, true) then Success(()) else Failure(CoreNotOccupied))
        && occupied[..] == Released(old(occupied[..]), c, workerId)
    {
      if workerId >= GetNumberOfWorkers(c) { return Failure(InvalidWorker); }
      ChunkFits(occupied.Length, c, workerId);
      var pos := workerId * c;
      ghost var occ := occupied[..];
      for i := 0 to c
        invariant forall k :: 0 <= k < |occ| ==> occupied[k] == if pos <= k < pos + i then false else occ[k]
        invariant forall k :: pos <= k < pos + i ==> occ[k]
      {
        if !occupied[pos + i] {
          assert !occ[pos + i];
          return Failure(CoreNotOccupied);
        }
        occupied[pos + i] := false;
      }
      return Success(());
    }
  }

  // ----- round trips

  lemma {:induction false} MaskAt(occ: seq<bool>, c: nat, v: bool)
    requires c >= 1
    ensures Increasing(WorkersWith(occ, c, v))
    ensures forall w: nat :: w in WorkersWith(occ, c, v) <==> w < |occ| / c && ChunkIs(occ, c, w, v)
    ensures forall w: nat :: ChunkIs(occ, c, w, v) ==> w < |occ| / c
  {
    PositionsAreRanks(ChunkMask(occ, c, v), true);
    forall w: nat ensures ChunkIs(occ, c, w, v) ==> w < |occ| / c {
      ChunkFits(|occ|, c, w);
    }
  }

  lemma {:induction false} ChunkOfTaken(occ: seq<bool>, c: nat, ws: seq<nat>, w: nat)
    requires c >= 1
    ensures ChunkIs(SetChunks(occ, c, ws, true), c, w, false) <==> ChunkIs(occ, c, w, false) && w !in ws
  {
    var r := SetChunks(occ, c, ws, true);
    forall i | 0 <= i < |occ| && InChunk(c, w, i) ensures r[i] == (occ[i] || w in ws) {
      if CoveredBy(ws, c, i) {
        var x :| x in ws && InChunk(c, x, i);
        OneChunk(c, x, w, i);
      } else {
        assert w !in ws;
      }
    }
    if w * c + c <= |occ| { assert InChunk(c, w, w * c) && r[w * c] == (occ[w * c] || w in ws); }
  }

  /** Taking the first m free workers leaves exactly the other free ones. */
  lemma {:induction false} AllocationLowersFree(occ: seq<bool>, c: nat, m: nat)
    requires c >= 1 && m <= |FreeIds(occ, c)|
    ensures FreeIds(SetChunks(occ, c, FreeIds(occ, c)[..m], true), c) == FreeIds(occ, c)[m..]
  {
    var free, r := FreeIds(occ, c), SetChunks(occ, c, FreeIds(occ, c)[..m], true);
    MaskAt(occ, c, false);
    MaskAt(r, c, false);
    forall w ensures w in FreeIds(r, c) <==> w in free[m..] {
      ChunkOfTaken(occ, c, free[..m], w);
      CutApart(free, m, w);
    }
    IncreasingListsAreEqual(FreeIds(r, c), free[m..]);
  }

  /** Giving back chunks that were taken from free ones restores the occupancy. */
  lemma {:induction false} ReleaseRestores(occ: seq<bool>, c: nat, ws: seq<nat>)
    requires c >= 1 && forall w :: w in ws ==> ChunkIs(occ, c, w, false)
    ensures SetChunks(SetChunks(occ, c, ws, true), c, ws, false) == occ
    ensures forall w :: w in ws ==> ChunkIs(SetChunks(occ, c, ws, true), c, w, true)
  {
    var taken := SetChunks(occ, c, ws, true);
    forall w | w in ws ensures ChunkIs(taken, c, w, true) {
      assert ChunkIs(occ, c, w, false);
      forall i | w * c <= i < w * c + c ensures taken[i] {
        assert InChunk(c, w, i) && CoveredBy(ws, c, i);
      }
    }
    var back := SetChunks(taken, c, ws, false);
    forall i | 0 <= i < |occ| ensures back[i] == occ[i] {
      if CoveredBy(ws, c, i) {
        var w :| w in ws && InChunk(c, w, i);
        assert ChunkIs(occ, c, w, false);
      }
    }
  }
}
