/** Cutting the cores of several parts so that no two parts share any. */
module Partitions {
  import opened Allocations
  import opened CriticalPaths
  import opened Fitting
  import opened Greedy
  import opened Lists
  import opened Numbering
  import opened Placing
  import opened Ranks
  import opened Splitting
  import opened Wrappers

  datatype PartError =
    | IncoherentSize | TooManyParts | NoCore | TooManyCores | BadCoreIds
    | Unplaced(error: PlaceError)

  /** A set of cores of a play ground. */
  datatype PartDefinition = All | Contig(start: nat, stop: nat) | NonContig(ids: seq<nat>) {
    function GetCoresOn(n: nat): (on: seq<bool>)
      ensures |on| == n
      ensures forall i {:trigger on[i]} :: 0 <= i < n ==>
        (on[i] <==> All? || (Contig? && start <= i < stop) || (NonContig? && i in ids))
    {
      match this
      case All => seq(n, i => true)
      case Contig(start, stop) => seq(n, i => start <= i < stop)
      case NonContig(ids) => Highlight(n, ids)
    }
  }

  const MAX_PARTS: nat := 31

  ghost predicate AreCores(n: nat, ids: seq<nat>) {
    ids != [] && Increasing(ids) && forall i :: 0 <= i < |ids| ==> ids[i] < n
  }

  ghost predicate NonDecreasing(ids: seq<nat>) {
    forall i, j :: 0 <= i < j < |ids| ==> ids[i] <= ids[j]
  }

  /** Throws on ids out of range or not strictly increasing. */
  method CheckOKIds(n: nat, ids: seq<nat>) returns (ok: bool)
    requires ids != []
    ensures ok <==> AreCores(n, ids)
  {
    if ids[0] >= n { return false; }
    for i := 0 to |ids| - 1
      invariant forall j, k :: 0 <= j < k <= i ==> ids[j] < ids[k]
      invariant forall j :: 0 <= j <= i ==> ids[j] < n
    {
      if ids[i + 1] <= ids[i] || ids[i + 1] >= n { return false; }
    }
    return true;
  }

  /** An increasing list as long as its span leaves nothing out. */
  lemma {:induction false} GapFree(ids: seq<nat>, k: nat)
    requires ids != [] && Increasing(ids) && k < |ids|
    ensures ids[k] >= ids[0] + k
    ensures ids[|ids| - 1] - ids[0] + 1 == |ids| ==> ids[k] == ids[0] + k
    decreases |ids| - k
  {
    Steps(ids, 0, k);
    Steps(ids, k, |ids| - 1);
  }

  lemma {:induction false} Steps(ids: seq<nat>, j: nat, k: nat)
    requires Increasing(ids) && j <= k < |ids|
    ensures ids[k] - ids[j] >= k - j
    decreases k
  {
    if j < k { Steps(ids, j, k - 1); }
  }

  lemma {:induction false} SpanIsList(n: nat, ids: seq<nat>)
    requires ids != [] && Increasing(ids) && ids[|ids| - 1] - ids[0] + 1 == |ids| && ids[|ids| - 1] < n
    ensures Contig(ids[0], ids[|ids| - 1] + 1).GetCoresOn(n) == Highlight(n, ids)
  {
    forall i | 0 <= i < n ensures ids[0] <= i < ids[|ids| - 1] + 1 <==> i in ids {
      if ids[0] <= i < ids[|ids| - 1] + 1 { GapFree(ids, i - ids[0]); }
    }
  }

  /** When the cores of a span are those of a non-decreasing list of the same length, the list has no repetition. */
  lemma {:induction false} ListIsSpan(n: nat, ids: seq<nat>, on: seq<bool>)
    requires ids != [] && NonDecreasing(ids) && ids[|ids| - 1] - ids[0] + 1 == |ids| && ids[|ids| - 1] < n
    requires on == Contig(ids[0], ids[|ids| - 1] + 1).GetCoresOn(n) && on == Highlight(n, ids)
    ensures Increasing(ids)
  {
    var lo, hi := ids[0], ids[|ids| - 1];
    forall x | lo <= x <= hi ensures x in ids { assert on[x]; }
    var span := Below(hi + 1) - Below(lo);
    assert Below(lo) <= Below(hi + 1);
    assert |span| == |ids|;
    assert span <= AsSet(ids);
    SubsetSize(span, AsSet(ids));
    SetIsShorter(ids);
    FullLengthIsDistinct(ids);
  }

  ghost predicate IsSpan(ids: seq<nat>) {
    ids != [] && NonDecreasing(ids) && ids[|ids| - 1] - ids[0] + 1 == |ids|
  }

  /** The span of a list has its cores exactly when the list is increasing and in range. */
  lemma {:induction false} SpanHasCores(n: nat, ids: seq<nat>)
    requires IsSpan(ids) && ids[|ids| - 1] < n
    ensures Contig(ids[0], ids[|ids| - 1] + 1).GetCoresOn(n) == Highlight(n, ids) <==> AreCores(n, ids)
  {
    if AreCores(n, ids) { SpanIsList(n, ids); }
    if Contig(ids[0], ids[|ids| - 1] + 1).GetCoresOn(n) == Highlight(n, ids) {
      ListIsSpan(n, ids, Highlight(n, ids));
    }
  }

  /** The cores from the first listed one to the last; all of them for a list as long as the play ground. */
  function SpanCores(n: nat, ids: seq<nat>): (on: seq<bool>)
    requires ids != []
    ensures |on| == n
  {
    seq(n, i => |ids| == n || ids[0] <= i <= ids[|ids| - 1])
  }

  method BuildSpan(n: nat, coreIds: seq<nat>) returns (r: Result<PartDefinition, PartError>)
    requires IsSpan(coreIds) && |coreIds| <= n
    ensures r.Success? <==> |coreIds| == n || coreIds[|coreIds| - 1] < n
    ensures r.Success? ==> r.value.GetCoresOn(n) == SpanCores(n, coreIds)
    ensures r.Success? && r.value.GetCoresOn(n) == Highlight(n, coreIds) <==> AreCores(n, coreIds)
  {
    var zeStart, zeEnd := coreIds[0], coreIds[|coreIds| - 1];
    if zeEnd < n { SpanHasCores(n, coreIds); }
    if |coreIds| == n {
      SpanOfAll(n, coreIds);
      return Success(All);
    }
    if zeEnd + 1 > n { return Failure(BadCoreIds); }
    return Success(Contig(zeStart, zeEnd + 1));
  }

  /** A list that passes for a span: repetitions are not noticed, nor is the range of a list of full length. */
  ghost predicate IsLooseSpan(n: nat, ids: seq<nat>) {
    IsSpan(ids) && (|ids| == n || ids[|ids| - 1] < n)
  }

  /** The part made of the given cores, in the shortest of its three forms. */
  method BuildFrom(n: nat, coreIds: seq<nat>) returns (r: Result<PartDefinition, PartError>)
    ensures coreIds == [] ==> r == Failure(NoCore)
    ensures r.Success? <==> |coreIds| <= n && (AreCores(n, coreIds) || IsLooseSpan(n, coreIds))
    ensures r.Success? && IsSpan(coreIds) ==> r.value.GetCoresOn(n) == SpanCores(n, coreIds)
    ensures r.Success? && r.value.GetCoresOn(n) == Highlight(n, coreIds) <==> AreCores(n, coreIds)
  {
    var sz := |coreIds|;
    if sz > n {
      if AreCores(n, coreIds) { GapFree(coreIds, sz - 1); }
      return Failure(TooManyCores);
    }
    if sz == 0 { return Failure(NoCore); }
    var zeStart, zeEnd := coreIds[0], coreIds[sz - 1];
    if zeEnd < zeStart { return Failure(BadCoreIds); }
    for i := 0 to sz - 1
      invariant forall j, k :: 0 <= j < k <= i ==> coreIds[j] <= coreIds[k]
    {
      if coreIds[i + 1] < coreIds[i] { return Failure(BadCoreIds); }
    }
    if zeEnd - zeStart + 1 != sz {
      var ok := CheckOKIds(n, coreIds);
      return if ok then Success(NonContig(coreIds)) else Failure(BadCoreIds);
    }
    r := BuildSpan(n, coreIds);
  }

  /** On three cores, the list 0, 2, 2 makes a part with all of them. */
  method RepeatedCoreIsAccepted() returns (r: Result<PartDefinition, PartError>)
    ensures r.Success? && r.value.GetCoresOn(3) == [true, true, true]
    ensures Highlight(3, [0, 2, 2]) == [true, false, true]
  {
    var ids: seq<nat> := [0, 2, 2];
    assert IsSpan(ids);
    r := BuildFrom(3, ids);
  }

  lemma {:induction false} SpanOfAll(n: nat, ids: seq<nat>)
    requires |ids| == n > 0 && NonDecreasing(ids) && ids[n - 1] - ids[0] + 1 == n
    ensures ids[n - 1] < n ==> Contig(ids[0], ids[n - 1] + 1).GetCoresOn(n) == All.GetCoresOn(n)
    ensures ids[n - 1] >= n ==> All.GetCoresOn(n) != Highlight(n, ids)
  {
    if ids[n - 1] >= n { assert 0 !in ids && !Highlight(n, ids)[0] && All.GetCoresOn(n)[0]; }
  }

  // ----- patterns

  /** Which parts have core j. */
  function Code(ons: seq<seq<bool>>, j: nat): (code: seq<bool>)
    requires forall i :: 0 <= i < |ons| ==> j < |ons[i]|
    ensures |code| == |ons| && forall i {:trigger code[i]} :: 0 <= i < |ons| ==> code[i] == ons[i][j]
  {
    seq(|ons|, i requires 0 <= i < |ons| => ons[i][j])
  }

  function Codes(ons: seq<seq<bool>>, n: nat): (codes: seq<seq<bool>>)
    requires forall i :: 0 <= i < |ons| ==> |ons[i]| == n
    ensures |codes| == n && forall j {:trigger codes[j]} :: 0 <= j < n ==> codes[j] == Code(ons, j)
  {
    seq(n, j requires 0 <= j < n => Code(ons, j))
  }

  function Matches(codes: seq<seq<bool>>, code: seq<bool>): (mask: seq<bool>)
    ensures |mask| == |codes| && forall j {:trigger mask[j]} :: 0 <= j < |codes| ==> mask[j] == (codes[j] == code)
  {
    seq(|codes|, j requires 0 <= j < |codes| => codes[j] == code)
  }

  /** The cores that have the given pattern. */
  method GetIdsMatching(codes: seq<seq<bool>>, code: seq<bool>) returns (ret: seq<nat>)
    ensures ret == Positions(Matches(codes, code), true)
  {
    ret := [];
    ghost var mask := Matches(codes, code);
    for i := 0 to |codes|
      invariant ret == FirstRanks(mask, i)
    {
      FirstRanksNext(mask, i);
      if codes[i] == code { ret := ret + [i]; }
    }
  }

  /** The ranks of the parts that a pattern mentions. */
  method BuildVectOfIdsFromVecBool(v: seq<bool>) returns (ret: seq<nat>)
    ensures ret == Positions(v, true)
  {
    ret := [];
    for i := 0 to |v|
      invariant ret == FirstRanks(v, i)
    {
      FirstRanksNext(v, i);
      if v[i] { ret := ret + [i]; }
    }
  }

  /** The branches of the parts that a pattern mentions. */
  function Users(bs: seq<Branch>, code: seq<bool>): (users: seq<Branch>)
    requires |code| == |bs| && AreBranches(bs)
    ensures AreBranches(users) && |users| == |Positions(code, true)|
  {
    PositionsAreRanks(code, true);
    var ids := Positions(code, true);
    assert forall i :: 0 <= i < |ids| ==> ids[i] in ids;
    Permute(bs, ids)
  }

  /** The cores of a pattern, split between the parts that it mentions. */
  ghost function SplitOfCode(sizes: seq<nat>, codes: seq<seq<bool>>, bs: seq<Branch>, code: seq<bool>)
    : Result<seq<seq<nat>>, PlaceError>
    requires AreBranches(bs) && |code| == |bs|
  {
    Split(sizes, Positions(Matches(codes, code), true), Users(bs, code))
  }

  /** The split of a pattern gives core x to part i. */
  ghost predicate Gives(sizes: seq<nat>, codes: seq<seq<bool>>, bs: seq<Branch>, code: seq<bool>, i: nat, x: nat)
    requires AreBranches(bs) && |code| == |bs|
  {
    var ids, ress := Positions(code, true), SplitOfCode(sizes, codes, bs, code);
    i in ids && ress.Success? && PlaceOf(ids, i) < |ress.value| && x in ress.value[PlaceOf(ids, i)]
  }

  /** The split of a pattern only gives cores that have it, to parts that it mentions. */
  lemma {:induction false} GivesMatching(sizes: seq<nat>, codes: seq<seq<bool>>, bs: seq<Branch>, code: seq<bool>,
      i: nat, x: nat)
    requires AreBranches(bs) && |code| == |bs| && |codes| == Total(sizes)
    requires Gives(sizes, codes, bs, code, i, x)
    ensures x < |codes| && codes[x] == code && i < |code| && code[i]
  {
    PositionsAreRanks(code, true);
    PositionsAreRanks(Matches(codes, code), true);
    SplitIsApart(sizes, Positions(Matches(codes, code), true), Users(bs, code));
    var part := SplitOfCode(sizes, codes, bs, code).value[PlaceOf(Positions(code, true), i)];
    assert x in part;
  }

  /** Two patterns never give the same core to two parts. */
  lemma {:induction false} GivenOnce(sizes: seq<nat>, codes: seq<seq<bool>>, bs: seq<Branch>, code: seq<bool>,
      code': seq<bool>, i: nat, i': nat, x: nat)
    requires AreBranches(bs) && |code| == |code'| == |bs| && |codes| == Total(sizes)
    requires Gives(sizes, codes, bs, code, i, x) && Gives(sizes, codes, bs, code', i', x)
    ensures i == i'
  {
    GivesMatching(sizes, codes, bs, code, i, x);
    GivesMatching(sizes, codes, bs, code', i', x);
    var ids, parts := Positions(code, true), SplitOfCode(sizes, codes, bs, code).value;
    SplitIsApart(sizes, Positions(Matches(codes, code), true), Users(bs, code));
    var a, b := PlaceOf(ids, i), PlaceOf(ids, i');
    assert x in parts[a] && x in parts[b];
    if a < b {} else if b < a {} else { assert ids[a] == i && ids[b] == i'; }
  }

  // ----- the partition

  ghost predicate AreCodes(codes: seq<seq<bool>>, sz: nat) {
    forall j {:trigger codes[j]} :: 0 <= j < |codes| ==> |codes[j]| == sz
  }

  /** One of the first n cores has a pattern whose split gives core x to part i. */
  ghost predicate GivenBelow(sizes: seq<nat>, codes: seq<seq<bool>>, bs: seq<Branch>, n: nat, i: nat, x: nat)
    requires AreBranches(bs) && AreCodes(codes, |bs|) && n <= |codes|
  {
    exists j {:trigger codes[j]} :: 0 <= j < n && Gives(sizes, codes, bs, codes[j], i, x)
  }

  /** The cores of a pattern that mentions some part can be split. */
  ghost predicate CanSplit(sizes: seq<nat>, codes: seq<seq<bool>>, bs: seq<Branch>, code: seq<bool>)
    requires AreBranches(bs) && |code| == |bs|
  {
    Positions(code, true) == [] || SplitOfCode(sizes, codes, bs, code).Success?
  }

  /** The patterns of the first n cores could be split, and the ids listed for each part are those that it gave. */
  ghost predicate Collected(sizes: seq<nat>, codes: seq<seq<bool>>, bs: seq<Branch>, n: nat, retIds: seq<seq<nat>>)
    requires AreBranches(bs) && AreCodes(codes, |bs|) && n <= |codes|
  {
    |retIds| == |bs| && (forall j {:trigger codes[j]} :: 0 <= j < n ==> CanSplit(sizes, codes, bs, codes[j])) &&
    forall i, x: nat {:trigger x in retIds[i]} :: 0 <= i < |bs| ==>
      (x in retIds[i] <==> GivenBelow(sizes, codes, bs, n, i, x))
  }

  /** Appends to each part what the split of one pattern gives it. */
  method Distribute(ids: seq<nat>, ress: seq<seq<nat>>, before: seq<seq<nat>>) returns (retIds: seq<seq<nat>>)
    requires |ress| == |ids| && Increasing(ids) && forall k :: 0 <= k < |ids| ==> ids[k] < |before|
    ensures |retIds| == |before|
    ensures forall i {:trigger retIds[i]} :: 0 <= i < |before| ==>
      retIds[i] == before[i] + if i in ids then ress[PlaceOf(ids, i)] else []
  {
    retIds := before;
    for k := 0 to |ids|
      invariant |retIds| == |before|
      invariant forall i {:trigger retIds[i]} :: 0 <= i < |before| ==>
        retIds[i] == before[i] + if i in ids && PlaceOf(ids, i) < k then ress[PlaceOf(ids, i)] else []
    {
      assert ids[PlaceOf(ids, ids[k])] == ids[k];
      retIds := retIds[ids[k] := retIds[ids[k]] + ress[k]];
    }
  }

  /** The ids after a pattern was split: those of before and those that the split gives. */
  ghost predicate Adds(sizes: seq<nat>, codes: seq<seq<bool>>, bs: seq<Branch>, code: seq<bool>,
    before: seq<seq<nat>>, after: seq<seq<nat>>)
    requires AreBranches(bs) && |code| == |bs|
  {
    |before| == |after| == |bs| && forall i, x: nat {:trigger x in after[i]} :: 0 <= i < |bs| ==>
      (x in after[i] <==> x in before[i] || Gives(sizes, codes, bs, code, i, x))
  }

  lemma {:induction false} CollectOneMore(sizes: seq<nat>, codes: seq<seq<bool>>, bs: seq<Branch>, n: nat,
      before: seq<seq<nat>>, retIds: seq<seq<nat>>)
    requires AreBranches(bs) && AreCodes(codes, |bs|) && n < |codes| && Collected(sizes, codes, bs, n, before)
    requires Adds(sizes, codes, bs, codes[n], before, retIds) && CanSplit(sizes, codes, bs, codes[n])
    ensures Collected(sizes, codes, bs, n + 1, retIds)
  {
    forall i: nat, x: nat | i < |bs| ensures x in retIds[i] <==> GivenBelow(sizes, codes, bs, n + 1, i, x) {
      assert x in before[i] <==> GivenBelow(sizes, codes, bs, n, i, x);
    }
  }

  /** Splits one pattern between the parts that it mentions. */
  method SplitPattern(sizes: seq<nat>, codes: seq<seq<bool>>, bs: seq<Branch>, code: seq<bool>, before: seq<seq<nat>>)
    returns (r: Result<seq<seq<nat>>, PlaceError>)
    requires AreBranches(bs) && |code| == |bs| == |before| && |codes| == Total(sizes)
    ensures r.Success? <==> CanSplit(sizes, codes, bs, code)
    ensures r.Success? ==> Adds(sizes, codes, bs, code, before, r.value)
  {
    var locIds := GetIdsMatching(codes, code);
    var partsIds := BuildVectOfIdsFromVecBool(code);
    if partsIds == [] { return Success(before); }
    PositionsAreRanks(code, true);
    assert forall k :: 0 <= k < |partsIds| ==> partsIds[k] in partsIds;
    var ress := SplitIntoParts(sizes, locIds, Users(bs, code));
    if ress.Failure? { return Failure(ress.error); }
    SplitIsApart(sizes, locIds, Users(bs, code));
    var after := Distribute(partsIds, ress.value, before);
    return Success(after);
  }

  /** Some core is given to part i. */
  ghost predicate GetsSome(sizes: seq<nat>, codes: seq<seq<bool>>, bs: seq<Branch>, i: nat)
    requires AreBranches(bs) && AreCodes(codes, |bs|)
  {
    exists x: nat :: GivenBelow(sizes, codes, bs, |codes|, i, x)
  }

  /** Every pattern can be split, and every part is given some core. */
  ghost predicate CanPartition(sizes: seq<nat>, codes: seq<seq<bool>>, bs: seq<Branch>)
    requires AreBranches(bs) && AreCodes(codes, |bs|)
  {
    && (forall j {:trigger CanSplit(sizes, codes, bs, codes[j])} :: 0 <= j < |codes| ==>
          CanSplit(sizes, codes, bs, codes[j]))
    && forall i: nat {:trigger GetsSome(sizes, codes, bs, i)} :: i < |bs| ==> GetsSome(sizes, codes, bs, i)
  }

  /** The first shares of the parts with a pattern fit into its cores. */
  ghost predicate PatternFits(codes: seq<seq<bool>>, bs: seq<Branch>, code: seq<bool>)
    requires AreBranches(bs) && |code| == |bs|
  {
    SharesFit(Users(bs, code), |Positions(Matches(codes, code), true)|)
  }

  /** Some core belongs to part i. */
  ghost predicate HasCore(codes: seq<seq<bool>>, sz: nat, i: nat)
    requires AreCodes(codes, sz) && i < sz
  {
    exists j {:trigger codes[j]} :: 0 <= j < |codes| && codes[j][i]
  }

  /** When the first shares fit into the cores of each pattern, and each part has some core, the parts can be cut. */
  lemma {:induction false} FittingPartsCanBeCut(sizes: seq<nat>, codes: seq<seq<bool>>, bs: seq<Branch>)
    requires AreBranches(bs) && AreCodes(codes, |bs|) && |codes| == Total(sizes)
    requires forall j {:trigger codes[j]} :: 0 <= j < |codes| ==> PatternFits(codes, bs, codes[j])
    requires forall i: nat {:trigger HasCore(codes, |bs|, i)} :: i < |bs| ==> HasCore(codes, |bs|, i)
    ensures CanPartition(sizes, codes, bs)
  {
    forall j | 0 <= j < |codes|
      ensures SplitOfCode(sizes, codes, bs, codes[j]).Success? && CanSplit(sizes, codes, bs, codes[j])
    {
      PatternIsSplit(sizes, codes, bs, codes[j]);
    }
    forall i: nat | i < |bs| ensures GetsSome(sizes, codes, bs, i) {
      assert HasCore(codes, |bs|, i);
      var j :| 0 <= j < |codes| && codes[j][i];
      PartIsGiven(sizes, codes, bs, j, i);
    }
  }

  lemma {:induction false} PatternIsSplit(sizes: seq<nat>, codes: seq<seq<bool>>, bs: seq<Branch>, code: seq<bool>)
    requires AreBranches(bs) && |code| == |bs| && |codes| == Total(sizes) && PatternFits(codes, bs, code)
    ensures SplitOfCode(sizes, codes, bs, code).Success?
  {
    PositionsAreRanks(Matches(codes, code), true);
    SplitSucceeds(sizes, Positions(Matches(codes, code), true), Users(bs, code));
  }

  lemma {:induction false} PartIsGiven(sizes: seq<nat>, codes: seq<seq<bool>>, bs: seq<Branch>, j: nat, i: nat)
    requires AreBranches(bs) && AreCodes(codes, |bs|) && j < |codes| && i < |bs| && codes[j][i]
    requires SplitOfCode(sizes, codes, bs, codes[j]).Success?
    ensures GetsSome(sizes, codes, bs, i)
  {
    var ids, ress := Positions(codes[j], true), SplitOfCode(sizes, codes, bs, codes[j]).value;
    PositionsAreRanks(codes[j], true);
    SplitIsApart(sizes, Positions(Matches(codes, codes[j]), true), Users(bs, codes[j]));
    var part := ress[PlaceOf(ids, i)];
    assert part != [] && part[0] in part;
    assert Gives(sizes, codes, bs, codes[j], i, part[0]);
    assert GivenBelow(sizes, codes, bs, |codes|, i, part[0]);
  }

  /** Splits the pattern of every core, as often as it occurs. */
  method CollectIds(sizes: seq<nat>, codes: seq<seq<bool>>, bs: seq<Branch>)
    returns (r: Result<seq<seq<nat>>, PlaceError>)
    requires AreBranches(bs) && AreCodes(codes, |bs|) && |codes| == Total(sizes)
    ensures r.Success? ==> Collected(sizes, codes, bs, |codes|, r.value)
    ensures r.Failure? ==> !CanPartition(sizes, codes, bs)
  {
    var retIds := seq(|bs|, i => []);
    for j := 0 to |codes|
      invariant Collected(sizes, codes, bs, j, retIds)
    {
      var next := SplitPattern(sizes, codes, bs, codes[j], retIds);
      if next.Failure? { return next; }
      CollectOneMore(sizes, codes, bs, j, retIds, next.value);
      retIds := next.value;
    }
    return Success(retIds);
  }

  /** The ids sorted and without repetition, as a set lists them. */
  function SortedIds(n: nat, ids: seq<nat>): seq<nat> {
    Positions(Highlight(n, ids), true)
  }

  lemma {:induction false} SortedIdsAreCores(n: nat, ids: seq<nat>)
    requires forall x :: x in ids ==> x < n
    ensures SortedIds(n, ids) == [] <==> ids == []
    ensures ids != [] ==> AreCores(n, SortedIds(n, ids)) && Highlight(n, SortedIds(n, ids)) == Highlight(n, ids)
  {
    var v := SortedIds(n, ids);
    PositionsAreRanks(Highlight(n, ids), true);
    assert forall k :: 0 <= k < |v| ==> v[k] in v;
    if ids != [] { assert ids[0] in ids && ids[0] in v; }
    if v != [] { assert v[0] in v && Highlight(n, ids)[v[0]]; }
  }

  /** The part has exactly the listed cores. */
  ghost predicate IsPart(pd: PartDefinition, n: nat, ids: seq<nat>) {
    pd.GetCoresOn(n) == Highlight(n, ids)
  }

  method BuildPart(n: nat, ids: seq<nat>) returns (r: Result<PartDefinition, PartError>)
    requires forall x :: x in ids ==> x < n
    ensures r.Failure? <==> ids == []
    ensures r.Failure? ==> r.error == NoCore
    ensures r.Success? ==> IsPart(r.value, n, ids)
  {
    SortedIdsAreCores(n, ids);
    r := BuildFrom(n, SortedIds(n, ids));
  }

  /** The parts made of the collected ids. */
  method BuildParts(n: nat, retIds: seq<seq<nat>>) returns (r: Result<seq<PartDefinition>, PartError>)
    requires forall i, x {:trigger x in retIds[i]} :: 0 <= i < |retIds| && x in retIds[i] ==> x < n
    ensures r.Failure? <==> [] in retIds
    ensures r.Failure? ==> r.error == NoCore
    ensures r.Success? ==> |r.value| == |retIds|
    ensures r.Success? ==> forall i {:trigger r.value[i]} :: 0 <= i < |retIds| ==> IsPart(r.value[i], n, retIds[i])
  {
    var ret: seq<PartDefinition> := [];
    for i := 0 to |retIds|
      invariant |ret| == i && [] !in retIds[..i]
      invariant forall k {:trigger ret[k]} :: 0 <= k < i ==> IsPart(ret[k], n, retIds[k])
    {
      var pd := BuildPart(n, retIds[i]);
      if pd.Failure? { return Failure(pd.error); }
      assert retIds[..i + 1] == retIds[..i] + [retIds[i]];
      ret := ret + [pd.value];
    }
    assert retIds[..|retIds|] == retIds;
    return Success(ret);
  }

  function Branches(weights: seq<ComplexWeight>, shots: seq<nat>): (bs: seq<Branch>)
    requires |weights| == |shots| && HaveCores(shots) && forall i :: 0 <= i < |weights| ==> weights[i].Valid()
    ensures AreBranches(bs) && |bs| == |weights|
    ensures forall i {:trigger bs[i]} :: 0 <= i < |bs| ==> bs[i].weight == weights[i] && bs[i].shot == shots[i]
  {
    seq(|weights|, i requires 0 <= i < |weights| => Branch(weights[i], shots[i]))
  }

  function CoresOn(parts: seq<PartDefinition>, n: nat): (ons: seq<seq<bool>>)
    ensures |ons| == |parts| && forall i {:trigger ons[i]} :: 0 <= i < |ons| ==> |ons[i]| == n
    ensures forall i {:trigger ons[i]} :: 0 <= i < |ons| ==> ons[i] == parts[i].GetCoresOn(n)
  {
    seq(|parts|, i requires 0 <= i < |parts| => parts[i].GetCoresOn(n))
  }

  predicate Within(a: seq<bool>, b: seq<bool>)
    requires |a| == |b|
  {
    forall x {:trigger a[x]} :: 0 <= x < |a| && a[x] ==> b[x]
  }

  predicate NoShared(a: seq<bool>, b: seq<bool>)
    requires |a| == |b|
  {
    forall x {:trigger a[x]} :: 0 <= x < |a| && a[x] ==> !b[x]
  }

  /** Non-empty parts, each within the cores of the given part of the same rank, and no core in two of them. */
  ghost predicate Separate(ons: seq<seq<bool>>, rets: seq<seq<bool>>, n: nat)
    requires |ons| == |rets| && forall i :: 0 <= i < |ons| ==> |ons[i]| == |rets[i]| == n
  {
    && (forall i {:trigger rets[i]} :: 0 <= i < |rets| ==> true in rets[i] && Within(rets[i], ons[i]))
    && forall i, j {:trigger rets[i], rets[j]} :: 0 <= i < j < |rets| ==> NoShared(rets[i], rets[j])
  }

  /** The same said of lists of ids. */
  ghost predicate SeparateIds(ons: seq<seq<bool>>, retIds: seq<seq<nat>>, n: nat)
    requires |ons| == |retIds| && forall i :: 0 <= i < |ons| ==> |ons[i]| == n
  {
    && (forall i, x: nat {:trigger x in retIds[i]} :: 0 <= i < |retIds| && x in retIds[i] ==> x < n && ons[i][x])
    && forall i, j, x: nat {:trigger x in retIds[i], x in retIds[j]} ::
      0 <= i < j < |retIds| && x in retIds[i] ==> x !in retIds[j]
  }

  lemma {:induction false} SeparateFlags(ons: seq<seq<bool>>, retIds: seq<seq<nat>>, rets: seq<seq<bool>>, n: nat)
    requires |ons| == |retIds| == |rets| && forall i :: 0 <= i < |ons| ==> |ons[i]| == |rets[i]| == n
    requires SeparateIds(ons, retIds, n) && [] !in retIds
    requires forall i {:trigger rets[i]} :: 0 <= i < |rets| ==> rets[i] == Highlight(n, retIds[i])
    ensures Separate(ons, rets, n)
  {
    forall i | 0 <= i < |rets| ensures true in rets[i] && Within(rets[i], ons[i]) {
      assert retIds[i] in retIds && retIds[i][0] in retIds[i];
      assert rets[i][retIds[i][0]];
    }
  }

  lemma {:induction false} CollectedAreSeparate(sizes: seq<nat>, ons: seq<seq<bool>>, bs: seq<Branch>,
      retIds: seq<seq<nat>>)
    requires AreBranches(bs) && |ons| == |bs| && forall i :: 0 <= i < |ons| ==> |ons[i]| == Total(sizes)
    requires Collected(sizes, Codes(ons, Total(sizes)), bs, Total(sizes), retIds)
    ensures SeparateIds(ons, retIds, Total(sizes))
  {
    forall i, x: nat | 0 <= i < |retIds| && x in retIds[i] ensures x < Total(sizes) && ons[i][x] {
      CollectedMatch(sizes, ons, bs, retIds, i, x);
    }
    forall i, j, x: nat | 0 <= i < j < |retIds| && x in retIds[i] ensures x !in retIds[j] {
      CollectedOnce(sizes, Codes(ons, Total(sizes)), bs, retIds, i, j, x);
    }
  }

  lemma {:induction false} CollectedOnce(sizes: seq<nat>, codes: seq<seq<bool>>, bs: seq<Branch>,
      retIds: seq<seq<nat>>, i: nat, j: nat, x: nat)
    requires AreBranches(bs) && |codes| == Total(sizes) && AreCodes(codes, |bs|)
    requires Collected(sizes, codes, bs, |codes|, retIds) && i < j < |bs| && x in retIds[i]
    ensures x !in retIds[j]
  {
    if x in retIds[j] {
      var a :| 0 <= a < |codes| && Gives(sizes, codes, bs, codes[a], i, x);
      var b :| 0 <= b < |codes| && Gives(sizes, codes, bs, codes[b], j, x);
      GivenOnce(sizes, codes, bs, codes[a], codes[b], i, j, x);
    }
  }

  lemma {:induction false} CollectedMatch(sizes: seq<nat>, ons: seq<seq<bool>>, bs: seq<Branch>,
      retIds: seq<seq<nat>>, i: nat, x: nat)
    requires AreBranches(bs) && |ons| == |bs| && forall i :: 0 <= i < |ons| ==> |ons[i]| == Total(sizes)
    requires Collected(sizes, Codes(ons, Total(sizes)), bs, Total(sizes), retIds)
    requires i < |bs| && x in retIds[i]
    ensures x < Total(sizes) && ons[i][x]
  {
    var n := Total(sizes);
    var codes := Codes(ons, n);
    assert GivenBelow(sizes, codes, bs, n, i, x);
    var a :| 0 <= a < n && Gives(sizes, codes, bs, codes[a], i, x);
    GivesMatching(sizes, codes, bs, codes[a], i, x);
    assert codes[a][i] == ons[i][a] && codes[x][i] == ons[i][x];
  }

  lemma {:induction false} CollectedGets(sizes: seq<nat>, codes: seq<seq<bool>>, bs: seq<Branch>,
      retIds: seq<seq<nat>>)
    requires AreBranches(bs) && AreCodes(codes, |bs|) && Collected(sizes, codes, bs, |codes|, retIds)
    ensures CanPartition(sizes, codes, bs) <==> [] !in retIds
  {
    forall i: nat | i < |bs| ensures GetsSome(sizes, codes, bs, i) <==> retIds[i] != [] {
      if retIds[i] != [] { assert retIds[i][0] in retIds[i]; }
      if GetsSome(sizes, codes, bs, i) {
        var x: nat :| GivenBelow(sizes, codes, bs, |codes|, i, x);
        assert x in retIds[i];
      }
    }
    if [] in retIds {
      var i :| 0 <= i < |retIds| && retIds[i] == [];
      assert !GetsSome(sizes, codes, bs, i);
    } else {
      assert forall i: nat :: i < |bs| ==> retIds[i] in retIds;
    }
  }

  /** Each part has exactly the cores that the split of some core's pattern gives it. */
  ghost predicate AsGiven(sizes: seq<nat>, codes: seq<seq<bool>>, bs: seq<Branch>, rets: seq<seq<bool>>)
    requires AreBranches(bs) && AreCodes(codes, |bs|) && |rets| == |bs|
  {
    forall i, x: nat {:trigger rets[i][x]} :: 0 <= i < |rets| && x < |rets[i]| ==>
      (rets[i][x] <==> GivenBelow(sizes, codes, bs, |codes|, i, x))
  }

  lemma {:induction false} CollectedAsGiven(sizes: seq<nat>, codes: seq<seq<bool>>, bs: seq<Branch>,
      retIds: seq<seq<nat>>, rets: seq<seq<bool>>, n: nat)
    requires AreBranches(bs) && AreCodes(codes, |bs|) && Collected(sizes, codes, bs, |codes|, retIds)
    requires |rets| == |bs| && forall i {:trigger rets[i]} :: 0 <= i < |rets| ==> rets[i] == Highlight(n, retIds[i])
    ensures AsGiven(sizes, codes, bs, rets)
  {
    forall i, x: nat | 0 <= i < |rets| && x < |rets[i]|
      ensures rets[i][x] <==> GivenBelow(sizes, codes, bs, |codes|, i, x)
    {
      assert rets[i][x] <==> x in retIds[i];
    }
  }

  // ----- how the parts are served

  ghost predicate AreWeights(weights: seq<ComplexWeight>, shots: seq<nat>) {
    |weights| == |shots| && HaveCores(shots) && forall i :: 0 <= i < |weights| ==> weights[i].Valid()
  }

  /** The parts with the pattern, by decreasing shot size, those of the same size by increasing rank. */
  ghost predicate IsTurn(shots: seq<nat>, code: seq<bool>, turn: seq<nat>) {
    && Distinct(turn) && (forall i: nat :: i in turn <==> i < |code| && code[i])
    && (forall k {:trigger turn[k]} :: 0 <= k < |turn| ==> turn[k] < |shots|)
    && forall k, l :: 0 <= k < l < |turn| ==>
      shots[turn[k]] > shots[turn[l]] || (shots[turn[k]] == shots[turn[l]] && turn[k] < turn[l])
  }

  /** The branches of the parts in turn. */
  function InTurn(weights: seq<ComplexWeight>, shots: seq<nat>, turn: seq<nat>): (bs: seq<Branch>)
    requires |weights| == |shots| && forall k {:trigger turn[k]} :: 0 <= k < |turn| ==> turn[k] < |shots|
    ensures |bs| == |turn|
    ensures forall k {:trigger bs[k]} :: 0 <= k < |bs| ==> bs[k] == Branch(weights[turn[k]], shots[turn[k]])
  {
    seq(|turn|, k requires 0 <= k < |turn| => Branch(weights[turn[k]], shots[turn[k]]))
  }

  /** The cores with the pattern that part i has in the end. */
  ghost predicate IsShareOf(codes: seq<seq<bool>>, rets: seq<seq<bool>>, code: seq<bool>, i: nat, share: seq<nat>)
    requires i < |rets|
  {
    forall x: nat {:trigger x in share} ::
      x in share <==> x < |codes| && codes[x] == code && x < |rets[i]| && rets[i][x]
  }

  /** Those cores were placed on what the parts before have left of the cores with the pattern: for the shot size
      of that part, and for the number of cores that its weight gets among those of the parts with the pattern. */
  ghost predicate IsServedInTurn(sizes: seq<nat>, codes: seq<seq<bool>>, weights: seq<ComplexWeight>, shots: seq<nat>,
    code: seq<bool>, turn: seq<nat>, shares: seq<seq<nat>>, k: nat)
    requires AreWeights(weights, shots) && |turn| == |shares| && k < |turn|
    requires forall k {:trigger turn[k]} :: 0 <= k < |turn| ==> turn[k] < |shots|
  {
    var on := Matches(codes, code);
    AreBranches(InTurn(weights, shots, turn)) &&
    Placed(Without(on, shares, k), sizes, Allocation(InTurn(weights, shots, turn), |Positions(on, true)|)[k],
      k + 1 == |turn|, shots[turn[k]], shares[k])
  }

  ghost predicate IsServing(sizes: seq<nat>, codes: seq<seq<bool>>, weights: seq<ComplexWeight>, shots: seq<nat>,
    rets: seq<seq<bool>>, code: seq<bool>, turn: seq<nat>, shares: seq<seq<nat>>)
    requires AreWeights(weights, shots) && |rets| == |shots|
  {
    && IsTurn(shots, code, turn) && |shares| == |turn|
    && forall k {:trigger turn[k]} :: 0 <= k < |turn| ==>
      IsShareOf(codes, rets, code, turn[k], shares[k]) &&
      IsServedInTurn(sizes, codes, weights, shots, code, turn, shares, k)
  }

  ghost predicate PatternServed(sizes: seq<nat>, codes: seq<seq<bool>>, weights: seq<ComplexWeight>,
    shots: seq<nat>, rets: seq<seq<bool>>, code: seq<bool>)
    requires AreWeights(weights, shots) && |rets| == |shots|
  {
    exists turn, shares :: IsServing(sizes, codes, weights, shots, rets, code, turn, shares)
  }

  /** The parts have been served with the cores of each pattern. */
  ghost predicate AllServed(sizes: seq<nat>, codes: seq<seq<bool>>, weights: seq<ComplexWeight>, shots: seq<nat>,
    rets: seq<seq<bool>>)
    requires AreWeights(weights, shots) && |rets| == |shots|
  {
    forall x {:trigger codes[x]} :: 0 <= x < |codes| ==> PatternServed(sizes, codes, weights, shots, rets, codes[x])
  }

  lemma {:induction false} MatchesAreLit(codes: seq<seq<bool>>, code: seq<bool>)
    ensures Highlight(|codes|, Positions(Matches(codes, code), true)) == Matches(codes, code)
  {
    PositionsAreRanks(Matches(codes, code), true);
  }

  /** The split of a pattern gives a part those of its cores that the part has in the end. */
  lemma {:induction false} GivesWhatIsHad(sizes: seq<nat>, codes: seq<seq<bool>>, bs: seq<Branch>,
      rets: seq<seq<bool>>, a: nat, i: nat, x: nat)
    requires AreBranches(bs) && AreCodes(codes, |bs|) && |codes| == Total(sizes) && |rets| == |bs|
    requires AsGiven(sizes, codes, bs, rets) && a < |codes| && i < |bs| && |rets[i]| == |codes|
    ensures Gives(sizes, codes, bs, codes[a], i, x) <==> x < |codes| && codes[x] == codes[a] && rets[i][x]
  {
    if Gives(sizes, codes, bs, codes[a], i, x) { GivesMatching(sizes, codes, bs, codes[a], i, x); }
    if x < |codes| && codes[x] == codes[a] && rets[i][x] {
      var b :| 0 <= b < |codes| && Gives(sizes, codes, bs, codes[b], i, x);
      GivesMatching(sizes, codes, bs, codes[b], i, x);
    }
  }

  lemma {:induction false} TurnOf(bs: seq<Branch>, shots: seq<nat>, code: seq<bool>, order: seq<nat>, turn: seq<nat>)
    requires AreBranches(bs) && |code| == |bs| == |shots|
    requires forall i {:trigger bs[i]} :: 0 <= i < |bs| ==> bs[i].shot == shots[i]
    requires Sorted(Shots(Users(bs, code)), order) && |order| == |Positions(code, true)|
    requires turn == Permute(Positions(code, true), order)
    ensures IsTurn(shots, code, turn)
  {
    var ids, users := Positions(code, true), Users(bs, code);
    PositionsAreRanks(code, true);
    AllRanks(order);
    assert forall k :: 0 <= k < |ids| ==> ids[k] in ids;
    forall i: nat ensures i in turn <==> i < |code| && code[i] {
      if i in ids {
        var k := PlaceOf(order, PlaceOf(ids, i));
        assert turn[k] == ids[order[k]] == i;
      }
    }
    forall k, l | 0 <= k < l < |turn|
      ensures turn[k] != turn[l]
      ensures shots[turn[k]] > shots[turn[l]] || (shots[turn[k]] == shots[turn[l]] && turn[k] < turn[l])
    {
      assert Before(Shots(users), order[k], order[l]);
      assert users[order[k]] == bs[turn[k]] && users[order[l]] == bs[turn[l]];
    }
  }

  /** The order that the split of a pattern follows, as ranks of parts, and what it gives them. */
  ghost predicate IsSplitInTurn(sizes: seq<nat>, codes: seq<seq<bool>>, bs: seq<Branch>, code: seq<bool>,
    order: seq<nat>, turn: seq<nat>, shares: seq<seq<nat>>)
    requires AreBranches(bs) && |code| == |bs|
  {
    var ids, res := Positions(code, true), SplitOfCode(sizes, codes, bs, code);
    && res.Success? && order == Order(Shots(Users(bs, code))) && Sorted(Shots(Users(bs, code)), order)
    && |order| == |res.value| == |ids| && shares == Permute(res.value, order) && turn == Permute(ids, order)
  }

  lemma {:induction false} UsersInTurn(weights: seq<ComplexWeight>, shots: seq<nat>, code: seq<bool>, order: seq<nat>,
      turn: seq<nat>)
    requires AreWeights(weights, shots) && |code| == |shots|
    requires forall k {:trigger turn[k]} :: 0 <= k < |turn| ==> turn[k] < |shots|
    requires forall k :: 0 <= k < |order| ==> order[k] < |Positions(code, true)|
    requires turn == Permute(Positions(code, true), order)
    ensures Permute(Users(Branches(weights, shots), code), order) == InTurn(weights, shots, turn)
  {
    var bs := Branches(weights, shots);
    forall k | 0 <= k < |order| ensures Users(bs, code)[order[k]] == Branch(weights[turn[k]], shots[turn[k]]) {
      assert bs[turn[k]] == Branch(weights[turn[k]], shots[turn[k]]);
    }
  }

  lemma {:induction false} ServedAs(sizes: seq<nat>, coreIds: seq<nat>, users: seq<Branch>, order: seq<nat>,
      parts: seq<seq<nat>>, on: seq<bool>, bs: seq<Branch>, shot: nat, shares: seq<seq<nat>>, k: nat)
    requires AreBranches(users) && |order| == |parts| == |users| && forall i :: 0 <= i < |order| ==> order[i] < |users|
    requires k < |order| && IsServed(sizes, coreIds, users, order, parts, k) && AreBranches(bs)
    requires on == Highlight(Total(sizes), coreIds) && bs == Permute(users, order) && bs[k].shot == shot
    requires shares == Permute(parts, order)
    ensures Placed(Without(on, shares, k), sizes, Allocation(bs, |coreIds|)[k], k + 1 == |order|, shot, shares[k])
  {
    assert bs[k] == users[order[k]];
  }

  lemma {:induction false} PlacedInTurn(sizes: seq<nat>, codes: seq<seq<bool>>, weights: seq<ComplexWeight>,
      shots: seq<nat>, code: seq<bool>, order: seq<nat>, turn: seq<nat>, shares: seq<seq<nat>>, k: nat)
    requires AreWeights(weights, shots) && |code| == |shots| && |codes| == Total(sizes) && k < |turn| == |shares|
    requires IsSplitInTurn(sizes, codes, Branches(weights, shots), code, order, turn, shares)
    requires IsTurn(shots, code, turn)
    ensures IsServedInTurn(sizes, codes, weights, shots, code, turn, shares, k)
  {
    var users, coreIds := Users(Branches(weights, shots), code), Positions(Matches(codes, code), true);
    var parts := Split(sizes, coreIds, users).value;
    PartServesItsBranch(sizes, coreIds, users, k);
    MatchesAreLit(codes, code);
    UsersInTurn(weights, shots, code, order, turn);
    ServedAs(sizes, coreIds, users, order, parts, Matches(codes, code), InTurn(weights, shots, turn), shots[turn[k]],
      shares, k);
  }

  lemma {:induction false} PatternIsServed(sizes: seq<nat>, codes: seq<seq<bool>>, weights: seq<ComplexWeight>,
      shots: seq<nat>, rets: seq<seq<bool>>, a: nat, order: seq<nat>, turn: seq<nat>, shares: seq<seq<nat>>)
    requires AreWeights(weights, shots) && AreCodes(codes, |shots|) && |codes| == Total(sizes) && |rets| == |shots|
    requires AsGiven(sizes, codes, Branches(weights, shots), rets) && a < |codes|
    requires forall i {:trigger rets[i]} :: 0 <= i < |rets| ==> |rets[i]| == |codes|
    requires IsSplitInTurn(sizes, codes, Branches(weights, shots), codes[a], order, turn, shares)
    ensures IsServing(sizes, codes, weights, shots, rets, codes[a], turn, shares)
  {
    var bs := Branches(weights, shots);
    TurnOf(bs, shots, codes[a], order, turn);
    forall k | 0 <= k < |turn|
      ensures IsShareOf(codes, rets, codes[a], turn[k], shares[k])
      ensures IsServedInTurn(sizes, codes, weights, shots, codes[a], turn, shares, k)
    {
      PlacedInTurn(sizes, codes, weights, shots, codes[a], order, turn, shares, k);
      ShareIsHad(sizes, codes, bs, rets, a, turn[k], order[k]);
    }
  }

  lemma {:induction false} ShareIsHad(sizes: seq<nat>, codes: seq<seq<bool>>, bs: seq<Branch>, rets: seq<seq<bool>>,
      a: nat, i: nat, j: nat)
    requires AreBranches(bs) && AreCodes(codes, |bs|) && |codes| == Total(sizes) && |rets| == |bs|
    requires AsGiven(sizes, codes, bs, rets) && a < |codes| && i < |bs| && |rets[i]| == |codes|
    requires j < |Positions(codes[a], true)| && Positions(codes[a], true)[j] == i
    requires SplitOfCode(sizes, codes, bs, codes[a]).Success?
    requires |SplitOfCode(sizes, codes, bs, codes[a]).value| == |Positions(codes[a], true)|
    ensures IsShareOf(codes, rets, codes[a], i, SplitOfCode(sizes, codes, bs, codes[a]).value[j])
  {
    var ids, share := Positions(codes[a], true), SplitOfCode(sizes, codes, bs, codes[a]).value[j];
    PositionsAreRanks(codes[a], true);
    assert ids[j] in ids && ids[PlaceOf(ids, i)] == i;
    assert PlaceOf(ids, i) == j;
    forall x: nat ensures x in share <==> x < |codes| && codes[x] == codes[a] && x < |rets[i]| && rets[i][x] {
      GivesWhatIsHad(sizes, codes, bs, rets, a, i, x);
    }
  }

  /** Whatever is given is served in turn. */
  lemma {:induction false} GivenAreServed(sizes: seq<nat>, codes: seq<seq<bool>>, weights: seq<ComplexWeight>,
      shots: seq<nat>, rets: seq<seq<bool>>)
    requires AreWeights(weights, shots) && AreCodes(codes, |shots|) && |codes| == Total(sizes) && |rets| == |shots|
    requires forall i {:trigger rets[i]} :: 0 <= i < |rets| ==> |rets[i]| == |codes|
    requires CanPartition(sizes, codes, Branches(weights, shots))
    requires AsGiven(sizes, codes, Branches(weights, shots), rets)
    ensures AllServed(sizes, codes, weights, shots, rets)
  {
    var bs := Branches(weights, shots);
    forall a | 0 <= a < |codes| ensures PatternServed(sizes, codes, weights, shots, rets, codes[a]) {
      var code := codes[a];
      assert CanSplit(sizes, codes, bs, code);
      var order := Order(Shots(Users(bs, code)));
      OrderIsSorted(Shots(Users(bs, code)), []);
      if Positions(code, true) == [] {
        NobodyIsServed(sizes, codes, weights, shots, rets, code);
        assert IsServing(sizes, codes, weights, shots, rets, code, [], []);
      } else {
        SplitIsApart(sizes, Positions(Matches(codes, code), true), Users(bs, code));
        var turn := Permute(Positions(code, true), order);
        var shares := Permute(SplitOfCode(sizes, codes, bs, code).value, order);
        PatternIsServed(sizes, codes, weights, shots, rets, a, order, turn, shares);
      }
    }
  }

  lemma {:induction false} NobodyIsServed(sizes: seq<nat>, codes: seq<seq<bool>>, weights: seq<ComplexWeight>,
      shots: seq<nat>, rets: seq<seq<bool>>, code: seq<bool>)
    requires AreWeights(weights, shots) && |rets| == |shots| && Positions(code, true) == []
    ensures IsServing(sizes, codes, weights, shots, rets, code, [], [])
  {
    PositionsAreRanks(code, true);
  }

  method Partition(sizes: seq<nat>, parts: seq<PartDefinition>, weights: seq<ComplexWeight>, nbCoresPerShot: seq<nat>)
    returns (r: Result<seq<PartDefinition>, PartError>)
    requires |weights| == |parts| && HaveCores(nbCoresPerShot)
    requires forall i :: 0 <= i < |weights| ==> weights[i].Valid()
    ensures |parts| != |nbCoresPerShot| <==> r == Failure(IncoherentSize)
    ensures |parts| == |nbCoresPerShot| <= 1 ==> r == Success(parts)
    ensures |parts| == |nbCoresPerShot| > 31 <==> r == Failure(TooManyParts)
    ensures 2 <= |parts| == |nbCoresPerShot| <= 31 ==> var n := Total(sizes);
      (r.Success? <==> CanPartition(sizes, Codes(CoresOn(parts, n), n), Branches(weights, nbCoresPerShot)))
    ensures r.Success? && |parts| >= 2 ==>
      |r.value| == |parts| && Separate(CoresOn(parts, Total(sizes)), CoresOn(r.value, Total(sizes)), Total(sizes))
    ensures r.Success? && |parts| >= 2 ==> var n := Total(sizes);
      AsGiven(sizes, Codes(CoresOn(parts, n), n), Branches(weights, nbCoresPerShot), CoresOn(r.value, n))
    ensures r.Success? && |parts| >= 2 ==> var n := Total(sizes);
      AllServed(sizes, Codes(CoresOn(parts, n), n), weights, nbCoresPerShot, CoresOn(r.value, n))
  {
    var sz, szs := |parts|, Total(sizes);
    if sz != |nbCoresPerShot| { return Failure(IncoherentSize); }
    if sz <= 1 { return Success(parts); }
    if sz > MAX_PARTS { return Failure(TooManyParts); }
    var ons, bs := CoresOn(parts, szs), Branches(weights, nbCoresPerShot);
    var codes := Codes(ons, szs);
    var ids := CollectIds(sizes, codes, bs);
    if ids.Failure? { return Failure(Unplaced(ids.error)); }
    CollectedAreSeparate(sizes, ons, bs, ids.value);
    CollectedGets(sizes, codes, bs, ids.value);
    r := BuildParts(szs, ids.value);
    if r.Success? {
      var rets := CoresOn(r.value, szs);
      assert forall i {:trigger rets[i]} :: 0 <= i < |rets| ==> IsPart(r.value[i], szs, ids.value[i]);
      SeparateFlags(ons, ids.value, rets, szs);
      CollectedAsGiven(sizes, codes, bs, ids.value, rets, szs);
      GivenAreServed(sizes, codes, weights, nbCoresPerShot, rets);
    }
  }
}
