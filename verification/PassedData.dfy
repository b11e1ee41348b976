/** Results that a ForEach loop has already computed: how they are extracted
    from its output sequences and injected into a later run. */
module PassedData {
  import opened Lists
  import opened Wrappers
  import opened Ranks

  newtype Byte = x: int | 0 <= x < 256

  /** The bytes of one element of an output sequence. */
  type Cell = seq<Byte>

  /** The byte that fills the elements nobody has set. */
  const DFT_CHAR_VAR: Byte := 0xEF

  function UnsetCell(width: nat): (c: Cell) {
    seq(width, i => DFT_CHAR_VAR)
  }

  datatype Error = SizeMismatch | TooManyIds | IdOutOfRange | IdTwice | NegativeId | UnknownId | NameMismatch

  // ----- extraction

  ghost function SetMask(cells: seq<Cell>, width: nat): (m: seq<bool>)
    ensures |m| == |cells|
  {
    seq(|cells|, i requires 0 <= i < |cells| => cells[i] != UnsetCell(width))
  }

  ghost predicate CellsOk(cells: seq<Cell>, width: nat) {
    forall i :: 0 <= i < |cells| ==> |cells[i]| == width
  }

  /** An output sequence: elements of a fixed width, updated in place. */
  class SequenceAny {
    const width: nat
    var cells: seq<Cell>

    ghost predicate Valid()
      reads this
    {
      CellsOk(cells, width)
    }

    /** A sequence of unset elements. */
    constructor (width: nat, length: nat)
      ensures Valid() && this.width == width && cells == seq(length, i => UnsetCell(width))
    {
      this.width := width;
      cells := seq(length, i => UnsetCell(width));
    }

    method SetEltAtRank(rank: nat, elem: Cell)
      requires Valid() && rank < |cells| && |elem| == width
      modifies this
      ensures Valid() && cells == old(cells)[rank := elem]
    {
      cells := cells[rank := elem];
    }

    /** The ranks of the elements that differ from the unset pattern, in increasing order. */
    method GetSetItems() returns (ret: seq<nat>)
      requires Valid()
      ensures ret == Positions(SetMask(cells, width), true)
    {
      ret := [];
      ghost var mask := SetMask(cells, width);
      for i := 0 to |cells|
        invariant ret == Positions(mask[..i], true)
      {
        var j := 0;
        while j < width && cells[i][j] == DFT_CHAR_VAR
          invariant j <= width && forall k :: 0 <= k < j ==> cells[i][k] == DFT_CHAR_VAR
        {
          j := j + 1;
        }
        assert j == width <==> cells[i] == UnsetCell(width);
        if j != width { ret := ret + [i]; }
        assert mask[..i + 1][..i] == mask[..i];
      }
      assert mask[..|cells|] == mask;
    }

    /** A new sequence of the set elements only. */
    method RemoveUnsetItems() returns (ret: SequenceAny)
      requires Valid()
      ensures fresh(ret) && ret.Valid() && ret.width == width
      ensures ret.cells == Compact(cells, width)
    {
      var its := GetSetItems();
      PositionsAreRanks(SetMask(cells, width), true);
      ret := new SequenceAny(width, |its|);
      for i := 0 to |its|
        invariant ret.Valid() && |ret.cells| == |its|
        invariant forall k :: 0 <= k < i ==> its[k] < |cells| && ret.cells[k] == cells[its[k]]
      {
        assert its[i] in its;
        ret.SetEltAtRank(i, cells[its[i]]);
      }
    }
  }

  /** The set elements, in the order of their ranks. */
  ghost function Compact(cells: seq<Cell>, width: nat): (c: seq<Cell>) {
    var ps := Positions(SetMask(cells, width), true);
    PositionsAreRanks(SetMask(cells, width), true);
    seq(|ps|, k requires 0 <= k < |ps| => assert ps[k] in ps; cells[ps[k]])
  }

  // ----- injection

  /** The flags raised on exactly the given ids. */
  ghost predicate Flagged(flags: seq<bool>, ids: seq<nat>) {
    (forall i {:trigger flags[i]} :: 0 <= i < |flags| ==> (flags[i] <==> i in ids)) &&
    forall i :: i in ids ==> i < |flags|
  }

  lemma {:induction false} FlaggedCount(flags: seq<bool>, ids: seq<nat>)
    requires Flagged(flags, ids) && Distinct(ids)
    ensures |Positions(flags, true)| == |ids| && |Positions(flags, false)| == |flags| - |ids|
    ensures forall r :: r in Positions(flags, true) <==> r in ids
  {
    var ps := Positions(flags, true);
    PositionsAreRanks(flags, true);
    PositionsComplement(flags);
    DistinctLength(ids);
    DistinctLength(ps);
    assert AsSet(ps) == AsSet(ids);
  }

  /** Writes vals at the ranks ps, in order. */
  ghost function Inject(dest: seq<Cell>, ps: seq<nat>, vals: seq<Cell>): (r: seq<Cell>)
    requires |ps| == |vals| && forall i :: 0 <= i < |ps| ==> ps[i] < |dest|
    ensures |r| == |dest|
    decreases |ps|
  {
    if ps == [] then dest
    else var k := |ps| - 1; Inject(dest, ps[..k], vals[..k])[ps[k] := vals[k]]
  }

  /** Every value lands at its rank. */
  lemma {:induction false} InjectedAt(dest: seq<Cell>, ps: seq<nat>, vals: seq<Cell>, i: nat)
    requires |ps| == |vals| && Distinct(ps) && (forall i :: 0 <= i < |ps| ==> ps[i] < |dest|) && i < |ps|
    ensures Inject(dest, ps, vals)[ps[i]] == vals[i]
    decreases |ps|
  {
    var k := |ps| - 1;
    if i < k { InjectedAt(dest, ps[..k], vals[..k], i); }
  }

  /** The other ranks keep what they had. */
  lemma {:induction false} NotInjected(dest: seq<Cell>, ps: seq<nat>, vals: seq<Cell>, r: nat)
    requires |ps| == |vals| && (forall i :: 0 <= i < |ps| ==> ps[i] < |dest|) && r < |dest| && r !in ps
    ensures Inject(dest, ps, vals)[r] == dest[r]
    decreases |ps|
  {
    if ps != [] {
      var k := |ps| - 1;
      NotInjected(dest, ps[..k], vals[..k], r);
    }
  }

  lemma {:induction false} InjectOneMore(dest: seq<Cell>, ps: seq<nat>, vals: seq<Cell>, j: nat)
    requires |ps| == |vals| && j < |ps| && forall i :: 0 <= i < |ps| ==> ps[i] < |dest|
    ensures Inject(dest, ps[..j + 1], vals[..j + 1]) == Inject(dest, ps[..j], vals[..j])[ps[j] := vals[j]]
  {
    assert ps[..j + 1][..j] == ps[..j] && vals[..j + 1][..j] == vals[..j];
  }

  /** Each of the ranks lies within the destination, and each has a value. */
  ghost predicate RanksIn(ps: seq<nat>, length: nat, values: nat) {
    |ps| == values && forall i {:trigger ps[i]} :: 0 <= i < |ps| ==> ps[i] < length
  }

  lemma {:induction false} RanksOfFlags(flags: seq<bool>)
    ensures RanksIn(Positions(flags, true), |flags|, |Positions(flags, true)|)
  {
    var ps := Positions(flags, true);
    PositionsAreRanks(flags, true);
    assert forall i :: 0 <= i < |ps| ==> ps[i] in ps;
  }

  /** The first n outputs have received their passed values at the flagged ranks; the others are as before. */
  ghost predicate Received(before: seq<seq<Cell>>, after: seq<seq<Cell>>, flags: seq<bool>, passed: seq<seq<Cell>>,
    n: nat)
  {
    && |before| == |after| && n <= |after| && n <= |passed|
    && (forall i {:trigger after[i]} :: n <= i < |after| ==> after[i] == before[i])
    && forall i {:trigger after[i]} :: 0 <= i < n ==>
      RanksIn(Positions(flags, true), |before[i]|, |passed[i]|)
      && after[i] == Inject(before[i], Positions(flags, true), passed[i])
  }

  lemma {:induction false} ReceivedOneMore(before: seq<seq<Cell>>, now: seq<seq<Cell>>, flags: seq<bool>,
      passed: seq<seq<Cell>>, n: nat)
    requires Received(before, now, flags, passed, n) && n < |now| && n < |passed|
    requires RanksIn(Positions(flags, true), |now[n]|, |passed[n]|)
    ensures Received(before, now[n := Inject(now[n], Positions(flags, true), passed[n])], flags, passed, n + 1)
  {
    var after := now[n := Inject(now[n], Positions(flags, true), passed[n])];
    forall i | 0 <= i < n + 1
      ensures RanksIn(Positions(flags, true), |before[i]|, |passed[i]|)
      ensures after[i] == Inject(before[i], Positions(flags, true), passed[i])
    {
      assert i < n ==> after[i] == now[i];
    }
  }

  ghost function CellsOf(vals: seq<SequenceAny>): (r: seq<seq<Cell>>)
    reads vals
    ensures |r| == |vals| && forall i {:trigger r[i]} :: 0 <= i < |r| ==> r[i] == vals[i].cells
  {
    seq(|vals|, i requires 0 <= i < |vals| reads vals => vals[i].cells)
  }

  /** The rank of the localId-th flag that is v. */
  function RankOf(flags: seq<bool>, localId: int, v: bool): (r: Result<nat, Error>)
    ensures r.Success? <==> 0 <= localId < |Positions(flags, v)|
    ensures r.Success? ==> r.value == Positions(flags, v)[localId]
    ensures localId < 0 <==> r == Failure(NegativeId)
  {
    var ps := Positions(flags, v);
    if localId < 0 then Failure(NegativeId)
    else if localId < |ps| then Success(ps[localId])
    else Failure(UnknownId)
  }

  class ForEachLoopPassedData {
    const passedIds: seq<nat>
    const passedOutputs: seq<SequenceAny>
    const nameOfOutputs: seq<string>
    var flagsIds: seq<bool>

    /** Every output sequence has one element per id. */
    ghost predicate Valid()
      reads passedOutputs
    {
      |passedOutputs| == |nameOfOutputs| &&
      forall i {:trigger passedOutputs[i]} :: 0 <= i < |passedOutputs| ==>
        passedOutputs[i].Valid() && |passedOutputs[i].cells| == |passedIds|
    }

    constructor (ids: seq<nat>, outputs: seq<SequenceAny>, names: seq<string>)
      ensures passedIds == ids && passedOutputs == outputs && nameOfOutputs == names && flagsIds == []
    {
      passedIds, passedOutputs, nameOfOutputs, flagsIds := ids, outputs, names, [];
    }

    /** Checks what the constructor checks: one name per output, one value per id in each output. */
    static method New(ids: seq<nat>, outputs: seq<SequenceAny>, names: seq<string>)
      returns (r: Result<ForEachLoopPassedData, Error>)
      requires forall i :: 0 <= i < |outputs| ==> outputs[i].Valid()
      ensures r.Success? <==>
        |outputs| == |names| && forall i {:trigger outputs[i]} :: 0 <= i < |outputs| ==> |outputs[i].cells| == |ids|
      ensures r.Failure? ==> r.error == SizeMismatch
      ensures r.Success? ==> fresh(r.value) && r.value.Valid() && r.value.flagsIds == []
      ensures r.Success? ==>
        r.value.passedIds == ids && r.value.passedOutputs == outputs && r.value.nameOfOutputs == names
    {
      if |outputs| != |names| { return Failure(SizeMismatch); }
      for i := 0 to |outputs|
        invariant forall k :: 0 <= k < i ==> |outputs[k].cells| == |ids|
      {
        if |outputs[i].cells| != |ids| { return Failure(SizeMismatch); }
      }
      var data := new ForEachLoopPassedData(ids, outputs, names);
      return Success(data);
    }

    /** A new run starts: the flags are forgotten. */
    method Init()
      modifies this`flagsIds
      ensures flagsIds == []
    {
      flagsIds := [];
    }

    /** Prepares the flags for a sequence of nbOfElts elements. */
    method CheckCompatibilityWithNb(nbOfElts: int) returns (r: Result<(), Error>)
      modifies this`flagsIds
      ensures r.Success? <==> 0 <= nbOfElts && Distinct(passedIds) && forall i :: i in passedIds ==> i < nbOfElts
      ensures r.Success? ==> |flagsIds| == nbOfElts && Flagged(flagsIds, passedIds)
    {
      if nbOfElts < 0 { return Failure(SizeMismatch); }
      if nbOfElts < |passedIds| {
        TooMany(passedIds, nbOfElts);
        return Failure(TooManyIds);
      }
      for k := 0 to |passedIds|
        invariant forall j :: 0 <= j < k ==> passedIds[j] < nbOfElts
      {
        assert passedIds[k] in passedIds;
        if passedIds[k] >= nbOfElts { return Failure(IdOutOfRange); }
      }
      flagsIds := seq(nbOfElts, i => false);
      for k := 0 to |passedIds|
        invariant |flagsIds| == nbOfElts && Flagged(flagsIds, passedIds[..k]) && Distinct(passedIds[..k])
      {
        if flagsIds[passedIds[k]] { return Failure(IdTwice); }
        flagsIds := flagsIds[passedIds[k] := true];
        assert passedIds[..k + 1] == passedIds[..k] + [passedIds[k]];
      }
      assert passedIds[..|passedIds|] == passedIds;
      return Success(());
    }

    /** The rank of the localId-th flag equal to v. */
    method FindRank(localId: int, v: bool) returns (r: Result<nat, Error>)
      ensures r == RankOf(flagsIds, localId, v)
    {
      if localId < 0 { return Failure(NegativeId); }
      var ret, curLocId := 0, 0;
      while ret < |flagsIds|
        invariant ret <= |flagsIds| && curLocId == |Positions(flagsIds[..ret], v)| <= localId
      {
        PositionsPrefix(flagsIds, v, ret + 1);
        assert flagsIds[..ret + 1][..ret] == flagsIds[..ret];
        if flagsIds[ret] == v {
          if localId == curLocId {
            assert Positions(flagsIds[..ret + 1], v)[localId] == ret;
            return Success(ret);
          }
          curLocId := curLocId + 1;
        }
        ret := ret + 1;
      }
      assert flagsIds[..|flagsIds|] == flagsIds;
      return Failure(UnknownId);
    }

    /** The rank, in the whole sequence, of the localId-th element still to do. */
    method ToAbsId(localId: int) returns (r: Result<nat, Error>)
      ensures r == RankOf(flagsIds, localId, false)
    {
      r := FindRank(localId, false);
    }

    /** The rank, in the whole sequence, of the localId-th element already done. */
    method ToAbsIdNot(localId: int) returns (r: Result<nat, Error>)
      ensures r == RankOf(flagsIds, localId, true)
    {
      r := FindRank(localId, true);
    }

    method GetNumberOfElementsToDo() returns (n: int)
      ensures n == |flagsIds| - |passedIds|
      ensures Flagged(flagsIds, passedIds) && Distinct(passedIds) ==> n == |Positions(flagsIds, false)|
    {
      n := |flagsIds| - |passedIds|;
      if Flagged(flagsIds, passedIds) && Distinct(passedIds) { FlaggedCount(flagsIds, passedIds); }
    }

    /** Copies one sequence of passed results to the flagged ranks of its destination. */
    method AssignOne(elt: SequenceAny, dest: SequenceAny)
      requires elt.Valid() && dest.Valid() && elt != dest && elt.width == dest.width
      requires |elt.cells| == |passedIds| && |dest.cells| == |flagsIds|
      requires Flagged(flagsIds, passedIds) && Distinct(passedIds)
      modifies dest
      ensures dest.Valid() && |dest.cells| == |flagsIds|
      ensures RanksIn(Positions(flagsIds, true), |old(dest.cells)|, |elt.cells|)
      ensures dest.cells == Inject(old(dest.cells), Positions(flagsIds, true), elt.cells)
    {
      ghost var ps, before := Positions(flagsIds, true), dest.cells;
      FlaggedCount(flagsIds, passedIds);
      RanksOfFlags(flagsIds);
      for j := 0 to |elt.cells|
        invariant dest.Valid() && |dest.cells| == |flagsIds|
        invariant dest.cells == Inject(before, ps[..j], elt.cells[..j])
      {
        var jAbs := ToAbsIdNot(j);
        InjectOneMore(before, ps, elt.cells, j);
        dest.SetEltAtRank(jAbs.value, elt.cells[j]);
      }
      assert ps[..|elt.cells|] == ps && elt.cells[..|elt.cells|] == elt.cells;
    }

    /** The passed results must come from output ports of the same names, in the same order. */
    method CheckLevel2(ports: seq<string>) returns (r: Result<(), Error>)
      ensures r == if nameOfOutputs == ports then Success(())
                   else Failure(if |nameOfOutputs| != |ports| then SizeMismatch else NameMismatch)
    {
      if |nameOfOutputs| != |ports| { return Failure(SizeMismatch); }
      for i := 0 to |nameOfOutputs|
        invariant nameOfOutputs[..i] == ports[..i]
      {
        if nameOfOutputs[i] != ports[i] { return Failure(NameMismatch); }
      }
      assert nameOfOutputs[..|nameOfOutputs|] == nameOfOutputs && ports[..|ports|] == ports;
      return Success(());
    }

    /** The sequences of the new run: as many elements as flags, apart from each other and from the passed ones. */
    ghost predicate CanReceive(execVals: seq<SequenceAny>)
      reads this, passedOutputs, execVals
    {
      && (forall i, j {:trigger execVals[i], execVals[j]} :: 0 <= i < j < |execVals| ==> execVals[i] != execVals[j])
      && (forall i {:trigger execVals[i]} :: 0 <= i < |execVals| ==> execVals[i] !in passedOutputs)
      && (forall i {:trigger execVals[i]} :: 0 <= i < |execVals| ==>
        execVals[i].Valid() && |execVals[i].cells| == |flagsIds|)
      && forall i {:trigger execVals[i]} :: 0 <= i < |execVals| && i < |passedOutputs| ==>
        execVals[i].width == passedOutputs[i].width
    }

    /** Copies the passed results of output i. */
    method AssignOutput(execVals: seq<SequenceAny>, i: nat)
      requires Valid() && Flagged(flagsIds, passedIds) && Distinct(passedIds) && CanReceive(execVals)
      requires i < |execVals| && i < |passedOutputs|
      modifies execVals[i]
      ensures Valid() && CanReceive(execVals) && CellsOf(passedOutputs) == old(CellsOf(passedOutputs))
      ensures RanksIn(Positions(flagsIds, true), |old(CellsOf(execVals))[i]|, |CellsOf(passedOutputs)[i]|)
      ensures CellsOf(execVals) == old(CellsOf(execVals))[i :=
        Inject(old(CellsOf(execVals))[i], Positions(flagsIds, true), CellsOf(passedOutputs)[i])]
    {
      assert execVals[i] !in passedOutputs && passedOutputs[i] in passedOutputs;
      AssignOne(passedOutputs[i], execVals[i]);
    }

    /** Copies all passed results into the output sequences of the new run. */
    method AssignAlreadyDone(execVals: seq<SequenceAny>) returns (r: Result<(), Error>)
      requires Valid() && Flagged(flagsIds, passedIds) && Distinct(passedIds) && CanReceive(execVals)
      modifies execVals
      ensures Valid() && CanReceive(execVals) && CellsOf(passedOutputs) == old(CellsOf(passedOutputs))
      ensures r == if |passedOutputs| == |execVals| then Success(()) else Failure(SizeMismatch)
      ensures r.Success? ==>
        Received(old(CellsOf(execVals)), CellsOf(execVals), flagsIds, CellsOf(passedOutputs), |execVals|)
    {
      if |passedOutputs| != |execVals| { return Failure(SizeMismatch); }
      ghost var before := CellsOf(execVals);
      for i := 0 to |execVals|
        invariant Valid() && CanReceive(execVals) && CellsOf(passedOutputs) == old(CellsOf(passedOutputs))
        invariant Received(before, CellsOf(execVals), flagsIds, CellsOf(passedOutputs), i)
      {
        ghost var now := CellsOf(execVals);
        AssignOutput(execVals, i);
        ReceivedOneMore(before, now, flagsIds, CellsOf(passedOutputs), i);
      }
      return Success(());
    }
  }

  // ----- the round trip

  ghost function AllUnset(length: nat, width: nat): seq<Cell> {
    seq(length, i => UnsetCell(width))
  }

  /** Injecting what was extracted rebuilds the sequence: set ranks get their value back, the others stay unset. */
  lemma {:induction false} ExtractThenInject(cells: seq<Cell>, width: nat)
    ensures var ids := Positions(SetMask(cells, width), true);
            RanksIn(ids, |cells|, |Compact(cells, width)|) &&
            Inject(AllUnset(|cells|, width), ids, Compact(cells, width)) == cells
  {
    var mask := SetMask(cells, width);
    var ids := Positions(mask, true);
    PositionsAreRanks(mask, true);
    assert forall i :: 0 <= i < |ids| ==> ids[i] in ids;
    var r := Inject(AllUnset(|cells|, width), ids, Compact(cells, width));
    forall k | 0 <= k < |cells| ensures r[k] == cells[k] {
      if k in ids {
        var i :| 0 <= i < |ids| && ids[i] == k;
        InjectedAt(AllUnset(|cells|, width), ids, Compact(cells, width), i);
      } else {
        NotInjected(AllUnset(|cells|, width), ids, Compact(cells, width), k);
      }
    }
  }

  /** An element is set exactly if one of its bytes is not 239. */
  lemma {:induction false} IsSetIff(cell: Cell, width: nat)
    requires |cell| == width
    ensures cell != UnsetCell(width) <==> exists k {:trigger cell[k]} :: 0 <= k < width && cell[k] != 239
  {
    if cell != UnsetCell(width) { var k :| 0 <= k < width && cell[k] != UnsetCell(width)[k]; }
  }

  lemma {:induction false} ZeroIsSet(width: nat, cells: seq<Cell>)
    requires width >= 1 && cells == [seq(width, i => 0), UnsetCell(width)]
    ensures Positions(SetMask(cells, width), true) == [0] && Compact(cells, width) == [cells[0]]
    ensures Restored(SetMask(cells, width), Compact(cells, width), width) == Some(cells)
  {
    assert cells[0][0] == 0;
    IsSetIff(cells[0], width);
    MaskOfTwo(cells[0], width);
    OneOfTwo();
    OtherOutputRebuiltIff(cells, width, cells, width);
  }

  /** Of two elements the first is made of zero bytes: it is saved, and given back at its rank. */
  method SaveZero(width: nat) returns (ids: seq<nat>, saved: SequenceAny)
    requires width >= 1
    ensures ids == [0] && saved.cells == [seq(width, i => 0)]
    ensures Restored([true, false], saved.cells, width) == Some([saved.cells[0], UnsetCell(width)])
  {
    var s := new SequenceAny(width, 2);
    s.SetEltAtRank(0, seq(width, i => 0));
    assert s.cells == [seq(width, i => 0), UnsetCell(width)];
    ZeroIsSet(width, s.cells);
    IsSetIff(s.cells[0], width);
    assert s.cells[0][0] == 0;
    MaskOfTwo(s.cells[0], width);
    ids := s.GetSetItems();
    saved := s.RemoveUnsetItems();
  }

  /** What is injected at some ranks, all of it set, is set at exactly these ranks. */
  lemma {:induction false} InjectedMask(flags: seq<bool>, vals: seq<Cell>, width: nat)
    requires |Positions(flags, true)| == |vals| && forall k :: 0 <= k < |vals| ==> vals[k] != UnsetCell(width)
    ensures RanksIn(Positions(flags, true), |flags|, |vals|)
    ensures SetMask(Inject(AllUnset(|flags|, width), Positions(flags, true), vals), width) == flags
  {
    var ids := Positions(flags, true);
    PositionsAreRanks(flags, true);
    assert forall i :: 0 <= i < |ids| ==> ids[i] in ids;
    var r := Inject(AllUnset(|flags|, width), ids, vals);
    forall k | 0 <= k < |flags| ensures r[k] != UnsetCell(width) <==> flags[k] {
      if k in ids {
        var i :| 0 <= i < |ids| && ids[i] == k;
        InjectedAt(AllUnset(|flags|, width), ids, vals, i);
      } else {
        NotInjected(AllUnset(|flags|, width), ids, vals, k);
      }
    }
  }

  /** One output given back at the raised flags, when there are as many of them as saved values. */
  ghost function Restored(flags: seq<bool>, vals: seq<Cell>, width: nat): Option<seq<Cell>> {
    var ids := Positions(flags, true);
    if RanksIn(ids, |flags|, |vals|) then Some(Inject(AllUnset(|flags|, width), ids, vals)) else None
  }

  /** All outputs share the ids of the first one: another output is rebuilt exactly when
      it is set at the very same ranks. */
  lemma {:induction false} OtherOutputRebuiltIff(first: seq<Cell>, firstWidth: nat, cells: seq<Cell>, width: nat)
    requires |cells| == |first|
    ensures Restored(SetMask(first, firstWidth), Compact(cells, width), width) == Some(cells) <==>
            SetMask(cells, width) == SetMask(first, firstWidth)
  {
    var mask := SetMask(first, firstWidth);
    ExtractThenInject(cells, width);
    CompactIsSet(cells, width);
    if |Compact(cells, width)| == |Positions(mask, true)| { InjectedMask(mask, Compact(cells, width), width); }
  }

  /** Saved values are given back somewhere exactly when they are as many as the flags raised. */
  lemma {:induction false} RestoredIff(flags: seq<bool>, vals: seq<Cell>, width: nat)
    ensures Restored(flags, vals, width).Some? <==> |vals| == |Positions(flags, true)|
  {
    var ids := Positions(flags, true);
    PositionsAreRanks(flags, true);
    assert forall i :: 0 <= i < |ids| ==> ids[i] in ids;
  }

  lemma {:induction false} OneOfTwo()
    ensures Positions([true, false], true) == [0] && Positions([false, true], true) == [1]
  {
    assert [true, false][..1] == [true] && [false, true][..1] == [false];
    assert [true][..0] == [] && [false][..0] == [];
    assert Positions([true], true) == [0] && Positions([false], true) == [];
  }

  lemma {:induction false} MaskOfTwo(a: Cell, width: nat)
    requires a != UnsetCell(width)
    ensures SetMask([a, UnsetCell(width)], width) == [true, false]
    ensures SetMask([UnsetCell(width), a], width) == [false, true]
  {
  }

  /** Two outputs of two samples: a is set at rank 0 and b at rank 1, but b comes back at rank 0. */
  lemma {:induction false} OtherOutputMoves(a: Cell, b: Cell, width: nat)
    requires a != UnsetCell(width) && b != UnsetCell(width)
    ensures var unset := UnsetCell(width);
            && Compact([unset, b], width) == [b]
            && Restored(SetMask([a, unset], width), [b], width) == Some([b, unset])
  {
    OneOfTwo();
    MaskOfTwo(a, width);
    MaskOfTwo(b, width);
    var ids: seq<nat>, vals: seq<Cell> := [0], [b];
    assert RanksIn(ids, 2, 1);
    InjectedAt(AllUnset(2, width), ids, vals, 0);
    NotInjected(AllUnset(2, width), ids, vals, 1);
    assert Inject(AllUnset(2, width), ids, vals) == [b, UnsetCell(width)];
  }

  lemma {:induction false} CompactIsSet(cells: seq<Cell>, width: nat)
    ensures forall k :: 0 <= k < |Compact(cells, width)| ==> Compact(cells, width)[k] != UnsetCell(width)
  {
    var ps := Positions(SetMask(cells, width), true);
    PositionsAreRanks(SetMask(cells, width), true);
    assert forall i :: 0 <= i < |ps| ==> ps[i] in ps;
  }

  /** Values are written at the increasing ranks of the flags: each lands at its own id
      exactly when the ids were given in increasing order. */
  lemma {:induction false} IdsKeptIffIncreasing(flags: seq<bool>, ids: seq<nat>)
    requires Flagged(flags, ids) && Distinct(ids)
    ensures Positions(flags, true) == ids <==> Increasing(ids)
  {
    FlaggedCount(flags, ids);
    PositionsAreRanks(flags, true);
    if Increasing(ids) { IncreasingListsAreEqual(Positions(flags, true), ids); }
  }

  /** Values a and b of the ids 1 and 0: a lands at rank 0 and b at rank 1. */
  lemma {:induction false} UnorderedIdsSwap(dest: seq<Cell>, a: Cell, b: Cell)
    requires |dest| == 2
    ensures Flagged([true, true], [1, 0]) && Positions([true, true], true) == [0, 1]
    ensures Inject(dest, [0, 1], [a, b]) == [a, b]
  {
    var flags := [true, true];
    assert flags[..1] == [true] && [true][..0] == [];
    assert Positions([true], true) == [0];
    var ps: seq<nat>, vals := [0, 1], [a, b];
    InjectedAt(dest, ps, vals, 0);
    InjectedAt(dest, ps, vals, 1);
  }
}
