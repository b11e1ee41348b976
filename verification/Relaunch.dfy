/** Runs of a ForEach loop after one another: its results are saved, given back, and the loop starts again. */
module Relaunches {
  import opened ForEachLoops
  import opened PassedData
  import opened Ranks
  import opened Wrappers

  // ----- starting again from one's own results

  /** All outputs are set at the ranks of the first one. */
  ghost predicate SameMasks(cells: seq<seq<Cell>>, widths: seq<nat>)
    requires |cells| == |widths|
  {
    forall p {:trigger cells[p]} :: 0 <= p < |cells| ==>
      SetMask(cells[p], widths[p]) == SetMask(cells[0], widths[0])
  }

  /** Some rank is not set. */
  ghost predicate Incomplete(cells: seq<Cell>, width: nat) {
    exists a :: 0 <= a < |cells| && cells[a] == UnsetCell(width)
  }

  /** What an output saved as vals holds when the loop starts again, if it can be given back: nothing
      at all when no sample is left to do. */
  ghost function OutputAgain(mask: seq<bool>, vals: seq<Cell>, width: nat): Option<seq<Cell>> {
    if |vals| != |Positions(mask, true)| then None
    else if Positions(mask, false) == [] then Some([])
    else Restored(mask, vals, width)
  }

  lemma {:induction false} OutputAgainIff(first: seq<Cell>, firstWidth: nat, cells: seq<Cell>, width: nat)
    requires |cells| == |first|
    ensures OutputAgain(SetMask(first, firstWidth), Compact(cells, width), width) == Some(cells) <==>
            cells == [] || (SetMask(cells, width) == SetMask(first, firstWidth) && Incomplete(first, firstWidth))
  {
    var mask := SetMask(first, firstWidth);
    OtherOutputRebuiltIff(first, firstWidth, cells, width);
    SomeUnsetRank(first, firstWidth);
    PositionsComplement(mask);
  }

  lemma {:induction false} SomeUnsetRank(cells: seq<Cell>, width: nat)
    ensures Incomplete(cells, width) <==> Positions(SetMask(cells, width), false) != []
  {
    var mask := SetMask(cells, width);
    PositionsAreRanks(mask, false);
    if a :| 0 <= a < |cells| && cells[a] == UnsetCell(width) {
      assert a in Positions(mask, false);
    }
    if Positions(mask, false) != [] {
      var a := Positions(mask, false)[0];
      assert a in Positions(mask, false) && cells[a] == UnsetCell(width);
    }
  }

  ghost function Again(cells: seq<seq<Cell>>, widths: seq<nat>, p: nat): Option<seq<Cell>>
    requires |cells| == |widths| && p < |cells|
  {
    OutputAgain(SetMask(cells[0], widths[0]), Compact(cells[p], widths[p]), widths[p])
  }

  ghost predicate AllAgain(cells: seq<seq<Cell>>, widths: seq<nat>)
    requires |cells| == |widths|
  {
    forall p {:trigger cells[p]} :: 0 <= p < |cells| ==> Again(cells, widths, p).Some?
  }

  /** What the outputs hold when the loop starts again from the results they gave, if it does start. */
  ghost predicate StartsAgain(cells: seq<seq<Cell>>, widths: seq<nat>, after: Option<seq<seq<Cell>>>)
    requires |cells| == |widths|
  {
    && (after.Some? <==> AllAgain(cells, widths))
    && (after.Some? ==>
          (|after.value| == |cells| &&
           forall p {:trigger after.value[p]} :: 0 <= p < |cells| ==> Again(cells, widths, p) == Some(after.value[p])))
  }

  /** Starting again gives every output back exactly when there was no sample, or they were all set at
      the same ranks and some rank was not set: complete results are dropped. */
  lemma {:induction false} RelaunchKeepsIff(cells: seq<seq<Cell>>, widths: seq<nat>, n: nat,
      after: Option<seq<seq<Cell>>>)
    requires |cells| == |widths| && StartsAgain(cells, widths, after)
    requires forall p {:trigger cells[p]} :: 0 <= p < |cells| ==> |cells[p]| == n
    ensures after == Some(cells) <==>
            cells == [] || n == 0 || (SameMasks(cells, widths) && Incomplete(cells[0], widths[0]))
  {
    forall p: nat | p < |cells|
      ensures Again(cells, widths, p) == Some(cells[p]) <==>
              n == 0 ||
              (SetMask(cells[p], widths[p]) == SetMask(cells[0], widths[0]) && Incomplete(cells[0], widths[0]))
    {
      OutputAgainIff(cells[0], widths[0], cells[p], widths[p]);
    }
    if after == Some(cells) {
      forall p: nat | p < |cells| ensures Again(cells, widths, p) == Some(cells[p]) {
        assert after.value[p] == cells[p];
      }
    } else if after.Some? {
      assert after.value != cells;
      var p: nat :| p < |cells| && after.value[p] != cells[p];
    } else {
      var p: nat :| p < |cells| && Again(cells, widths, p).None?;
    }
  }

  /** One output, one sample, one byte: its result is dropped. */
  lemma {:induction false} OneResultIsDropped(after: Option<seq<seq<Cell>>>)
    ensures StartsAgain([[[1]]], [1], after) <==> after == Some([[]])
  {
    var cells: seq<seq<Cell>> := [[[1]]];
    assert UnsetCell(1)[0] == DFT_CHAR_VAR;
    assert SetMask(cells[0], 1) == [true] && [true][..0] == [];
    assert Positions([true], true) == [0] && Positions([true], false) == [];
    assert |Compact(cells[0], 1)| == 1;
    assert Again(cells, [1], 0) == Some([]);
    assert AllAgain(cells, [1]);
    var none: seq<seq<Cell>> := [[]];
    if StartsAgain(cells, [1], after) {
      assert after.value[0] == [] && after.value == none;
    }
  }

  lemma {:induction false} SameFlags(flags: seq<bool>, mask: seq<bool>)
    requires |flags| == |mask| && Flagged(flags, Positions(mask, true))
    ensures flags == mask
  {
    PositionsAreRanks(mask, true);
    forall i: nat | i < |mask| ensures flags[i] == mask[i] {
      assert i in Positions(mask, true) <==> mask[i];
    }
  }

  lemma {:induction false} IdsFit(mask: seq<bool>)
    ensures Fits(Positions(mask, true), |mask|)
  {
    PositionsAreRanks(mask, true);
  }

  /** The loop has been given the results of these outputs. */
  ghost predicate HasResultsOf(l: ForEachLoop, cells: seq<seq<Cell>>)
    requires |cells| == |l.widths|
    reads l, l.passed, if l.passed == null then [] else l.passed.passedOutputs
  {
    && l.passed != null && l.passed.Valid() && l.passed.nameOfOutputs == l.portNames
    && l.passed.passedIds == (if cells == [] then [] else Positions(SetMask(cells[0], l.widths[0]), true))
    && |l.passed.passedOutputs| == |cells|
    && forall p {:trigger l.passed.passedOutputs[p]} :: 0 <= p < |cells| ==>
      l.passed.passedOutputs[p].width == l.widths[p] &&
      l.passed.passedOutputs[p].cells == Compact(cells[p], l.widths[p])
  }

  lemma {:induction false} AgainSome(cells: seq<seq<Cell>>, widths: seq<nat>)
    requires |cells| == |widths|
    ensures forall p {:trigger cells[p]} {:trigger Again(cells, widths, p)} :: 0 <= p < |cells| ==>
      (Again(cells, widths, p).Some? <==>
       |Compact(cells[p], widths[p])| == |Positions(SetMask(cells[0], widths[0]), true)|)
  {
    forall p: nat | p < |cells|
      ensures Again(cells, widths, p).Some? <==>
              |Compact(cells[p], widths[p])| == |Positions(SetMask(cells[0], widths[0]), true)|
    {
      RestoredIff(SetMask(cells[0], widths[0]), Compact(cells[p], widths[p]), widths[p]);
    }
  }

  /** Saves the results of a loop and gives them to it. */
  method GiveBack(l: ForEachLoop) returns (r: Result<(), Error>)
    requires l.Dealing()
    modifies l`passed, l`failedCounter
    ensures r.Success? <==> AllAgain(CellsOf(l.execVals), l.widths)
    ensures r.Success? ==> HasResultsOf(l, CellsOf(l.execVals)) && fresh(l.passed)
  {
    ghost var cells := CellsOf(l.execVals);
    var ids, outputs, names := l.GetPassedResults();
    AgainSome(cells, l.widths);
    forall p: nat | p < |cells| ensures p < |outputs| && outputs[p].cells == Compact(cells[p], l.widths[p]) {
      assert cells[p] == l.execVals[p].cells;
    }
    r := l.AssignPassedResults(ids, outputs, names);
  }

  /** Initialising a loop keeps the results given to it. */
  method InitWithResults(l: ForEachLoop, ghost cells: seq<seq<Cell>>)
    requires |cells| == |l.widths| == |l.portNames| && HasResultsOf(l, cells)
    modifies l`status, l`execCurrentId, l`failedCounter, l`execVals, l`execOutGoingPorts, l.passed
    ensures l.ReadyToStart() && HasResultsOf(l, cells)
  {
    l.Init();
  }

  /** Makes the loop ready for its next run. */
  method GiveBackAndInit(l: ForEachLoop) returns (r: Result<(), Error>)
    requires l.Dealing()
    modifies l, if l.passed == null then {} else {l.passed}
    ensures l.nbOfElts == old(l.nbOfElts) && l.history == old(l.history)
    ensures l.special == old(l.special) && l.specialToActivate == old(l.specialToActivate)
    ensures r.Success? <==> AllAgain(old(CellsOf(l.execVals)), l.widths)
    ensures r.Success? ==> l.ReadyToStart() && HasResultsOf(l, old(CellsOf(l.execVals))) && fresh(l.passed)
  {
    ghost var cells := CellsOf(l.execVals);
    r := GiveBack(l);
    if r.Success? {
      InitWithResults(l, cells);
    }
  }

  /** The loop has started on the results of these outputs. */
  ghost predicate StartedWith(l: ForEachLoop, cells: seq<seq<Cell>>)
    requires |cells| == |l.widths|
    reads l, l.passed, l.execVals, if l.passed == null then [] else l.passed.passedOutputs
  {
    && |l.execVals| == |cells| && HasResultsOf(l, cells) && l.ToDo()
    && forall p {:trigger l.execVals[p]} :: 0 <= p < |cells| ==>
      if l.abs == [] then l.execVals[p].cells == [] else l.Start(p, l.nbOfElts, l.execVals[p].cells)
  }

  /** What the outputs of a loop hold once it has started on results that were given to it. */
  lemma {:induction false} OutputsAgain(l: ForEachLoop, cells: seq<seq<Cell>>)
    requires |cells| == |l.widths| && StartedWith(l, cells) && AllAgain(cells, l.widths)
    requires forall p {:trigger cells[p]} :: 0 <= p < |cells| ==> |cells[p]| == l.nbOfElts
    ensures StartsAgain(cells, l.widths, Some(CellsOf(l.execVals)))
  {
    forall p: nat | p < |cells| ensures Again(cells, l.widths, p) == Some(CellsOf(l.execVals)[p]) {
      var mask := SetMask(cells[0], l.widths[0]);
      assert |cells[0]| == |cells[p]| == l.nbOfElts;
      SameFlags(l.passed.flagsIds, mask);
      assert Again(cells, l.widths, p).Some?;
      assert CellsOf(l.execVals)[p] == l.execVals[p].cells;
      assert l.passed.passedOutputs[p].cells == Compact(cells[p], l.widths[p]);
    }
  }

  /** The loop has started on some branches, and kept its stand-in node; or it has nothing to do. */
  ghost predicate HasStarted(l: ForEachLoop, nbOfBr: int, special: Option<bool>, toActivate: bool, history: seq<bool>)
    requires nbOfBr > 0
    reads l, l.passed, l.execVals, if l.passed == null then [] else l.passed.passedOutputs
  {
    && l.history == history + [l.abs != []]
    && if l.abs == [] then l.NothingToDo()
       else l.StartedOn(if nbOfBr > |l.abs| then |l.abs| else nbOfBr) &&
            l.special == special && l.specialToActivate == toActivate
  }

  /** Starts a loop that has been given results. */
  method StartWith(l: ForEachLoop, ghost cells: seq<seq<Cell>>, nbOfBr: int, portsLeaving: bool)
    returns (r: Result<(), Error>)
    requires l.ReadyToStart() && |cells| == |l.widths| && HasResultsOf(l, cells)
    requires Fits(l.passed.passedIds, l.nbOfElts) && nbOfBr > 0
    modifies l, l.passed
    ensures r.Success? && StartedWith(l, cells) && l.nbOfElts == old(l.nbOfElts) && l.passed == old(l.passed)
    ensures HasStarted(l, nbOfBr, old(l.special), old(l.specialToActivate), old(l.history))
  {
    r := l.ExUpdateState(l.nbOfElts, nbOfBr, portsLeaving);
  }

  method StartOnResults(l: ForEachLoop, ghost cells: seq<seq<Cell>>, nbOfBr: int, portsLeaving: bool)
    returns (r: Result<(), Error>)
    requires l.ReadyToStart() && |cells| == |l.widths| && HasResultsOf(l, cells) && AllAgain(cells, l.widths)
    requires forall p {:trigger cells[p]} :: 0 <= p < |cells| ==> |cells[p]| == l.nbOfElts
    requires nbOfBr > 0
    modifies l, l.passed
    ensures r.Success? && |l.execVals| == |cells| && StartsAgain(cells, l.widths, Some(CellsOf(l.execVals)))
    ensures HasResultsOf(l, cells) && l.nbOfElts == old(l.nbOfElts) && l.ToDo() && l.passed == old(l.passed)
    ensures HasStarted(l, nbOfBr, old(l.special), old(l.specialToActivate), old(l.history))
  {
    if cells != [] { IdsFit(SetMask(cells[0], l.widths[0])); }
    r := StartWith(l, cells, nbOfBr, portsLeaving);
    OutputsAgain(l, cells);
  }

  /** Saves the results of a loop, gives them to it again, and starts it on the same samples. */
  method Relaunch(l: ForEachLoop, nbOfBr: int, portsLeaving: bool) returns (r: Result<(), Error>)
    requires l.Dealing() && nbOfBr > 0
    modifies l, if l.passed == null then {} else {l.passed}
    ensures StartsAgain(old(CellsOf(l.execVals)), l.widths, if r.Success? then Some(CellsOf(l.execVals)) else None)
    ensures r.Success? ==> l.nbOfElts == old(l.nbOfElts) && l.ToDo()
    ensures r.Success? ==> HasResultsOf(l, old(CellsOf(l.execVals))) && fresh(l.passed)
    ensures r.Success? ==> HasStarted(l, nbOfBr, old(l.special), old(l.specialToActivate), old(l.history))
  {
    ghost var cells := CellsOf(l.execVals);
    r := GiveBackAndInit(l);
    if r.Success? { r := StartOnResults(l, cells, nbOfBr, portsLeaving); }
  }

  // ----- the results of a run

  /** No branch left a value that reads as unset. */
  ghost predicate AllSet(produced: map<nat, seq<Cell>>, widths: seq<nat>) {
    forall r, p {:trigger produced[r][p]} :: r in produced && 0 <= p < |produced[r]| && p < |widths| ==>
      produced[r][p] != UnsetCell(widths[p])
  }

  ghost predicate ProducedAt(produced: map<nat, seq<Cell>>, abs: seq<nat>, a: nat) {
    exists r {:trigger r in produced} :: r in produced && r < |abs| && abs[r] == a
  }

  /** Which samples of an output are set: those produced, and those set from the start. */
  lemma {:induction false} SetRanks(l: ForEachLoop, p: nat, a: nat)
    requires l.Landed() && p < |l.execVals| == |l.widths| == |l.initial| && AllSet(l.produced, l.widths)
    requires a < |l.execVals[p].cells|
    ensures |l.initial[p]| == |l.execVals[p].cells|
    ensures l.execVals[p].cells[a] != UnsetCell(l.widths[p]) <==>
            ProducedAt(l.produced, l.abs, a) || l.initial[p][a] != UnsetCell(l.widths[p])
  {
    var cells := CellsOf(l.execVals);
    assert cells[p] == l.execVals[p].cells && Placed(l.produced, l.abs, l.initial[p], cells[p], p);
    if ProducedAt(l.produced, l.abs, a) {
      var r :| r in l.produced && r < |l.abs| && l.abs[r] == a;
      assert cells[p][a] == l.produced[r][p];
    }
  }

  /** The samples that need no branch: those with a passed result. */
  ghost function DoneBefore(l: ForEachLoop): seq<bool>
    reads l, l.passed
  {
    if l.passed == null then seq(l.nbOfElts, i => false) else l.passed.flagsIds
  }

  /** When the run began, every output was set at the ranks of the passed results. */
  ghost predicate BegunFromPassed(l: ForEachLoop)
    reads l, l.passed
  {
    && |l.initial| == |l.widths| && |DoneBefore(l)| == l.nbOfElts
    && forall p {:trigger l.initial[p]} :: 0 <= p < |l.widths| ==>
      |l.initial[p]| == l.nbOfElts && SetMask(l.initial[p], l.widths[p]) == DoneBefore(l)
  }

  /** No passed result reads as unset. */
  ghost predicate PassedAreSet(l: ForEachLoop)
    reads l, l.passed, if l.passed == null then [] else l.passed.passedOutputs
  {
    l.passed != null ==>
      forall p {:trigger l.passed.passedOutputs[p]} :: 0 <= p < |l.passed.passedOutputs| && p < |l.widths| ==>
        NoneUnset(l.passed.passedOutputs[p].cells, l.widths[p])
  }

  ghost predicate NoneUnset(vals: seq<Cell>, width: nat) {
    forall k :: 0 <= k < |vals| ==> vals[k] != UnsetCell(width)
  }

  /** The loop has a stand-in node exactly if one of its runs was without branches. */
  ghost predicate HistoryTold(l: ForEachLoop)
    reads l
  {
    l.special.None? <==> false !in l.history
  }

  /** At some moment of a run with branches, in work or ended. */
  ghost predicate InRun(l: ForEachLoop)
    reads l, l.passed, l.execVals
  {
    l.Dealing() && l.Landed() && BegunFromPassed(l) && AllSet(l.produced, l.widths) && HistoryTold(l)
  }

  lemma {:induction false} StartMask(l: ForEachLoop, p: nat)
    requires l.ToDo() && p < |l.widths| && p < |l.execVals| && PassedAreSet(l)
    requires l.Start(p, l.nbOfElts, l.execVals[p].cells)
    ensures |l.execVals[p].cells| == l.nbOfElts && SetMask(l.execVals[p].cells, l.widths[p]) == DoneBefore(l)
  {
    if l.passed != null {
      var vals := l.passed.passedOutputs[p].cells;
      assert NoneUnset(vals, l.widths[p]);
      InjectedMask(l.passed.flagsIds, vals, l.widths[p]);
    }
  }

  /** Every run with branches begins so, with or without passed results. */
  lemma {:induction false} RunBegins(l: ForEachLoop, branches: nat)
    requires l.StartedOn(branches) && PassedAreSet(l) && HistoryTold(l)
    ensures InRun(l)
  {
    forall p: nat | p < |l.widths|
      ensures |l.initial[p]| == l.nbOfElts && SetMask(l.initial[p], l.widths[p]) == DoneBefore(l)
    {
      assert l.initial[p] == l.execVals[p].cells;
      StartMask(l, p);
    }
  }

  /** A branch ends well, and leaves values that do not read as unset. */
  method BranchFinishes(l: ForEachLoop, id: nat, outs: seq<Cell>) returns (ev: Event)
    requires InRun(l) && D.Running(l.sched, id) && RowOk(outs, l.widths)
    requires forall p :: 0 <= p < |outs| ==> outs[p] != UnsetCell(l.widths[p])
    modifies l`execIds, l`given, l`execCurrentId, l`status, l`pushed, l`sched, l`produced, l.execVals
    ensures InRun(l) && l.sched == D.Apply(old(l.sched), D.Finished(id))
    ensures (ev == Finish <==> l.status == Done) && (ev == Abort <==> l.status == Failed && D.AllIdle(l.execIds))
  {
    ev := l.UpdateOnFinished(id, outs);
  }

  /** A branch fails. */
  method BranchFails(l: ForEachLoop, id: nat, keepGoing: bool) returns (ev: Event)
    requires InRun(l) && D.Running(l.sched, id)
    modifies l`execIds, l`given, l`execCurrentId, l`status, l`pushed, l`sched, l`failedCounter, l.execVals
    ensures InRun(l) && l.sched == D.Apply(old(l.sched), D.Broken(id, keepGoing))
    ensures keepGoing ==>
      (ev == Finish <==> l.status == Done) && (ev == Abort <==> l.status == Failed && D.AllIdle(l.execIds))
    ensures !keepGoing ==> ev == Abort && l.status == Failed
  {
    ev := l.UpdateOnFailed(id, keepGoing);
  }

  /** At any moment of a run that is activated: every branch is asked for tasks exactly if no run of the loop,
      since it was made, was without branches; otherwise none is. */
  method BranchesAsked(l: ForEachLoop) returns (special0: bool, branches: seq<nat>)
    requires InRun(l) && l.status == Activated
    ensures branches == if false !in l.history then seq(|l.execIds|, i => i) else []
  {
    special0, branches := l.AskedForTasks();
  }

  /** At any moment of a run the outputs are all set at the same ranks. */
  lemma {:induction false} RunKeepsSameMasks(l: ForEachLoop)
    requires InRun(l)
    ensures SameMasks(CellsOf(l.execVals), l.widths)
  {
    var cells := CellsOf(l.execVals);
    forall p: nat | p < |cells| ensures SetMask(cells[p], l.widths[p]) == SetMask(cells[0], l.widths[0]) {
      assert |cells[p]| == |l.execVals[p].cells| == |l.execVals[0].cells| == |cells[0]|;
      forall a: nat | a < |cells[p]|
        ensures cells[p][a] != UnsetCell(l.widths[p]) <==> cells[0][a] != UnsetCell(l.widths[0])
      {
        SetRanks(l, p, a);
        SetRanks(l, 0, a);
        assert SetMask(l.initial[p], l.widths[p])[a] == SetMask(l.initial[0], l.widths[0])[a];
      }
    }
  }

  /** A sample is set in the first output exactly if it was done before, or its own branch has stored its values. */
  lemma {:induction false} SetIsDone(l: ForEachLoop, a: nat)
    requires InRun(l) && l.widths != [] && a < l.nbOfElts
    ensures |l.execVals[0].cells| == l.nbOfElts
    ensures l.execVals[0].cells[a] != UnsetCell(l.widths[0]) <==>
            DoneBefore(l)[a] || ProducedAt(l.produced, l.abs, a)
  {
    SetRanks(l, 0, a);
    assert SetMask(l.initial[0], l.widths[0])[a] == DoneBefore(l)[a];
  }

  lemma {:induction false} ToDoIsNotDone(l: ForEachLoop, a: nat)
    requires l.ToDo() && a < l.nbOfElts
    ensures |DoneBefore(l)| == l.nbOfElts && (a in l.abs <==> !DoneBefore(l)[a])
  {
    if l.passed == null {
      assert l.abs[a] == a;
    } else {
      PositionsAreRanks(l.passed.flagsIds, false);
    }
  }

  /** At any moment of a run every sample has a result exactly if the loop is done. */
  lemma {:induction false} CompleteIffDone(l: ForEachLoop)
    requires InRun(l) && l.widths != []
    ensures Incomplete(l.execVals[0].cells, l.widths[0]) <==> l.status != Done
  {
    var cells := l.execVals[0].cells;
    forall a: nat | a < l.nbOfElts ensures a in l.abs || cells[a] != UnsetCell(l.widths[0]) {
      SetIsDone(l, a);
      ToDoIsNotDone(l, a);
    }
    forall r: nat | r < l.sched.todo ensures r in l.sched.stored <==> cells[l.abs[r]] != UnsetCell(l.widths[0]) {
      StoredIsSet(l, r);
    }
    if !Incomplete(cells, l.widths[0]) {
      forall r: nat | r < l.sched.todo ensures r in l.sched.stored {}
      D.AllStoredIsDone(l.sched);
    }
    if l.status == Done { D.DoneHasStoredAll(l.sched); }
  }

  lemma {:induction false} StoredIsSet(l: ForEachLoop, r: nat)
    requires InRun(l) && l.widths != [] && r < |l.abs|
    ensures l.abs[r] < |l.execVals[0].cells|
    ensures r in l.sched.stored <==> l.execVals[0].cells[l.abs[r]] != UnsetCell(l.widths[0])
  {
    var a := l.abs[r];
    assert a in l.abs;
    SetIsDone(l, a);
    ToDoIsNotDone(l, a);
    assert r in l.produced <==> r in l.sched.stored;
    if ProducedAt(l.produced, l.abs, a) {
      var k :| k in l.produced && k < |l.abs| && l.abs[k] == a;
      assert k == r;
    }
  }

  /** At any moment of a run, starting again from its results gives all of them back, unless it is done;
      there is nothing to give back to a loop without outputs. */
  lemma {:induction false} RunIsGivenBackUnlessDone(l: ForEachLoop, after: Option<seq<seq<Cell>>>)
    requires InRun(l) && StartsAgain(CellsOf(l.execVals), l.widths, after)
    ensures after == Some(CellsOf(l.execVals)) <==> l.status != Done || l.widths == []
  {
    var cells := CellsOf(l.execVals);
    forall p: nat | p < |cells| ensures |cells[p]| == l.nbOfElts { assert cells[p] == l.execVals[p].cells; }
    if l.widths != [] {
      assert cells[0] == l.execVals[0].cells;
      RunKeepsSameMasks(l);
      CompleteIffDone(l);
    }
    RelaunchKeepsIff(cells, l.widths, l.nbOfElts, after);
    assert l.nbOfElts > 0 by { assert l.abs[0] < l.nbOfElts; }
  }

  /** Whatever a run that is not done has computed can be given back. */
  lemma {:induction false} GivenBack(l: ForEachLoop)
    requires InRun(l) && l.status != Done
    ensures forall after :: StartsAgain(CellsOf(l.execVals), l.widths, after) ==> after == Some(CellsOf(l.execVals))
  {
    forall after | StartsAgain(CellsOf(l.execVals), l.widths, after) ensures after == Some(CellsOf(l.execVals)) {
      RunIsGivenBackUnlessDone(l, after);
    }
  }

  lemma {:induction false} SomeSample(l: ForEachLoop)
    requires InRun(l)
    ensures l.nbOfElts > 0 && (l.widths != [] ==> |CellsOf(l.execVals)[0]| == l.nbOfElts)
  {
    assert l.abs[0] < l.nbOfElts;
    assert l.widths != [] ==> CellsOf(l.execVals)[0] == l.execVals[0].cells;
  }

  /** A loop without outputs has all its samples to do again. */
  lemma {:induction false} AllToDo(l: ForEachLoop)
    requires l.passed != null && l.passed.passedIds == [] && l.ToDo() && l.nbOfElts > 0
    ensures l.abs != []
  {
    PositionsAreRanks(l.passed.flagsIds, false);
    assert 0 in l.abs;
  }

  /** The results that a loop was given from outputs are set. */
  lemma {:induction false} GivenAreSet(l: ForEachLoop, cells: seq<seq<Cell>>)
    requires |cells| == |l.widths| && HasResultsOf(l, cells)
    ensures PassedAreSet(l)
  {
    forall p: nat | p < |cells| ensures NoneUnset(l.passed.passedOutputs[p].cells, l.widths[p]) {
      CompactIsSet(cells[p], l.widths[p]);
    }
  }

  /** A loop that has started on such results, and has them in its outputs, is in a run. */
  lemma {:induction false} BegunAgain(l: ForEachLoop, cells: seq<seq<Cell>>, nbOfBr: int, special: Option<bool>,
      toActivate: bool, history: seq<bool>)
    requires nbOfBr > 0 && |cells| == |l.widths| && HasResultsOf(l, cells)
    requires HasStarted(l, nbOfBr, special, toActivate, history) && (special.None? <==> false !in history)
    requires CellsOf(l.execVals) == cells && l.ToDo() && l.nbOfElts > 0 && (cells != [] ==> |cells[0]| == l.nbOfElts)
    ensures InRun(l) && l.status == Activated && l.history == history + [true]
  {
    if cells == [] { AllToDo(l); } else { assert cells[0] == l.execVals[0].cells; }
    GivenAreSet(l, cells);
    RunBegins(l, if nbOfBr > |l.abs| then |l.abs| else nbOfBr);
  }

  /** The results of a run that is not done are given back, and the loop is in a run again. */
  method RelaunchRun(l: ForEachLoop, nbOfBr: int, portsLeaving: bool) returns (r: Result<(), Error>)
    requires InRun(l) && l.status != Done && nbOfBr > 0
    modifies l, if l.passed == null then {} else {l.passed}
    ensures r.Success? && InRun(l) && l.status == Activated && fresh(l.passed)
    ensures CellsOf(l.execVals) == old(CellsOf(l.execVals)) && l.history == old(l.history) + [true]
  {
    ghost var cells, special, toActivate, history := CellsOf(l.execVals), l.special, l.specialToActivate, l.history;
    GivenBack(l);
    SomeSample(l);
    r := Relaunch(l, nbOfBr, portsLeaving);
    assert (if r.Success? then Some(CellsOf(l.execVals)) else None) == Some(cells);
    BegunAgain(l, cells, nbOfBr, special, toActivate, history);
  }

  /** So can it be given back any number of times: a run of a run of a run holds the same results. */
  method RelaunchOften(l: ForEachLoop, times: nat, nbOfBr: int, portsLeaving: bool)
    requires InRun(l) && l.status == Activated && nbOfBr > 0
    modifies l, if l.passed == null then {} else {l.passed}
    ensures InRun(l) && l.status == Activated && CellsOf(l.execVals) == old(CellsOf(l.execVals))
    ensures false in l.history <==> false in old(l.history)
  {
    for i := 0 to times
      invariant InRun(l) && l.status == Activated && CellsOf(l.execVals) == old(CellsOf(l.execVals))
      invariant false in l.history <==> false in old(l.history)
      invariant l.passed == old(l.passed) || (l.passed != null && fresh(l.passed))
    {
      var r := RelaunchRun(l, nbOfBr, portsLeaving);
    }
  }

  /** A first run without sample, then a run with one: the branch has its sample, but the loop asks it
      for no task, for the stand-in node of the first run is still there. */
  method StaleNodeHidesBranches() returns (l: ForEachLoop, special0: bool, branches: seq<nat>)
    ensures fresh(l) && InRun(l) && l.status == Activated && D.Running(l.sched, 0)
    ensures !special0 && branches == [] && l.history == [false, true]
  {
    l := new ForEachLoop([], []);
    RunWithoutSample(l);
    var r := l.ExUpdateState(1, 1, false);
    RunBegins(l, 1);
    special0, branches := l.AskedForTasks();
  }

  /** A whole run on no sample, and the preparation of the next run. */
  method RunWithoutSample(l: ForEachLoop)
    requires l.ReadyToStart() && l.passed == null
    modifies l
    ensures l.ReadyToStart() && l.passed == null && l.special == Some(true) && !l.specialToActivate
    ensures l.history == old(l.history) + [false]
  {
    var r := l.ExUpdateState(0, 1, false);
    l.LaunchSpecialNode();
    l.SpecialNodeEnds();
    l.Init();
  }

  /** A loop with one output starts on one sample. */
  method StartOneSample() returns (l: ForEachLoop)
    ensures fresh(l) && fresh(l.execVals) && l.passed == null && l.widths == [1] && l.StartedOn(1) && l.nbOfElts == 1
    ensures l.history == [true] && l.special == None
  {
    l := new ForEachLoop(["out"], [1]);
    var r := l.ExUpdateState(1, 1, true);
    assert |l.abs| == 1;
  }

  /** The first run of a loop asks its branch for tasks. */
  method FirstRunAsksBranches() returns (l: ForEachLoop, special0: bool, branches: seq<nat>)
    ensures fresh(l) && InRun(l) && l.status == Activated && branches == [0]
  {
    l := StartOneSample();
    RunBegins(l, 1);
    special0, branches := BranchesAsked(l);
    assert |l.execIds| == 1;
  }

  lemma {:induction false} LastOneIsDone()
    ensures var s := D.Begin(1, 1); D.Running(s, 0) && D.Apply(s, D.Finished(0)).state == D.Done
  {
    var s := D.Begin(1, 1);
    assert D.AllIdle(s.ids[0 := D.NOT_RUNNING]);
  }

  /** A whole run on one sample, whose branch leaves the byte 1. */
  method RunOneSample() returns (l: ForEachLoop, ev: Event)
    ensures fresh(l) && l.Dealing() && l.passed == null && l.widths == [1] && l.status == Done && l.nbOfElts == 1
    ensures CellsOf(l.execVals) == [[[1]]] && ev == Finish
  {
    l := StartOneSample();
    LastOneIsDone();
    assert |l.abs| == 1 && |l.execVals[0].cells| == 1;
    ev := l.UpdateOnFinished(0, [[1]]);
    assert CellsOf(l.execVals)[0] == l.execVals[0].cells == [[1]];
  }

  /** Started again from its own results, that loop drops them. */
  method DoneLoopDropsItsResult() returns (l: ForEachLoop)
    ensures CellsOf(l.execVals) == [[]] && l.NothingToDo()
  {
    var ev;
    l, ev := RunOneSample();
    var r := Relaunch(l, 1, true);
    assert r.Success? && |l.execVals| == 1 ==> CellsOf(l.execVals)[0] == l.execVals[0].cells;
    assert r.Success? && l.abs != [] ==> |CellsOf(l.execVals)[0]| == l.nbOfElts;
    OneResultIsDropped(if r.Success? then Some(CellsOf(l.execVals)) else None);
  }

  /** Saved a second time, its results are gone for good. */
  method DroppedResultIsLost() returns (ids: seq<nat>, outputs: seq<SequenceAny>, names: seq<string>)
    ensures ids == [] && outputs == [] && names == []
  {
    var l := DoneLoopDropsItsResult();
    ids, outputs, names := l.GetPassedResults();
  }

  /** A new loop has nothing to save, nor has one that has started on samples without branches. */
  method NothingToSave(n: nat, portsLeaving: bool) returns (l: ForEachLoop, ids: seq<nat>, outputs: seq<SequenceAny>)
    ensures ids == [] && outputs == []
  {
    l := new ForEachLoop(["out"], [1]);
    var names;
    ids, outputs, names := l.GetPassedResults();
    assert ids == [] && outputs == [] && names == [];
    var r := l.ExUpdateState(n, 0, portsLeaving);
    ids, outputs, names := l.GetPassedResults();
  }
}
