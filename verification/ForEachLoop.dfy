/** The ForEach loop itself: branches pull ranks, results land at the absolute
    ranks of their samples, and already computed results are skipped. */
module ForEachLoops {
  import opened Lists
  import opened Wrappers
  import opened Ranks
  import opened PassedData
  import D = Distribution

  datatype Status = Idle | Activated | Done | Failed | InError

  datatype Event = NoEvent | Finish | Abort

  function StatusOf(s: D.LoopState): Status {
    match s
    case Active => Activated
    case Done => Done
    case Failed => Failed
  }

  ghost predicate Shape(vals: seq<SequenceAny>, widths: seq<nat>, length: nat)
    reads vals
  {
    && |vals| == |widths|
    && (forall i, j :: 0 <= i < j < |vals| ==> vals[i] != vals[j])
    && (forall p {:trigger vals[p]} :: 0 <= p < |vals| ==>
          vals[p].Valid() && vals[p].width == widths[p] && |vals[p].cells| == length)
  }

  /** One value per output port, of the width of the port. */
  ghost predicate RowOk(row: seq<Cell>, widths: seq<nat>) {
    |row| == |widths| && forall p {:trigger row[p]} :: 0 <= p < |row| ==> |row[p]| == widths[p]
  }

  /** Ids that name each of their elements once, among n. */
  ghost predicate Fits(ids: seq<nat>, n: nat) {
    Distinct(ids) && forall i :: i in ids ==> i < n
  }

  /** The cells of output p: produced values at the ranks of their samples, initial cells elsewhere. */
  ghost predicate Placed(produced: map<nat, seq<Cell>>, abs: seq<nat>, initial: seq<Cell>, cells: seq<Cell>, p: nat) {
    && |cells| == |initial|
    && (forall r {:trigger produced[r]} :: r in produced && r < |abs| && p < |produced[r]| ==>
          abs[r] < |cells| && cells[abs[r]] == produced[r][p])
    && (forall a {:trigger cells[a]} :: 0 <= a < |cells| && (forall r :: r in produced && r < |abs| ==> abs[r] != a) ==>
          cells[a] == initial[a])
  }

  ghost predicate AllPlaced(produced: map<nat, seq<Cell>>, abs: seq<nat>, initial: seq<seq<Cell>>,
    cells: seq<seq<Cell>>)
  {
    && |initial| == |cells|
    && (forall r {:trigger produced[r]} :: r in produced ==> r < |abs| && |produced[r]| == |cells|)
    && (forall p {:trigger cells[p]} :: 0 <= p < |cells| ==> Placed(produced, abs, initial[p], cells[p], p))
  }

  lemma {:induction false} PlacedOneMore(produced: map<nat, seq<Cell>>, abs: seq<nat>, initial: seq<Cell>,
      cells: seq<Cell>, p: nat, r: nat, row: seq<Cell>)
    requires Placed(produced, abs, initial, cells, p) && Increasing(abs)
    requires r < |abs| && p < |row| && abs[r] < |cells|
    ensures Placed(produced[r := row], abs, initial, cells[abs[r] := row[p]], p)
  {
  }

  lemma {:induction false} AllPlacedOneMore(produced: map<nat, seq<Cell>>, abs: seq<nat>, initial: seq<seq<Cell>>,
      cells: seq<seq<Cell>>, r: nat, row: seq<Cell>, cells': seq<seq<Cell>>)
    requires AllPlaced(produced, abs, initial, cells) && Increasing(abs) && r < |abs| && |row| == |cells| == |cells'|
    requires forall p {:trigger cells'[p]} :: 0 <= p < |cells| ==>
      abs[r] < |cells[p]| && cells'[p] == cells[p][abs[r] := row[p]]
    ensures AllPlaced(produced[r := row], abs, initial, cells')
  {
    forall p | 0 <= p < |cells| ensures Placed(produced[r := row], abs, initial[p], cells'[p], p) {
      assert cells'[p] == cells[p][abs[r] := row[p]];
      PlacedOneMore(produced, abs, initial[p], cells[p], p, r, row);
    }
  }

  lemma {:induction false} NothingProduced(abs: seq<nat>, cells: seq<seq<Cell>>)
    ensures AllPlaced(map[], abs, cells, cells)
  {
  }

  class ForEachLoop {
    const portNames: seq<string>
    const widths: seq<nat>
    var passed: ForEachLoopPassedData?
    var nbOfElts: nat
    var status: Status
    var execIds: seq<int>
    var given: seq<int>            // the sample each branch was given
    var execCurrentId: nat
    var failedCounter: nat
    var execVals: seq<SequenceAny>
    var execOutGoingPorts: seq<seq<string>>   // the names of the output ports of each branch
    var special: Option<bool>      // the stand-in node of a loop without branches, and whether it ends well
    var specialToActivate: bool    // whether that node has still to be launched
    var pushed: Option<seq<seq<Cell>>>
    ghost var abs: seq<nat>        // the absolute ranks still to do
    ghost var sched: D.Sched
    ghost var produced: map<nat, seq<Cell>>   // the values each branch left, by rank
    ghost var initial: seq<seq<Cell>>         // the outputs before any branch ended
    ghost var history: seq<bool>              // the runs that have started, and whether each had branches

    /** A loop with the given output ports. */
    constructor (portNames: seq<string>, widths: seq<nat>)
      requires |portNames| == |widths|
      ensures this.portNames == portNames && this.widths == widths
      ensures passed == null && special == None && ReadyToStart() && history == []
    {
      this.portNames, this.widths := portNames, widths;
      passed, special, specialToActivate, pushed, nbOfElts, status := null, None, false, None, 0, Idle;
      execIds, given, execCurrentId, failedCounter, execVals, execOutGoingPorts := [], [], 0, 0, [], [];
      abs, sched, produced, initial, history := [], D.Begin(1, 1), map[], [], [];
    }

    /** No run has begun. */
    ghost predicate ReadyToStart()
      reads this
    {
      && |portNames| == |widths| && status == Idle && execCurrentId == 0 && failedCounter == 0
      && execVals == [] && execOutGoingPorts == []
    }

    /** Before a run: what the last run computed is dropped. Its stand-in node, if any, stays. */
    method Init()
      requires |portNames| == |widths|
      modifies this`status, this`execCurrentId, this`failedCounter, this`execVals, this`execOutGoingPorts
      modifies if passed == null then {} else {passed}
      ensures ReadyToStart() && (passed != null ==> passed.flagsIds == [])
    {
      failedCounter, status, execCurrentId := 0, Idle, 0;
      execVals, execOutGoingPorts := [], [];
      if passed != null { passed.Init(); }
    }

    /** Gives the loop results that it need not compute again. */
    method AssignPassedResults(ids: seq<nat>, outputs: seq<SequenceAny>, names: seq<string>)
      returns (r: Result<(), Error>)
      requires forall p :: 0 <= p < |outputs| ==> outputs[p].Valid()
      modifies this`passed, this`failedCounter
      ensures failedCounter == 0
      ensures r.Success? <==>
        |outputs| == |names| && forall p {:trigger outputs[p]} :: 0 <= p < |outputs| ==> |outputs[p].cells| == |ids|
      ensures r.Success? ==> passed != null && fresh(passed) && passed.Valid()
      ensures r.Success? ==>
        passed.passedIds == ids && passed.passedOutputs == outputs && passed.nameOfOutputs == names
    {
      passed, failedCounter := null, 0;
      var data := ForEachLoopPassedData.New(ids, outputs, names);
      if data.Failure? { return Failure(data.error); }
      passed := data.value;
      return Success(());
    }

    /** The elements to do, in order: all of them, or those without a passed result. */
    ghost predicate ToDo()
      reads this, passed
    {
      if passed == null then abs == seq(nbOfElts, i => i)
      else |passed.flagsIds| == nbOfElts && Flagged(passed.flagsIds, passed.passedIds) && Distinct(passed.passedIds) &&
           abs == Positions(passed.flagsIds, false)
    }

    /** The fields agree with the scheduler; `extra` failures are counted but not dealt with yet. */
    ghost predicate Linked(extra: nat)
      reads this
    {
      && sched.todo == |abs|
      && sched.ids == execIds && sched.current == execCurrentId && sched.failures + extra == failedCounter
      && status == StatusOf(sched.state)
      && |given| == |execIds|
      && (forall i: nat {:trigger D.Running(sched, i)} :: D.Running(sched, i) ==>
            0 <= execIds[i] < |abs| && given[i] == abs[execIds[i]])
      && Increasing(abs) && (forall r {:trigger abs[r]} :: 0 <= r < |abs| ==> abs[r] < nbOfElts)
    }

    /** The loop is dealing elements to its branches. */
    ghost predicate Dealing()
      reads this, passed, execVals
    {
      ToDo() && Shape(execVals, widths, nbOfElts) && Linked(0) && D.Invariant(sched) &&
      PortsOk() && |execOutGoingPorts| == |execIds|
    }

    /** Each branch has the output ports of the loop. */
    ghost predicate PortsOk()
      reads this
    {
      && |portNames| == |widths| && execOutGoingPorts != []
      && forall i {:trigger execOutGoingPorts[i]} :: 0 <= i < |execOutGoingPorts| ==> execOutGoingPorts[i] == portNames
    }

    /** Every stored result is where its sample was, and nothing else has changed. */
    ghost predicate Landed()
      reads this, execVals
    {
      produced.Keys == sched.stored && AllPlaced(produced, abs, initial, CellsOf(execVals))
    }

    /** New output sequences, with nothing set. */
    method PrepareSequenceValues(length: nat)
      modifies this`execVals
      ensures fresh(execVals) && Shape(execVals, widths, length)
      ensures forall p :: 0 <= p < |execVals| ==> execVals[p].cells == AllUnset(length, widths[p])
    {
      execVals := [];
      for p := 0 to |widths|
        invariant fresh(execVals) && Shape(execVals, widths[..p], length)
        invariant forall q :: 0 <= q < p ==> execVals[q].cells == AllUnset(length, widths[q])
      {
        var s := new SequenceAny(widths[p], length);
        execVals := execVals + [s];
      }
      assert widths[..|widths|] == widths;
    }

    /** The passed results that can be given to this loop. */
    ghost predicate PassedOk()
      reads this, passed, if passed == null then [] else passed.passedOutputs
    {
      passed != null ==>
        passed.Valid() &&
        forall p :: 0 <= p < |passed.passedOutputs| && p < |widths| ==> passed.passedOutputs[p].width == widths[p]
    }

    /** Finds out which samples are still to do; passed results that do not fit are refused. */
    method CountElements(n: nat) returns (r: Result<nat, Error>)
      requires PassedOk()
      modifies this`nbOfElts, this`abs, passed
      ensures r.Success? <==> (passed == null || Fits(passed.passedIds, n))
      ensures r.Success? ==> ToDo() && nbOfElts == n && r.value == |abs|
      ensures r.Success? ==> r.value == n - if passed == null then 0 else |passed.passedIds|
      ensures r.Success? ==> Increasing(abs) && forall k {:trigger abs[k]} :: 0 <= k < |abs| ==> abs[k] < n
    {
      nbOfElts := n;
      if passed == null {
        abs := seq(n, i => i);
        return Success(n);
      }
      var c := passed.CheckCompatibilityWithNb(n);
      if c.Failure? { return Failure(c.error); }
      abs := Positions(passed.flagsIds, false);
      FlaggedCount(passed.flagsIds, passed.passedIds);
      PositionsAreRanks(passed.flagsIds, false);
      assert forall k :: 0 <= k < |abs| ==> abs[k] in abs;
      return Success(n - |passed.passedIds|);
    }

    /** Gives its first sample to every branch. */
    method DealFirst(branches: nat)
      requires ToDo() && 0 < branches <= |abs| && execCurrentId == 0
      modifies this`execIds, this`given, this`execCurrentId
      ensures execIds == D.Begin(|abs|, branches).ids && execCurrentId == branches
      ensures |given| == branches && forall i :: 0 <= i < branches ==> given[i] == abs[i]
    {
      execIds, given := [], [];
      for i := 0 to branches
        invariant execIds == seq(i, k => k) && execCurrentId == i
        invariant |given| == i && forall k :: 0 <= k < i ==> given[k] == abs[k]
      {
        var posInAbs := AbsoluteRank(execCurrentId);
        execIds, given := execIds + [execCurrentId], given + [posInAbs];
        execCurrentId := execCurrentId + 1;
      }
    }

    /** Injects the passed results into the new output sequences. */
    method InjectPassed() returns (r: Result<(), Error>)
      requires PassedOk() && ToDo() && Shape(execVals, widths, nbOfElts) && PortsOk()
      requires passed != null ==> forall p :: 0 <= p < |execVals| ==> execVals[p] !in passed.passedOutputs
      requires forall p :: 0 <= p < |execVals| ==> execVals[p].cells == AllUnset(nbOfElts, widths[p])
      modifies execVals
      ensures r.Success? <==> (passed == null || passed.nameOfOutputs == portNames)
      ensures r.Success? ==> Shape(execVals, widths, nbOfElts)
      ensures r.Success? ==> forall p :: 0 <= p < |execVals| ==> Start(p, nbOfElts, execVals[p].cells)
    {
      if passed == null { return Success(()); }
      r := passed.CheckLevel2(execOutGoingPorts[0]);
      if r.Success? {
        ghost var before := CellsOf(execVals);
        r := passed.AssignAlreadyDone(execVals);
        forall p | r.Success? && 0 <= p < |execVals| ensures Start(p, nbOfElts, execVals[p].cells) {
          assert CellsOf(execVals)[p] == execVals[p].cells && before[p] == AllUnset(nbOfElts, widths[p]);
          assert CellsOf(passed.passedOutputs)[p] == passed.passedOutputs[p].cells;
        }
      }
    }

    /** Prepares the outputs and gives its first sample to every branch. */
    method StartBranches(branches: nat) returns (r: Result<(), Error>)
      requires PassedOk() && ToDo() && ReadyToStart() && 0 < branches <= |abs|
      requires Increasing(abs) && forall k {:trigger abs[k]} :: 0 <= k < |abs| ==> abs[k] < nbOfElts
      modifies this`execVals, this`execOutGoingPorts, this`execIds, this`given, this`execCurrentId
      modifies this`sched, this`produced, this`initial, this`status, this`history
      ensures r.Success? <==> (passed == null || passed.nameOfOutputs == portNames)
      ensures r.Failure? ==> status == InError
      ensures history == if r.Success? then old(history) + [true] else old(history)
      ensures r.Success? ==> StartedOn(branches) && fresh(execVals)
    {
      r := PrepareBranches(branches);
      if r.Failure? {
        status := InError;
      } else {
        EnterDealing(branches);
      }
    }

    method PrepareBranches(branches: nat) returns (r: Result<(), Error>)
      requires PassedOk() && ToDo() && ReadyToStart() && 0 < branches <= |abs|
      requires Increasing(abs) && forall k {:trigger abs[k]} :: 0 <= k < |abs| ==> abs[k] < nbOfElts
      modifies this`execVals, this`execOutGoingPorts, this`execIds, this`given, this`execCurrentId
      ensures r.Success? <==> (passed == null || passed.nameOfOutputs == portNames)
      ensures r.Success? ==> ReadyToDeal(branches) && fresh(execVals)
    {
      PrepareSequenceValues(nbOfElts);
      execOutGoingPorts := seq(branches, i => portNames);
      DealFirst(branches);
      r := InjectPassed();
    }

    /** The run has just begun: every branch has its first sample, and the outputs hold the passed results. */
    ghost predicate StartedOn(branches: nat)
      reads this, passed, execVals, if passed == null then [] else passed.passedOutputs
    {
      && 0 < branches <= |abs| && Dealing() && Landed() && sched == D.Begin(|abs|, branches)
      && initial == CellsOf(execVals) && produced == map[]
      && forall p {:trigger execVals[p]} :: 0 <= p < |execVals| ==> Start(p, nbOfElts, execVals[p].cells)
    }

    /** The branches have their samples and the outputs are ready. */
    ghost predicate ReadyToDeal(branches: nat)
      reads this, passed, execVals, if passed == null then [] else passed.passedOutputs
    {
      && ToDo() && Shape(execVals, widths, nbOfElts) && PortsOk() && 0 < branches <= |abs| && failedCounter == 0
      && Increasing(abs) && (forall k {:trigger abs[k]} :: 0 <= k < |abs| ==> abs[k] < nbOfElts)
      && execIds == D.Begin(|abs|, branches).ids && execCurrentId == branches
      && |given| == branches == |execOutGoingPorts| && (forall i :: 0 <= i < branches ==> given[i] == abs[i])
      && forall p {:trigger execVals[p]} :: 0 <= p < |execVals| ==> Start(p, nbOfElts, execVals[p].cells)
    }

    lemma {:induction false} HasBegun(branches: nat)
      requires ReadyToDeal(branches) && sched == D.Begin(|abs|, branches)
      requires status == Activated && produced == map[] && initial == CellsOf(execVals)
      ensures StartedOn(branches)
    {
      D.BeginInvariant(|abs|, branches);
      NothingProduced(abs, initial);
    }

    method BeginSched(branches: nat)
      requires ReadyToDeal(branches)
      modifies this`sched, this`status, this`history
      ensures ReadyToDeal(branches) && sched == D.Begin(|abs|, branches) && status == Activated
      ensures history == old(history) + [true]
    {
      sched, status := D.Begin(|abs|, branches), Activated;
      history := history + [true];
    }

    method BeginOutputs(branches: nat)
      requires ReadyToDeal(branches)
      modifies this`produced, this`initial
      ensures ReadyToDeal(branches) && produced == map[] && initial == CellsOf(execVals)
    {
      produced, initial := map[], CellsOf(execVals);
    }

    /** From here on branches work. */
    method EnterDealing(branches: nat)
      requires ReadyToDeal(branches)
      modifies this`sched, this`produced, this`initial, this`status, this`history
      ensures StartedOn(branches) && history == old(history) + [true]
    {
      BeginSched(branches);
      BeginOutputs(branches);
      HasBegun(branches);
    }

    /** Nothing is left to compute: the outputs are empty, and a stand-in node will end the loop well. */
    ghost predicate NothingToDo()
      reads this, execVals
    {
      && special == Some(true) && specialToActivate && execOutGoingPorts == []
      && |execVals| == |widths| && forall p {:trigger execVals[p]} :: 0 <= p < |execVals| ==> execVals[p].cells == []
    }

    /** Starts the loop on n samples. */
    method ExUpdateState(n: nat, nbOfBr: int, portsLeaving: bool) returns (r: Result<(), Error>)
      requires PassedOk() && ReadyToStart()
      modifies this, passed
      ensures passed == old(passed)
      ensures r.Success? <==>
        (passed == null || (Fits(passed.passedIds, n) &&
                            (|passed.passedIds| == n || nbOfBr <= 0 || passed.nameOfOutputs == portNames)))
      ensures r.Failure? ==> special == old(special) && specialToActivate == old(specialToActivate)
      ensures r.Success? ==> ToDo() && nbOfElts == n
      ensures r.Success? ==> status == Activated
      ensures r.Success? && abs == [] ==> NothingToDo()
      ensures r.Success? && abs != [] && nbOfBr <= 0 ==>
        special == Some(!portsLeaving) && specialToActivate && execVals == [] && execOutGoingPorts == []
      ensures r.Success? && abs != [] && nbOfBr > 0 ==>
        StartedOn(if nbOfBr > |abs| then |abs| else nbOfBr) && fresh(execVals)
      ensures abs != [] && nbOfBr > 0 ==> special == old(special) && specialToActivate == old(specialToActivate)
      ensures history == if r.Success? then old(history) + [abs != [] && nbOfBr > 0] else old(history)
    {
      var counted := CountElements(n);
      if counted.Failure? { return Failure(counted.error); }
      r := StartCounted(counted.value, nbOfBr, portsLeaving);
    }

    /** Starts the loop on the samples still to do. */
    method StartCounted(toDo: nat, nbOfBr: int, portsLeaving: bool) returns (r: Result<(), Error>)
      requires PassedOk() && ToDo() && ReadyToStart() && toDo == |abs|
      requires Increasing(abs) && forall k {:trigger abs[k]} :: 0 <= k < |abs| ==> abs[k] < nbOfElts
      modifies this
      ensures passed == old(passed) && abs == old(abs) && nbOfElts == old(nbOfElts)
      ensures r.Success? <==> abs == [] || nbOfBr <= 0 || passed == null || passed.nameOfOutputs == portNames
      ensures r.Failure? ==> special == old(special) && specialToActivate == old(specialToActivate)
      ensures r.Success? ==> status == Activated
      ensures abs == [] ==> NothingToDo()
      ensures abs != [] && nbOfBr <= 0 ==>
        special == Some(!portsLeaving) && specialToActivate && execVals == [] && execOutGoingPorts == []
      ensures r.Success? && abs != [] && nbOfBr > 0 ==>
        StartedOn(if nbOfBr > |abs| then |abs| else nbOfBr) && fresh(execVals)
      ensures abs != [] && nbOfBr > 0 ==> special == old(special) && specialToActivate == old(specialToActivate)
      ensures history == if r.Success? then old(history) + [abs != [] && nbOfBr > 0] else old(history)
    {
      if toDo == 0 {
        PrepareSequenceValues(0);
        UseStandIn(true);
        return Success(());
      }
      if nbOfBr <= 0 {
        UseStandIn(!portsLeaving);
        return Success(());
      }
      r := StartBranches(if nbOfBr > toDo then toDo else nbOfBr);
    }

    /** No branch will run: a stand-in node ends the loop. */
    method UseStandIn(endsWell: bool)
      modifies this`special, this`specialToActivate, this`status, this`history
      ensures special == Some(endsWell) && specialToActivate && status == Activated
      ensures history == old(history) + [false]
    {
      special, specialToActivate, status := Some(endsWell), true, Activated;
      history := history + [false];
    }

    /** The nodes that may give tasks: the stand-in node if there is one, else the branches. */
    method AskedForTasks() returns (special0: bool, branches: seq<nat>)
      ensures special0 <==> status == Activated && special.Some? && specialToActivate
      ensures branches == if status == Activated && special.None? then seq(|execOutGoingPorts|, i => i) else []
    {
      special0, branches := false, [];
      if status != Activated { return; }
      if special.Some? { return specialToActivate, []; }
      for i := 0 to |execOutGoingPorts|
        invariant branches == seq(i, k => k)
      {
        branches := branches + [i];
      }
    }

    /** The stand-in node is launched. */
    method LaunchSpecialNode()
      requires special.Some? && specialToActivate
      modifies this`specialToActivate
      ensures !specialToActivate
    {
      specialToActivate := false;
    }

    /** The stand-in node of a loop that has no branch ends. */
    method SpecialNodeEnds()
      requires special.Some? && !specialToActivate && status == Activated
      modifies this`status, this`pushed
      ensures special.value ==> status == Done && Pushed()
      ensures !special.value ==> status == InError
    {
      if special.value {
        PushAllSequenceValues();
        status := Done;
      } else {
        status := InError;
      }
    }

    /** What output sequence p holds when the loop starts. */
    ghost predicate Start(p: nat, n: nat, cells: seq<Cell>)
      requires p < |widths|
      reads this, passed, if passed == null then [] else passed.passedOutputs
    {
      if passed == null then cells == AllUnset(n, widths[p])
      else p < |passed.passedOutputs| &&
           RanksIn(Positions(passed.flagsIds, true), n, |passed.passedOutputs[p].cells|) &&
           cells == Inject(AllUnset(n, widths[p]), Positions(passed.flagsIds, true), passed.passedOutputs[p].cells)
    }

    method GetFinishedId() returns (n: int)
      requires ToDo()
      ensures n == |abs|
    {
      if passed == null {
        n := nbOfElts;
      } else {
        n := passed.GetNumberOfElementsToDo();
      }
    }

    /** The absolute rank of an element still to do. */
    method AbsoluteRank(local: nat) returns (r: nat)
      requires ToDo() && local < |abs|
      ensures r == abs[local]
    {
      if passed == null {
        r := local;
      } else {
        var res := passed.ToAbsId(local);
        r := res.value;
      }
    }

    /** Stores the values a branch has left on its output ports. */
    method StoreOutVals(rank: nat, outs: seq<Cell>)
      requires Shape(execVals, widths, nbOfElts) && RowOk(outs, widths) && rank < nbOfElts
      modifies execVals
      ensures Shape(execVals, widths, nbOfElts)
      ensures forall p :: 0 <= p < |execVals| ==> execVals[p].cells == old(execVals[p].cells)[rank := outs[p]]
    {
      for p := 0 to |execVals|
        invariant Shape(execVals, widths, nbOfElts)
        invariant forall q :: 0 <= q < p ==> execVals[q].cells == old(execVals[q].cells)[rank := outs[q]]
        invariant forall q :: p <= q < |execVals| ==> execVals[q].cells == old(execVals[q].cells)
      {
        execVals[p].SetEltAtRank(rank, outs[p]);
      }
    }

    /** Puts the output sequences on the output ports of the loop. */
    method PushAllSequenceValues()
      modifies this`pushed
      ensures pushed.Some? && |pushed.value| == |execVals|
      ensures forall p :: 0 <= p < |execVals| ==> pushed.value[p] == execVals[p].cells
    {
      var out: seq<seq<Cell>> := [];
      for p := 0 to |execVals|
        invariant |out| == p && forall q :: 0 <= q < p ==> out[q] == execVals[q].cells
      {
        out := out + [execVals[p].cells];
      }
      pushed := Some(out);
    }

    /** The results computed so far: the ranks set in the first output, the set values of each output and its name. */
    method GetPassedResults() returns (ids: seq<nat>, outputs: seq<SequenceAny>, names: seq<string>)
      requires execVals != [] && execOutGoingPorts != [] ==> Shape(execVals, widths, nbOfElts) && PortsOk()
      ensures execVals == [] || execOutGoingPorts == [] ==> ids == [] && outputs == [] && names == []
      ensures execVals != [] && execOutGoingPorts != [] ==>
        ids == Positions(SetMask(execVals[0].cells, widths[0]), true) && |outputs| == |execVals| && names == portNames
      ensures fresh(outputs) && (outputs == [] || |outputs| == |execVals| == |widths|)
      ensures forall p {:trigger outputs[p]} :: 0 <= p < |outputs| ==>
        outputs[p].Valid() && outputs[p].width == widths[p] && outputs[p].cells == Compact(execVals[p].cells, widths[p])
    {
      ids, outputs, names := [], [], [];
      if execVals == [] || execOutGoingPorts == [] { return; }
      for p := 0 to |execVals|
        invariant |outputs| == p && fresh(outputs) && names == portNames[..p]
        invariant forall q {:trigger outputs[q]} :: 0 <= q < p ==>
          outputs[q].Valid() && outputs[q].width == widths[q] &&
          outputs[q].cells == Compact(execVals[q].cells, widths[q])
      {
        var out := execVals[p].RemoveUnsetItems();
        outputs, names := outputs + [out], names + [execOutGoingPorts[0][p]];
      }
      assert portNames[..|execVals|] == portNames;
      ids := execVals[0].GetSetItems();
    }

    method AreAllIdle() returns (idle: bool)
      ensures idle == D.AllIdle(execIds)
    {
      idle := true;
      var i := 0;
      while i < |execIds| && idle
        invariant i <= |execIds| && (idle <==> forall k :: 0 <= k < i ==> execIds[k] == D.NOT_RUNNING)
      {
        idle := execIds[i] == D.NOT_RUNNING;
        i := i + 1;
      }
    }

    /** What is on the output ports is what the output sequences hold. */
    ghost predicate Pushed()
      reads this, execVals
    {
      pushed.Some? && |pushed.value| == |execVals| &&
      forall p :: 0 <= p < |execVals| ==> pushed.value[p] == execVals[p].cells
    }

    static function EventOf(id: nat, isNormalFinish: bool): D.LoopEvent {
      if isNormalFinish then D.Finished(id) else D.Broken(id, true)
    }

    /** A branch is through with its sample: its values are stored at the rank of that sample,
        then it gets the next sample, or the loop ends when nothing is left in work. */
    method WorkNodeFinished(id: nat, isNormalFinish: bool, outs: seq<Cell>) returns (ev: Event)
      requires ToDo() && Shape(execVals, widths, nbOfElts) && D.Running(sched, id)
      requires execCurrentId <= |abs|
      requires Linked(if isNormalFinish then 0 else 1) && D.TouchesOwn(sched, EventOf(id, isNormalFinish))
      requires isNormalFinish ==> RowOk(outs, widths)
      modifies this`execIds, this`given, this`execCurrentId, this`status, this`pushed, this`sched, execVals
      ensures ToDo() && Shape(execVals, widths, nbOfElts) && Linked(0)
      ensures passed == old(passed) && execVals == old(execVals) && nbOfElts == old(nbOfElts) && abs == old(abs)
      ensures sched == D.Apply(old(sched), EventOf(id, isNormalFinish))
      ensures 0 <= old(given[id]) < nbOfElts
      ensures forall p :: 0 <= p < |execVals| ==>
        (execVals[p].cells ==
         if isNormalFinish then old(execVals[p].cells)[old(given[id]) := outs[p]] else old(execVals[p].cells))
      ensures ev != NoEvent <==> old(execCurrentId) == |abs| && D.AllIdle(execIds)
      ensures ev != NoEvent ==> if ev == Finish then status == Done else status == Failed
      ensures status == Done && old(status) != Done ==> Pushed()
    {
      var globalId := AbsoluteRank(execIds[id]);
      if isNormalFinish { StoreOutVals(globalId, outs); }
      ev := NextForBranch(id, EventOf(id, isNormalFinish));
    }

    /** Deals with the branch that is through, as far as ranks are concerned. */
    method NextForBranch(id: nat, ghost e: D.LoopEvent) returns (ev: Event)
      requires ToDo() && e.id == id && D.Running(sched, id) && D.TouchesOwn(sched, e)
      requires Linked(if e.Finished? then 0 else 1)
      requires e.Broken? ==> e.keepGoing
      requires execCurrentId <= |abs|
      modifies this`execIds, this`given, this`execCurrentId, this`status, this`pushed, this`sched
      ensures ToDo() && Linked(0)
      ensures passed == old(passed) && execVals == old(execVals) && nbOfElts == old(nbOfElts) && abs == old(abs)
      ensures sched == D.Apply(old(sched), e)
      ensures ev != NoEvent <==> old(execCurrentId) == |abs| && D.AllIdle(execIds)
      ensures ev != NoEvent ==> if ev == Finish then status == Done else status == Failed
      ensures status == Done && old(status) != Done ==> Pushed()
    {
      var finishedId := GetFinishedId();
      ev := NoEvent;
      if execCurrentId == finishedId {
        ev := RetireBranch(id, e);
      } else if status == Activated {
        DealNext(id, e);
      }
      sched := D.Apply(sched, e);
    }

    /** Nothing is left to deal: the branch becomes idle, and the last one ends the loop. */
    method RetireBranch(id: nat, ghost e: D.LoopEvent) returns (ev: Event)
      requires e.id == id && D.Running(sched, id) && Linked(if e.Finished? then 0 else 1)
      requires (e.Broken? ==> e.keepGoing) && execCurrentId == |abs|
      modifies this`execIds, this`status, this`pushed
      ensures execIds == old(execIds)[id := D.NOT_RUNNING] && execIds == D.Apply(sched, e).ids
      ensures status == StatusOf(D.Apply(sched, e).state)
      ensures ev != NoEvent <==> D.AllIdle(execIds)
      ensures ev != NoEvent ==> if ev == Finish then status == Done else status == Failed
      ensures status == Done && old(status) != Done ==> Pushed()
    {
      execIds := execIds[id := D.NOT_RUNNING];
      ev := NoEvent;
      var isFinished := AreAllIdle();
      if isFinished {
        if failedCounter != 0 {
          status, ev := Failed, Abort;
        } else {
          PushAllSequenceValues();
          status, ev := Done, Finish;
        }
      }
    }

    /** The branch gets the next sample. */
    method DealNext(id: nat, ghost e: D.LoopEvent)
      requires ToDo() && id < |execIds| && |given| == |execIds| && execCurrentId < |abs|
      modifies this`execIds, this`given, this`execCurrentId
      ensures execIds == old(execIds)[id := old(execCurrentId)] && execCurrentId == old(execCurrentId) + 1
      ensures given == old(given)[id := abs[old(execCurrentId)]]
    {
      execIds := execIds[id := execCurrentId];
      var posInAbs := AbsoluteRank(execCurrentId);
      given := given[id := posInAbs];
      execCurrentId := execCurrentId + 1;
    }

    /** A branch ended well. When the loop is Done, each element of each output is the value of its
        own sample, or what the output held from the start if that sample was not to do. */
    method UpdateOnFinished(id: nat, outs: seq<Cell>) returns (ev: Event)
      requires Dealing() && Landed() && D.Running(sched, id) && RowOk(outs, widths)
      modifies this`execIds, this`given, this`execCurrentId, this`status, this`pushed, this`sched, this`produced
      modifies execVals
      ensures Dealing() && Landed()
      ensures passed == old(passed) && execVals == old(execVals) && nbOfElts == old(nbOfElts) && abs == old(abs)
      ensures sched == D.Apply(old(sched), D.Finished(id))
      ensures 0 <= old(execIds[id]) && produced == old(produced)[old(execIds[id]) := outs] && initial == old(initial)
      ensures 0 <= old(given[id]) < nbOfElts
      ensures forall p :: 0 <= p < |execVals| ==>
        execVals[p].cells == old(execVals[p].cells)[old(given[id]) := outs[p]]
      ensures status == Done ==> Pushed() && produced.Keys == Below(|abs|)
      ensures (ev == Finish <==> status == Done) && (ev == Abort <==> status == Failed && D.AllIdle(execIds))
    {
      D.StepKeepsInvariant(sched, D.Finished(id));
      D.RunningAfter(sched, D.Finished(id));
      D.EndIsTold(sched, D.Finished(id));
      ev := FinishBranch(id, outs);
      if status == Done { D.DoneHasStoredAll(sched); }
    }

    method FinishBranch(id: nat, outs: seq<Cell>) returns (ev: Event)
      requires ToDo() && Shape(execVals, widths, nbOfElts) && Linked(0) && Landed()
      requires D.Running(sched, id) && RowOk(outs, widths) && D.TouchesOwn(sched, D.Finished(id))
      requires execCurrentId <= |abs|
      modifies this`execIds, this`given, this`execCurrentId, this`status, this`pushed, this`sched, this`produced
      modifies execVals
      ensures ToDo() && Shape(execVals, widths, nbOfElts) && Linked(0) && Landed()
      ensures execOutGoingPorts == old(execOutGoingPorts)
      ensures passed == old(passed) && execVals == old(execVals) && nbOfElts == old(nbOfElts) && abs == old(abs)
      ensures sched == D.Apply(old(sched), D.Finished(id))
      ensures 0 <= old(execIds[id]) && produced == old(produced)[old(execIds[id]) := outs] && initial == old(initial)
      ensures 0 <= old(given[id]) < nbOfElts
      ensures forall p :: 0 <= p < |execVals| ==>
        execVals[p].cells == old(execVals[p].cells)[old(given[id]) := outs[p]]
      ensures ev != NoEvent <==> old(execCurrentId) == |abs| && D.AllIdle(execIds)
      ensures ev != NoEvent ==> if ev == Finish then status == Done else status == Failed
      ensures status == Done && old(status) != Done ==> Pushed()
    {
      ghost var r: nat := execIds[id];
      ghost var before := CellsOf(execVals);
      ev := WorkNodeFinished(id, true, outs);
      AllPlacedOneMore(produced, abs, initial, before, r, outs, CellsOf(execVals));
      produced := produced[r := outs];
    }

    /** A branch failed: the loop fails and deals nothing more, unless it keeps going. */
    method UpdateOnFailed(id: nat, keepGoing: bool) returns (ev: Event)
      requires Dealing() && Landed() && D.Running(sched, id)
      modifies this`execIds, this`given, this`execCurrentId, this`status, this`pushed, this`sched, this`failedCounter
      modifies execVals
      ensures Dealing() && Landed()
      ensures passed == old(passed) && execVals == old(execVals) && nbOfElts == old(nbOfElts) && abs == old(abs)
      ensures sched == D.Apply(old(sched), D.Broken(id, keepGoing))
      ensures CellsOf(execVals) == old(CellsOf(execVals)) && produced == old(produced) && initial == old(initial)
      ensures keepGoing ==>
        (ev == Finish <==> status == Done) && (ev == Abort <==> status == Failed && D.AllIdle(execIds))
      ensures !keepGoing ==> ev == Abort && status == Failed && given == old(given)
    {
      D.StepKeepsInvariant(sched, D.Broken(id, keepGoing));
      D.RunningAfter(sched, D.Broken(id, keepGoing));
      D.EndIsTold(sched, D.Broken(id, keepGoing));
      if keepGoing { ev := KeepGoing(id); } else { ev := FailLoop(id); }
    }

    /** The failure is counted and the branch goes on with the next sample. */
    method KeepGoing(id: nat) returns (ev: Event)
      requires ToDo() && Shape(execVals, widths, nbOfElts) && Linked(0) && Landed()
      requires D.Running(sched, id) && D.TouchesOwn(sched, D.Broken(id, true)) && execCurrentId <= |abs|
      modifies this`execIds, this`given, this`execCurrentId, this`status, this`pushed, this`sched, this`failedCounter
      modifies execVals
      ensures ToDo() && Shape(execVals, widths, nbOfElts) && Linked(0) && Landed()
      ensures execOutGoingPorts == old(execOutGoingPorts)
      ensures passed == old(passed) && execVals == old(execVals) && nbOfElts == old(nbOfElts) && abs == old(abs)
      ensures sched == D.Apply(old(sched), D.Broken(id, true))
      ensures CellsOf(execVals) == old(CellsOf(execVals)) && produced == old(produced) && initial == old(initial)
      ensures ev != NoEvent <==> old(execCurrentId) == |abs| && D.AllIdle(execIds)
      ensures ev != NoEvent ==> if ev == Finish then status == Done else status == Failed
    {
      failedCounter := failedCounter + 1;
      ev := WorkNodeFinished(id, false, []);
      assert CellsOf(execVals) == old(CellsOf(execVals));
    }

    /** The loop as a whole fails. */
    method FailLoop(id: nat) returns (ev: Event)
      requires Linked(0) && D.Running(sched, id) && D.TouchesOwn(sched, D.Broken(id, false))
      modifies this`status, this`sched
      ensures Linked(0) && sched == D.Apply(old(sched), D.Broken(id, false))
      ensures ev == Abort && status == Failed
    {
      status, ev := Failed, Abort;
      sched := D.Apply(sched, D.Broken(id, false));
    }
  }
}
