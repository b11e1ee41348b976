/** The main loop of the executor turn by turn: it sleeps, collects, loads and launches, then looks whether
    the bloc is finished, while tasks end at any moment. Each step is a step of a run, so that what holds of
    every run holds here; besides, no wake-up is lost and the number of turns is bounded. */
module Turns {
  import opened Graph
  import opened Gates
  import opened Execution
  import opened Lists
  import opened Runs

  /** The point that the main loop has reached. While it works it holds the tasks of its turn, and how
      many tasks there were, with the running ones, when it collected them. */
  datatype Phase = Deciding | Waiting | Collecting | Working(tasks: set<Node>, all: nat) | Stopped

  datatype TurnState = TurnState(run: RunState, phase: Phase, turns: nat, ends: nat)

  datatype Step = Decide | Resume | Collect | Handle(a: Action) | Ends(n: Node, ok: bool) | Check

  /** What the main loop does to a task that it has collected. */
  predicate OnTask(a: Action) {
    a.LoadFail? || a.Connect? || a.Launch?
  }

  predicate NoneCollectable(tasks: set<Node>, st: map<Node, State>) {
    forall n :: n in tasks && n in st ==> !Collectable(st[n])
  }

  predicate Can(t: TurnState, s: Step) {
    match s
    case Decide => t.phase.Deciding? && t.run.main == Looping
    case Resume => t.phase.Waiting? && Enabled(t.run, WakeUp)
    case Collect => t.phase.Collecting?
    case Handle(a) => t.phase.Working? && OnTask(a) && a.n in t.phase.tasks && Enabled(t.run, a)
    case Ends(n, ok) => Enabled(t.run, End(n, ok))
    case Check => t.phase.Working? && NoneCollectable(t.phase.tasks, t.run.state)
  }

  function CollectableNodes(st: map<Node, State>): set<Node> {
    set n | n in st && Collectable(st[n])
  }

  ghost function Do(e: Links, t: TurnState, s: Step): TurnState
    requires t.run.flags.Keys == t.run.state.Keys && Can(t, s)
  {
    match s
    case Decide =>
      var run := Apply(e, t.run, Sleep);
      t.(run := run, phase := if run.main == Asleep then Waiting else Collecting)
    case Resume => t.(run := Apply(e, t.run, WakeUp), phase := Collecting)
    case Collect =>
      var tasks := CollectableNodes(t.run.state);
      t.(phase := Working(tasks, |t.run.running| + |tasks|), turns := t.turns + 1)
    case Handle(a) => t.(run := Apply(e, t.run, a))
    case Ends(n, ok) => t.(run := Apply(e, t.run, End(n, ok)), ends := t.ends + 1)
    case Check => t.(phase := if t.run.running == {} && Finished(t.run.bloc) then Stopped else Deciding)
  }

  // ----- what holds at every point

  /** The tasks that have become collectable since the last look at the ended tasks are announced by these. */
  ghost predicate Announced(t: TurnState) {
    match t.phase
    case Deciding =>
      && (t.turns == 0 ==> t.run.running == {})
      && (t.turns > 0 && t.run.ended == 0 ==> t.run.running != {} && CollectableNodes(t.run.state) == {})
    case Waiting => t.run.waiting ==> CollectableNodes(t.run.state) == {}
    case Collecting => true
    case Working(tasks, all) =>
      && t.turns > 0 && (t.run.ended == 0 ==> CollectableNodes(t.run.state) <= tasks)
      && (all == 0 ==> Finished(t.run.bloc) && t.run.running == {})
    case Stopped => Finished(t.run.bloc) && t.run.running == {}
  }

  /** Every turn but the first has a task of its own that has ended. */
  predicate Paid(t: TurnState) {
    var pending := if t.run.ended > 0 then 1 else 0;
    match t.phase
    case Waiting => t.turns + (if t.run.waiting then 0 else 1) <= t.ends + 1
    case Collecting => t.turns + pending <= t.ends
    case Stopped => t.turns <= t.ends + 1
    case _ => t.turns + pending <= t.ends + 1
  }

  function FinishedNodes(st: map<Node, State>): set<Node> {
    set n | n in st && Finished(st[n])
  }

  ghost predicate TurnInvariant(e: Links, t: TurnState) {
    && Invariant(e, t.run) && (t.phase.Waiting? <==> t.run.main == Asleep)
    && Announced(t) && Paid(t) && t.ends <= |FinishedNodes(t.run.state)|
  }

  lemma {:induction false} BeginsWell(g: ControlGraph)
    requires g.Valid()
    ensures TurnInvariant(g.Links(), TurnState(Started(g), Deciding, 0, 0))
  {
    StartedInvariant(g);
  }

  /** Events finish no less nodes than there were; the end of a task finishes one more. */
  lemma {:induction false} MoreFinished(e: Links, r: RunState, a: Action)
    requires Acyclic(e) && Invariant(e, r) && Enabled(r, a) && IsEvent(a)
    ensures |FinishedNodes(Apply(e, r, a).state)| >= |FinishedNodes(r.state)| + if a.End? then 1 else 0
  {
    EventWeights(e, r, a);
    assert a.End? ==> a.n in Active(r.state);
    LighterIsFinished(r.state, Apply(e, r, a).state, a);
  }

  lemma {:induction false} LighterIsFinished(st: map<Node, State>, st': map<Node, State>, a: Action)
    requires LighterBy(st, st', a) && (a.End? ==> a.n in st && st[a.n] == Activated)
    ensures |FinishedNodes(st')| >= |FinishedNodes(st)| + if a.End? then 1 else 0
  {
    forall b | b in FinishedNodes(st) ensures b in FinishedNodes(st') {
      assert Weight(st'[b]) <= Weight(st[b]);
    }
    SubsetSize(FinishedNodes(st), FinishedNodes(st'));
    if a.End? {
      assert Weight(st'[a.n]) < Weight(st[a.n]);
      ProperSubsetIsSmaller(FinishedNodes(st), FinishedNodes(st'), a.n);
    }
  }

  /** What the end of a task does besides moving nodes. */
  lemma {:induction false} EndFacts(e: Links, r: RunState, n: Node, ok: bool)
    requires r.flags.Keys == r.state.Keys && Enabled(r, End(n, ok))
    ensures var r' := Apply(e, r, End(n, ok));
            r'.main == r.main && !r'.waiting && r'.ended == if r.waiting then r.ended else r.ended + 1
  {
  }

  /** Handling a task makes no other task collectable, and wakes nobody up. */
  lemma {:induction false} HandleFacts(e: Links, r: RunState, a: Action)
    requires Acyclic(e) && Invariant(e, r) && Enabled(r, a) && OnTask(a)
    ensures var r' := Apply(e, r, a);
            && r'.main == r.main && r'.waiting == r.waiting && r'.ended == r.ended
            && CollectableNodes(r'.state) <= CollectableNodes(r.state)
  {
    var r' := Apply(e, r, a);
    EventWeights(e, r, a);
    forall b | b in CollectableNodes(r'.state) ensures b in CollectableNodes(r.state) {
      NextState(e, r, a, b);
    }
  }

  /** A task is handled in an unfinished bloc only. */
  lemma {:induction false} FinishedStays(e: Links, r: RunState, a: Action)
    requires Invariant(e, r) && Enabled(r, a) && OnTask(a)
    ensures !Finished(r.bloc)
  {
    assert !Finished(r.state[a.n]);
  }

  lemma {:induction false} DecideKeeps(e: Links, t: TurnState)
    requires Acyclic(e) && TurnInvariant(e, t) && Can(t, Decide)
    ensures TurnInvariant(e, Do(e, t, Decide))
  {
    StepKeepsInvariant(e, t.run, Sleep);
  }

  lemma {:induction false} ResumeKeeps(e: Links, t: TurnState)
    requires Acyclic(e) && TurnInvariant(e, t) && Can(t, Resume)
    ensures TurnInvariant(e, Do(e, t, Resume))
  {
    StepKeepsInvariant(e, t.run, WakeUp);
  }

  lemma {:induction false} CollectKeeps(e: Links, t: TurnState)
    requires Acyclic(e) && TurnInvariant(e, t) && Can(t, Collect)
    ensures TurnInvariant(e, Do(e, t, Collect))
  {
    if t.run.running == {} && CollectableNodes(t.run.state) == {} && !Finished(t.run.bloc) {
      SomeoneIsBusy(e, t.run);
      var n :| n in t.run.state && Collectable(t.run.state[n]);
      assert n in CollectableNodes(t.run.state);
    }
  }

  lemma {:induction false} HandleKeeps(e: Links, t: TurnState, a: Action)
    requires Acyclic(e) && TurnInvariant(e, t) && Can(t, Handle(a))
    ensures TurnInvariant(e, Do(e, t, Handle(a)))
  {
    StepKeepsInvariant(e, t.run, a);
    HandleFacts(e, t.run, a);
    MoreFinished(e, t.run, a);
    FinishedStays(e, t.run, a);
  }

  lemma {:induction false} EndsKeeps(e: Links, t: TurnState, n: Node, ok: bool)
    requires Acyclic(e) && TurnInvariant(e, t) && Can(t, Ends(n, ok))
    ensures TurnInvariant(e, Do(e, t, Ends(n, ok)))
  {
    StepKeepsInvariant(e, t.run, End(n, ok));
    EndFacts(e, t.run, n, ok);
    MoreFinished(e, t.run, End(n, ok));
  }

  lemma {:induction false} CheckKeeps(e: Links, t: TurnState)
    requires Acyclic(e) && TurnInvariant(e, t) && Can(t, Check)
    ensures TurnInvariant(e, Do(e, t, Check))
  {
    var st, tasks := t.run.state, t.phase.tasks;
    if t.run.ended == 0 {
      assert forall n :: n in CollectableNodes(st) ==> n in tasks;
      assert CollectableNodes(st) == {};
      if !Finished(t.run.bloc) { SomeoneIsBusy(e, t.run); }
    }
  }

  lemma {:induction false} StepKeeps(e: Links, t: TurnState, s: Step)
    requires Acyclic(e) && TurnInvariant(e, t) && Can(t, s)
    ensures TurnInvariant(e, Do(e, t, s))
  {
    match s
    case Decide => DecideKeeps(e, t);
    case Resume => ResumeKeeps(e, t);
    case Collect => CollectKeeps(e, t);
    case Handle(a) => HandleKeeps(e, t, a);
    case Ends(n, ok) => EndsKeeps(e, t, n, ok);
    case Check => CheckKeeps(e, t);
  }

  // ----- every run, turn by turn

  ghost predicate Follows(e: Links, m: TurnState, s: Step, t: TurnState) {
    m.run.flags.Keys == m.run.state.Keys && Can(m, s) && t == Do(e, m, s)
  }

  /** t is reached from the start of g by the given steps. */
  ghost predicate TurnsTo(g: ControlGraph, steps: seq<Step>, t: TurnState)
    requires g.Valid()
    decreases |steps|
  {
    if steps == [] then t == TurnState(Started(g), Deciding, 0, 0)
    else
      exists m {:trigger TurnsTo(g, steps[..|steps| - 1], m)} ::
        TurnsTo(g, steps[..|steps| - 1], m) && Follows(g.Links(), m, steps[|steps| - 1], t)
  }

  lemma {:induction false} EveryTurn(g: ControlGraph, steps: seq<Step>, t: TurnState)
    requires g.Valid() && TurnsTo(g, steps, t)
    ensures TurnInvariant(g.Links(), t)
    decreases |steps|
  {
    if steps == [] {
      BeginsWell(g);
    } else {
      var m :| TurnsTo(g, steps[..|steps| - 1], m) && Follows(g.Links(), m, steps[|steps| - 1], t);
      EveryTurn(g, steps[..|steps| - 1], m);
      StepKeeps(g.Links(), m, steps[|steps| - 1]);
    }
  }

  /** The action of a run that a step is, if it is one. */
  function ActionOf(s: Step): seq<Action> {
    match s
    case Decide => [Sleep]
    case Resume => [WakeUp]
    case Handle(a) => [a]
    case Ends(n, ok) => [End(n, ok)]
    case _ => []
  }

  function ActionsOf(steps: seq<Step>): seq<Action> {
    if steps == [] then [] else ActionsOf(steps[..|steps| - 1]) + ActionOf(steps[|steps| - 1])
  }

  lemma {:induction false} ActionsOfLast(steps: seq<Step>)
    requires steps != []
    ensures var front, a := ActionsOf(steps[..|steps| - 1]), ActionOf(steps[|steps| - 1]);
            var acts := ActionsOf(steps);
            if a == [] then acts == front else acts != [] && Front(acts) == front && Last(acts) == a[0]
  {
    var a := ActionOf(steps[|steps| - 1]);
    if a != [] { assert a == [a[0]]; }
  }

  /** A step is an action of the run, or leaves the run as it is. */
  lemma {:induction false} StepIsAction(e: Links, m: TurnState, s: Step, t: TurnState)
    requires Follows(e, m, s, t)
    ensures if ActionOf(s) == [] then t.run == m.run else StepTo(e, m.run, ActionOf(s)[0], t.run)
  {
  }

  /** The turns of the main loop make runs: all that was proved of runs holds of them. */
  lemma {:induction false} TurnsAreRuns(g: ControlGraph, steps: seq<Step>, t: TurnState)
    requires g.Valid() && TurnsTo(g, steps, t)
    ensures ReachedBy(g, ActionsOf(steps), t.run)
    decreases |steps|
  {
    if steps != [] {
      var front, s := steps[..|steps| - 1], steps[|steps| - 1];
      var m :| TurnsTo(g, front, m) && Follows(g.Links(), m, s, t);
      TurnsAreRuns(g, front, m);
      ActionsOfLast(steps);
      StepIsAction(g.Links(), m, s, t);
    }
  }

  /** No wake-up is lost: while the main loop waits there is nothing it could collect, and a task runs
      that will wake it up. */
  lemma {:induction false} NoLostWakeUp(g: ControlGraph, steps: seq<Step>, t: TurnState)
    requires g.Valid() && TurnsTo(g, steps, t) && t.run.waiting
    ensures t.run.running != {} && forall n :: n in t.run.state ==> !Collectable(t.run.state[n])
  {
    EveryTurn(g, steps, t);
    assert forall n :: n in t.run.state ==> n !in CollectableNodes(t.run.state);
  }

  /** A turn that found no task to launch and none running is the last one: the executor has no problem to report. */
  lemma {:induction false} NoProblemToReport(g: ControlGraph, steps: seq<Step>, t: TurnState)
    requires g.Valid() && TurnsTo(g, steps, t) && Can(t, Check) && t.phase.all == 0
    ensures Do(g.Links(), t, Check).phase == Stopped
  {
    EveryTurn(g, steps, t);
  }

  /** Each turn but the first is due to a task of its own that has ended: there are no more than tasks, plus one. */
  lemma {:induction false} TurnsAreBounded(g: ControlGraph, steps: seq<Step>, t: TurnState)
    requires g.Valid() && TurnsTo(g, steps, t)
    ensures t.turns <= t.ends + 1 && t.ends <= |g.nodes|
  {
    EveryTurn(g, steps, t);
    TurnsAreRuns(g, steps, t);
    KeysOfRun(g, ActionsOf(steps), t.run);
    FinishedAreNodes(g, t.run.state);
  }

  lemma {:induction false} KeysOfRun(g: ControlGraph, acts: seq<Action>, r: RunState)
    requires g.Valid() && ReachedBy(g, acts, r)
    ensures r.state.Keys == g.outs.Keys
  {
    WorkIsSpent(g, acts, r);
  }

  lemma {:induction false} FinishedAreNodes(g: ControlGraph, st: map<Node, State>)
    requires g.Valid() && st.Keys == g.outs.Keys
    ensures |FinishedNodes(st)| <= |g.nodes|
  {
    assert st.Keys == AsSet(g.nodes);
    SubsetSize(FinishedNodes(st), AsSet(g.nodes));
    SetIsShorter(g.nodes);
  }

  /** Where the main loop is in its turn. */
  function Hand(p: Phase): int {
    match p
    case Deciding => 0
    case Waiting => 1
    case Collecting => 2
    case Working(_, _) => -1
    case Stopped => 0
  }

  /** A step that moves no node brings the main loop forward. */
  lemma {:induction false} StepAdvances(e: Links, m: TurnState, s: Step, t: TurnState)
    requires Follows(e, m, s, t)
    ensures 4 * t.turns + Hand(t.phase) + (if s.Handle? || s.Ends? then 1 else 0) > 4 * m.turns + Hand(m.phase)
    ensures s.Handle? || s.Ends? ==> ActionOf(s) != [] && IsEvent(ActionOf(s)[0])
  {
  }

  lemma {:induction false} StepsAreCounted(g: ControlGraph, steps: seq<Step>, t: TurnState)
    requires g.Valid() && TurnsTo(g, steps, t)
    ensures |steps| <= Events(ActionsOf(steps)) + 4 * t.turns + Hand(t.phase)
    decreases |steps|
  {
    if steps != [] {
      var front, s := steps[..|steps| - 1], steps[|steps| - 1];
      var m :| TurnsTo(g, front, m) && Follows(g.Links(), m, s, t);
      StepsAreCounted(g, front, m);
      ActionsOfLast(steps);
      StepAdvances(g.Links(), m, s, t);
    }
  }

  /** Every run ends: it has no more than seven steps per node, and six. */
  lemma {:induction false} EveryRunEnds(g: ControlGraph, steps: seq<Step>, t: TurnState)
    requires g.Valid() && TurnsTo(g, steps, t)
    ensures |steps| <= 7 * |g.nodes| + 6
  {
    StepsAreCounted(g, steps, t);
    TurnsAreBounded(g, steps, t);
    TurnsAreRuns(g, steps, t);
    RunsEnd(g, ActionsOf(steps), t.run);
  }

  /** It ends only with a finished bloc, done if all children are and failed otherwise: before that some
      step can be done. */
  lemma {:induction false} EndsFinished(g: ControlGraph, steps: seq<Step>, t: TurnState)
    requires g.Valid() && TurnsTo(g, steps, t)
    ensures t.phase == Stopped <==> forall s :: !Can(t, s)
    ensures t.phase == Stopped ==>
      AllFinished(t.run.state) && t.run.bloc == if AllDone(t.run.state) then Done else Failed
  {
    EveryTurn(g, steps, t);
    TurnsAreRuns(g, steps, t);
    QuietMeansFinished(g, ActionsOf(steps), t.run);
    if t.phase != Stopped { var s := NextStep(g.Links(), t); }
  }

  lemma {:induction false} NextStep(e: Links, t: TurnState) returns (s: Step)
    requires TurnInvariant(e, t) && t.phase != Stopped
    ensures Can(t, s)
  {
    match t.phase
    case Deciding => s := Decide;
    case Waiting =>
      if t.run.waiting {
        var n :| n in t.run.running;
        assert n in Active(t.run.state);
        s := Ends(n, true);
      } else {
        s := Resume;
      }
    case Collecting => s := Collect;
    case Working(tasks, _) =>
      if NoneCollectable(tasks, t.run.state) {
        s := Check;
      } else {
        var n :| n in tasks && n in t.run.state && Collectable(t.run.state[n]);
        s := Handle(if t.run.state[n] == ToLoad then Connect(n) else Launch(n));
      }
  }
}
