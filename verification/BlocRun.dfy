/** The objects behind a run: a Bloc and its elementary nodes, updated in place
    by the notifications of the executor. */
module BlocRuns {
  import opened Graph
  import opened Gates
  import opened Lists
  import opened Execution
  import opened Runs

  /** The in gates still list the precursors they were built with. */
  ghost predicate SameGates(flags: InGates, ins: InGates) {
    flags.Keys == ins.Keys && forall b {:trigger flags[b]} :: b in ins ==> Froms(flags[b]) == Froms(ins[b])
  }

  ghost predicate NotifiedUpTo(st: map<Node, State>, fl: InGates, l: seq<Node>, n: Node, st': map<Node, State>,
    fl': InGates)
  {
    && st'.Keys == st.Keys && fl'.Keys == fl.Keys && st.Keys == fl.Keys
    && (forall b {:trigger fl'[b]} :: b in fl ==> fl'[b] == if b in l then Raised(fl[b], n) else fl[b])
    && (forall b {:trigger st'[b]} :: b in st ==>
          st'[b] == if b in l && GateReady(Raised(fl[b], n)) then Updated(st[b]) else st[b])
  }

  lemma {:induction false} NewAt(nodes: seq<Node>, i: nat)
    requires Distinct(nodes) && i < |nodes|
    ensures nodes[i] in Elements(nodes) && nodes[i] !in nodes[..i]
    ensures Elements(nodes[..i + 1]) == Elements(nodes[..i]) + {nodes[i]}
  {
  }

  lemma {:induction false} StepFacts(g: ControlGraph, s: RunState, n: Node)
    requires g.Valid() && s.state.Keys == g.outs.Keys && SameGates(s.flags, g.ins) && n in g.outs
    ensures Followers(g.outs[n], s.flags, n) && Elements(g.nodes) == s.state.Keys == s.flags.Keys
  {
    FollowersOf(g, s.flags, n);
  }

  ghost function Concluded(e: Links, s: RunState, n: Node, ok: bool): RunState
    requires s.state.Keys == s.flags.Keys && n in s.state
  {
    var s' := s.(state := s.state[n := if ok then Done else Error]);
    if ok then NotifyFinished(s', n) else NotifyFailed(e, s', n)
  }

  /** Steps raise flags and change nothing else in the in gates. */
  lemma {:induction false} FlagsAfter(e: Links, s: RunState, a: Action)
    requires s.state.Keys == s.flags.Keys && Enabled(s, a)
    ensures Apply(e, s, a).flags == s.flags ||
            (a.End? && Apply(e, s, a).flags == map b | b in s.flags :: Raised(s.flags[b], a.n))
  {
  }

  lemma {:induction false} RaisedSameGates(flags: InGates, ins: InGates, n: Node)
    requires SameGates(flags, ins)
    ensures SameGates(map b | b in flags :: Raised(flags[b], n), ins)
  {
    forall b | b in flags ensures Froms(Raised(flags[b], n)) == Froms(flags[b]) {}
  }

  lemma {:induction false} KeepsValid(g: ControlGraph, s: RunState, a: Action)
    requires g.Valid() && s.state.Keys == g.outs.Keys && SameGates(s.flags, g.ins)
    requires Invariant(g.Links(), s) && Enabled(s, a)
    ensures var s' := Apply(g.Links(), s, a);
            s'.state.Keys == g.outs.Keys && SameGates(s'.flags, g.ins) && Invariant(g.Links(), s')
  {
    StepKeepsInvariant(g.Links(), s, a);
    EventWeights(g.Links(), s, a);
    FlagsAfter(g.Links(), s, a);
    if a.End? { RaisedSameGates(s.flags, g.ins, a.n); }
  }

  lemma {:induction false} StartedFacts(g: ControlGraph)
    requires g.Valid()
    ensures g.ins.Keys == g.outs.Keys == Elements(g.nodes)
    ensures SameGates(Started(g).flags, g.ins)
  {
    forall b | b in g.ins ensures Froms(Lowered(g.ins[b])) == Froms(g.ins[b]) {}
  }

  /** The nodes whose gates are ready are to load, the others wait. */
  function ReadyStates(flags: InGates): map<Node, State> {
    map b | b in flags :: if GateReady(flags[b]) then ToLoad else Ready
  }

  lemma {:induction false} StartedKeys(g: ControlGraph)
    requires g.Valid()
    ensures g.ins.Keys == g.outs.Keys == Elements(g.nodes)
  {
  }

  lemma {:induction false} StartedIs(g: ControlGraph, s: RunState)
    requires g.Valid() && s.flags == map n | n in g.ins :: Lowered(g.ins[n])
    requires s.state == ReadyStates(s.flags)
    requires s.bloc == Activated && s.running == {} && s.ended == 0 && !s.waiting && s.main == Looping
    ensures s == Started(g)
  {
    assert s.state == Started(g).state;
  }

  /** l lists, once each, the nodes whose in gate has an entry for n. */
  ghost predicate Followers(l: seq<Node>, flags: InGates, n: Node) {
    && Distinct(l)
    && (forall b {:trigger b in l} :: b in l ==> b in flags && Distinct(Froms(flags[b])))
    && (forall b {:trigger flags[b]} :: b in flags ==> (b in l <==> n in Froms(flags[b])))
  }

  lemma {:induction false} NotifiedMore(st: map<Node, State>, fl: InGates, l: seq<Node>, i: nat, n: Node,
                     st1: map<Node, State>, fl1: InGates, st2: map<Node, State>, fl2: InGates)
    requires i < |l| && l[i] in st && l[i] !in l[..i] && NotifiedUpTo(st, fl, l[..i], n, st1, fl1)
    requires fl2 == fl1[l[i] := Raised(fl1[l[i]], n)]
    requires st2 == if GateReady(fl2[l[i]]) then st1[l[i] := Updated(st1[l[i]])] else st1
    ensures NotifiedUpTo(st, fl, l[..i + 1], n, st2, fl2)
  {
    assert l[..i + 1] == l[..i] + [l[i]];
  }

  lemma {:induction false} FollowersOf(g: ControlGraph, fl: InGates, n: Node)
    requires g.Valid() && SameGates(fl, g.ins) && n in g.outs
    ensures Followers(g.outs[n], fl, n)
  {
    GraphFacts(g);
    forall b | b in fl ensures b in g.outs[n] <==> n in Froms(fl[b]) {
      assert (n, b) in g.Links() <==> n in Froms(g.ins[b]);
    }
    forall b | b in g.outs[n] ensures b in fl && Distinct(Froms(fl[b])) {
      assert (n, b) in g.Links();
    }
  }

  lemma {:induction false} NotifiedIsForward(s: RunState, l: seq<Node>, n: Node, st': map<Node, State>, fl': InGates)
    requires s.state.Keys == s.flags.Keys && NotifiedUpTo(s.state, s.flags, l, n, st', fl')
    requires forall b {:trigger s.flags[b]} :: b in s.flags ==> (b in l <==> n in Froms(s.flags[b]))
    ensures ForwardDone(s, n) == s.(state := st', flags := fl')
  {
    forall b | b in s.flags ensures fl'[b] == Raised(s.flags[b], n) {
      if b !in l { NotRaised(s.flags[b], n); }
    }
    assert ForwardDone(s, n).flags == fl';
    assert ForwardDone(s, n).state == st';
  }

  lemma {:induction false} NotRaised(ps: seq<Precursor>, n: Node)
    requires n !in Froms(ps)
    ensures Raised(ps, n) == ps
  {
    forall i | 0 <= i < |ps| ensures ps[i].from != n { assert Froms(ps)[i] in Froms(ps); }
  }

  /** The nodes of l and everything below them are failed, the others as before. */
  ghost predicate FailedUpTo(e: Links, st: map<Node, State>, l: seq<Node>, st': map<Node, State>) {
    st'.Keys == st.Keys && forall b {:trigger st'[b]} :: b in st ==>
      st'[b] == if exists a :: a in l && ReachOrSame(e, a, b) then Failed else st[b]
  }

  lemma {:induction false} FailedMore(e: Links, st: map<Node, State>, l: seq<Node>, i: nat, st1: map<Node, State>)
    requires i < |l| && l[i] in st && FailedUpTo(e, st, l[..i], st1)
    ensures FailedUpTo(e, st, l[..i + 1], FailBelow(e, st1[l[i] := Failed], l[i]))
  {
    assert l[..i + 1] == l[..i] + [l[i]];
    forall b | b in st
      ensures (exists a :: a in l[..i + 1] && ReachOrSame(e, a, b)) <==>
              (exists a :: a in l[..i] && ReachOrSame(e, a, b)) || ReachOrSame(e, l[i], b)
    {
      if a: Node :| a in l[..i] && ReachOrSame(e, a, b) { assert a in l[..i + 1]; }
      assert l[i] in l[..i + 1];
    }
  }

  lemma {:induction false} FollowerRank(g: ControlGraph, n: Node, i: nat)
    requires g.Valid() && n in g.outs && i < |g.outs[n]|
    ensures g.outs[n][i] in g.outs
    ensures Rank(g.Links(), n) < Rank(g.Links(), g.outs[n][i]) <= |Sources(g.Links())|
  {
    var b := g.outs[n][i];
    assert b in g.outs[n] && (n, b) in g.Links();
    LinkReaches(g.Links(), n, b);
    RankGrows(g.Links(), n, b);
    RankBound(g.Links(), b);
  }

  lemma {:induction false} AllFailed(g: ControlGraph, st: map<Node, State>, n: Node, st': map<Node, State>)
    requires g.Valid() && n in g.outs && FailedUpTo(g.Links(), st, g.outs[n], st')
    ensures st' == FailBelow(g.Links(), st, n)
  {
    var e := g.Links();
    forall b | b in st ensures Reach(e, n, b) <==> exists a :: a in g.outs[n] && ReachOrSame(e, a, b) {
      if Reach(e, n, b) { var c := ReachFirst(e, n, b); }
      if a: Node :| a in g.outs[n] && ReachOrSame(e, a, b) {
        LinkReaches(e, n, a);
        ReachTransitive(e, n, a, b);
      }
    }
  }

  lemma {:induction false} RankBound(e: Links, n: Node)
    ensures Rank(e, n) <= |Sources(e)|
  {
    SubsetSize(Ancestors(e, n), Sources(e));
  }

  /** An unfinished bloc has a running task or one to collect; a finished one has none to collect. */
  lemma {:induction false} TasksToDo(e: Links, s: RunState, tasks: seq<Node>)
    requires Acyclic(e) && Invariant(e, s)
    requires s.bloc == Activated ==> forall n :: n in tasks <==> n in s.state && Collectable(s.state[n])
    requires s.bloc != Activated ==> tasks == []
    ensures forall n :: n in tasks <==> n in s.state && Collectable(s.state[n])
    ensures !Finished(s.bloc) ==> s.running != {} || tasks != []
  {
    if Finished(s.bloc) { assert AllFinished(s.state); } else { SomeoneIsBusy(e, s); }
  }

  class BlocRun {
    const g: ControlGraph
    var state: map<Node, State>
    var flags: InGates
    var bloc: State
    var running: set<Node>
    var ended: nat
    var waiting: bool
    var main: MainLoop

    ghost function Now(): RunState
      reads this
    {
      RunState(state, flags, bloc, running, ended, waiting, main)
    }

    ghost predicate KeysOk()
      reads this`state, this`flags
    {
      g.Valid() && state.Keys == g.outs.Keys && SameGates(flags, g.ins)
    }

    ghost predicate Valid()
      reads this
    {
      KeysOk() && Invariant(g.Links(), Now())
    }

    /** Initialises every node and gate, then starts the nodes without precursors. */
    constructor (graph: ControlGraph)
      requires graph.Valid()
      ensures Valid() && g == graph && Now() == Started(graph)
    {
      g := graph;
      state := map n | n in graph.ins :: Ready;
      flags := map n | n in graph.ins :: Lowered(graph.ins[n]);
      bloc, running, ended, waiting, main := Activated, {}, 0, false, Looping;
      new;
      StartedKeys(g);
      UpdateReadyNodes();
      StartedFacts(g);
      StartedIs(g, Now());
      StartedInvariant(g);
    }

    /** Asks every control-ready child to update its state. */
    method UpdateReadyNodes()
      requires state.Keys == flags.Keys && Elements(g.nodes) == state.Keys
      requires forall b :: b in state ==> state[b] == Ready
      modifies this`state
      ensures state == ReadyStates(flags)
    {
      for i := 0 to |g.nodes|
        invariant state.Keys == flags.Keys
        invariant forall b {:trigger state[b]} :: b in state ==>
          state[b] == if b in Elements(g.nodes[..i]) && GateReady(flags[b]) then ToLoad else Ready
      {
        var n := g.nodes[i];
        assert n in Elements(g.nodes);
        if GateReady(flags[n]) { UpdateNode(n); }
        assert Elements(g.nodes[..i + 1]) == Elements(g.nodes[..i]) + {n};
      }
      assert g.nodes[..|g.nodes|] == g.nodes;
    }

    /** A control-ready node is loaded, or activated when it was loaded already. */
    method UpdateNode(n: Node)
      requires n in state && n in flags
      modifies this`state
      ensures state == if GateReady(flags[n]) then old(state)[n := Updated(old(state)[n])] else old(state)
    {
      if GateReady(flags[n]) {
        if state[n] == Ready {
          state := state[n := ToLoad];
        } else if state[n] == Loaded {
          state := state[n := ToActivate];
        }
      }
    }

    /** The in gate of b learns that its precursor is done. */
    method NotifyFromPrecursor(b: Node, from: Node)
      requires b in state && b in flags && from in Froms(flags[b]) && Distinct(Froms(flags[b]))
      modifies this`state, this`flags
      ensures flags == old(flags)[b := Raised(old(flags)[b], from)]
      ensures state == if GateReady(flags[b]) then old(state)[b := Updated(old(state)[b])] else old(state)
    {
      var i := Find(Froms(flags[b]), from);
      flags := flags[b := flags[b][i := Precursor(from, true)]];
      assert flags[b] == Raised(old(flags)[b], from) by {
        forall j | 0 <= j < |flags[b]| && j != i ensures old(flags)[b][j].from != from {
          assert Froms(old(flags)[b])[j] != Froms(old(flags)[b])[i];
        }
      }
      if GateReady(flags[b]) { UpdateNode(b); }
    }

    /** Tells every node after n that n is done. */
    method NotifyDone(n: Node)
      requires n in g.outs && state.Keys == flags.Keys && Followers(g.outs[n], flags, n)
      modifies this`state, this`flags
      ensures Now() == ForwardDone(old(Now()), n)
    {
      ghost var s0 := Now();
      NotifyFollowers(n);
      NotifiedIsForward(s0, g.outs[n], n, state, flags);
    }

    /** Tells the nodes after n, one after the other. */
    method NotifyFollowers(n: Node)
      requires n in g.outs && state.Keys == flags.Keys && Followers(g.outs[n], flags, n)
      modifies this`state, this`flags
      ensures NotifiedUpTo(old(state), old(flags), g.outs[n], n, state, flags)
    {
      ghost var st, fl := state, flags;
      for i := 0 to |g.outs[n]|
        invariant NotifiedUpTo(st, fl, g.outs[n][..i], n, state, flags)
      {
        assert g.outs[n][i] in g.outs[n] && g.outs[n][i] !in g.outs[n][..i];
        ghost var st1, fl1 := state, flags;
        NotifyFromPrecursor(g.outs[n][i], n);
        NotifiedMore(st, fl, g.outs[n], i, n, st1, fl1, state, flags);
      }
      assert g.outs[n][..|g.outs[n]|] == g.outs[n];
    }

    /** Marks n as failed, and everything below it. */
    method FailNode(n: Node)
      requires g.Valid() && state.Keys == g.outs.Keys && n in g.outs
      modifies this`state
      ensures state == FailBelow(g.Links(), old(state)[n := Failed], n)
      decreases |Sources(g.Links())| - Rank(g.Links(), n), 1
    {
      RankBound(g.Links(), n);
      state := state[n := Failed];
      ForwardFailed(n);
    }

    /** Marks everything below n as failed. */
    method ForwardFailed(n: Node)
      requires g.Valid() && state.Keys == g.outs.Keys && n in g.outs
      modifies this`state
      ensures state == FailBelow(g.Links(), old(state), n)
      decreases |Sources(g.Links())| - Rank(g.Links(), n), 0
    {
      ghost var st := state;
      for i := 0 to |g.outs[n]|
        invariant FailedUpTo(g.Links(), st, g.outs[n][..i], state)
      {
        FollowerRank(g, n, i);
        ghost var st1 := state;
        FailNode(g.outs[n][i]);
        FailedMore(g.Links(), st, g.outs[n], i, st1);
      }
      assert g.outs[n][..|g.outs[n]|] == g.outs[n];
      AllFailed(g, st, n, state);
    }

    method AreAllSubNodesFinished() returns (all: bool)
      requires Elements(g.nodes) == state.Keys
      ensures all == AllFinished(state)
    {
      for i := 0 to |g.nodes|
        invariant forall k :: 0 <= k < i ==> g.nodes[k] in state && Finished(state[g.nodes[k]])
      {
        assert g.nodes[i] in Elements(g.nodes);
        if !Finished(state[g.nodes[i]]) { return false; }
      }
      assert forall n :: n in state ==> n in g.nodes;
      return true;
    }

    method AreAllSubNodesDone() returns (all: bool)
      requires Elements(g.nodes) == state.Keys
      ensures all == AllDone(state)
    {
      for i := 0 to |g.nodes|
        invariant forall k :: 0 <= k < i ==> g.nodes[k] in state && state[g.nodes[k]] == Done
      {
        assert g.nodes[i] in Elements(g.nodes);
        if state[g.nodes[i]] != Done { return false; }
      }
      assert forall n :: n in state ==> n in g.nodes;
      return true;
    }

    /** Sets the final state of the bloc once all its children are finished. */
    method Conclude() returns (ev: Event)
      requires Elements(g.nodes) == state.Keys
      modifies this`bloc
      ensures bloc == Verdict(state)
      ensures ev == if AllDone(state) then Finish else Abort
    {
      bloc := Done;
      var done := AreAllSubNodesDone();
      if !done {
        bloc := Failed;
        return Abort;
      }
      return Finish;
    }

    /** A child ended well. */
    method UpdateOnFinished(n: Node) returns (ev: Event)
      requires n in g.outs && state.Keys == flags.Keys && Elements(g.nodes) == state.Keys
      requires Followers(g.outs[n], flags, n)
      modifies this`state, this`flags, this`bloc
      ensures Now() == NotifyFinished(old(Now()), n)
      ensures ev == if !AllFinished(old(state)) then NoEvent else if AllDone(old(state)) then Finish else Abort
    {
      var all := AreAllSubNodesFinished();
      if all {
        ev := Conclude();
      } else {
        NotifyDone(n);
        ev := NoEvent;
      }
    }

    /** A child failed. */
    method UpdateOnFailed(n: Node) returns (ev: Event)
      requires g.Valid() && n in g.outs && state.Keys == g.outs.Keys
      modifies this`state, this`bloc
      ensures Now() == NotifyFailed(g.Links(), old(Now()), n)
      ensures ev == if !AllFinished(state) then NoEvent else if AllDone(state) then Finish else Abort
    {
      ForwardFailed(n);
      var all := AreAllSubNodesFinished();
      if all { ev := Conclude(); } else { ev := NoEvent; }
    }

    /** Wakes the sleeping main loop up, or counts the end for its next turn. */
    method WakeUpMain()
      modifies this`waiting, this`ended
      ensures waiting == false
      ensures ended == if old(waiting) then old(ended) else old(ended) + 1
    {
      if waiting { waiting := false; } else { ended := ended + 1; }
    }

    /** The critical section at the end of a task, in its own thread. */
    method TaskEnded(n: Node, ok: bool) returns (ev: Event)
      requires Valid() && Enabled(Now(), End(n, ok))
      modifies this
      ensures Valid() && Now() == Apply(g.Links(), old(Now()), End(n, ok))
    {
      StepFacts(g, Now(), n);
      KeepsValid(g, Now(), End(n, ok));
      ev := EndTask(n, ok);
    }

    method EndTask(n: Node, ok: bool) returns (ev: Event)
      requires g.Valid() && n in g.outs && state.Keys == flags.Keys == g.outs.Keys && Elements(g.nodes) == state.Keys
      requires Followers(g.outs[n], flags, n)
      modifies this
      ensures Now() == TaskEnd(g.Links(), old(Now()), n, ok)
    {
      ev := ConcludeTask(n, ok);
      running := running - {n};
      WakeUpMain();
    }

    /** Loading or connecting a task failed, in the main loop. */
    method TaskNotLoaded(n: Node) returns (ev: Event)
      requires Valid() && Enabled(Now(), LoadFail(n))
      modifies this
      ensures Valid() && Now() == Apply(g.Links(), old(Now()), LoadFail(n))
    {
      StepFacts(g, Now(), n);
      KeepsValid(g, Now(), LoadFail(n));
      ev := ConcludeTask(n, false);
    }

    /** Sets the final state of a task and notifies its bloc. */
    method ConcludeTask(n: Node, ok: bool) returns (ev: Event)
      requires g.Valid() && n in g.outs && state.Keys == flags.Keys == g.outs.Keys && Elements(g.nodes) == state.Keys
      requires Followers(g.outs[n], flags, n)
      modifies this`state, this`flags, this`bloc
      ensures Now() == Concluded(g.Links(), old(Now()), n, ok)
    {
      state := state[n := if ok then Done else Error];
      if ok { ev := UpdateOnFinished(n); } else { ev := UpdateOnFailed(n); }
    }

    /** The start of a task being loaded is notified to the bloc. */
    method TaskStarted(n: Node)
      requires Valid() && Enabled(Now(), LoadStart(n))
      modifies this`bloc
      ensures Valid() && Now() == Apply(g.Links(), old(Now()), LoadStart(n)) && Now() == old(Now())
    {
      assert !Finished(state[n]);
      bloc := Activated;
    }

    /** A loaded task is connected: it is then ready to run. */
    method TaskConnected(n: Node)
      requires Valid() && Enabled(Now(), Connect(n))
      modifies this`state
      ensures Valid() && Now() == Apply(g.Links(), old(Now()), Connect(n))
      ensures state[n] == ToActivate
    {
      ghost var s' := Apply(g.Links(), Now(), Connect(n));
      ConnectKeeps(g.Links(), Now(), n);
      GateOfLoading(g.Links(), state, flags, n);
      state := state[n := if GateReady(flags[n]) then ToActivate else Loaded];
      assert Now() == s';
    }

    method LaunchTask(n: Node)
      requires Valid() && Enabled(Now(), Launch(n))
      modifies this`state, this`running
      ensures Valid() && Now() == Apply(g.Links(), old(Now()), Launch(n))
    {
      ghost var s' := Apply(g.Links(), Now(), Launch(n));
      LaunchKeeps(g.Links(), Now(), n);
      running := running + {n};
      state := state[n := Activated];
      assert Now() == s';
    }

    /** The main loop sleeps only while a launched task has not ended. */
    method SleepWhileNoEvents()
      requires Valid() && Enabled(Now(), Sleep)
      modifies this`waiting, this`main, this`ended
      ensures Valid() && Now() == Apply(g.Links(), old(Now()), Sleep)
      ensures waiting ==> running != {}
    {
      ghost var s' := Apply(g.Links(), Now(), Sleep);
      PauseKeeps(g.Links(), Now(), Sleep);
      if running != {} && ended == 0 {
        waiting, main := true, Asleep;
      } else {
        ended := 0;
      }
      assert Now() == s';
    }

    /** The main loop resumes after a task has woken it up. */
    method Resume()
      requires Valid() && Enabled(Now(), WakeUp)
      modifies this`main, this`ended
      ensures Valid() && Now() == Apply(g.Links(), old(Now()), WakeUp)
    {
      PauseKeeps(g.Links(), Now(), WakeUp);
      ended, main := 0, Looping;
    }

    /** Collects the tasks to load or to launch; an unfinished bloc always has one, or a running one. */
    method GetNextTasks() returns (tasks: seq<Node>)
      requires Valid()
      ensures forall n :: n in tasks <==> n in state && Collectable(state[n])
      ensures Distinct(tasks)
      ensures !Finished(bloc) ==> running != {} || tasks != []
    {
      tasks := [];
      StartedFacts(g);
      if bloc == Activated { tasks := GetReadyTasks(); }
      TasksToDo(g.Links(), Now(), tasks);
    }

    method GetReadyTasks() returns (tasks: seq<Node>)
      requires Elements(g.nodes) == state.Keys && Distinct(g.nodes)
      ensures forall n :: n in tasks <==> n in state && Collectable(state[n])
      ensures Distinct(tasks)
    {
      tasks := [];
      for i := 0 to |g.nodes|
        invariant forall n :: n in tasks <==> n in Elements(g.nodes[..i]) && n in state && Collectable(state[n])
        invariant Distinct(tasks)
      {
        var n := g.nodes[i];
        NewAt(g.nodes, i);
        if Collectable(state[n]) {
          DistinctSnoc(tasks, n);
          tasks := tasks + [n];
        }
      }
      assert g.nodes[..|g.nodes|] == g.nodes;
    }
  }
}
