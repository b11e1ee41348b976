/** Whole runs of a Bloc: safety over every interleaving, absence of deadlock,
    termination and the final verdict. */
module Runs {
  import opened Graph
  import opened Gates
  import opened Execution

  /** s is reached from the start of g by the given actions. */
  ghost predicate ReachedBy(g: ControlGraph, acts: seq<Action>, s: RunState)
    requires g.Valid()
    decreases |acts|
  {
    if acts == [] then s == Started(g) else
    exists m :: ReachedBy(g, Front(acts), m) && StepTo(g.Links(), m, Last(acts), s)
  }

  function Front(acts: seq<Action>): (r: seq<Action>)
    requires acts != []
    ensures acts == r + [Last(acts)] && r == acts[..|r|]
  {
    acts[..|acts| - 1]
  }

  function Last(acts: seq<Action>): Action
    requires acts != []
  {
    acts[|acts| - 1]
  }

  ghost predicate StepTo(e: Links, m: RunState, a: Action, s: RunState) {
    m.state.Keys == m.flags.Keys && Enabled(m, a) && s == Apply(e, m, a)
  }

  /** The invariant holds in every reachable state. */
  lemma {:induction false} ReachableInvariant(g: ControlGraph, acts: seq<Action>, s: RunState)
    requires g.Valid() && ReachedBy(g, acts, s)
    ensures Invariant(g.Links(), s)
    decreases |acts|
  {
    if acts == [] {
      StartedInvariant(g);
    } else {
      var m :| ReachedBy(g, Front(acts), m) && StepTo(g.Links(), m, Last(acts), s);
      ReachableInvariant(g, Front(acts), m);
      StepKeepsInvariant(g.Links(), m, Last(acts));
    }
  }

  /** In every reachable state: a node is past Ready only above done ancestors, a raised flag
      belongs to a done precursor, and Failed means below a node in error. */
  lemma {:induction false} ReachableOrder(g: ControlGraph, acts: seq<Action>, s: RunState, a: Node, b: Node)
    requires g.Valid() && ReachedBy(g, acts, s) && a in s.state && b in s.state
    ensures Reach(g.Links(), a, b) && Live(s.state[b]) ==> s.state[a] == Done
    ensures FlagOf(s.flags, a, b, true) ==> s.state[a] == Done
    ensures s.state[b] == Failed <==> BelowError(g.Links(), s.state, b)
  {
    ReachableInvariant(g, acts, s);
    if Reach(g.Links(), a, b) && Live(s.state[b]) {
      var n: nat :| n >= 1 && Steps(g.Links(), a, b, n);
      AboveLiveIsDone(g.Links(), s.state, a, b, n);
    }
  }

  // ----- no deadlock

  predicate Collectable(s: State) {
    s == ToLoad || s == ToActivate
  }

  lemma {:induction false} FindBusy(e: Links, st: map<Node, State>, flags: InGates, n: Node) returns (m: Node)
    requires Acyclic(e) && NodesOk(e, st, flags) && n in st && !Finished(st[n])
    ensures m in st && (st[m] == Activated || Collectable(st[m]))
    decreases Rank(e, n)
  {
    m := n;
    if st[n] == Ready {
      assert WaitsFor(e, st, n);
      var a :| a in st && (a, n) in e && st[a] != Done;
      LinkReaches(e, a, n);
      RankGrows(e, a, n);
      if st[a] == Failed {
        assert BelowError(e, st, a);
        var c :| c in st && Reach(e, c, a) && st[c] == Error;
        ReachTransitive(e, c, a, n);
        assert BelowError(e, st, n);
      }
      assert st[a] == Error ==> BelowError(e, st, n);
      m := FindBusy(e, st, flags, a);
    }
  }

  /** No reachable state is stuck: unless the bloc is finished, some task runs or can be collected,
      and a sleeping main loop will be woken up by a running task. */
  lemma {:induction false} NoDeadlock(g: ControlGraph, acts: seq<Action>, s: RunState)
    requires g.Valid() && ReachedBy(g, acts, s) && !Finished(s.bloc)
    ensures s.running != {} || exists n :: n in s.state && Collectable(s.state[n])
    ensures s.waiting ==> s.running != {}
  {
    ReachableInvariant(g, acts, s);
    SomeoneIsBusy(g.Links(), s);
  }

  lemma {:induction false} SomeoneIsBusy(e: Links, s: RunState)
    requires Acyclic(e) && Invariant(e, s) && !Finished(s.bloc)
    ensures s.running != {} || exists n :: n in s.state && Collectable(s.state[n])
  {
    var n :| n in s.state && !Finished(s.state[n]);
    var m := FindBusy(e, s.state, s.flags, n);
    if !Collectable(s.state[m]) { assert m in Active(s.state); }
  }

  /** A run that can go no further has finished, Done if all children are and Failed otherwise. */
  lemma {:induction false} QuietMeansFinished(g: ControlGraph, acts: seq<Action>, s: RunState)
    requires g.Valid() && ReachedBy(g, acts, s)
    ensures (s.running == {} && forall n :: n in s.state ==> !Collectable(s.state[n])) <==> Finished(s.bloc)
    ensures Finished(s.bloc) ==> AllFinished(s.state) && s.bloc == if AllDone(s.state) then Done else Failed
  {
    ReachableInvariant(g, acts, s);
    if !Finished(s.bloc) { NoDeadlock(g, acts, s); }
    if n: Node :| n in s.running { assert s.state[n] == Activated; }
  }

  // ----- termination

  /** An action that moves a node on. */
  predicate IsEvent(a: Action) {
    a.LoadFail? || a.Connect? || a.Launch? || a.End?
  }

  function Weight(s: State): nat {
    match s
    case Ready => 3
    case ToLoad => 3
    case Loaded => 3
    case ToActivate => 2
    case Activated => 1
    case Done => 0
    case Error => 0
    case Failed => 0
  }

  /** The work left to the given nodes. */
  function Work(nodes: seq<Node>, st: map<Node, State>): (w: nat)
    ensures w <= 3 * |nodes|
  {
    if nodes == [] then 0
    else (if nodes[0] in st then Weight(st[nodes[0]]) else 0) + Work(nodes[1..], st)
  }

  lemma {:induction false} LessWork(nodes: seq<Node>, st: map<Node, State>, st': map<Node, State>, n: Node)
    requires st.Keys == st'.Keys
    requires forall b {:trigger st'[b]} :: b in st ==> Weight(st'[b]) <= Weight(st[b])
    ensures Work(nodes, st') <= Work(nodes, st)
    ensures n in nodes && n in st && Weight(st'[n]) < Weight(st[n]) ==> Work(nodes, st') < Work(nodes, st)
  {
    if nodes != [] {
      LessWork(nodes[1..], st, st', n);
    }
  }

  /** Events move their node on and move no node back. */
  lemma {:induction false} EventWeights(e: Links, s: RunState, a: Action)
    requires Acyclic(e) && Invariant(e, s) && Enabled(s, a)
    ensures LighterBy(s.state, Apply(e, s, a).state, a)
  {
    if a.Connect? { GateOfLoading(e, s.state, s.flags, a.n); }
    EventWeightsOf(e, s, a);
  }

  ghost predicate LighterBy(st: map<Node, State>, st': map<Node, State>, a: Action) {
    && st'.Keys == st.Keys
    && (forall b {:trigger st'[b]} :: b in st ==> Weight(st'[b]) <= Weight(st[b]))
    && (IsEvent(a) ==> a.n in st && Weight(st'[a.n]) < Weight(st[a.n]))
  }

  lemma {:induction false} EventWeightsOf(e: Links, s: RunState, a: Action)
    requires s.state.Keys == s.flags.Keys && Enabled(s, a) && s.running == Active(s.state)
    requires a.Connect? ==> GateReady(s.flags[a.n])
    ensures LighterBy(s.state, Apply(e, s, a).state, a)
  {
    if a.Sleep? || a.WakeUp? {
      assert Apply(e, s, a).state == s.state;
    } else {
      forall b | b in s.state ensures Weight(Apply(e, s, a).state[b]) <= Weight(s.state[b]) {
        NextState(e, s, a, b);
        WeightOf(e, s, a, b, Apply(e, s, a).state[b]);
      }
      NextState(e, s, a, a.n);
      WeightOf(e, s, a, a.n, Apply(e, s, a).state[a.n]);
    }
  }

  lemma {:induction false} WeightOf(e: Links, s: RunState, a: Action, b: Node, t: State)
    requires s.state.Keys == s.flags.Keys && Enabled(s, a) && b in s.state && CanBecome(e, s, a, b, t)
    requires s.running == Active(s.state) && (a.Connect? ==> GateReady(s.flags[a.n]))
    ensures Weight(t) <= Weight(s.state[b])
    ensures IsEvent(a) && b == a.n ==> Weight(t) < Weight(s.state[b])
  {
    if a.End? { assert a.n in Active(s.state); }
  }

  /** What one step can do to the state of a node. */
  ghost predicate CanBecome(e: Links, s: RunState, a: Action, b: Node, t: State)
    requires b in s.state && s.state.Keys == s.flags.Keys
  {
    var was := s.state[b];
    if a.LoadFail? || (a.End? && !a.ok) then
      t == if Reach(e, a.n, b) then Failed else if b == a.n then Error else was
    else if a.End? then t == (if b == a.n then Done else was) || (b != a.n && t == Updated(was))
    else if a.Connect? && a.n == b then t == if GateReady(s.flags[b]) then ToActivate else Loaded
    else t == if a.Launch? && a.n == b then Activated else was
  }

  lemma {:induction false} NextState(e: Links, s: RunState, a: Action, b: Node)
    requires s.state.Keys == s.flags.Keys && Enabled(s, a) && b in s.state
    ensures Apply(e, s, a).state.Keys == s.state.Keys
    ensures CanBecome(e, s, a, b, Apply(e, s, a).state[b])
  {
    match a
    case End(n, ok) => if ok { NextStateOfEnd(e, s, n, b); }
    case LoadFail(n) =>
    case _ =>
  }

  lemma {:induction false} NextStateOfEnd(e: Links, s: RunState, n: Node, b: Node)
    requires s.state.Keys == s.flags.Keys && Enabled(s, End(n, true)) && b in s.state
    ensures Apply(e, s, End(n, true)).state.Keys == s.state.Keys
    ensures CanBecome(e, s, End(n, true), b, Apply(e, s, End(n, true)).state[b])
  {
    ForwardedState(s, n, b);
  }

  lemma {:induction false} ForwardedState(s: RunState, n: Node, b: Node)
    requires s.state.Keys == s.flags.Keys && n in s.state && b in s.state
    ensures var st' := ForwardDone(s.(state := s.state[n := Done]), n).state;
            st'.Keys == s.state.Keys &&
            st'[b] in {s.state[n := Done][b], Updated(s.state[n := Done][b])}
  {
  }

  function Events(acts: seq<Action>): nat {
    if acts == [] then 0
    else Events(Front(acts)) + if IsEvent(Last(acts)) then 1 else 0
  }

  lemma {:induction false} WorkIsSpent(g: ControlGraph, acts: seq<Action>, s: RunState)
    requires g.Valid() && ReachedBy(g, acts, s)
    ensures s.state.Keys == g.outs.Keys
    ensures Events(acts) + Work(g.nodes, s.state) <= 3 * |g.nodes|
    decreases |acts|
  {
    if acts != [] {
      var a := Last(acts);
      var m :| ReachedBy(g, Front(acts), m) && StepTo(g.Links(), m, a, s);
      WorkIsSpent(g, Front(acts), m);
      ReachableInvariant(g, Front(acts), m);
      EventWeights(g.Links(), m, a);
      LessWork(g.nodes, m.state, s.state, if IsEvent(a) then a.n else 0);
      if IsEvent(a) { assert a.n in Elements(g.nodes); }
    }
  }

  /** No run makes more than three moves per node. */
  lemma {:induction false} RunsEnd(g: ControlGraph, acts: seq<Action>, s: RunState)
    requires g.Valid() && ReachedBy(g, acts, s)
    ensures Events(acts) <= 3 * |g.nodes|
  {
    WorkIsSpent(g, acts, s);
  }

  // ----- what a run has done

  predicate IsNode(a: Action) {
    !a.Sleep? && !a.WakeUp?
  }

  /** The action that puts a node in error. */
  predicate IsFailure(a: Action, n: Node) {
    a == LoadFail(n) || a == End(n, false)
  }

  /** The states tell the past: done nodes ended well, nodes in error failed, and conversely. */
  lemma {:induction false} StatesTellThePast(g: ControlGraph, acts: seq<Action>, s: RunState, n: Node)
    requires g.Valid() && ReachedBy(g, acts, s) && n in s.state
    ensures s.state[n] == Done <==> End(n, true) in acts
    ensures s.state[n] == Error <==> exists a :: a in acts && IsFailure(a, n)
    ensures Launch(n) in acts ==> Weight(s.state[n]) <= 1
    decreases |acts|
  {
    if acts != [] {
      var before, a := Front(acts), Last(acts);
      var m :| ReachedBy(g, before, m) && StepTo(g.Links(), m, a, s);
      ActionsBefore(acts);
      ReachableInvariant(g, before, m);
      EventWeights(g.Links(), m, a);
      StatesTellThePast(g, before, m, n);
      PastOfStep(g.Links(), m, a, n);
    } else {
      assert s.state[n] == ToLoad || s.state[n] == Ready;
    }
  }

  lemma {:induction false} ActionsBefore(acts: seq<Action>)
    requires acts != []
    ensures forall a {:trigger a in acts} {:trigger a in Front(acts)} ::
      a in acts <==> a in Front(acts) || a == Last(acts)
  {
  }

  /** One step makes n Done or in Error only by the matching action, and takes neither back. */
  lemma {:induction false} PastOfStep(e: Links, s: RunState, a: Action, n: Node)
    requires Acyclic(e) && Invariant(e, s) && Enabled(s, a) && n in s.state
    ensures n in Apply(e, s, a).state
    ensures var t := Apply(e, s, a).state[n];
            (t == Done <==> s.state[n] == Done || a == End(n, true)) &&
            (t == Error <==> s.state[n] == Error || IsFailure(a, n))
  {
    if (a.End? || a.LoadFail?) && Reach(e, a.n, n) && Live(s.state[n]) {
      var k: nat :| k >= 1 && Steps(e, a.n, n, k);
      AboveLiveIsDone(e, s.state, a.n, n, k);
    }
    PastOfStepAt(e, s, a, n);
  }

  lemma {:induction false} PastOfStepAt(e: Links, s: RunState, a: Action, n: Node)
    requires s.state.Keys == s.flags.Keys && Enabled(s, a) && s.running == Active(s.state) && n in s.state
    requires a.End? || a.LoadFail? ==> !Reach(e, a.n, n) || !Live(s.state[n])
    requires a.End? || a.LoadFail? ==> !Reach(e, a.n, a.n)
    ensures n in Apply(e, s, a).state
    ensures var t := Apply(e, s, a).state[n];
            (t == Done <==> s.state[n] == Done || a == End(n, true)) &&
            (t == Error <==> s.state[n] == Error || IsFailure(a, n))
  {
    NextState(e, s, a, n);
  }

  predicate HasConnected(s: State) {
    s == ToActivate || s == Activated || s == Done
  }

  /** One step makes a task ready to be launched only by connecting it. */
  lemma {:induction false} ConnectingStep(e: Links, s: RunState, a: Action, n: Node)
    requires Invariant(e, s) && Enabled(s, a) && n in s.state
    ensures n in Apply(e, s, a).state
    ensures HasConnected(Apply(e, s, a).state[n]) ==> HasConnected(s.state[n]) || a == Connect(n)
  {
    NextState(e, s, a, n);
    if a.End? { assert a.n in Active(s.state); }
  }

  /** A task that is ready to be launched, runs or is done has been loaded and connected. */
  lemma {:induction false} ConnectedBefore(g: ControlGraph, acts: seq<Action>, s: RunState, n: Node)
    requires g.Valid() && ReachedBy(g, acts, s) && n in s.state && HasConnected(s.state[n])
    ensures Connect(n) in acts
    decreases |acts|
  {
    if acts != [] {
      var m :| ReachedBy(g, Front(acts), m) && StepTo(g.Links(), m, Last(acts), s);
      ActionsBefore(acts);
      ReachableInvariant(g, Front(acts), m);
      WorkIsSpent(g, Front(acts), m);
      WorkIsSpent(g, acts, s);
      ConnectingStep(g.Links(), m, Last(acts), n);
      if HasConnected(m.state[n]) { ConnectedBefore(g, Front(acts), m, n); }
    }
  }

  /** In every run, a task is launched only after it was connected and all its ancestors have ended well, and only
      once. */
  lemma {:induction false} LaunchOrder(g: ControlGraph, acts: seq<Action>, s: RunState, i: nat, b: Node)
    requires g.Valid() && ReachedBy(g, acts, s) && i < |acts| && acts[i] == Launch(b)
    ensures forall a :: a in g.outs && Reach(g.Links(), a, b) ==> End(a, true) in acts[..i]
    ensures Launch(b) !in acts[..i] && Connect(b) in acts[..i]
  {
    var m := Prefix(g, acts, s, i);
    WorkIsSpent(g, acts[..i], m);
    assert b in m.state && m.state[b] == ToActivate;
    ConnectedBefore(g, acts[..i], m, b);
    StatesTellThePast(g, acts[..i], m, b);
    forall a | a in g.outs && Reach(g.Links(), a, b) ensures End(a, true) in acts[..i] {
      ReachableOrder(g, acts[..i], m, a, b);
      StatesTellThePast(g, acts[..i], m, a);
    }
  }

  /** The state before the i-th action. */
  lemma {:induction false} Prefix(g: ControlGraph, acts: seq<Action>, s: RunState, i: nat) returns (m: RunState)
    requires g.Valid() && ReachedBy(g, acts, s) && i < |acts|
    ensures ReachedBy(g, acts[..i], m) && Enabled(m, acts[i])
    decreases |acts|
  {
    var before := Front(acts);
    m :| ReachedBy(g, before, m) && StepTo(g.Links(), m, Last(acts), s);
    if i < |before| {
      m := Prefix(g, before, m, i);
      assert before[..i] == acts[..i];
    }
  }

  /** A finished bloc is Done exactly when no task of the run failed. */
  lemma {:induction false} VerdictTellsFailures(g: ControlGraph, acts: seq<Action>, s: RunState)
    requires g.Valid() && ReachedBy(g, acts, s) && Finished(s.bloc)
    ensures s.bloc == Failed <==> exists a :: a in acts && IsNode(a) && IsFailure(a, a.n)
    ensures s.bloc == Done <==> forall n :: n in g.outs ==> End(n, true) in acts
  {
    ReachableInvariant(g, acts, s);
    WorkIsSpent(g, acts, s);
    forall n | n in g.outs ensures s.state[n] == Done <==> End(n, true) in acts {
      StatesTellThePast(g, acts, s, n);
    }
    if !AllDone(s.state) { var a := FindFailure(g, acts, s); }
    if a: Action :| a in acts && IsNode(a) && IsFailure(a, a.n) { FailureLeavesError(g, acts, s, a); }
  }

  lemma {:induction false} FindFailure(g: ControlGraph, acts: seq<Action>, s: RunState) returns (a: Action)
    requires g.Valid() && ReachedBy(g, acts, s) && AllFinished(s.state) && !AllDone(s.state)
    ensures a in acts && IsNode(a) && IsFailure(a, a.n)
  {
    ReachableInvariant(g, acts, s);
    var n := FindError(g.Links(), s.state);
    StatesTellThePast(g, acts, s, n);
    a :| a in acts && IsFailure(a, n);
  }

  lemma {:induction false} FindError(e: Links, st: map<Node, State>) returns (n: Node)
    requires FailedBelowError(e, st) && AllFinished(st) && !AllDone(st)
    ensures n in st && st[n] == Error
  {
    n :| n in st && st[n] != Done;
    if st[n] == Failed {
      assert BelowError(e, st, n);
      n :| n in st && st[n] == Error;
    }
  }

  lemma {:induction false} FailureLeavesError(g: ControlGraph, acts: seq<Action>, s: RunState, a: Action)
    requires g.Valid() && ReachedBy(g, acts, s) && a in acts && IsNode(a) && IsFailure(a, a.n)
    ensures a.n in s.state && s.state[a.n] == Error
  {
    var i :| 0 <= i < |acts| && acts[i] == a;
    var m := Prefix(g, acts, s, i);
    WorkIsSpent(g, acts[..i], m);
    WorkIsSpent(g, acts, s);
    StatesTellThePast(g, acts, s, a.n);
  }
}
