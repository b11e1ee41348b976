/** The execution of a Bloc of elementary nodes: what each atomic step of the
    executor does, and what holds in every reachable state. */
module Execution {
  import opened Graph
  import opened Gates

  datatype State = Ready | ToLoad | Loaded | ToActivate | Activated | Done | Error | Failed

  datatype Event = NoEvent | Finish | Abort

  /** Where the main loop of the executor is: between two sleeps, or asleep. */
  datatype MainLoop = Looping | Asleep

  datatype RunState = RunState(
    state: map<Node, State>,
    flags: InGates,
    bloc: State,
    running: set<Node>,
    ended: nat,
    waiting: bool,
    main: MainLoop)

  predicate Finished(s: State) {
    s == Done || s == Failed || s == Error
  }

  predicate AllFinished(state: map<Node, State>) {
    forall n :: n in state ==> Finished(state[n])
  }

  predicate AllDone(state: map<Node, State>) {
    forall n :: n in state ==> state[n] == Done
  }

  /** An in gate is ready when every precursor flag is raised. */
  predicate GateReady(ps: seq<Precursor>) {
    forall i :: 0 <= i < |ps| ==> ps[i].done
  }

  function Lowered(ps: seq<Precursor>): (r: seq<Precursor>)
    ensures |r| == |ps| && forall i :: 0 <= i < |ps| ==> r[i] == Precursor(ps[i].from, false)
  {
    seq(|ps|, i requires 0 <= i < |ps| => Precursor(ps[i].from, false))
  }

  function Raised(ps: seq<Precursor>, from: Node): (r: seq<Precursor>)
    ensures |r| == |ps|
    ensures forall i :: 0 <= i < |ps| ==> r[i] == Precursor(ps[i].from, ps[i].done || ps[i].from == from)
  {
    seq(|ps|, i requires 0 <= i < |ps| => Precursor(ps[i].from, ps[i].done || ps[i].from == from))
  }

  /** What a control-ready elementary node does when asked to update its state. */
  function Updated(s: State): State {
    if s == Ready then ToLoad else if s == Loaded then ToActivate else s
  }

  // ----- the effect of each step

  ghost function Started(g: ControlGraph): RunState
    requires g.Valid()
  {
    var flags := map n | n in g.ins :: Lowered(g.ins[n]);
    RunState(map n | n in g.ins :: if GateReady(flags[n]) then ToLoad else Ready,
             flags, Activated, {}, 0, false, Looping)
  }

  /** Propagation of the end of n to the nodes that follow it. */
  ghost function ForwardDone(s: RunState, n: Node): RunState
    requires s.flags.Keys == s.state.Keys
  {
    var flags := map b | b in s.flags :: Raised(s.flags[b], n);
    var state := map b | b in s.state ::
      if n in Froms(s.flags[b]) && GateReady(flags[b]) then Updated(s.state[b]) else s.state[b];
    s.(flags := flags, state := state)
  }

  /** Propagation of a failure to everything below n. */
  ghost function FailBelow(e: Links, state: map<Node, State>, n: Node): map<Node, State> {
    map b | b in state :: if Reach(e, n, b) then Failed else state[b]
  }

  /** The state of a bloc whose children are all finished. */
  function Verdict(state: map<Node, State>): State {
    if AllDone(state) then Done else Failed
  }

  ghost function NotifyFinished(s: RunState, n: Node): RunState
    requires s.flags.Keys == s.state.Keys
  {
    if AllFinished(s.state) then s.(bloc := Verdict(s.state)) else ForwardDone(s, n)
  }

  ghost function NotifyFailed(e: Links, s: RunState, n: Node): RunState {
    var s' := s.(state := FailBelow(e, s.state, n));
    if AllFinished(s'.state) then s'.(bloc := Verdict(s'.state)) else s'
  }

  /** A task ends: the executor forgets it and wakes the main loop up or counts the end. */
  function Forgotten(s: RunState, n: Node): RunState {
    var s' := s.(running := s.running - {n});
    if s'.waiting then s'.(waiting := false) else s'.(ended := s'.ended + 1)
  }

  ghost function TaskEnd(e: Links, s: RunState, n: Node, ok: bool): RunState
    requires s.flags.Keys == s.state.Keys && n in s.state
  {
    var s' := s.(state := s.state[n := if ok then Done else Error]);
    Forgotten(if ok then NotifyFinished(s', n) else NotifyFailed(e, s', n), n)
  }

  /** Loading or connecting a task failed. */
  ghost function LoadFailure(e: Links, s: RunState, n: Node): RunState
    requires n in s.state
  {
    NotifyFailed(e, s.(state := s.state[n := Error]), n)
  }

  function Connection(s: RunState, n: Node): RunState
    requires n in s.state && n in s.flags
  {
    s.(state := s.state[n := if GateReady(s.flags[n]) then ToActivate else Loaded])
  }

  function Launching(s: RunState, n: Node): RunState
    requires n in s.state
  {
    s.(state := s.state[n := Activated], running := s.running + {n})
  }

  function Sleeping(s: RunState): RunState {
    if s.running != {} && s.ended == 0 then s.(waiting := true, main := Asleep) else s.(ended := 0)
  }

  function WokenUp(s: RunState): RunState {
    s.(ended := 0, main := Looping)
  }

  // ----- the transition relation

  datatype Action =
    | LoadStart(n: Node)
    | LoadFail(n: Node)
    | Connect(n: Node)
    | Launch(n: Node)
    | End(n: Node, ok: bool)
    | Sleep
    | WakeUp

  /** When the executor may take an action. Tasks end at any time; the other
      actions are those of the main loop, which must be awake. */
  predicate Enabled(s: RunState, a: Action) {
    match a
    case LoadStart(n) => s.main == Looping && n in s.state && s.state[n] == ToLoad
    case LoadFail(n) => s.main == Looping && n in s.state && s.state[n] == ToLoad
    case Connect(n) => s.main == Looping && n in s.state && n in s.flags && s.state[n] == ToLoad
    case Launch(n) => s.main == Looping && n in s.state && s.state[n] == ToActivate
    case End(n, _) => n in s.running && n in s.state
    case Sleep => s.main == Looping
    case WakeUp => s.main == Asleep && !s.waiting
  }

  ghost function Apply(e: Links, s: RunState, a: Action): RunState
    requires s.flags.Keys == s.state.Keys && Enabled(s, a)
  {
    match a
    case LoadStart(n) => s.(bloc := Activated)
    case LoadFail(n) => LoadFailure(e, s, n)
    case Connect(n) => Connection(s, n)
    case Launch(n) => Launching(s, n)
    case End(n, ok) => TaskEnd(e, s, n, ok)
    case Sleep => Sleeping(s)
    case WakeUp => WokenUp(s)
  }

  // ----- the invariant

  /** The entry of the precursor a in the in gate of b, with its flag. */
  ghost predicate FlagOf(flags: InGates, a: Node, b: Node, done: bool) {
    b in flags && Precursor(a, done) in flags[b]
  }

  ghost predicate FlagsMatch(e: Links, flags: InGates) {
    forall a, b {:trigger (a, b) in e} {:trigger a in Froms(flags[b])} ::
      (a, b) in e <==> b in flags && a in Froms(flags[b])
  }

  ghost predicate EndsIn(e: Links, keys: set<Node>) {
    forall a, b {:trigger (a, b) in e} :: (a, b) in e ==> a in keys && b in keys
  }

  predicate Live(s: State) {
    s == ToLoad || s == ToActivate || s == Activated || s == Done || s == Error
  }

  /** A node moves past Ready only once all its precursors are done. */
  ghost predicate PrecursorsDone(e: Links, st: map<Node, State>) {
    forall a, b {:trigger (a, b) in e} :: (a, b) in e && a in st && b in st && Live(st[b]) ==> st[a] == Done
  }

  ghost predicate FlagsTruthful(flags: InGates, st: map<Node, State>) {
    forall a, b {:trigger FlagOf(flags, a, b, true)} :: FlagOf(flags, a, b, true) && a in st ==> st[a] == Done
  }

  ghost predicate FlagsComplete(flags: InGates, st: map<Node, State>) {
    forall a, b {:trigger FlagOf(flags, a, b, false)} ::
      FlagOf(flags, a, b, false) && a in st && b in st && st[a] == Done ==> Finished(st[b])
  }

  ghost predicate BelowError(e: Links, st: map<Node, State>, b: Node) {
    exists a {:trigger Reach(e, a, b)} :: a in st && Reach(e, a, b) && st[a] == Error
  }

  /** Failed means: below a node in error. */
  ghost predicate FailedBelowError(e: Links, st: map<Node, State>) {
    forall b {:trigger BelowError(e, st, b)} {:trigger st[b]} ::
      b in st ==> (st[b] == Failed <==> BelowError(e, st, b))
  }

  ghost predicate WaitsFor(e: Links, st: map<Node, State>, b: Node) {
    exists a {:trigger (a, b) in e} :: a in st && (a, b) in e && st[a] != Done
  }

  ghost predicate ReadyWaits(e: Links, st: map<Node, State>) {
    forall b {:trigger WaitsFor(e, st, b)} {:trigger st[b]} :: b in st && st[b] == Ready ==> WaitsFor(e, st, b)
  }

  ghost predicate NodesOk(e: Links, st: map<Node, State>, flags: InGates) {
    && st.Keys == flags.Keys && EndsIn(e, st.Keys) && FlagsMatch(e, flags)
    && (forall n {:trigger st[n]} :: n in st ==> st[n] != Loaded)
    && PrecursorsDone(e, st)
    && FlagsTruthful(flags, st) && FlagsComplete(flags, st)
    && FailedBelowError(e, st) && ReadyWaits(e, st)
  }

  /** The nodes being executed. */
  ghost function Active(st: map<Node, State>): set<Node> {
    set n | n in st && st[n] == Activated
  }

  /** What holds in every reachable state. */
  ghost predicate Invariant(e: Links, s: RunState) {
    && NodesOk(e, s.state, s.flags)
    && s.running == Active(s.state)
    && s.bloc == (if AllFinished(s.state) then Verdict(s.state) else Activated)
    && (s.waiting ==> s.main == Asleep && s.running != {})
  }

  // ----- gates and links

  lemma {:induction false} LinkIsFlagged(e: Links, flags: InGates, a: Node, b: Node)
    requires FlagsMatch(e, flags) && (a, b) in e
    ensures FlagOf(flags, a, b, true) || FlagOf(flags, a, b, false)
  {
    var i :| 0 <= i < |flags[b]| && Froms(flags[b])[i] == a;
    assert flags[b][i] == Precursor(a, flags[b][i].done);
  }

  lemma {:induction false} FlagIsLink(e: Links, flags: InGates, a: Node, b: Node, done: bool)
    requires FlagsMatch(e, flags) && FlagOf(flags, a, b, done)
    ensures (a, b) in e
  {
    var i :| 0 <= i < |flags[b]| && flags[b][i] == Precursor(a, done);
    assert Froms(flags[b])[i] == a;
  }

  lemma {:induction false} ReadyGate(flags: InGates, b: Node)
    requires b in flags
    ensures GateReady(flags[b]) <==> !exists a :: FlagOf(flags, a, b, false)
  {
    if !GateReady(flags[b]) {
      var i :| 0 <= i < |flags[b]| && !flags[b][i].done;
      assert flags[b][i] == Precursor(flags[b][i].from, false);
      assert FlagOf(flags, flags[b][i].from, b, false);
    }
  }

  /** Everything above a node that is past Ready is done. */
  lemma {:induction false} AboveLiveIsDone(e: Links, st: map<Node, State>, a: Node, b: Node, n: nat)
    requires EndsIn(e, st.Keys) && PrecursorsDone(e, st)
    requires n >= 1 && Steps(e, a, b, n) && b in st && Live(st[b])
    ensures a in st && st[a] == Done
    decreases n
  {
    var c :| (a, c) in e && Steps(e, c, b, n - 1);
    if n > 1 { AboveLiveIsDone(e, st, c, b, n - 1); }
  }

  lemma {:induction false} GraphFacts(g: ControlGraph)
    requires g.Valid()
    ensures EndsIn(g.Links(), g.outs.Keys) && FlagsMatch(g.Links(), g.ins) && g.ins.Keys == g.outs.Keys
    ensures g.nodes[0] in g.outs
  {
    assert g.nodes[0] in Elements(g.nodes);
    forall a, b ensures (a, b) in g.Links() <==> b in g.ins && a in Froms(g.ins[b]) {
      if b in g.ins && a in Froms(g.ins[b]) { assert a in g.ins; }
      if (a, b) in g.Links() { assert b in g.outs[a]; }
    }
  }

  // ----- the start

  lemma {:induction false} StartedNodes(e: Links, st: map<Node, State>, flags: InGates)
    requires st.Keys == flags.Keys && EndsIn(e, st.Keys) && FlagsMatch(e, flags)
    requires forall a, b {:trigger FlagOf(flags, a, b, true)} :: !FlagOf(flags, a, b, true)
    requires forall b {:trigger st[b]} :: b in st ==> st[b] == if GateReady(flags[b]) then ToLoad else Ready
    ensures NodesOk(e, st, flags)
  {
    forall a, b | (a, b) in e ensures b in st && st[b] == Ready {
      LinkIsFlagged(e, flags, a, b);
      ReadyGate(flags, b);
    }
    forall b | b in st && st[b] == Ready ensures WaitsFor(e, st, b) {
      ReadyGate(flags, b);
      var a :| FlagOf(flags, a, b, false);
      FlagIsLink(e, flags, a, b, false);
    }
  }

  lemma {:induction false} StartedFlags(g: ControlGraph)
    requires g.Valid() && FlagsMatch(g.Links(), g.ins)
    ensures FlagsMatch(g.Links(), Started(g).flags)
    ensures forall a, b {:trigger FlagOf(Started(g).flags, a, b, true)} :: !FlagOf(Started(g).flags, a, b, true)
  {
    var flags := Started(g).flags;
    forall b | b in g.ins ensures Froms(flags[b]) == Froms(g.ins[b]) {}
  }

  lemma {:induction false} StartedInvariant(g: ControlGraph)
    requires g.Valid()
    ensures Invariant(g.Links(), Started(g))
  {
    var s := Started(g);
    GraphFacts(g);
    StartedFlags(g);
    StartedNodes(g.Links(), s.state, s.flags);
    assert !Finished(s.state[g.nodes[0]]);
  }

  // ----- one step

  /** A change that neither makes nor hides an Error or a Failed node. */
  lemma {:induction false} SameErrors(e: Links, st: map<Node, State>, st': map<Node, State>)
    requires st.Keys == st'.Keys && FailedBelowError(e, st)
    requires forall b {:trigger st[b]} {:trigger st'[b]} :: b in st ==>
      (st[b] == Failed <==> st'[b] == Failed) && (st[b] == Error <==> st'[b] == Error)
    ensures FailedBelowError(e, st')
  {
    forall b | b in st ensures BelowError(e, st', b) <==> BelowError(e, st, b) {}
  }

  /** Raising the flags of n raises no other flag. */
  lemma {:induction false} RaisedFlags(e: Links, flags: InGates, flags': InGates, n: Node)
    requires flags' == map b | b in flags :: Raised(flags[b], n)
    ensures forall a, b {:trigger FlagOf(flags', a, b, true)} :: FlagOf(flags', a, b, true) ==>
      FlagOf(flags, a, b, true) || (a == n && FlagOf(flags, a, b, false))
    ensures forall a, b {:trigger FlagOf(flags', a, b, false)} :: FlagOf(flags', a, b, false) ==>
      FlagOf(flags, a, b, false) && a != n
    ensures FlagsMatch(e, flags) ==> FlagsMatch(e, flags')
  {
    forall a, b | FlagOf(flags', a, b, true)
      ensures FlagOf(flags, a, b, true) || (a == n && FlagOf(flags, a, b, false))
    {
      var i :| 0 <= i < |flags'[b]| && flags'[b][i] == Precursor(a, true);
      assert flags[b][i] == Precursor(a, true) || (a == n && flags[b][i] == Precursor(a, false));
    }
    forall a, b | FlagOf(flags', a, b, false) ensures FlagOf(flags, a, b, false) && a != n {
      var i :| 0 <= i < |flags'[b]| && flags'[b][i] == Precursor(a, false);
      assert flags[b][i] == Precursor(a, false);
    }
    forall b | b in flags ensures Froms(flags'[b]) == Froms(flags[b]) {}
  }

  lemma {:induction false} AdvanceKeepsFlags(e: Links, st: map<Node, State>, flags: InGates, n: Node, to: State)
    requires NodesOk(e, st, flags) && n in st && Live(st[n]) && Live(to) && st[n] != Error && st[n] != Done
    requires to == Done ==> AllFinished(st[n := Done])
    ensures PrecursorsDone(e, st[n := to]) && FlagsTruthful(flags, st[n := to]) && FlagsComplete(flags, st[n := to])
  {
  }

  /** A node steps from one live state to the next. */
  lemma {:induction false} AdvanceKeepsNodes(e: Links, st: map<Node, State>, flags: InGates, n: Node, to: State)
    requires NodesOk(e, st, flags) && n in st && Live(st[n]) && Live(to)
    requires st[n] != Error && to != Error && st[n] != Done && (to == Done ==> AllFinished(st[n := Done]))
    ensures NodesOk(e, st[n := to], flags)
  {
    AdvanceKeepsFlags(e, st, flags, n, to);
    SameErrors(e, st, st[n := to]);
    forall b | b in st && st[n := to][b] == Ready ensures WaitsFor(e, st[n := to], b) {
      assert st[b] == Ready && WaitsFor(e, st, b);
    }
  }

  /** The effect of forwarding the end of n, on the states alone. */
  ghost predicate ForwardedTo(st: map<Node, State>, flags: InGates, flags': InGates, n: Node, st': map<Node, State>)
    requires st.Keys == flags.Keys == flags'.Keys
  {
    st'.Keys == st.Keys && forall b {:trigger st'[b]} :: b in st ==>
      st'[b] == if b == n then Done
                else if n in Froms(flags[b]) && GateReady(flags'[b]) then Updated(st[b])
                else st[b]
  }

  lemma {:induction false} ForwardPrecursors(e: Links, st: map<Node, State>, flags: InGates, flags': InGates,
      n: Node, st': map<Node, State>)
    requires st.Keys == flags.Keys == flags'.Keys && n in st && EndsIn(e, st.Keys)
    requires PrecursorsDone(e, st) && FlagsTruthful(flags, st) && FlagsMatch(e, flags') && st[n] == Activated
    requires ForwardedTo(st, flags, flags', n, st')
    requires forall a, b {:trigger FlagOf(flags', a, b, true)} :: FlagOf(flags', a, b, true) ==>
      FlagOf(flags, a, b, true) || a == n
    ensures PrecursorsDone(e, st')
  {
    forall a, b | (a, b) in e && Live(st'[b]) ensures st'[a] == Done {
      if !Live(st[b]) {
        ReadyGate(flags', b);
        LinkIsFlagged(e, flags', a, b);
      } else {
        assert st[a] == Done;
      }
    }
  }

  lemma {:induction false} ForwardWaits(e: Links, st: map<Node, State>, flags: InGates, flags': InGates,
      n: Node, st': map<Node, State>)
    requires st.Keys == flags.Keys == flags'.Keys && n in st && EndsIn(e, st.Keys)
    requires ReadyWaits(e, st) && FlagsComplete(flags, st) && FlagsMatch(e, flags') && FlagsMatch(e, flags)
    requires ForwardedTo(st, flags, flags', n, st')
    requires forall a, b {:trigger FlagOf(flags', a, b, false)} :: FlagOf(flags', a, b, false) ==>
      FlagOf(flags, a, b, false) && a != n
    ensures ReadyWaits(e, st')
  {
    forall b | b in st' && st'[b] == Ready ensures WaitsFor(e, st', b) {
      if n in Froms(flags[b]) {
        ReadyGate(flags', b);
        var a :| FlagOf(flags', a, b, false);
        FlagIsLink(e, flags', a, b, false);
        assert st[a] != Done;
      } else {
        assert WaitsFor(e, st, b);
        var a :| a in st && (a, b) in e && st[a] != Done;
        assert (n, b) !in e;
      }
    }
  }

  lemma {:induction false} ForwardFlags(st: map<Node, State>, flags: InGates, flags': InGates,
      n: Node, st': map<Node, State>)
    requires n in st && st[n] == Activated && FlagsTruthful(flags, st) && FlagsComplete(flags, st)
    requires st.Keys == flags.Keys == flags'.Keys && ForwardedTo(st, flags, flags', n, st')
    requires forall a, b {:trigger FlagOf(flags', a, b, true)} :: FlagOf(flags', a, b, true) ==>
      FlagOf(flags, a, b, true) || a == n
    requires forall a, b {:trigger FlagOf(flags', a, b, false)} :: FlagOf(flags', a, b, false) ==>
      FlagOf(flags, a, b, false) && a != n
    ensures FlagsTruthful(flags', st') && FlagsComplete(flags', st')
  {
    forall a, b | FlagOf(flags', a, b, false) && a in st' && b in st' && st'[a] == Done ensures Finished(st'[b]) {
      assert st[a] == Done;
    }
  }

  lemma {:induction false} ForwardKeepsNodes(e: Links, st: map<Node, State>, flags: InGates, flags': InGates,
      n: Node, st': map<Node, State>)
    requires NodesOk(e, st, flags) && n in st && st[n] == Activated
    requires flags' == map b | b in flags :: Raised(flags[b], n)
    requires ForwardedTo(st, flags, flags', n, st')
    ensures NodesOk(e, st', flags') && Active(st') == Active(st) - {n}
  {
    RaisedFlags(e, flags, flags', n);
    SameErrors(e, st, st');
    ForwardPrecursors(e, st, flags, flags', n, st');
    ForwardFlags(st, flags, flags', n, st');
    ForwardWaits(e, st, flags, flags', n, st');
    ForwardActive(st, flags, flags', n, st');
  }

  lemma {:induction false} ForwardActive(st: map<Node, State>, flags: InGates, flags': InGates,
      n: Node, st': map<Node, State>)
    requires st.Keys == flags.Keys == flags'.Keys && n in st && ForwardedTo(st, flags, flags', n, st')
    requires forall m {:trigger st[m]} :: m in st ==> st[m] != Loaded
    ensures Active(st') == Active(st) - {n}
    ensures forall m {:trigger st'[m]} :: m in st' ==> st'[m] != Loaded
    ensures forall m :: m in st && m != n && !Finished(st[m]) ==> !Finished(st'[m])
  {
  }

  // -- failures

  ghost predicate FailedFrom(e: Links, st: map<Node, State>, n: Node, st': map<Node, State>) {
    st'.Keys == st.Keys && forall b {:trigger st'[b]} :: b in st ==>
      st'[b] == if Reach(e, n, b) then Failed else if b == n then Error else st[b]
  }

  lemma {:induction false} FailPrecursors(e: Links, st: map<Node, State>, n: Node, st': map<Node, State>)
    requires EndsIn(e, st.Keys) && PrecursorsDone(e, st) && n in st && Live(st[n]) && st[n] != Done
    requires FailedFrom(e, st, n, st')
    ensures PrecursorsDone(e, st')
    ensures forall b {:trigger Reach(e, n, b)} :: b in st && Reach(e, n, b) ==> !Live(st[b])
  {
    forall b | b in st && Reach(e, n, b) ensures !Live(st[b]) {
      var k: nat :| k >= 1 && Steps(e, n, b, k);
      if Live(st[b]) { AboveLiveIsDone(e, st, n, b, k); }
    }
    forall a, b | (a, b) in e && Live(st'[b]) ensures st'[a] == Done {
      LinkReaches(e, a, b);
      if Reach(e, n, a) { ReachTransitive(e, n, a, b); }
      assert st[a] == Done;
    }
  }

  lemma {:induction false} FailErrors(e: Links, st: map<Node, State>, n: Node, st': map<Node, State>)
    requires FailedBelowError(e, st) && Acyclic(e) && n in st && st[n] != Error && st[n] != Failed
    requires FailedFrom(e, st, n, st')
    requires forall b {:trigger Reach(e, n, b)} :: b in st && Reach(e, n, b) ==> !Live(st[b])
    ensures FailedBelowError(e, st')
  {
    assert st'[n] == Error;
    forall b | b in st ensures st'[b] == Failed <==> BelowError(e, st', b) {
      if st[b] == Failed {
        assert BelowError(e, st, b);
        var a :| a in st && Reach(e, a, b) && st[a] == Error;
        assert st'[a] == Error;
      }
      if BelowError(e, st', b) {
        var a :| a in st' && Reach(e, a, b) && st'[a] == Error;
        assert a == n || (st[a] == Error && BelowError(e, st, b));
      }
    }
  }

  lemma {:induction false} FailWaitsAndFlags(e: Links, st: map<Node, State>, flags: InGates, n: Node,
      st': map<Node, State>)
    requires ReadyWaits(e, st) && FlagsTruthful(flags, st) && FlagsComplete(flags, st)
    requires n in st && st[n] != Done && FailedFrom(e, st, n, st')
    requires forall b {:trigger Reach(e, n, b)} :: b in st && Reach(e, n, b) ==> !Live(st[b])
    ensures ReadyWaits(e, st') && FlagsTruthful(flags, st') && FlagsComplete(flags, st')
  {
    forall a | a in st ensures st'[a] == Done <==> st[a] == Done {}
    forall b | b in st' && st'[b] == Ready ensures WaitsFor(e, st', b) {
      assert WaitsFor(e, st, b);
      var a :| a in st && (a, b) in e && st[a] != Done;
    }
    forall a, b | FlagOf(flags, a, b, false) && a in st' && b in st' && st'[a] == Done ensures Finished(st'[b]) {
      assert st[a] == Done && Finished(st[b]);
    }
  }

  lemma {:induction false} FailKeepsNodes(e: Links, st: map<Node, State>, flags: InGates, n: Node)
    requires NodesOk(e, st, flags) && Acyclic(e) && n in st && (st[n] == ToLoad || st[n] == Activated)
    ensures NodesOk(e, FailBelow(e, st[n := Error], n), flags)
    ensures forall b {:trigger Reach(e, n, b)} :: b in st && Reach(e, n, b) ==> !Live(st[b])
  {
    var st' := FailBelow(e, st[n := Error], n);
    assert FailedFrom(e, st, n, st');
    FailPrecursors(e, st, n, st');
    FailErrors(e, st, n, st');
    FailWaitsAndFlags(e, st, flags, n, st');
  }

  // -- all steps

  /** The gate of a node that is being loaded is ready, so connecting activates it. */
  lemma {:induction false} GateOfLoading(e: Links, st: map<Node, State>, flags: InGates, n: Node)
    requires NodesOk(e, st, flags) && n in st && st[n] == ToLoad
    ensures GateReady(flags[n])
  {
    ReadyGate(flags, n);
    if a: Node :| FlagOf(flags, a, n, false) {
      FlagIsLink(e, flags, a, n, false);
    }
  }

  lemma {:induction false} ActiveAfterSet(st: map<Node, State>, n: Node, to: State)
    requires n in st
    ensures Active(st[n := to]) == if to == Activated then Active(st) + {n} else Active(st) - {n}
  {
  }

  lemma {:induction false} ActiveAfterFailure(e: Links, st: map<Node, State>, n: Node, st': map<Node, State>)
    requires n in st && FailedFrom(e, st, n, st') && !Reach(e, n, n)
    requires forall b {:trigger Reach(e, n, b)} :: b in st && Reach(e, n, b) ==> !Live(st[b])
    ensures Active(st') == Active(st) - {n}
  {
  }

  lemma {:induction false} FailureKeepsInvariant(e: Links, s: RunState, n: Node)
    requires Acyclic(e) && Invariant(e, s) && n in s.state && (s.state[n] == ToLoad || s.state[n] == Activated)
    ensures var s' := LoadFailure(e, s, n);
            NodesOk(e, s'.state, s'.flags) && Active(s'.state) == Active(s.state) - {n} &&
            s'.bloc == (if AllFinished(s'.state) then Verdict(s'.state) else Activated)
  {
    var st := s.state;
    assert !AllFinished(st);
    FailKeepsNodes(e, st, s.flags, n);
    ActiveAfterFailure(e, st, n, FailBelow(e, st[n := Error], n));
  }

  lemma {:induction false} ForwardKeepsInvariant(e: Links, s: RunState, n: Node)
    requires NodesOk(e, s.state, s.flags) && n in s.state && s.state[n] == Activated
    requires !AllFinished(s.state[n := Done])
    ensures var s' := ForwardDone(s.(state := s.state[n := Done]), n);
            NodesOk(e, s'.state, s'.flags) && Active(s'.state) == Active(s.state) - {n} && !AllFinished(s'.state)
  {
    var s' := ForwardDone(s.(state := s.state[n := Done]), n);
    ForwardEffect(s, n);
    ForwardLeavesUnfinished(s, n);
    ForwardKeepsNodes(e, s.state, s.flags, s'.flags, n, s'.state);
  }

  lemma {:induction false} ForwardEffect(s: RunState, n: Node)
    requires s.state.Keys == s.flags.Keys && n in s.state
    ensures var s' := ForwardDone(s.(state := s.state[n := Done]), n);
            s'.flags == (map b | b in s.flags :: Raised(s.flags[b], n)) &&
            ForwardedTo(s.state, s.flags, s'.flags, n, s'.state)
  {
  }

  lemma {:induction false} ForwardLeavesUnfinished(s: RunState, n: Node)
    requires s.state.Keys == s.flags.Keys && n in s.state && !AllFinished(s.state[n := Done])
    ensures !AllFinished(ForwardDone(s.(state := s.state[n := Done]), n).state)
  {
    var b: Node :| b in s.state && !Finished(s.state[n := Done][b]);
    assert !Finished(ForwardDone(s.(state := s.state[n := Done]), n).state[b]);
  }

  lemma {:induction false} SuccessKeepsInvariant(e: Links, s: RunState, n: Node)
    requires Invariant(e, s) && n in s.state && s.state[n] == Activated
    ensures var s' := NotifyFinished(s.(state := s.state[n := Done]), n);
            NodesOk(e, s'.state, s'.flags) && Active(s'.state) == Active(s.state) - {n} &&
            s'.bloc == (if AllFinished(s'.state) then Verdict(s'.state) else Activated)
  {
    assert !AllFinished(s.state);
    if AllFinished(s.state[n := Done]) {
      AdvanceKeepsNodes(e, s.state, s.flags, n, Done);
      ActiveAfterSet(s.state, n, Done);
    } else {
      ForwardKeepsInvariant(e, s, n);
    }
  }

  lemma {:induction false} LoadFailKeeps(e: Links, s: RunState, n: Node)
    requires Acyclic(e) && Invariant(e, s) && Enabled(s, LoadFail(n))
    ensures Invariant(e, Apply(e, s, LoadFail(n)))
  {
    var s' := LoadFailure(e, s, n);
    FailureKeepsInvariant(e, s, n);
    FailureKeepsRest(e, s, n);
    assert n !in Active(s.state);
    assert s'.running == Active(s'.state);
  }

  /** A failure touches neither the main loop nor the running tasks. */
  lemma {:induction false} FailureKeepsRest(e: Links, s: RunState, n: Node)
    requires n in s.state
    ensures var s' := LoadFailure(e, s, n);
            && s'.running == s.running && s'.waiting == s.waiting && s'.main == s.main && s'.ended == s.ended
            && s'.flags == s.flags && s'.state == FailBelow(e, s.state[n := Error], n)
  {
  }

  lemma {:induction false} ConnectKeeps(e: Links, s: RunState, n: Node)
    requires Invariant(e, s) && Enabled(s, Connect(n))
    ensures Invariant(e, Apply(e, s, Connect(n)))
  {
    GateOfLoading(e, s.state, s.flags, n);
    AdvanceKeepsNodes(e, s.state, s.flags, n, ToActivate);
    ActiveAfterSet(s.state, n, ToActivate);
    StillBusy(s.state, n, ToActivate);
  }

  lemma {:induction false} LaunchKeeps(e: Links, s: RunState, n: Node)
    requires Invariant(e, s) && Enabled(s, Launch(n))
    ensures Invariant(e, Apply(e, s, Launch(n)))
  {
    AdvanceKeepsNodes(e, s.state, s.flags, n, Activated);
    ActiveAfterSet(s.state, n, Activated);
    StillBusy(s.state, n, Activated);
  }

  lemma {:induction false} EndKeeps(e: Links, s: RunState, n: Node, ok: bool)
    requires Acyclic(e) && Invariant(e, s) && Enabled(s, End(n, ok))
    ensures Invariant(e, Apply(e, s, End(n, ok)))
  {
    assert n in Active(s.state);
    if ok {
      SuccessKeepsInvariant(e, s, n);
    } else {
      FailureKeepsInvariant(e, s, n);
      FailureKeepsRest(e, s, n);
    }
  }

  /** The steps that move no node. */
  lemma {:induction false} PauseKeeps(e: Links, s: RunState, a: Action)
    requires Invariant(e, s) && Enabled(s, a) && (a.LoadStart? || a.Sleep? || a.WakeUp?)
    ensures Invariant(e, Apply(e, s, a))
  {
    if a.LoadStart? { assert !AllFinished(s.state); }
  }

  /** Every step of the executor keeps the invariant. */
  lemma {:induction false} StepKeepsInvariant(e: Links, s: RunState, a: Action)
    requires Acyclic(e) && Invariant(e, s) && Enabled(s, a)
    ensures Invariant(e, Apply(e, s, a))
  {
    match a
    case LoadFail(n) => LoadFailKeeps(e, s, n);
    case Connect(n) => ConnectKeeps(e, s, n);
    case Launch(n) => LaunchKeeps(e, s, n);
    case End(n, ok) => EndKeeps(e, s, n, ok);
    case _ => PauseKeeps(e, s, a);
  }

  lemma {:induction false} StillBusy(st: map<Node, State>, n: Node, to: State)
    requires n in st && !Finished(st[n]) && !Finished(to)
    ensures !AllFinished(st) && !AllFinished(st[n := to])
  {
    assert !Finished(st[n := to][n]);
  }
}
