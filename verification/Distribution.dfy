/** How a ForEach loop deals its elements to its branches: the scheduler alone,
    without the values. Ranks are those of the elements still to do. */
module Distribution {
  import opened Lists

  datatype LoopState = Active | Done | Failed

  /** The rank of a branch that has nothing left to do. */
  const NOT_RUNNING: int := -1

  datatype Sched = Sched(
    todo: nat,           // number of elements to do
    ids: seq<int>,       // the rank each branch works on, or NOT_RUNNING
    current: nat,        // the next rank to deal
    failures: nat,       // failures met in keep-going mode
    state: LoopState,
    owner: seq<nat>,     // the branch each dealt rank was given to
    stored: set<nat>,    // ranks whose result is stored
    lost: set<nat>,      // ranks whose computation failed
    stopped: set<nat>,   // branches left alone with their last rank
    aborted: bool)       // some failure came without keep-going

  datatype LoopEvent = Finished(id: nat) | Broken(id: nat, keepGoing: bool)

  predicate Running(s: Sched, i: nat) {
    i < |s.ids| && s.ids[i] != NOT_RUNNING && i !in s.stopped
  }

  predicate AllIdle(ids: seq<int>) {
    forall i :: 0 <= i < |ids| ==> ids[i] == NOT_RUNNING
  }

  /** The first deal: one rank per branch. */
  function Begin(todo: nat, branches: nat): Sched
    requires 0 < branches <= todo
  {
    Sched(todo, seq(branches, i => i), branches, 0, Active, seq(branches, i requires 0 <= i => i), {}, {}, {}, false)
  }

  /** A branch is through with its rank: it gets the next one, becomes idle, or is left alone. */
  function NextRank(s: Sched, id: nat): Sched
    requires id < |s.ids|
  {
    if s.current == s.todo then
      var ids := s.ids[id := NOT_RUNNING];
      s.(ids := ids, state := if !AllIdle(ids) then s.state else if s.failures != 0 then Failed else Done)
    else if s.state == Active then
      s.(ids := s.ids[id := s.current], current := s.current + 1, owner := s.owner + [id])
    else s.(stopped := s.stopped + {id})
  }

  function Rank(s: Sched, id: nat): nat
    requires id < |s.ids|
  {
    if s.ids[id] < 0 then 0 else s.ids[id]
  }

  predicate Enabled(s: Sched, e: LoopEvent) {
    Running(s, e.id)
  }

  function Apply(s: Sched, e: LoopEvent): Sched
    requires Enabled(s, e)
  {
    match e
    case Finished(id) => NextRank(s.(stored := s.stored + {Rank(s, id)}), id)
    case Broken(id, keepGoing) =>
      var s' := s.(lost := s.lost + {Rank(s, id)});
      if keepGoing then NextRank(s'.(failures := s'.failures + 1), id)
      else s'.(state := Failed, stopped := s.stopped + {id}, aborted := true)
  }

  // ----- the invariant

  /** Rank r is being computed by branch i. */
  ghost predicate HeldBy(s: Sched, r: int, i: nat) {
    Running(s, i) && s.ids[i] == r
  }

  ghost predicate Held(s: Sched, r: int) {
    exists i :: HeldBy(s, r, i)
  }

  /** The ranks dealt so far are shared out between the stored ones, the lost ones and those in work. */
  ghost predicate SharedOut(s: Sched) {
    && (forall r {:trigger r in s.stored} :: r in s.stored ==> r < s.current && r !in s.lost && !Held(s, r))
    && (forall r {:trigger r in s.lost} :: r in s.lost ==> r < s.current && !Held(s, r))
    && (forall r: nat {:trigger Held(s, r)} :: r < s.current ==> r in s.stored || r in s.lost || Held(s, r))
  }

  /** Each dealt rank has one owner, and a branch in work owns its rank. */
  ghost predicate Owned(s: Sched) {
    && |s.owner| == s.current <= s.todo
    && (forall i {:trigger s.ids[i]} :: 0 <= i < |s.ids| ==> NOT_RUNNING <= s.ids[i] < s.current)
    && (forall i: nat {:trigger Running(s, i)} :: Running(s, i) ==> s.owner[s.ids[i]] == i)
    && (forall r {:trigger s.owner[r]} :: 0 <= r < s.current ==> s.owner[r] < |s.ids|)
  }

  ghost predicate Invariant(s: Sched) {
    && 0 < |s.ids| <= s.todo && Owned(s) && SharedOut(s)
    && (s.aborted ==> s.state == Failed && exists i :: i in s.stopped && i < |s.ids| && s.ids[i] != NOT_RUNNING)
    && (s.aborted ==> s.lost != {})
    && (!s.aborted ==> s.stopped == {} && s.failures == |s.lost|)
    && (!s.aborted ==> s.state == if !AllIdle(s.ids) then Active else if s.failures != 0 then Failed else Done)
    && (s.current < s.todo ==> !AllIdle(s.ids))
  }

  lemma {:induction false} BeginInvariant(todo: nat, branches: nat)
    requires 0 < branches <= todo
    ensures Invariant(Begin(todo, branches))
  {
    var s := Begin(todo, branches);
    forall r: nat | r < s.current ensures Held(s, r) { assert HeldBy(s, r, r); }
    assert s.ids[0] != NOT_RUNNING;
  }

  /** A rank in work is held by one branch only. */
  lemma {:induction false} OneHolder(s: Sched, i: nat, j: nat)
    requires Owned(s) && Running(s, i) && Running(s, j) && s.ids[i] == s.ids[j]
    ensures i == j
  {
  }

  /** Ending the work on a rank, whatever the branch does next. */
  lemma {:induction false} NextRankShares(s: Sched, s0: Sched, id: nat)
    requires Owned(s0) && SharedOut(s0) && Running(s0, id)
    requires s == s0.(stored := s.stored, lost := s.lost, failures := s.failures)
    requires (s.stored == s0.stored + {s0.ids[id]} && s.lost == s0.lost) ||
             (s.stored == s0.stored && s.lost == s0.lost + {s0.ids[id]})
    requires s0.state == Active || s0.current == s0.todo || s0.aborted
    ensures Owned(NextRank(s, id)) && SharedOut(NextRank(s, id))
  {
    var s' := NextRank(s, id);
    var done := s0.ids[id];
    assert HeldBy(s0, done, id);
    forall i: nat | Running(s', i) ensures s'.owner[s'.ids[i]] == i {
      if i != id { assert Running(s0, i); }
    }
    forall r: int | Held(s', r) ensures r != done && (Held(s0, r) || r == s0.current) {
      var i :| HeldBy(s', r, i);
      if i != id {
        assert HeldBy(s0, r, i);
        if r == done { OneHolder(s0, i, id); }
      }
    }
    forall r: nat | r < s'.current ensures r in s'.stored || r in s'.lost || Held(s', r) {
      if r == s0.current { assert HeldBy(s', r, id); }
      else if Held(s0, r) && r != done {
        var i :| HeldBy(s0, r, i);
        assert HeldBy(s', r, i);
      }
    }
  }

  /** Every event keeps the invariant. */
  lemma {:induction false} StepKeepsInvariant(s: Sched, e: LoopEvent)
    requires Invariant(s) && Enabled(s, e)
    ensures Invariant(Apply(s, e))
  {
    var id := e.id;
    var r := s.ids[id];
    assert HeldBy(s, r, id) && r !in s.stored && r !in s.lost;
    match e
    case Finished(_) =>
      var s1 := s.(stored := s.stored + {Rank(s, id)});
      NextRankShares(s1, s, id);
      NextRankState(s1, s, id);
    case Broken(_, keepGoing) =>
      if keepGoing {
        var s1 := s.(lost := s.lost + {Rank(s, id)}, failures := s.failures + 1);
        NextRankShares(s1, s, id);
        NextRankState(s1, s, id);
      } else {
        AbortShares(s, id);
      }
  }

  lemma {:induction false} AbortShares(s: Sched, id: nat)
    requires Owned(s) && SharedOut(s) && Running(s, id)
    ensures var s' := Apply(s, Broken(id, false)); Owned(s') && SharedOut(s')
  {
    var s' := Apply(s, Broken(id, false));
    var done := s.ids[id];
    assert HeldBy(s, done, id);
    forall i: nat | Running(s', i) ensures s'.owner[s'.ids[i]] == i { assert Running(s, i); }
    forall r: int | Held(s', r) ensures r != done && Held(s, r) {
      var i :| HeldBy(s', r, i);
      assert HeldBy(s, r, i);
      if r == done { OneHolder(s, i, id); }
    }
    forall r: nat | r < s'.current ensures r in s'.stored || r in s'.lost || Held(s', r) {
      if Held(s, r) && r != done {
        var i :| HeldBy(s, r, i);
        assert HeldBy(s', r, i);
      }
    }
  }

  lemma {:induction false} NextRankState(s: Sched, s0: Sched, id: nat)
    requires Invariant(s0) && Running(s0, id)
    requires s == s0.(stored := s.stored, lost := s.lost, failures := s.failures)
    requires !s0.aborted ==> s.failures == |s.lost|
    ensures var s' := NextRank(s, id);
            && 0 < |s'.ids| <= s'.todo
            && (s'.aborted ==> s'.state == Failed)
            && (s'.aborted ==> exists i :: i in s'.stopped && i < |s'.ids| && s'.ids[i] != NOT_RUNNING)
            && (!s'.aborted ==> s'.stopped == {} && s'.failures == |s'.lost|)
            && (!s'.aborted ==>
                  s'.state == if !AllIdle(s'.ids) then Active else if s'.failures != 0 then Failed else Done)
            && (s'.current < s'.todo ==> !AllIdle(s'.ids))
  {
    var s' := NextRank(s, id);
    assert !AllIdle(s0.ids);
    if s0.aborted {
      var i :| i in s0.stopped && i < |s0.ids| && s0.ids[i] != NOT_RUNNING;
      assert s'.ids[i] != NOT_RUNNING && i in s'.stopped;
    } else if s0.current < s0.todo {
      assert s'.ids[id] != NOT_RUNNING;
    }
  }

  /** Events touch the rank of their own branch only, and give it the next rank if any. */
  ghost predicate TouchesOwn(s: Sched, e: LoopEvent)
    requires Enabled(s, e)
  {
    var s' := Apply(s, e);
    forall i: nat {:trigger Running(s', i)} :: Running(s', i) ==>
      if i == e.id then s'.ids[i] == s.current < s.todo else Running(s, i) && s'.ids[i] == s.ids[i]
  }

  lemma {:induction false} RunningAfter(s: Sched, e: LoopEvent)
    requires Invariant(s) && Enabled(s, e)
    ensures TouchesOwn(s, e) && 0 <= s.ids[e.id] < s.current <= s.todo
  {
  }

  /** The branches are all idle only after the last one was through with a last rank; a done loop has none in work. */
  lemma {:induction false} EndIsTold(s: Sched, e: LoopEvent)
    requires Invariant(s) && Enabled(s, e)
    ensures var s' := Apply(s, e);
            && (AllIdle(s'.ids) ==> s.current == s.todo && s'.state != Active)
            && (s'.state == Done ==> AllIdle(s'.ids))
  {
    StepKeepsInvariant(s, e);
    var s' := Apply(s, e);
    assert s.ids[e.id] != NOT_RUNNING;
    if AllIdle(s'.ids) { assert s'.ids[e.id] == NOT_RUNNING; }
  }

  // ----- whole runs

  ghost predicate ReachedBy(todo: nat, branches: nat, es: seq<LoopEvent>, s: Sched)
    requires 0 < branches <= todo
    decreases |es|
  {
    if es == [] then s == Begin(todo, branches)
    else exists m :: ReachedBy(todo, branches, Front(es), m) && Step(m, Last(es), s)
  }

  ghost predicate Step(m: Sched, e: LoopEvent, s: Sched) {
    Enabled(m, e) && s == Apply(m, e)
  }

  function Front(es: seq<LoopEvent>): (r: seq<LoopEvent>)
    requires es != []
    ensures es == r + [Last(es)]
  {
    es[..|es| - 1]
  }

  function Last(es: seq<LoopEvent>): LoopEvent
    requires es != []
  {
    es[|es| - 1]
  }

  ghost predicate NeverBroken(es: seq<LoopEvent>) {
    forall e :: e in es ==> e.Finished?
  }

  ghost predicate KeptGoing(es: seq<LoopEvent>) {
    forall e :: e in es ==> e.Finished? || e.keepGoing
  }

  /** One event settles one more rank. */
  lemma {:induction false} StepCounts(s: Sched, e: LoopEvent)
    requires Invariant(s) && Enabled(s, e)
    ensures var s' := Apply(s, e);
            s'.todo == s.todo && |s'.ids| == |s.ids| &&
            |s'.stored| + |s'.lost| == |s.stored| + |s.lost| + 1 &&
            (s'.aborted <==> s.aborted || (e.Broken? && !e.keepGoing)) &&
            (s'.lost == {} <==> s.lost == {} && e.Finished?)
  {
    assert HeldBy(s, s.ids[e.id], e.id);
  }

  lemma {:induction false} ReachableInvariant(todo: nat, branches: nat, es: seq<LoopEvent>, s: Sched)
    requires 0 < branches <= todo && ReachedBy(todo, branches, es, s)
    ensures Invariant(s) && s.todo == todo && |s.ids| == branches
    ensures NeverBroken(es) <==> s.lost == {}
    ensures KeptGoing(es) <==> !s.aborted
    ensures |es| == |s.stored| + |s.lost|
    decreases |es|
  {
    if es == [] {
      BeginInvariant(todo, branches);
    } else {
      var m :| ReachedBy(todo, branches, Front(es), m) && Step(m, Last(es), s);
      ReachableInvariant(todo, branches, Front(es), m);
      StepKeepsInvariant(m, Last(es));
      StepCounts(m, Last(es));
      LastEvent(es);
    }
  }

  lemma {:induction false} LastEvent(es: seq<LoopEvent>)
    requires es != []
    ensures NeverBroken(es) <==> NeverBroken(Front(es)) && Last(es).Finished?
    ensures KeptGoing(es) <==> KeptGoing(Front(es)) && (Last(es).Finished? || Last(es).keepGoing)
  {
    assert Last(es) in es;
    assert forall e :: e in Front(es) ==> e in es;
  }

  /** Exactly once: in every reachable state each rank dealt is stored, lost, or in work by its one
      owner, and never two of these; ranks not dealt yet are none of them. */
  lemma {:induction false} EachRankOnce(todo: nat, branches: nat, es: seq<LoopEvent>, s: Sched, r: nat)
    requires 0 < branches <= todo && ReachedBy(todo, branches, es, s)
    ensures r < s.current <==> r in s.stored || r in s.lost || Held(s, r)
    ensures !(r in s.stored && r in s.lost) && !(Held(s, r) && (r in s.stored || r in s.lost))
    ensures forall i: nat :: HeldBy(s, r, i) ==> r < |s.owner| && s.owner[r] == i
    ensures NeverBroken(es) ==> r !in s.lost
  {
    ReachableInvariant(todo, branches, es, s);
    if Held(s, r) { var i :| HeldBy(s, r, i); }
  }

  /** The loop is Done only when every rank is stored. */
  lemma {:induction false} DoneStoresAll(todo: nat, branches: nat, es: seq<LoopEvent>, s: Sched)
    requires 0 < branches <= todo && ReachedBy(todo, branches, es, s) && s.state == Done
    ensures forall r: nat :: r < todo <==> r in s.stored
    ensures s.lost == {} && s.current == todo && |es| == todo
  {
    ReachableInvariant(todo, branches, es, s);
    DoneHasStoredAll(s);
    CountBelow(s.stored, todo);
  }

  lemma {:induction false} DoneHasStoredAll(s: Sched)
    requires Invariant(s) && s.state == Done
    ensures forall r: nat :: r < s.todo <==> r in s.stored
  {
    NothingHeld(s);
    assert s.lost == {};
    forall r: nat | r < s.todo ensures r in s.stored { assert !Held(s, r); }
  }

  /** When every rank is stored the loop is done. */
  lemma {:induction false} AllStoredIsDone(s: Sched)
    requires Invariant(s) && forall r: nat :: r < s.todo ==> r in s.stored
    ensures s.state == Done
  {
    assert forall r {:trigger r in s.lost} :: r in s.lost ==> r in s.stored;
    assert s.lost == {};
    assert s.current < s.todo ==> s.current in s.stored;
    forall r: nat | r < s.todo ensures !Held(s, r) { assert r in s.stored; }
    forall i: nat | i < |s.ids| ensures s.ids[i] == NOT_RUNNING {
      assert s.ids[i] != NOT_RUNNING ==> HeldBy(s, s.ids[i], i);
      assert s.ids[i] != NOT_RUNNING ==> Held(s, s.ids[i]);
    }
  }

  lemma {:induction false} NothingHeld(s: Sched)
    requires AllIdle(s.ids)
    ensures forall r :: !Held(s, r)
  {
    assert forall r, i {:trigger HeldBy(s, r, i)} :: !HeldBy(s, r, i);
  }

  lemma {:induction false} CountBelow(s: set<nat>, n: nat)
    requires forall r: nat :: r < n <==> r in s
    ensures |s| == n
  {
    if n > 0 {
      CountBelow(s - {n - 1}, n - 1);
    } else {
      assert s == {};
    }
  }

  /** Unless the loop is over, some branch is at work: a run without abort always goes on to its end. */
  lemma {:induction false} NoDeadlock(todo: nat, branches: nat, es: seq<LoopEvent>, s: Sched)
    requires 0 < branches <= todo && ReachedBy(todo, branches, es, s) && s.state == Active
    ensures exists i: nat :: Running(s, i)
  {
    ReachableInvariant(todo, branches, es, s);
    var i :| 0 <= i < |s.ids| && s.ids[i] != NOT_RUNNING;
    assert Running(s, i);
  }

  /** No run has more events than there are elements to do. */
  lemma {:induction false} RunsEnd(todo: nat, branches: nat, es: seq<LoopEvent>, s: Sched)
    requires 0 < branches <= todo && ReachedBy(todo, branches, es, s)
    ensures |es| <= todo
  {
    ReachableInvariant(todo, branches, es, s);
    var below := Below(todo);
    assert s.stored !! s.lost;
    SubsetSize(s.stored + s.lost, below);
  }

  /** After a failure without keep-going the loop is Failed for good and deals nothing more. */
  lemma {:induction false} AbortDealsNothing(s: Sched, e: LoopEvent)
    requires Invariant(s) && Enabled(s, e) && (s.aborted || e == Broken(e.id, false))
    ensures var s' := Apply(s, e);
            s'.aborted && s'.state == Failed && s'.current == s.current && s'.owner == s.owner
  {
    StepKeepsInvariant(s, e);
  }

  /** A loop that met a failure without keep-going is never Done. */
  lemma {:induction false} AbortedIsFailed(todo: nat, branches: nat, es: seq<LoopEvent>, s: Sched)
    requires 0 < branches <= todo && ReachedBy(todo, branches, es, s) && !KeptGoing(es)
    ensures s.state == Failed
  {
    ReachableInvariant(todo, branches, es, s);
  }

  /** With keep-going a loop that is over has dealt every rank, and is Failed exactly when some rank failed. */
  lemma {:induction false} KeepGoingDealsAll(todo: nat, branches: nat, es: seq<LoopEvent>, s: Sched)
    requires 0 < branches <= todo && ReachedBy(todo, branches, es, s) && KeptGoing(es) && s.state != Active
    ensures s.current == todo && forall r: nat :: r < todo <==> r in s.stored || r in s.lost
    ensures s.state == Failed <==> exists e :: e in es && e.Broken?
  {
    ReachableInvariant(todo, branches, es, s);
    NothingHeld(s);
    forall r: nat ensures r < todo <==> r in s.stored || r in s.lost {
      EachRankOnce(todo, branches, es, s, r);
    }
    assert !NeverBroken(es) <==> exists e :: e in es && e.Broken?;
  }
}
