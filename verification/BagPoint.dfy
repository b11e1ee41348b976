/** The bag of points and the steps that contract it. */
module BagPoints {
  import opened Contraction
  import opened Gates
  import opened Graph
  import opened Lists
  import opened Narrow
  import opened PointRegions
  import opened Points
  import opened Trees
  import opened Wrappers

  // ----- replacing points by the block that holds them

  /** The list without its first occurrence of p. */
  function Drop(ps: seq<Point>, p: Point): seq<Point> {
    var i := Find(ps, p);
    if i == |ps| then ps else Erase(ps, i)
  }

  lemma {:induction false} DropHas(ps: seq<Point>, p: Point)
    requires Distinct(ps)
    ensures Distinct(Drop(ps, p)) && forall q {:trigger q in Drop(ps, p)} :: q in Drop(ps, p) <==> q in ps && q != p
  {
    var i := Find(ps, p);
    if i < |ps| { EraseDistinct(ps, i); }
  }

  function Without(ps: seq<Point>, l: seq<Point>): seq<Point> {
    if l == [] then ps else Drop(Without(ps, l[..|l| - 1]), l[|l| - 1])
  }

  lemma {:induction false} WithoutHas(ps: seq<Point>, l: seq<Point>)
    requires Distinct(ps)
    ensures Distinct(Without(ps, l))
    ensures forall p {:trigger p in Without(ps, l)} :: p in Without(ps, l) <==> p in ps && p !in l
    decreases |l|
  {
    if l != [] {
      var front, last := l[..|l| - 1], l[|l| - 1];
      WithoutHas(ps, front);
      DropHas(Without(ps, front), last);
      assert l == front + [last];
      forall p ensures p in Without(ps, l) <==> p in ps && p !in l {
        assert p in l <==> p in front || p == last;
        assert p in Drop(Without(ps, front), last) <==> p in Without(ps, front) && p != last;
      }
    }
  }

  lemma {:induction false} WithoutNext(ps: seq<Point>, l: seq<Point>, k: nat)
    requires Distinct(ps) && Distinct(l) && k < |l|
    ensures Without(ps, l[..k + 1]) == Drop(Without(ps, l[..k]), l[k])
    ensures l[k] in Without(ps, l[..k]) <==> l[k] in ps
  {
    WithoutHas(ps, l[..k]);
    assert l[..k + 1][..k] == l[..k] && l[k] !in l[..k];
  }

  lemma {:induction false} LeavesOfSnoc(ps: seq<Point>, p: Point)
    ensures LeavesOf(ps + [p]) == LeavesOf(ps) + Leaves(p)
  {
    assert (ps + [p])[..|ps|] == ps;
  }

  lemma {:induction false} Associative<T>(a: seq<T>, b: seq<T>, c: seq<T>)
    ensures (a + b) + c == a + (b + c)
  {
  }

  lemma {:induction false} LeavesOfNext(ps: seq<Point>, qs: seq<Point>, q: Point)
    requires LeavesOf(ps + qs) == LeavesOf(ps) + LeavesOf(qs)
    ensures LeavesOf((ps + qs) + [q]) == LeavesOf(ps) + LeavesOf(qs + [q])
  {
    LeavesOfSnoc(ps + qs, q);
    LeavesOfSnoc(qs, q);
    Associative(LeavesOf(ps), LeavesOf(qs), Leaves(q));
  }

  lemma {:induction false} LeavesOfConcat(ps: seq<Point>, qs: seq<Point>)
    ensures LeavesOf(ps + qs) == LeavesOf(ps) + LeavesOf(qs)
    decreases |qs|
  {
    if qs == [] {
      assert ps + qs == ps && LeavesOf(qs) == [];
    } else {
      var front, last := qs[..|qs| - 1], qs[|qs| - 1];
      LeavesOfConcat(ps, front);
      LeavesOfNext(ps, front, last);
      assert qs == front + [last];
      Associative(ps, front, [last]);
    }
  }

  lemma {:induction false} LeavesOfOne(p: Point)
    ensures LeavesOf([p]) == Leaves(p)
  {
    assert [p][..0] == [];
  }

  lemma {:induction false} EraseLeaves(ps: seq<Point>, i: nat)
    requires i < |ps|
    ensures multiset(LeavesOf(Erase(ps, i))) + multiset(Leaves(ps[i])) == multiset(LeavesOf(ps))
  {
    LeavesOfConcat(ps[..i], ps[i + 1..]);
    LeavesOfConcat(ps[..i] + [ps[i]], ps[i + 1..]);
    LeavesOfConcat(ps[..i], [ps[i]]);
    LeavesOfOne(ps[i]);
    assert ps == ps[..i] + [ps[i]] + ps[i + 1..];
  }

  /** Every leaf is either in the points taken out or in those that stay. */
  lemma {:induction false} WithoutLeaves(ps: seq<Point>, l: seq<Point>)
    requires Distinct(ps) && SubList(l, ps)
    ensures |Without(ps, l)| == |ps| - |l|
    ensures multiset(LeavesOf(Without(ps, l))) + multiset(LeavesOf(l)) == multiset(LeavesOf(ps))
    decreases |l|
  {
    if l != [] {
      var front, last := l[..|l| - 1], l[|l| - 1];
      FrontIsInside(l);
      WithoutLeaves(ps, front);
      WithoutHas(ps, front);
      var r := Without(ps, front);
      EraseLeaves(r, Find(r, last));
    }
  }

  ghost predicate IsBlockOf(b: Point, l: seq<Point>) {
    b == Linked(l) || b == Fork(l)
  }

  lemma {:induction false} BlockIsNew(g: ControlGraph, ps: seq<Point>, l: seq<Point>, b: Point)
    requires BagOk(g, ps) && SubList(l, ps) && |l| >= 1 && IsBlockOf(b, l) && Faithful(g.Links(), b)
    ensures b !in ps
  {
    assert l[0] in l;
    MemberHasLinks(g, ps, l[0]);
    PointHasLeaf(l, l[0], FirstNode(l[0]));
    if b in ps {
      assert b.nodes[0] == l[0];
      PointIsUnique(ps, b, l[0], FirstNode(l[0]));
    }
  }

  lemma {:induction false} ReplaceKeepsLeaves(ps: seq<Point>, l: seq<Point>, b: Point)
    requires Distinct(ps) && SubList(l, ps) && IsBlockOf(b, l)
    ensures multiset(LeavesOf(Without(ps, l) + [b])) == multiset(LeavesOf(ps))
    ensures |Without(ps, l) + [b]| == |ps| - |l| + 1
  {
    WithoutLeaves(ps, l);
    LeavesOfConcat(Without(ps, l), [b]);
    LeavesOfOne(b);
  }

  /** Replacing points by a faithful block of them keeps the bag, its leaves, and makes it smaller. */
  lemma {:induction false} ReplaceKeepsBag(g: ControlGraph, ps: seq<Point>, l: seq<Point>, b: Point)
    requires BagOk(g, ps) && SubList(l, ps) && |l| >= 2 && IsBlockOf(b, l) && Faithful(g.Links(), b)
    ensures var ps' := Without(ps, l) + [b];
            && BagOk(g, ps') && multiset(LeavesOf(ps')) == multiset(LeavesOf(ps))
            && |ps'| == |ps| - |l| + 1 < |ps|
  {
    var r := Without(ps, l);
    WithoutHas(ps, l);
    BlockIsNew(g, ps, l, b);
    ReplaceKeepsLeaves(ps, l, b);
    assert b !in r;
    DistinctSnoc(r, b);
    forall p | p in r ensures Disjoint(p, b) && Disjoint(b, p) { BlockIsApart(ps, l, p); }
    SameLeaves(g, LeavesOf(ps), LeavesOf(r + [b]));
  }

  lemma {:induction false} BlockIsApart(ps: seq<Point>, l: seq<Point>, p: Point)
    requires PairwiseDisjoint(ps) && SubList(l, ps) && p in ps && p !in l
    ensures Disjoint(p, Linked(l)) && Disjoint(Linked(l), p)
    ensures Disjoint(p, Fork(l)) && Disjoint(Fork(l), p)
  {
    forall n: Node | n in LeavesOf(l) ensures n !in Leaves(p) {
      LeafHasPoint(l, n);
      var q :| q in l && n in Leaves(q);
      assert Disjoint(q, p);
    }
  }

  lemma {:induction false} SameLeaves(g: ControlGraph, l: seq<Node>, m: seq<Node>)
    requires SelfContained(g, l) && multiset(l) == multiset(m)
    ensures SelfContained(g, m)
  {
    forall n ensures n in l <==> n in m { assert n in multiset(l) <==> n in multiset(m); }
  }

  /** The block replaces at least two points of the bag. */
  ghost predicate Contracted(before: seq<Point>, after: seq<Point>, b: Point) {
    && !b.Elementary? && |b.nodes| >= 2 && SubList(b.nodes, before) && after == Without(before, b.nodes) + [b]
    && |after| == |before| - |b.nodes| + 1
  }

  /** The walk back from p has made the chain l; cur is the point before it, if the walk goes on. */
  ghost predicate WalkedBack(g: ControlGraph, ps: seq<Point>, p: Point, l: seq<Point>, cur: Option<Point>) {
    && ChainOk(g, ps, l) && l[|l| - 1] == p && Solid(l[0])
    && (cur.Some? ==> cur == CommonSon(ps, Preds(g, l[0])))
    && (|l| > 1 ==> CanStepBack(g, ps, p))
    && (|l| == 1 && cur.None? ==> !CanStepBack(g, ps, p))
  }

  class BagPoint {
    const g: ControlGraph
    var nodes: seq<Point>

    ghost predicate Valid()
      reads this
    {
      BagOk(g, nodes) && AllNarrow(g, nodes) && AllBuilt(g.Links(), nodes)
    }

    /** One elementary point per node. */
    constructor (g: ControlGraph, ns: seq<Node>)
      requires g.Valid() && Distinct(ns) && SelfContained(g, ns)
      ensures Valid() && this.g == g && LeavesOf(nodes) == ns && |nodes| == |ns|
    {
      this.g := g;
      nodes := Elementaries(ns);
      new;
      ElementariesAreOk(g, ns);
      NodesAreNarrow(g, ns);
      NodesAreBuilt(g.Links(), ns);
    }

    /** Takes the points of the block out of the bag and puts the block in. */
    method ReplaceInMe(aSet: Point) returns (r: Result<(), PointError>)
      requires !aSet.Elementary? && Distinct(nodes) && Distinct(aSet.nodes)
      modifies this
      ensures r.Success? <==> forall p :: p in aSet.nodes ==> p in old(nodes)
      ensures r.Success? ==> nodes == Without(old(nodes), aSet.nodes) + [aSet]
      ensures r.Failure? ==>
        exists k :: (0 <= k < |aSet.nodes| && aSet.nodes[k] !in old(nodes) &&
                     nodes == Without(old(nodes), aSet.nodes[..k]))
    {
      var pts := aSet.nodes;
      ghost var before := nodes;
      for k := 0 to |pts|
        invariant nodes == Without(before, pts[..k])
        invariant forall i :: 0 <= i < k ==> pts[i] in before
      {
        WithoutNext(before, pts, k);
        var it1 := Find(nodes, pts[k]);
        if it1 == |nodes| { return Failure(NotInMe); }
        nodes := Erase(nodes, it1);
      }
      assert pts[..|pts|] == pts;
      nodes := nodes + [aSet];
      return Success(());
    }

    /** The chain through p, walking back and then on while the points are simply linked. */
    method TryAsLink(p: Point) returns (r: Option<Point>)
      requires Valid() && p in nodes
      ensures r.Some? <==> CanStepBack(g, nodes, p) || CanStepOn(g, nodes, p)
      ensures r.Some? ==> r.value.Linked? && |r.value.nodes| >= 2 && ChainOk(g, nodes, r.value.nodes)
    {
      var l := WalkBack(p);
      l := WalkOn(l);
      return if |l| > 1 then Some(Linked(l)) else None;
    }

    /** Looks at the point c before the chain: the longer chain, and the point before it if the walk goes on. */
    method StepBack(l: seq<Point>, c: Point) returns (r: seq<Point>, cur: Option<Point>)
      requires Valid() && ChainOk(g, nodes, l) && Solid(l[0]) && CommonSon(nodes, Preds(g, l[0])) == Some(c)
      ensures ChainOk(g, nodes, r) && (r == l || r == [c] + l) && Solid(r[0]) && |r| <= |nodes|
      ensures r == [c] + l <==> CanStepBack(g, nodes, l[0])
      ensures cur.Some? ==> r == [c] + l && cur == CommonSon(nodes, Preds(g, r[0]))
    {
      MemberHasLinks(g, nodes, c);
      SubListIsShorter(l, nodes);
      if SimplyLinked(nodes, Succs(g, c)) {
        ExtendBackward(g, nodes, l, c);
        SubListIsShorter([c] + l, nodes);
      }
      if SimplyLinked(nodes, Preds(g, c)) && SimplyLinked(nodes, Succs(g, c)) {
        return [c] + l, CommonSon(nodes, Preds(g, c));
      } else if |Preds(g, c)| != 1 && SimplyLinked(nodes, Succs(g, c)) {
        return [c] + l, None;
      }
      return l, None;
    }

    method StepOn(l: seq<Point>, c: Point) returns (r: seq<Point>, cur: Option<Point>)
      requires Valid() && ChainOk(g, nodes, l) && Solid(l[|l| - 1])
      requires CommonSon(nodes, Succs(g, l[|l| - 1])) == Some(c)
      ensures ChainOk(g, nodes, r) && (r == l || r == l + [c]) && Solid(r[|r| - 1]) && |r| <= |nodes|
      ensures r == l + [c] <==> CanStepOn(g, nodes, l[|l| - 1])
      ensures cur.Some? ==> r == l + [c] && cur == CommonSon(nodes, Succs(g, r[|r| - 1]))
    {
      MemberHasLinks(g, nodes, c);
      SubListIsShorter(l, nodes);
      if SimplyLinked(nodes, Preds(g, c)) {
        ExtendForward(g, nodes, l, c);
        SubListIsShorter(l + [c], nodes);
      }
      if SimplyLinked(nodes, Preds(g, c)) && SimplyLinked(nodes, Succs(g, c)) {
        return l + [c], CommonSon(nodes, Succs(g, c));
      } else if |Succs(g, c)| != 1 && SimplyLinked(nodes, Preds(g, c)) {
        return l + [c], None;
      }
      return l, None;
    }

    method WalkBack(p: Point) returns (l: seq<Point>)
      requires Valid() && p in nodes
      ensures ChainOk(g, nodes, l) && l[|l| - 1] == p && (|l| > 1 <==> CanStepBack(g, nodes, p))
    {
      var cur2;
      l, cur2 := StartBack(p);
      while cur2.Some?
        invariant WalkedBack(g, nodes, p, l, cur2)
        decreases cur2.Some?, |nodes| - |l|
      {
        l, cur2 := GoBack(p, l, cur2.value);
      }
    }

    method StartBack(p: Point) returns (l: seq<Point>, cur: Option<Point>)
      requires Valid() && p in nodes
      ensures WalkedBack(g, nodes, p, l, cur) && |l| <= |nodes|
    {
      l := [p];
      MemberHasLinks(g, nodes, p);
      assert Distinct(l) && SubList(l, nodes);
      SubListIsSolid(g.Links(), l, nodes);
      cur := CommonSon(nodes, Preds(g, p));
    }

    method GoBack(p: Point, l: seq<Point>, c: Point) returns (r: seq<Point>, cur: Option<Point>)
      requires Valid() && WalkedBack(g, nodes, p, l, Some(c))
      ensures WalkedBack(g, nodes, p, r, cur) && |r| <= |nodes| && (cur.Some? ==> |r| > |l|)
    {
      r, cur := StepBack(l, c);
      assert |l| == 1 ==> l[0] == p;
    }

    method WalkOn(before: seq<Point>) returns (l: seq<Point>)
      requires Valid() && ChainOk(g, nodes, before)
      ensures ChainOk(g, nodes, l) && before <= l
      ensures |l| > |before| <==> CanStepOn(g, nodes, before[|before| - 1])
    {
      l := before;
      SolidAt(l, |l| - 1);
      var cur2 := CommonSon(nodes, Succs(g, l[|l| - 1]));
      while cur2.Some?
        invariant ChainOk(g, nodes, l) && before <= l && Solid(l[|l| - 1])
        invariant cur2.Some? ==> cur2 == CommonSon(nodes, Succs(g, l[|l| - 1]))
        invariant |l| > |before| ==> CanStepOn(g, nodes, before[|before| - 1])
        invariant |l| == |before| && cur2.None? ==> !CanStepOn(g, nodes, before[|before| - 1])
        decreases cur2.Some?, |nodes| - |l|
      {
        l, cur2 := StepOn(l, cur2.value);
      }
    }

    /** A block of at least two points of the bag that tells the order of its nodes. */
    ghost predicate IsContraction(b: Point)
      reads this
    {
      && !b.Elementary? && |b.nodes| >= 2 && SubList(b.nodes, nodes)
      && Faithful(g.Links(), b) && NarrowEnds(g, b) && Built(g.Links(), b)
    }

    /** q has at most one link at each end, none where none is wanted, between the same points as p. */
    method IsBeside(p: Point, q: Point, noBefore: bool, noAfter: bool) returns (yes: bool)
      requires Valid() && p in nodes && q in nodes && Solid(p) && |Preds(g, p)| <= 1 && |Succs(g, p)| <= 1
      ensures Solid(q) && (yes <==> Beside(g, nodes, p, q, noBefore, noAfter))
      ensures yes ==> LedToBy(g.Links(), RegionOf(q), Only(Preds(g, p)))
      ensures yes ==> LeadsTo(g.Links(), RegionOf(q), Only(Succs(g, p)))
    {
      var bb2, ee2 := PointOf(nodes, Only(Preds(g, p))), PointOf(nodes, Only(Succs(g, p)));
      MemberHasLinks(g, nodes, q);
      if |Preds(g, q)| > (if noBefore then 0 else 1) || |Succs(g, q)| > (if noAfter then 0 else 1) { return false; }
      var bb3, ee3 := PointOf(nodes, Only(Preds(g, q))), PointOf(nodes, Only(Succs(g, q)));
      yes := bb2 == bb3 && ee2 == ee3;
      if yes {
        SameNodeBefore(g, nodes, p, q);
        SameNodeAfter(g, nodes, p, q);
      }
    }

    /** Among the first n points, l has p and those between the same points as p. */
    ghost predicate SiblingsBelow(p: Point, l: seq<Point>, n: nat, noBefore: bool, noAfter: bool)
      requires Solid(p) && n <= |nodes|
      reads this
    {
      && l != [] && l[0] == p && Between(g, nodes, l, Only(Preds(g, p)), Only(Succs(g, p)))
      && (forall q {:trigger q in l} :: q in l ==> q == p || q in nodes[..n])
      && (|l| > 1 ==> HasSibling(g, nodes, p, noBefore, noAfter))
      && (|l| == 1 ==> NoneBeside(p, n, noBefore, noAfter))
    }

    method NextSibling(p: Point, l: seq<Point>, n: nat, noBefore: bool, noAfter: bool) returns (r: seq<Point>)
      requires Valid() && p in nodes && Solid(p) && |Preds(g, p)| <= 1 && |Succs(g, p)| <= 1
      requires n < |nodes| && SiblingsBelow(p, l, n, noBefore, noAfter)
      ensures SiblingsBelow(p, r, n + 1, noBefore, noAfter)
    {
      var q := nodes[n];
      assert q !in nodes[..n] && nodes[..n + 1] == nodes[..n] + [q];
      var beside := IsBeside(p, q, noBefore, noAfter);
      r := l;
      if q != p && beside {
        assert q !in l;
        BetweenOneMore(g, nodes, l, q, Only(Preds(g, p)), Only(Succs(g, p)));
        r := l + [q];
      }
    }

    /** p, and the other points between the same points as p. */
    method Siblings(p: Point, noBefore: bool, noAfter: bool) returns (l: seq<Point>)
      requires Valid() && p in nodes && Solid(p) && |Preds(g, p)| <= 1 && |Succs(g, p)| <= 1
      ensures l != [] && l[0] == p && Between(g, nodes, l, Only(Preds(g, p)), Only(Succs(g, p)))
      ensures |l| > 1 <==> HasSibling(g, nodes, p, noBefore, noAfter)
    {
      l := [p];
      SameNodeBefore(g, nodes, p, p);
      SameNodeAfter(g, nodes, p, p);
      for i := 0 to |nodes|
        invariant SiblingsBelow(p, l, i, noBefore, noAfter)
      {
        l := NextSibling(p, l, i, noBefore, noAfter);
      }
      assert nodes[..|nodes|] == nodes;
    }

    /** None of the first n points is beside p. */
    ghost predicate NoneBeside(p: Point, n: nat, noBefore: bool, noAfter: bool)
      requires Solid(p) && n <= |nodes|
      reads this
    {
      forall q {:trigger Beside(g, nodes, p, q, noBefore, noAfter)} ::
        q in nodes[..n] && q != p && Solid(q) ==> !Beside(g, nodes, p, q, noBefore, noAfter)
    }

    /** The branches with the same points before and after as p; with noBefore or noAfter, those with none. */
    method TryAsFork(p: Point, noBefore: bool, noAfter: bool) returns (r: Result<Option<Point>, PointError>)
      requires Valid() && p in nodes && IsBranch(g, nodes, p, noBefore, noAfter)
      ensures r.Failure? <==> |Preds(g, p)| > 1 || |Succs(g, p)| > 1
      ensures r.Failure? ==> r.error == PrecondNotOk
      ensures r.Success? ==> (r.value.Some? <==> HasSibling(g, nodes, p, noBefore, noAfter))
      ensures r.Success? && r.value.Some? ==> r.value.value.Fork? && IsContraction(r.value.value)
    {
      MemberHasLinks(g, nodes, p);
      if |Preds(g, p)| > 1 || |Succs(g, p)| > 1 { return Failure(PrecondNotOk); }
      var l := Siblings(p, noBefore, noAfter);
      if |l| > 1 {
        BetweenIsForkOf(g, nodes, l, Only(Preds(g, p)), Only(Succs(g, p)));
        ForkIsNarrow(g, l);
        ForkIsBuilt(g, nodes, l, Only(Preds(g, p)), Only(Succs(g, p)));
        return Success(Some(Fork(l)));
      }
      return Success(None);
    }

    /** The fork through p, when p passes for a branch. */
    method TryBranch(p: Point, noBefore: bool, noAfter: bool) returns (r: Result<Option<Point>, PointError>)
      requires Valid() && p in nodes
      ensures r.Failure? <==> Blocking(g, nodes, p, noBefore, noAfter)
      ensures r.Failure? ==> r.error == PrecondNotOk
      ensures r.Success? ==> (r.value.Some? <==> Forkable(g, nodes, p, noBefore, noAfter))
      ensures r.Success? && r.value.Some? ==> r.value.value.Fork? && IsContraction(r.value.value)
    {
      MemberHasLinks(g, nodes, p);
      if !BranchEnd(nodes, Preds(g, p), noBefore) || !BranchEnd(nodes, Succs(g, p), noAfter) { return Success(None); }
      r := TryAsFork(p, noBefore, noAfter);
    }

    /** Contracts a chain, if some point is in one. */
    method Deal1() returns (somethingDone: bool)
      requires Valid()
      modifies this
      ensures Valid() && multiset(LeavesOf(nodes)) == multiset(LeavesOf(old(nodes)))
      ensures if somethingDone then exists l :: Contracted(old(nodes), nodes, Linked(l)) else nodes == old(nodes)
      ensures somethingDone <==> !NoChain(g, old(nodes))
    {
      var try0 := FindChain();
      somethingDone := try0.Some?;
      if somethingDone {
        Contract(try0.value);
        assert Contracted(old(nodes), nodes, Linked(try0.value.nodes));
      }
    }

    /** The chain through the first point that is in one. */
    method FindChain() returns (r: Option<Point>)
      requires Valid()
      ensures r.None? <==> NoChain(g, nodes)
      ensures r.Some? ==> r.value.Linked? && IsContraction(r.value)
    {
      for i := 0 to |nodes|
        invariant forall p {:trigger Linkable(g, nodes, p)} :: p in nodes[..i] ==> !Linkable(g, nodes, p)
      {
        assert nodes[..i + 1] == nodes[..i] + [nodes[i]];
        r := TryLine(nodes[i]);
        if r.Some? { return; }
      }
      assert nodes[..|nodes|] == nodes;
      return None;
    }

    /** The chain through p, when p is along a line. */
    method TryLine(p: Point) returns (r: Option<Point>)
      requires Valid() && p in nodes
      ensures r.Some? <==> Linkable(g, nodes, p)
      ensures r.Some? ==> r.value.Linked? && IsContraction(r.value)
    {
      MemberHasLinks(g, nodes, p);
      if !AlongLine(g, nodes, p) { return None; }
      r := TryAsLink(p);
      if r.Some? {
        ChainIsModuleOf(g, nodes, r.value.nodes);
        ChainIsNarrow(g, r.value.nodes);
        ChainIsBuilt(g, nodes, r.value.nodes);
      }
    }

    method Contract(b: Point)
      requires Valid() && IsContraction(b)
      modifies this
      ensures Valid() && multiset(LeavesOf(nodes)) == multiset(LeavesOf(old(nodes)))
      ensures Contracted(old(nodes), nodes, b)
    {
      ReplaceKeepsBag(g, nodes, b.nodes, b);
      WithoutHas(nodes, b.nodes);
      var r := ReplaceInMe(b);
    }

    /** The fork through the first point that is a branch of one, unless a point before it blocks the search. */
    method FindFork(noBefore: bool, noAfter: bool) returns (r: Result<Option<Point>, PointError>)
      requires Valid()
      ensures r == Success(None) <==> NoFork(g, nodes, noBefore, noAfter)
      ensures r.Failure? ==> r.error == PrecondNotOk && SomeBlocking(g, nodes, noBefore, noAfter)
      ensures r.Success? && r.value.Some? ==> r.value.value.Fork? && IsContraction(r.value.value)
    {
      for i := 0 to |nodes|
        invariant forall p {:trigger Forkable(g, nodes, p, noBefore, noAfter)}
          {:trigger Blocking(g, nodes, p, noBefore, noAfter)} :: p in nodes[..i] ==>
          !Forkable(g, nodes, p, noBefore, noAfter) && !Blocking(g, nodes, p, noBefore, noAfter)
      {
        assert nodes[..i + 1] == nodes[..i] + [nodes[i]];
        r := TryBranch(nodes[i], noBefore, noAfter);
        if r != Success(None) { return; }
      }
      assert nodes[..|nodes|] == nodes;
      return Success(None);
    }

    /** Contracts a fork: deal2 without flags, deal2Bis with noBefore, deal2Ter with noAfter, deal2Quatro with both. */
    method Deal2(noBefore: bool, noAfter: bool) returns (r: Result<bool, PointError>)
      requires Valid()
      modifies this
      ensures Valid() && multiset(LeavesOf(nodes)) == multiset(LeavesOf(old(nodes)))
      ensures if r == Success(true) then exists l :: Contracted(old(nodes), nodes, Fork(l)) else nodes == old(nodes)
      ensures r == Success(false) <==> NoFork(g, old(nodes), noBefore, noAfter)
      ensures r.Failure? ==> r.error == PrecondNotOk && SomeBlocking(g, nodes, noBefore, noAfter)
    {
      var try1 := FindFork(noBefore, noAfter);
      if try1.Failure? { return Failure(try1.error); }
      if try1.value.None? { return Success(false); }
      Contract(try1.value.value);
      assert Contracted(old(nodes), nodes, Fork(try1.value.value.nodes));
      return Success(true);
    }

    /** Contracts the first of the four kinds of forks that there is. */
    method DealForks() returns (r: Result<bool, PointError>)
      requires Valid()
      modifies this
      ensures Valid() && multiset(LeavesOf(nodes)) == multiset(LeavesOf(old(nodes)))
      ensures if r == Success(true) then |nodes| < |old(nodes)| && nodes != [] else nodes == old(nodes)
      ensures r == Success(false) <==> forall noBefore, noAfter :: NoFork(g, old(nodes), noBefore, noAfter)
      ensures r.Failure? ==>
        r.error == PrecondNotOk && exists noBefore, noAfter :: SomeBlocking(g, nodes, noBefore, noAfter)
    {
      r := Deal2(false, false);
      if r == Success(false) { r := Deal2(true, false); }
      if r == Success(false) { r := Deal2(false, true); }
      if r == Success(false) { r := Deal2(true, true); }
    }

    /** Tries the contractions in order until the bag holds one point, or none of them applies. */
    method BasicSimplify() returns (r: Result<(), PointError>, ghost steps: nat)
      requires Valid()
      modifies this
      ensures Valid() && multiset(LeavesOf(nodes)) == multiset(LeavesOf(old(nodes)))
      ensures steps + |nodes| <= |old(nodes)|
      ensures r.Success? ==> |nodes| <= 1 && (old(nodes) != [] ==> |nodes| == 1)
      ensures r.Failure? ==> Stuck(g, nodes, r.error)
    {
      steps := 0;
      while |nodes| > 1
        invariant Valid() && multiset(LeavesOf(nodes)) == multiset(LeavesOf(old(nodes)))
        invariant steps + |nodes| <= |old(nodes)| && (old(nodes) != [] ==> nodes != [])
        decreases |nodes|
      {
        steps := steps + 1;
        var done := Deal1();
        if done { continue; }
        var d := DealForks();
        if d.Failure? { return Failure(d.error), steps - 1; }
        if !d.value { return Failure(NotImplemented), steps - 1; }
      }
      return Success(()), steps;
    }
  }
}
