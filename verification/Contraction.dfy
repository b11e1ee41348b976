/** Contracting the points of a bag into one tree of links and forks. */
module Contraction {
  import opened Gates
  import opened Graph
  import opened Lists
  import opened PointRegions
  import opened Points
  import opened Regions
  import opened Wrappers

  datatype PointError = PrecondNotOk | NotInMe | NotImplemented

  // ----- lists of points

  lemma {:induction false} LeafHasPoint(ps: seq<Point>, n: Node)
    requires n in LeavesOf(ps)
    ensures exists p :: p in ps && n in Leaves(p)
    decreases |ps|
  {
    var m := |ps| - 1;
    if n in Leaves(ps[m]) {
      assert ps[m] in ps;
    } else {
      LeafHasPoint(ps[..m], n);
      assert forall p :: p in ps[..m] ==> p in ps;
    }
  }

  lemma {:induction false} PointHasLeaf(ps: seq<Point>, p: Point, n: Node)
    requires p in ps && n in Leaves(p)
    ensures n in LeavesOf(ps)
    decreases |ps|
  {
    var m := |ps| - 1;
    assert ps == ps[..m] + [ps[m]];
    if p != ps[m] { PointHasLeaf(ps[..m], p, n); }
  }

  /** The first point from position i on that holds node n. */
  function PointFrom(ps: seq<Point>, n: Node, i: nat): (r: Option<Point>)
    requires i <= |ps|
    ensures r.Some? ==> r.value in ps && n in Leaves(r.value)
    decreases |ps| - i
  {
    if i == |ps| then None
    else if n in Leaves(ps[i]) then Some(ps[i])
    else PointFrom(ps, n, i + 1)
  }

  function PointWith(ps: seq<Point>, n: Node): (r: Option<Point>)
    ensures r.Some? ==> r.value in ps && n in Leaves(r.value)
  {
    PointFrom(ps, n, 0)
  }

  lemma {:induction false} PointIsFound(ps: seq<Point>, n: Node)
    requires n in LeavesOf(ps)
    ensures PointWith(ps, n).Some?
  {
    LeafHasPoint(ps, n);
    var p :| p in ps && n in Leaves(p);
    var k :| 0 <= k < |ps| && ps[k] == p;
    PointIsFoundFrom(ps, n, 0, k);
  }

  lemma {:induction false} PointIsFoundFrom(ps: seq<Point>, n: Node, i: nat, k: nat)
    requires i <= k < |ps| && n in Leaves(ps[k])
    ensures PointFrom(ps, n, i).Some?
    decreases |ps| - i
  {
    if i < k { PointIsFoundFrom(ps, n, i + 1, k); }
  }

  ghost predicate PairwiseDisjoint(ps: seq<Point>) {
    forall p, q {:trigger Disjoint(p, q)} :: p in ps && q in ps && p != q ==> Disjoint(p, q)
  }

  lemma {:induction false} PointIsUnique(ps: seq<Point>, p: Point, q: Point, n: Node)
    requires PairwiseDisjoint(ps) && p in ps && q in ps && n in Leaves(p) && n in Leaves(q)
    ensures p == q
  {
    assert p != q ==> Disjoint(p, q);
  }

  /** Links neither enter nor leave the listed nodes. */
  ghost predicate SelfContained(g: ControlGraph, l: seq<Node>) {
    && (forall n {:trigger n in g.outs} :: n in l ==> n in g.outs)
    && (forall n, m {:trigger m in g.outs[n]} :: n in l && n in g.outs && m in g.outs[n] ==> m in l)
    && (forall n, m {:trigger m in Froms(g.ins[n])} :: n in l && n in g.ins && m in Froms(g.ins[n]) ==> m in l)
  }

  ghost predicate BagOk(g: ControlGraph, ps: seq<Point>) {
    && g.Valid() && Distinct(ps) && AllFaithful(g.Links(), ps) && PairwiseDisjoint(ps)
    && SelfContained(g, LeavesOf(ps))
  }

  lemma {:induction false} GatesTell(g: ControlGraph, n: Node)
    requires g.Valid() && n in g.outs
    ensures n in g.ins && SuccsAre(g.Links(), n, g.outs[n]) && PredsAre(g.Links(), n, Froms(g.ins[n]))
  {
    assert n in Elements(g.nodes);
    forall x ensures (x, n) in g.Links() <==> x in Froms(g.ins[n]) {
      if (x, n) in g.Links() { assert n in g.outs[x]; }
      if x in Froms(g.ins[n]) { assert x in g.ins; }
    }
  }

  /** The nodes right before and right after a point, as its first and last nodes list them. */
  ghost predicate HasLinks(e: Links, p: Point, preds: seq<Node>, succs: seq<Node>) {
    Solid(p) && PredsAre(e, FirstNode(p), preds) && SuccsAre(e, LastNode(p), succs)
  }

  function Preds(g: ControlGraph, p: Point): seq<Node>
    requires Solid(p)
  {
    if FirstNode(p) in g.ins then Froms(g.ins[FirstNode(p)]) else []
  }

  function Succs(g: ControlGraph, p: Point): seq<Node>
    requires Solid(p)
  {
    if LastNode(p) in g.outs then g.outs[LastNode(p)] else []
  }

  lemma {:induction false} MemberHasLinks(g: ControlGraph, ps: seq<Point>, p: Point)
    requires BagOk(g, ps) && p in ps
    ensures Faithful(g.Links(), p) && HasLinks(g.Links(), p, Preds(g, p), Succs(g, p))
    ensures FirstNode(p) in g.ins && LastNode(p) in g.outs
    ensures forall n :: n in Preds(g, p) || n in Succs(g, p) ==> n in LeavesOf(ps)
    ensures FirstNode(p) in Leaves(p) && LastNode(p) in Leaves(p)
  {
    assert Faithful(g.Links(), p);
    EndsOfPoint(p);
    RegionHasLeaves(p);
    PointHasLeaf(ps, p, FirstNode(p));
    PointHasLeaf(ps, p, LastNode(p));
    GatesTell(g, FirstNode(p));
    GatesTell(g, LastNode(p));
  }

  /** The point of the list that holds all the nodes, which are some. */
  function CommonSon(ps: seq<Point>, l: seq<Node>): (r: Option<Point>)
    ensures r.Some? ==> l != [] && r.value in ps && forall n :: n in l ==> n in Leaves(r.value)
  {
    if l == [] then None
    else
      var p := PointWith(ps, l[0]);
      if p.Some? && forall i :: 0 <= i < |l| ==> l[i] in Leaves(p.value) then p else None
  }

  /** One link, or several that all end in the same point. */
  predicate SimplyLinked(ps: seq<Point>, l: seq<Node>) {
    |l| == 1 || (|l| > 1 && CommonSon(ps, l).Some?)
  }

  /** Simply linked nodes, one of which is in p, are all in p. */
  lemma {:induction false} SimplyLinkedTo(ps: seq<Point>, l: seq<Node>, p: Point, n: Node)
    requires PairwiseDisjoint(ps) && SimplyLinked(ps, l) && p in ps && n in l && n in Leaves(p)
    ensures forall m :: m in l ==> m in Leaves(p)
  {
    if |l| > 1 { PointIsUnique(ps, p, CommonSon(ps, l).value, n); }
  }

  /** The point c that holds all that is before p, and leads simply, leads to p as one region to another. */
  lemma {:induction false} JoinedBackward(g: ControlGraph, ps: seq<Point>, c: Point, p: Point)
    requires BagOk(g, ps) && c in ps && p in ps && Solid(p) && Solid(c)
    requires CommonSon(ps, Preds(g, p)) == Some(c) && SimplyLinked(ps, Succs(g, c))
    ensures c != p && Joined(g.Links(), RegionOf(c), RegionOf(p))
  {
    var e, preds, succs := g.Links(), Preds(g, p), Succs(g, c);
    MemberHasLinks(g, ps, c);
    MemberHasLinks(g, ps, p);
    assert Faithful(e, c) && Faithful(e, p);
    LinkOut(e, c, p, preds[0]);
    SimplyLinkedTo(ps, succs, p, FirstNode(p));
    LinksMakeJoined(e, c, p, preds, succs);
  }

  /** A link from c to the first node of p: the two differ, and the last node of c has that link too. */
  lemma {:induction false} LinkOut(e: Links, c: Point, p: Point, x: Node)
    requires Faithful(e, c) && Faithful(e, p) && x in Leaves(c) && (x, FirstNode(p)) in e
    requires c != p ==> Disjoint(c, p)
    ensures c != p && (LastNode(c), FirstNode(p)) in e
  {
    EndsOfPoint(c);
    EndsOfPoint(p);
    RegionHasLeaves(c);
    RegionHasLeaves(p);
  }

  lemma {:induction false} LinkIn(e: Links, c: Point, p: Point, y: Node)
    requires Faithful(e, c) && Faithful(e, p) && y in Leaves(p) && (LastNode(c), y) in e
    requires c != p ==> Disjoint(c, p)
    ensures c != p && (LastNode(c), FirstNode(p)) in e
  {
    EndsOfPoint(c);
    EndsOfPoint(p);
    RegionHasLeaves(c);
    RegionHasLeaves(p);
  }

  lemma {:induction false} JoinedForward(g: ControlGraph, ps: seq<Point>, c: Point, p: Point)
    requires BagOk(g, ps) && c in ps && p in ps && Solid(p) && Solid(c)
    requires CommonSon(ps, Succs(g, c)) == Some(p) && SimplyLinked(ps, Preds(g, p))
    ensures c != p && Joined(g.Links(), RegionOf(c), RegionOf(p))
  {
    var e, preds, succs := g.Links(), Preds(g, p), Succs(g, c);
    MemberHasLinks(g, ps, c);
    MemberHasLinks(g, ps, p);
    assert Faithful(e, c) && Faithful(e, p);
    LinkIn(e, c, p, succs[0]);
    SimplyLinkedTo(ps, preds, c, LastNode(c));
    LinksMakeJoined(e, c, p, preds, succs);
  }

  // ----- when a contraction applies

  ghost predicate CanStepBack(g: ControlGraph, ps: seq<Point>, p: Point) {
    Solid(p) && var c := CommonSon(ps, Preds(g, p));
    c.Some? && Solid(c.value) && SimplyLinked(ps, Succs(g, c.value))
  }

  ghost predicate CanStepOn(g: ControlGraph, ps: seq<Point>, p: Point) {
    Solid(p) && var c := CommonSon(ps, Succs(g, p));
    c.Some? && Solid(c.value) && SimplyLinked(ps, Preds(g, c.value))
  }

  /** p is simply linked at both ends, or at one end and not linked at the other. */
  predicate AlongLine(g: ControlGraph, ps: seq<Point>, p: Point)
    requires Solid(p)
  {
    var before, after := SimplyLinked(ps, Preds(g, p)), SimplyLinked(ps, Succs(g, p));
    (before && after) || (Preds(g, p) == [] && after) || (Succs(g, p) == [] && before)
  }

  /** A chain of at least two points goes through p. */
  ghost predicate Linkable(g: ControlGraph, ps: seq<Point>, p: Point) {
    Solid(p) && AlongLine(g, ps, p) && (CanStepBack(g, ps, p) || CanStepOn(g, ps, p))
  }

  /** The end of a branch: not linked when nothing is wanted there, else simply linked. */
  predicate BranchEnd(ps: seq<Point>, l: seq<Node>, none: bool) {
    if none then l == [] else SimplyLinked(ps, l)
  }

  /** q has at most one link at each end, none where none is wanted, to the same points as p. */
  predicate Beside(g: ControlGraph, ps: seq<Point>, p: Point, q: Point, noBefore: bool, noAfter: bool)
    requires Solid(p) && Solid(q)
  {
    && |Preds(g, q)| <= (if noBefore then 0 else 1) && |Succs(g, q)| <= (if noAfter then 0 else 1)
    && PointOf(ps, Only(Preds(g, p))) == PointOf(ps, Only(Preds(g, q)))
    && PointOf(ps, Only(Succs(g, p))) == PointOf(ps, Only(Succs(g, q)))
  }

  ghost predicate IsBranch(g: ControlGraph, ps: seq<Point>, p: Point, noBefore: bool, noAfter: bool) {
    Solid(p) && BranchEnd(ps, Preds(g, p), noBefore) && BranchEnd(ps, Succs(g, p), noAfter)
  }

  /** p and some other point are branches of one fork. */
  ghost predicate Forkable(g: ControlGraph, ps: seq<Point>, p: Point, noBefore: bool, noAfter: bool) {
    && IsBranch(g, ps, p, noBefore, noAfter) && |Preds(g, p)| <= 1 && |Succs(g, p)| <= 1
    && HasSibling(g, ps, p, noBefore, noAfter)
  }

  ghost predicate HasSibling(g: ControlGraph, ps: seq<Point>, p: Point, noBefore: bool, noAfter: bool)
    requires Solid(p)
  {
    exists q {:trigger Beside(g, ps, p, q, noBefore, noAfter)} ::
      q in ps && q != p && Solid(q) && Beside(g, ps, p, q, noBefore, noAfter)
  }

  /** p passes for a branch but has several links at one end, which the search for a fork does not accept. */
  ghost predicate Blocking(g: ControlGraph, ps: seq<Point>, p: Point, noBefore: bool, noAfter: bool) {
    IsBranch(g, ps, p, noBefore, noAfter) && (|Preds(g, p)| > 1 || |Succs(g, p)| > 1)
  }

  ghost predicate NoChain(g: ControlGraph, ps: seq<Point>) {
    forall p {:trigger Linkable(g, ps, p)} :: p in ps ==> !Linkable(g, ps, p)
  }

  ghost predicate NoFork(g: ControlGraph, ps: seq<Point>, noBefore: bool, noAfter: bool) {
    forall p {:trigger Forkable(g, ps, p, noBefore, noAfter)} {:trigger Blocking(g, ps, p, noBefore, noAfter)} ::
      p in ps ==> !Forkable(g, ps, p, noBefore, noAfter) && !Blocking(g, ps, p, noBefore, noAfter)
  }

  ghost predicate SomeBlocking(g: ControlGraph, ps: seq<Point>, noBefore: bool, noAfter: bool) {
    exists p {:trigger Blocking(g, ps, p, noBefore, noAfter)} :: p in ps && Blocking(g, ps, p, noBefore, noAfter)
  }

  /** No contraction applies: there is no chain, and either no fork or a point that blocks the search for one. */
  ghost predicate Stuck(g: ControlGraph, ps: seq<Point>, error: PointError) {
    && |ps| > 1 && NoChain(g, ps)
    && (error == NotImplemented ==> forall noBefore, noAfter :: NoFork(g, ps, noBefore, noAfter))
    && (error != NotImplemented ==> exists noBefore, noAfter :: SomeBlocking(g, ps, noBefore, noAfter))
  }

  // ----- sub-lists of the bag

  ghost predicate SubList(l: seq<Point>, ps: seq<Point>) {
    Distinct(l) && forall p {:trigger p in l} :: p in l ==> p in ps
  }

  lemma {:induction false} SubListIsShorter(l: seq<Point>, ps: seq<Point>)
    requires SubList(l, ps) && Distinct(ps)
    ensures |l| <= |ps|
  {
    DistinctLength(l);
    DistinctLength(ps);
    SubsetSize(AsSet(l), AsSet(ps));
  }

  lemma {:induction false} SubListIsSolid(e: Links, l: seq<Point>, ps: seq<Point>)
    requires SubList(l, ps) && AllFaithful(e, ps)
    ensures SolidOf(l) && AllFaithful(e, l)
    decreases |l|
  {
    if l != [] {
      var m := |l| - 1;
      FrontIsInside(l);
      SubListIsSolid(e, l[..m], ps);
      assert Faithful(e, l[m]);
    }
  }

  lemma {:induction false} SubListIsDisjoint(l: seq<Point>, ps: seq<Point>)
    requires SubList(l, ps) && PairwiseDisjoint(ps)
    ensures AllDisjoint(l)
    decreases |l|
  {
    if l != [] {
      var m := |l| - 1;
      var front := l[..m];
      FrontIsInside(l);
      SubListIsDisjoint(front, ps);
      forall n | n in LeavesOf(front) ensures n !in Leaves(l[m]) {
        LeafHasPoint(front, n);
        var p :| p in front && n in Leaves(p);
        assert p in l && p != l[m];
        assert Disjoint(p, l[m]);
      }
    }
  }

  lemma {:induction false} InChainPrepend(e: Links, c: Point, l: seq<Point>)
    requires l != [] && SolidOf([c] + l) && SolidOf(l) && Solid(c) && InChain(e, l)
    requires (SolidAt(l, 0); Joined(e, RegionOf(c), RegionOf(l[0])))
    ensures InChain(e, [c] + l)
  {
    forall i: nat | i < |l| ensures JoinedAt(e, [c] + l, i) {
      if i > 0 { assert JoinedAt(e, l, i - 1); }
    }
  }

  lemma {:induction false} InChainAppend(e: Links, l: seq<Point>, c: Point)
    requires l != [] && SolidOf(l + [c]) && SolidOf(l) && Solid(c) && InChain(e, l)
    requires (SolidAt(l, |l| - 1); Joined(e, RegionOf(l[|l| - 1]), RegionOf(c)))
    ensures InChain(e, l + [c])
  {
    forall i: nat | i < |l| ensures JoinedAt(e, l + [c], i) {
      if i + 1 < |l| { assert JoinedAt(e, l, i); }
    }
  }

  /** A chain being made: distinct points of the bag, each leading to the next. */
  ghost predicate ChainOk(g: ControlGraph, ps: seq<Point>, l: seq<Point>) {
    l != [] && SubList(l, ps) && SolidOf(l) && InChain(g.Links(), l)
  }

  lemma {:induction false} ChainIsModuleOf(g: ControlGraph, ps: seq<Point>, l: seq<Point>)
    requires BagOk(g, ps) && ChainOk(g, ps, l)
    ensures Faithful(g.Links(), Linked(l))
  {
    SubListIsSolid(g.Links(), l, ps);
    SubListIsDisjoint(l, ps);
    ChainIsFaithful(g.Links(), l);
  }

  /** A point with a link to the first node of the chain, or from its last one, is not in the chain. */
  lemma {:induction false} NotInChain(g: ControlGraph, ps: seq<Point>, l: seq<Point>, c: Point, x: Node)
    requires BagOk(g, ps) && ChainOk(g, ps, l) && x in Leaves(c) && Solid(l[0]) && Solid(l[|l| - 1])
    requires (x, FirstNode(l[0])) in g.Links() || (LastNode(l[|l| - 1]), x) in g.Links()
    ensures c !in l
  {
    ChainIsModuleOf(g, ps, l);
    ChainLast(l);
    RegionHasLeaves(Linked(l));
    EndsOfPoint(l[0]);
    EndsOfPoint(l[|l| - 1]);
    assert EndsAreEnds(g.Links(), ChainOf(l));
    if c in l { PointHasLeaf(l, c, x); }
  }

  lemma {:induction false} ExtendBackward(g: ControlGraph, ps: seq<Point>, l: seq<Point>, c: Point)
    requires BagOk(g, ps) && ChainOk(g, ps, l) && c in ps && Solid(l[0]) && Solid(c)
    requires CommonSon(ps, Preds(g, l[0])) == Some(c) && SimplyLinked(ps, Succs(g, c))
    ensures ChainOk(g, ps, [c] + l)
  {
    assert l[0] in l && l[|l| - 1] in l;
    SolidAt(l, |l| - 1);
    JoinedBackward(g, ps, c, l[0]);
    MemberHasLinks(g, ps, l[0]);
    NotInChain(g, ps, l, c, Preds(g, l[0])[0]);
    SubListIsSolid(g.Links(), [c] + l, ps);
    InChainPrepend(g.Links(), c, l);
  }

  lemma {:induction false} ExtendForward(g: ControlGraph, ps: seq<Point>, l: seq<Point>, c: Point)
    requires BagOk(g, ps) && ChainOk(g, ps, l) && c in ps && Solid(l[|l| - 1]) && Solid(c)
    requires CommonSon(ps, Succs(g, l[|l| - 1])) == Some(c) && SimplyLinked(ps, Preds(g, c))
    ensures ChainOk(g, ps, l + [c])
  {
    var last := l[|l| - 1];
    assert last in l;
    SolidAt(l, 0);
    JoinedForward(g, ps, last, c);
    MemberHasLinks(g, ps, last);
    NotInChain(g, ps, l, c, Succs(g, last)[0]);
    SubListIsSolid(g.Links(), l + [c], ps);
    InChainAppend(g.Links(), l, c);
  }

  // ----- points between the same two

  function PointOf(ps: seq<Point>, o: Option<Node>): Option<Point> {
    if o.None? then None else PointWith(ps, o.value)
  }

  lemma {:induction false} SameNodeBefore(g: ControlGraph, ps: seq<Point>, p: Point, q: Point)
    requires BagOk(g, ps) && p in ps && q in ps && Solid(p) && Solid(q)
    requires |Preds(g, p)| <= 1 && |Preds(g, q)| <= 1
    requires PointOf(ps, Only(Preds(g, p))) == PointOf(ps, Only(Preds(g, q)))
    ensures Only(Preds(g, p)) == Only(Preds(g, q)) && LedToBy(g.Links(), RegionOf(q), Only(Preds(g, q)))
  {
    var e, x, y := g.Links(), Only(Preds(g, p)), Only(Preds(g, q));
    MemberHasLinks(g, ps, p);
    MemberHasLinks(g, ps, q);
    assert Faithful(e, p) && Faithful(e, q);
    OnlyLinkBefore(e, p, Preds(g, p));
    OnlyLinkBefore(e, q, Preds(g, q));
    if x.Some? { PointIsFound(ps, x.value); }
    if y.Some? { PointIsFound(ps, y.value); }
    if x.Some? && y.Some? {
      var m := PointWith(ps, x.value).value;
      assert Faithful(e, m);
      LinkOut(e, m, p, x.value);
      LinkOut(e, m, q, y.value);
      MemberRegionsApart(g, ps, m, p);
      MemberRegionsApart(g, ps, m, q);
      RegionHasLeaves(m);
      OneWayOut(e, RegionOf(m), RegionOf(p), RegionOf(q), x.value, y.value);
    }
  }

  lemma {:induction false} SameNodeAfter(g: ControlGraph, ps: seq<Point>, p: Point, q: Point)
    requires BagOk(g, ps) && p in ps && q in ps && Solid(p) && Solid(q)
    requires |Succs(g, p)| <= 1 && |Succs(g, q)| <= 1
    requires PointOf(ps, Only(Succs(g, p))) == PointOf(ps, Only(Succs(g, q)))
    ensures Only(Succs(g, p)) == Only(Succs(g, q)) && LeadsTo(g.Links(), RegionOf(q), Only(Succs(g, q)))
  {
    var e, x, y := g.Links(), Only(Succs(g, p)), Only(Succs(g, q));
    MemberHasLinks(g, ps, p);
    MemberHasLinks(g, ps, q);
    assert Faithful(e, p) && Faithful(e, q);
    OnlyLinkAfter(e, p, Succs(g, p));
    OnlyLinkAfter(e, q, Succs(g, q));
    if x.Some? { PointIsFound(ps, x.value); }
    if y.Some? { PointIsFound(ps, y.value); }
    if x.Some? && y.Some? {
      var m := PointWith(ps, x.value).value;
      assert Faithful(e, m);
      LinkIn(e, p, m, x.value);
      LinkIn(e, q, m, y.value);
      MemberRegionsApart(g, ps, m, p);
      MemberRegionsApart(g, ps, m, q);
      RegionHasLeaves(m);
      OneWayIn(e, RegionOf(m), RegionOf(p), RegionOf(q), x.value, y.value);
    }
  }

  lemma {:induction false} MemberRegionsApart(g: ControlGraph, ps: seq<Point>, p: Point, q: Point)
    requires BagOk(g, ps) && p in ps && q in ps && p != q
    ensures Solid(p) && Solid(q) && RegionOf(p).nodes !! RegionOf(q).nodes
  {
    assert Faithful(g.Links(), p) && Faithful(g.Links(), q) && Disjoint(p, q);
    RegionHasLeaves(p);
    RegionHasLeaves(q);
  }

  /** Points of the bag between the same two nodes. */
  ghost predicate Between(g: ControlGraph, ps: seq<Point>, l: seq<Point>, before: Option<Node>, after: Option<Node>) {
    SubList(l, ps) && forall p {:trigger p in l} :: p in l ==>
      Solid(p) && LedToBy(g.Links(), RegionOf(p), before) && LeadsTo(g.Links(), RegionOf(p), after)
  }

  lemma {:induction false} BetweenOneMore(g: ControlGraph, ps: seq<Point>, l: seq<Point>, q: Point,
      before: Option<Node>, after: Option<Node>)
    requires Between(g, ps, l, before, after) && q in ps && q !in l && Solid(q)
    requires LedToBy(g.Links(), RegionOf(q), before) && LeadsTo(g.Links(), RegionOf(q), after)
    ensures Between(g, ps, l + [q], before, after)
  {
  }

  lemma {:induction false} BetweenAreTwins(g: ControlGraph, ps: seq<Point>, l: seq<Point>, before: Option<Node>,
      after: Option<Node>)
    requires BagOk(g, ps) && Between(g, ps, l, before, after)
    ensures SolidOf(l) && AllTwins(g.Links(), l)
    decreases |l|
  {
    SubListIsSolid(g.Links(), l, ps);
    if l != [] {
      var m := |l| - 1;
      FrontIsInside(l);
      BetweenAreTwins(g, ps, l[..m], before, after);
      TwinWithEach(g, ps, l[..m], l[m], before, after);
    }
  }

  lemma {:induction false} TwinWithEach(g: ControlGraph, ps: seq<Point>, l: seq<Point>, q: Point, before: Option<Node>,
      after: Option<Node>)
    requires BagOk(g, ps) && Between(g, ps, l, before, after) && SolidOf(l) && q in ps && q !in l && Solid(q)
    requires LedToBy(g.Links(), RegionOf(q), before) && LeadsTo(g.Links(), RegionOf(q), after)
    ensures TwinOfAll(g.Links(), l, q)
    decreases |l|
  {
    if l != [] {
      var m := |l| - 1;
      FrontIsInside(l);
      TwinWithEach(g, ps, l[..m], q, before, after);
      MemberRegionsApart(g, ps, l[m], q);
      assert Faithful(g.Links(), l[m]) && Faithful(g.Links(), q);
      SameLinksAreTwins(g.Links(), RegionOf(l[m]), RegionOf(q), before, after);
    }
  }

  lemma {:induction false} BetweenIsForkOf(g: ControlGraph, ps: seq<Point>, l: seq<Point>, before: Option<Node>,
      after: Option<Node>)
    requires BagOk(g, ps) && Between(g, ps, l, before, after) && l != []
    ensures Faithful(g.Links(), Fork(l))
  {
    SubListIsSolid(g.Links(), l, ps);
    SubListIsDisjoint(l, ps);
    BetweenAreTwins(g, ps, l, before, after);
    ForkIsFaithful(g.Links(), l);
  }

  function Elementaries(ns: seq<Node>): (ps: seq<Point>)
    ensures |ps| == |ns| && forall i {:trigger ps[i]} :: 0 <= i < |ns| ==> ps[i] == Elementary(ns[i])
  {
    seq(|ns|, i requires 0 <= i < |ns| => Elementary(ns[i]))
  }

  lemma {:induction false} LeavesOfElementaries(ns: seq<Node>)
    ensures LeavesOf(Elementaries(ns)) == ns
    decreases |ns|
  {
    if ns != [] {
      var m := |ns| - 1;
      LeavesOfElementaries(ns[..m]);
      assert Elementaries(ns)[..m] == Elementaries(ns[..m]);
      assert ns == ns[..m] + [ns[m]];
    }
  }

  lemma {:induction false} ElementariesAreOk(g: ControlGraph, ns: seq<Node>)
    requires g.Valid() && Distinct(ns) && SelfContained(g, ns)
    ensures BagOk(g, Elementaries(ns)) && LeavesOf(Elementaries(ns)) == ns
  {
    LeavesOfElementaries(ns);
    var ps := Elementaries(ns);
    forall p | p in ps ensures Faithful(g.Links(), p) {
      NodeIsFaithful(g.Links(), p.node);
    }
  }
}
