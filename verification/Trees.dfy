/** The trees that the contraction steps can make. */
module Trees {
  import opened Contraction
  import opened Gates
  import opened Graph
  import opened Lists
  import opened PointRegions
  import opened Points
  import opened Wrappers

  /** A point whose first nodes are led to by this node only and whose last nodes lead to that one only, or to none. */
  ghost predicate BranchOf(e: Links, p: Point, before: Option<Node>, after: Option<Node>) {
    Solid(p) && LedToBy(e, RegionOf(p), before) && LeadsTo(e, RegionOf(p), after)
  }

  ghost predicate EndsAre(e: Links, l: seq<Point>, before: Option<Node>, after: Option<Node>) {
    forall k {:trigger l[k]} :: 0 <= k < |l| ==> BranchOf(e, l[k], before, after)
  }

  ghost predicate SameEnds(e: Links, l: seq<Point>) {
    exists before, after :: EndsAre(e, l, before, after)
  }

  /** A tree of chains, each point of which leads to the next one only, and of forks, all branches of which
      have one link at most at each end, from the same node and to the same node. */
  ghost predicate Built(e: Links, p: Point)
    decreases p
  {
    match p
    case Elementary(n) => true
    case Linked(l) => IsBlock(l) && InChain(e, l) && forall k {:trigger l[k]} :: 0 <= k < |l| ==> Built(e, l[k])
    case Fork(l) => IsBlock(l) && SameEnds(e, l) && forall k {:trigger l[k]} :: 0 <= k < |l| ==> Built(e, l[k])
  }

  ghost predicate IsBlock(l: seq<Point>) {
    l != [] && SolidOf(l) && AllDisjoint(l)
  }

  ghost predicate AllBuilt(e: Links, ps: seq<Point>) {
    forall p {:trigger Built(e, p)} :: p in ps ==> Built(e, p)
  }

  // ----- a built tree tells the order of its nodes

  lemma {:induction false} EndsAreTwins(e: Links, l: seq<Point>, before: Option<Node>, after: Option<Node>)
    requires SolidOf(l) && AllDisjoint(l) && AllFaithful(e, l) && EndsAre(e, l, before, after)
    ensures AllTwins(e, l)
    decreases |l|
  {
    if l != [] {
      var m := |l| - 1;
      FrontIsInside(l);
      EndsAreTwins(e, l[..m], before, after);
      TwinWithAll(e, l[..m], l[m], before, after);
    }
  }

  lemma {:induction false} TwinWithAll(e: Links, l: seq<Point>, q: Point, before: Option<Node>, after: Option<Node>)
    requires SolidOf(l) && AllFaithful(e, l) && EndsAre(e, l, before, after) && DisjointFrom(l, q)
    requires Faithful(e, q) && BranchOf(e, q, before, after)
    ensures TwinOfAll(e, l, q)
    decreases |l|
  {
    if l != [] {
      var m := |l| - 1;
      FrontIsInside(l);
      forall n | n in LeavesOf(l[..m]) ensures n in LeavesOf(l) {}
      TwinWithAll(e, l[..m], q, before, after);
      assert Faithful(e, l[m]);
      RegionHasLeaves(l[m]);
      RegionHasLeaves(q);
      forall n: Node | n in Leaves(l[m]) ensures n !in Leaves(q) { PointHasLeaf(l, l[m], n); }
      SameLinksAreTwins(e, RegionOf(l[m]), RegionOf(q), before, after);
    }
  }

  lemma {:induction false} BuiltIsFaithful(e: Links, p: Point)
    requires Acyclic(e) && Built(e, p)
    ensures Faithful(e, p)
    decreases p
  {
    match p
    case Elementary(n) => NodeIsFaithful(e, n);
    case Linked(l) =>
      forall q | q in l ensures Faithful(e, q) { BuiltIsFaithful(e, q); }
      ChainIsFaithful(e, l);
    case Fork(l) =>
      forall q | q in l ensures Faithful(e, q) { BuiltIsFaithful(e, q); }
      var before, after :| EndsAre(e, l, before, after);
      EndsAreTwins(e, l, before, after);
      ForkIsFaithful(e, l);
  }

  // ----- what the steps make is built

  lemma {:induction false} NodesAreBuilt(e: Links, ns: seq<Node>)
    ensures AllBuilt(e, Elementaries(ns))
  {
  }

  lemma {:induction false} ChainIsBuilt(g: ControlGraph, ps: seq<Point>, l: seq<Point>)
    requires BagOk(g, ps) && AllBuilt(g.Links(), ps) && ChainOk(g, ps, l)
    ensures Built(g.Links(), Linked(l))
  {
    SubListIsDisjoint(l, ps);
    forall k | 0 <= k < |l| ensures Built(g.Links(), l[k]) { assert l[k] in l; }
  }

  lemma {:induction false} ForkIsBuilt(g: ControlGraph, ps: seq<Point>, l: seq<Point>, before: Option<Node>,
      after: Option<Node>)
    requires BagOk(g, ps) && AllBuilt(g.Links(), ps) && Between(g, ps, l, before, after) && l != []
    ensures Built(g.Links(), Fork(l))
  {
    SubListIsSolid(g.Links(), l, ps);
    SubListIsDisjoint(l, ps);
    forall k | 0 <= k < |l| ensures Built(g.Links(), l[k]) && BranchOf(g.Links(), l[k], before, after) {
      assert l[k] in l;
    }
    assert EndsAre(g.Links(), l, before, after);
  }
}
