/** Why the search for a fork is never stopped: a point with several ends has one link at most at that side. */
module Narrow {
  import opened Contraction
  import opened Gates
  import opened Graph
  import opened Lists
  import opened PointRegions
  import opened Points

  /** Where the point has several nodes at one end, each of them has one link at most there. */
  ghost predicate NarrowEnds(g: ControlGraph, p: Point) {
    && Solid(p)
    && (|RegionOf(p).first| > 1 ==> |Preds(g, p)| <= 1)
    && (|RegionOf(p).last| > 1 ==> |Succs(g, p)| <= 1)
  }

  ghost predicate AllNarrow(g: ControlGraph, ps: seq<Point>) {
    forall p {:trigger NarrowEnds(g, p)} :: p in ps ==> NarrowEnds(g, p)
  }

  lemma {:induction false} NodesAreNarrow(g: ControlGraph, ns: seq<Node>)
    ensures AllNarrow(g, Elementaries(ns))
  {
  }

  /** A chain has the first nodes of its first point and the last nodes of its last one. */
  lemma {:induction false} ChainIsNarrow(g: ControlGraph, l: seq<Point>)
    requires l != [] && SolidOf(l) && AllNarrow(g, l)
    ensures NarrowEnds(g, Linked(l))
  {
    SolidAt(l, 0);
    SolidAt(l, |l| - 1);
    ChainLast(l);
    assert NarrowEnds(g, l[0]) && NarrowEnds(g, l[|l| - 1]);
  }

  /** A fork is made of points with one link at most at each end. */
  lemma {:induction false} ForkIsNarrow(g: ControlGraph, l: seq<Point>)
    requires l != [] && SolidOf(l) && (SolidAt(l, 0); |Preds(g, l[0])| <= 1 && |Succs(g, l[0])| <= 1)
    ensures NarrowEnds(g, Fork(l))
  {
  }

  /** Two nodes of c that lead to p are last nodes of c: c leads to p alone, by one link from each. */
  lemma {:induction false} ManyBefore(g: ControlGraph, ps: seq<Point>, p: Point)
    requires BagOk(g, ps) && AllNarrow(g, ps) && p in ps && Solid(p)
    requires |Preds(g, p)| > 1 && SimplyLinked(ps, Preds(g, p))
    ensures CanStepBack(g, ps, p)
  {
    var e, preds := g.Links(), Preds(g, p);
    var c := CommonSon(ps, preds).value;
    MemberHasLinks(g, ps, p);
    MemberHasLinks(g, ps, c);
    assert preds[0] in preds && preds[1] in preds;
    LinkOut(e, c, p, preds[0]);
    TwoEnds(g, ps, c, p, preds[0], preds[1]);
    assert NarrowEnds(g, c) && FirstNode(p) in Succs(g, c);
  }

  lemma {:induction false} TwoEnds(g: ControlGraph, ps: seq<Point>, c: Point, p: Point, x: Node, y: Node)
    requires BagOk(g, ps) && c in ps && p in ps && c != p && Solid(c) && Solid(p)
    requires x != y && x in Leaves(c) && y in Leaves(c)
    requires (x, FirstNode(p)) in g.Links() && (y, FirstNode(p)) in g.Links()
    ensures |RegionOf(c).last| > 1
  {
    var r := RegionOf(c);
    MemberRegionsApart(g, ps, c, p);
    EndsOfPoint(p);
    RegionHasLeaves(c);
    RegionHasLeaves(p);
    assert Faithful(g.Links(), c) && Faithful(g.Links(), p);
    assert x in r.last && y in r.last;
    SubsetSize({x, y}, r.last);
  }

  lemma {:induction false} ManyAfter(g: ControlGraph, ps: seq<Point>, p: Point)
    requires BagOk(g, ps) && AllNarrow(g, ps) && p in ps && Solid(p)
    requires |Succs(g, p)| > 1 && SimplyLinked(ps, Succs(g, p))
    ensures CanStepOn(g, ps, p)
  {
    var e, succs := g.Links(), Succs(g, p);
    var c := CommonSon(ps, succs).value;
    MemberHasLinks(g, ps, p);
    MemberHasLinks(g, ps, c);
    assert succs[0] in succs && succs[1] in succs;
    LinkIn(e, p, c, succs[0]);
    TwoStarts(g, ps, c, p, succs[0], succs[1]);
    assert NarrowEnds(g, c) && LastNode(p) in Preds(g, c);
  }

  lemma {:induction false} TwoStarts(g: ControlGraph, ps: seq<Point>, c: Point, p: Point, x: Node, y: Node)
    requires BagOk(g, ps) && c in ps && p in ps && c != p && Solid(c) && Solid(p)
    requires x != y && x in Leaves(c) && y in Leaves(c)
    requires (LastNode(p), x) in g.Links() && (LastNode(p), y) in g.Links()
    ensures |RegionOf(c).first| > 1
  {
    var r := RegionOf(c);
    MemberRegionsApart(g, ps, c, p);
    EndsOfPoint(p);
    RegionHasLeaves(c);
    RegionHasLeaves(p);
    assert Faithful(g.Links(), c) && Faithful(g.Links(), p);
    assert x in r.first && y in r.first;
    SubsetSize({x, y}, r.first);
  }

  /** A point that would stop the search for a fork is in a chain, which is contracted first. */
  lemma {:induction false} BlockingIsLinkable(g: ControlGraph, ps: seq<Point>, p: Point, noBefore: bool, noAfter: bool)
    requires BagOk(g, ps) && AllNarrow(g, ps) && p in ps && Blocking(g, ps, p, noBefore, noAfter)
    ensures Linkable(g, ps, p)
  {
    if |Preds(g, p)| > 1 { ManyBefore(g, ps, p); } else { ManyAfter(g, ps, p); }
  }

  /** Where there is no chain, nothing stops the search for a fork. */
  lemma {:induction false} NoneBlocking(g: ControlGraph, ps: seq<Point>)
    requires BagOk(g, ps) && AllNarrow(g, ps) && NoChain(g, ps)
    ensures forall noBefore, noAfter :: !SomeBlocking(g, ps, noBefore, noAfter)
  {
    forall noBefore, noAfter ensures !SomeBlocking(g, ps, noBefore, noAfter) {
      forall p | p in ps ensures !Blocking(g, ps, p, noBefore, noAfter) {
        if Blocking(g, ps, p, noBefore, noAfter) { BlockingIsLinkable(g, ps, p, noBefore, noAfter); }
      }
    }
  }

  /** The contraction never stops on a point with several links: it fails only where no step applies at all. */
  lemma {:induction false} StuckIsPlain(g: ControlGraph, ps: seq<Point>, error: PointError)
    requires BagOk(g, ps) && AllNarrow(g, ps) && Stuck(g, ps, error)
    ensures error == NotImplemented && forall noBefore, noAfter :: NoFork(g, ps, noBefore, noAfter)
  {
    NoneBlocking(g, ps);
  }
}
