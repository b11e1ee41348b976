/** Points as regions of the control graph: when a chain or a fork of points is again one. */
module PointRegions {
  import opened Graph
  import opened Points
  import opened Regions
  import opened Wrappers

  /** No block of the tree is empty. */
  predicate Solid(p: Point)
    decreases p
  {
    match p
    case Elementary(n) => true
    case Linked(ps) => ps != [] && SolidOf(ps)
    case Fork(ps) => ps != [] && SolidOf(ps)
  }

  predicate SolidOf(ps: seq<Point>)
    decreases ps
  {
    ps == [] || (SolidOf(ps[..|ps| - 1]) && Solid(ps[|ps| - 1]))
  }

  lemma {:induction false} SolidAt(ps: seq<Point>, i: nat)
    requires SolidOf(ps) && i < |ps|
    ensures Solid(ps[i])
    decreases |ps|
  {
    if i < |ps| - 1 { SolidAt(ps[..|ps| - 1], i); }
  }

  /** Seen from the outside only the first branch of a fork exists. */
  function FirstNode(p: Point): Node
    requires Solid(p)
    decreases p
  {
    match p
    case Elementary(n) => n
    case Linked(ps) => SolidAt(ps, 0); FirstNode(ps[0])
    case Fork(ps) => SolidAt(ps, 0); FirstNode(ps[0])
  }

  function LastNode(p: Point): Node
    requires Solid(p)
    decreases p
  {
    match p
    case Elementary(n) => n
    case Linked(ps) => SolidAt(ps, |ps| - 1); LastNode(ps[|ps| - 1])
    case Fork(ps) => SolidAt(ps, 0); LastNode(ps[0])
  }

  ghost function RegionOf(p: Point): Region
    requires Solid(p)
    decreases p
  {
    match p
    case Elementary(n) => Region({n}, {n}, {n})
    case Linked(ps) => ChainOf(ps)
    case Fork(ps) => UnionOf(ps)
  }

  ghost function ChainOf(ps: seq<Point>): Region
    requires ps != [] && SolidOf(ps)
    decreases ps
  {
    var m := |ps| - 1;
    if m == 0 then RegionOf(ps[0]) else Chain(ChainOf(ps[..m]), RegionOf(ps[m]))
  }

  ghost function UnionOf(ps: seq<Point>): Region
    requires ps != [] && SolidOf(ps)
    decreases ps
  {
    var m := |ps| - 1;
    if m == 0 then RegionOf(ps[0]) else Union(UnionOf(ps[..m]), RegionOf(ps[m]))
  }

  lemma {:induction false} RegionHasLeaves(p: Point)
    requires Solid(p)
    ensures forall n :: n in RegionOf(p).nodes <==> n in Leaves(p)
    decreases p, 0
  {
    match p
    case Elementary(n) =>
    case Linked(ps) => BlockHasLeaves(ps);
    case Fork(ps) => BlockHasLeaves(ps);
  }

  lemma {:induction false} BlockHasLeaves(ps: seq<Point>)
    requires ps != [] && SolidOf(ps)
    ensures forall n :: n in ChainOf(ps).nodes <==> n in LeavesOf(ps)
    ensures forall n :: n in UnionOf(ps).nodes <==> n in LeavesOf(ps)
    decreases ps, 1
  {
    var m := |ps| - 1;
    RegionHasLeaves(ps[m]);
    if m > 0 {
      BlockHasLeaves(ps[..m]);
    } else {
      assert ps[..0] == [];
    }
  }

  /** The first and last nodes of a point are among those that start and end its region. */
  lemma {:induction false} EndsOfPoint(p: Point)
    requires Solid(p)
    ensures FirstNode(p) in RegionOf(p).first && LastNode(p) in RegionOf(p).last
    decreases p, 0
  {
    match p
    case Elementary(n) =>
    case Linked(ps) => EndsOfBlock(ps);
    case Fork(ps) => EndsOfBlock(ps);
  }

  lemma {:induction false} EndsOfBlock(ps: seq<Point>)
    requires ps != [] && SolidOf(ps)
    ensures Solid(ps[0]) && FirstNode(ps[0]) in ChainOf(ps).first && LastNode(ps[|ps| - 1]) in ChainOf(ps).last
    ensures FirstNode(ps[0]) in UnionOf(ps).first && LastNode(ps[0]) in UnionOf(ps).last
    decreases ps, 1
  {
    var m := |ps| - 1;
    SolidAt(ps, 0);
    EndsOfPoint(ps[m]);
    if m > 0 { EndsOfBlock(ps[..m]); }
  }

  /** In the tree a comes before b exactly when b is reached from a. */
  ghost predicate OrderIsReach(e: Links, p: Point) {
    forall a: Node, b: Node {:trigger Before(p, a, b)} :: a in Leaves(p) && b in Leaves(p) ==>
      (Before(p, a, b) <==> Reach(e, a, b))
  }

  /** The point is a module of the graph, and its tree tells the order of its nodes. */
  ghost predicate Faithful(e: Links, p: Point) {
    Solid(p) && IsModule(e, RegionOf(p)) && OrderIsReach(e, p)
  }

  lemma {:induction false} NodeIsFaithful(e: Links, n: Node)
    requires Acyclic(e)
    ensures Faithful(e, Elementary(n))
  {
    OneNode(e, n);
  }

  ghost predicate AllFaithful(e: Links, ps: seq<Point>) {
    forall p {:trigger Faithful(e, p)} :: p in ps ==> Faithful(e, p)
  }

  ghost predicate Disjoint(p: Point, q: Point) {
    forall n: Node {:trigger n in Leaves(p)} :: n in Leaves(p) ==> n !in Leaves(q)
  }

  // ----- chains

  ghost predicate JoinedAt(e: Links, ps: seq<Point>, i: nat)
    requires SolidOf(ps) && i + 1 < |ps|
  {
    SolidAt(ps, i);
    SolidAt(ps, i + 1);
    Joined(e, RegionOf(ps[i]), RegionOf(ps[i + 1]))
  }

  /** Each point leads to the next one as a region. */
  ghost predicate InChain(e: Links, ps: seq<Point>)
    requires SolidOf(ps)
  {
    forall i: nat {:trigger JoinedAt(e, ps, i)} :: i + 1 < |ps| ==> JoinedAt(e, ps, i)
  }

  ghost predicate DisjointFrom(ps: seq<Point>, q: Point) {
    forall n: Node {:trigger n in LeavesOf(ps)} :: n in LeavesOf(ps) ==> n !in Leaves(q)
  }

  ghost predicate AllDisjoint(ps: seq<Point>)
    decreases |ps|
  {
    ps == [] || (AllDisjoint(ps[..|ps| - 1]) && DisjointFrom(ps[..|ps| - 1], ps[|ps| - 1]))
  }

  lemma {:induction false} ChainLast(ps: seq<Point>)
    requires ps != [] && SolidOf(ps)
    ensures ChainOf(ps).last == RegionOf(ps[|ps| - 1]).last && RegionOf(ps[|ps| - 1]).nodes <= ChainOf(ps).nodes
    ensures Solid(ps[0]) && ChainOf(ps).first == RegionOf(ps[0]).first
    decreases |ps|
  {
    SolidAt(ps, 0);
    if |ps| > 1 { ChainLast(ps[..|ps| - 1]); }
  }

  lemma {:induction false} JoinedAtEnd(e: Links, r: Region, l: Region, q: Region)
    requires IsModule(e, r) && Joined(e, l, q) && l.last == r.last && l.nodes <= r.nodes
    requires EndsAreEnds(e, l) && r.last <= l.nodes && r.nodes !! q.nodes
    ensures Joined(e, r, q)
  {
    forall a, y | (a, y) in e && a in r.nodes && y !in r.nodes ensures y in q.nodes {
      assert a in r.last;
    }
  }

  lemma {:induction false} DisjointRegions(ps: seq<Point>, q: Point)
    requires ps != [] && SolidOf(ps) && Solid(q) && DisjointFrom(ps, q)
    ensures ChainOf(ps).nodes !! RegionOf(q).nodes && UnionOf(ps).nodes !! RegionOf(q).nodes
  {
    BlockHasLeaves(ps);
    RegionHasLeaves(q);
  }

  /** A chain of faithful points is a faithful point. */
  lemma {:induction false} ChainIsFaithful(e: Links, ps: seq<Point>)
    requires Acyclic(e) && ps != [] && SolidOf(ps) && AllFaithful(e, ps) && InChain(e, ps) && AllDisjoint(ps)
    ensures Faithful(e, Linked(ps))
    decreases |ps|
  {
    var m := |ps| - 1;
    var front, q := ps[..m], ps[m];
    assert Faithful(e, q);
    if m == 0 {
      assert front == [];
      OneLink(e, ps);
    } else {
      assert forall p :: p in front ==> p in ps;
      forall i: nat | i + 1 < |front| ensures JoinedAt(e, front, i) { assert JoinedAt(e, ps, i); }
      ChainIsFaithful(e, front);
      ChainLast(front);
      assert JoinedAt(e, ps, m - 1);
      assert ps[m - 1] in ps && Faithful(e, ps[m - 1]);
      DisjointRegions(front, q);
      JoinedAtEnd(e, ChainOf(front), RegionOf(ps[m - 1]), RegionOf(q));
      ChainIsModule(e, ChainOf(front), RegionOf(q));
      ChainOrder(e, ps);
    }
  }

  lemma {:induction false} OneLink(e: Links, ps: seq<Point>)
    requires |ps| == 1 && Faithful(e, ps[0])
    ensures SolidOf(ps) ==> OrderIsReach(e, Linked(ps)) && OrderIsReach(e, Fork(ps))
  {
    var p := ps[0];
    assert ps[..0] == [] && LeavesOf(ps) == Leaves(p);
    forall a: Node, b: Node
      ensures Before(Linked(ps), a, b) <==> Before(p, a, b)
      ensures Before(Fork(ps), a, b) <==> Before(p, a, b)
    {
      assert !BeforeInside(ps[..0], a, b) && !BeforeAcross(ps[..0], a, b) && LeavesOf(ps[..0]) == [];
      assert ps[..|ps| - 1] == ps[..0];
    }
  }

  lemma {:induction false} ChainOrder(e: Links, ps: seq<Point>)
    requires Acyclic(e) && |ps| >= 2 && SolidOf(ps)
    requires Faithful(e, Linked(ps[..|ps| - 1])) && Faithful(e, ps[|ps| - 1])
    requires DisjointFrom(ps[..|ps| - 1], ps[|ps| - 1])
    requires Joined(e, ChainOf(ps[..|ps| - 1]), RegionOf(ps[|ps| - 1]))
    ensures OrderIsReach(e, Linked(ps))
  {
    var front, q := ps[..|ps| - 1], ps[|ps| - 1];
    RegionHasLeaves(Linked(front));
    RegionHasLeaves(q);
    forall a: Node, b: Node | a in LeavesOf(ps) && b in LeavesOf(ps)
      ensures Before(Linked(ps), a, b) <==> Reach(e, a, b)
    {
      if Before(q, a, b) { BeforeIsInside(q, a, b); }
      if Before(Linked(front), a, b) { BeforeIsInside(Linked(front), a, b); }
      if a in LeavesOf(front) && b in Leaves(q) {
        AllReachAll(e, ChainOf(front), RegionOf(q), a, b);
      } else if a in Leaves(q) && b in LeavesOf(front) {
        NoneBack(e, ChainOf(front), RegionOf(q), b, a);
      } else if b in Leaves(q) {
        assert Before(q, a, b) <==> Reach(e, a, b);
      } else {
        assert Before(Linked(front), a, b) <==> Reach(e, a, b);
      }
    }
  }

  // ----- forks

  ghost predicate TwinOfAll(e: Links, ps: seq<Point>, q: Point)
    requires SolidOf(ps) && Solid(q)
    decreases |ps|
  {
    ps == [] || (TwinOfAll(e, ps[..|ps| - 1], q) && Twins(e, RegionOf(ps[|ps| - 1]), RegionOf(q)))
  }

  ghost predicate AllTwins(e: Links, ps: seq<Point>)
    requires SolidOf(ps)
    decreases |ps|
  {
    ps == [] || (AllTwins(e, ps[..|ps| - 1]) && TwinOfAll(e, ps[..|ps| - 1], ps[|ps| - 1]))
  }

  lemma {:induction false} TwinOfFork(e: Links, ps: seq<Point>, q: Point)
    requires ps != [] && SolidOf(ps) && Solid(q) && TwinOfAll(e, ps, q)
    ensures Twins(e, UnionOf(ps), RegionOf(q))
    decreases |ps|
  {
    if |ps| > 1 {
      TwinOfFork(e, ps[..|ps| - 1], q);
      TwinOfUnion(e, UnionOf(ps[..|ps| - 1]), RegionOf(ps[|ps| - 1]), RegionOf(q));
    }
  }

  /** A fork of faithful twins is a faithful point. */
  lemma {:induction false} ForkIsFaithful(e: Links, ps: seq<Point>)
    requires Acyclic(e) && ps != [] && SolidOf(ps) && AllFaithful(e, ps) && AllTwins(e, ps) && AllDisjoint(ps)
    ensures Faithful(e, Fork(ps))
    decreases |ps|
  {
    var m := |ps| - 1;
    var front, q := ps[..m], ps[m];
    assert Faithful(e, q);
    if m == 0 {
      assert front == [];
      OneLink(e, ps);
    } else {
      assert forall p :: p in front ==> p in ps;
      ForkIsFaithful(e, front);
      TwinOfFork(e, front, q);
      DisjointRegions(front, q);
      UnionIsModule(e, UnionOf(front), RegionOf(q));
      ForkOrder(e, ps);
    }
  }

  lemma {:induction false} ForkOrder(e: Links, ps: seq<Point>)
    requires Acyclic(e) && |ps| >= 2 && SolidOf(ps)
    requires Faithful(e, Fork(ps[..|ps| - 1])) && Faithful(e, ps[|ps| - 1])
    requires DisjointFrom(ps[..|ps| - 1], ps[|ps| - 1])
    requires Twins(e, UnionOf(ps[..|ps| - 1]), RegionOf(ps[|ps| - 1]))
    ensures OrderIsReach(e, Fork(ps))
  {
    var front, q := ps[..|ps| - 1], ps[|ps| - 1];
    RegionHasLeaves(Fork(front));
    RegionHasLeaves(q);
    TwinsTurned(e, UnionOf(front), RegionOf(q));
    forall a: Node, b: Node | a in LeavesOf(ps) && b in LeavesOf(ps)
      ensures Before(Fork(ps), a, b) <==> Reach(e, a, b)
    {
      if Before(q, a, b) { BeforeIsInside(q, a, b); }
      if Before(Fork(front), a, b) { BeforeIsInside(Fork(front), a, b); }
      if a in LeavesOf(front) && b in Leaves(q) {
        NoneAcross(e, UnionOf(front), RegionOf(q), a, b);
      } else if a in Leaves(q) && b in LeavesOf(front) {
        NoneAcross(e, RegionOf(q), UnionOf(front), a, b);
      } else if b in Leaves(q) {
        assert Before(q, a, b) <==> Reach(e, a, b);
      } else {
        assert Before(Fork(front), a, b) <==> Reach(e, a, b);
      }
    }
  }

  // ----- what the links of the end nodes tell

  ghost predicate SuccsAre(e: Links, n: Node, l: seq<Node>) {
    forall y {:trigger (n, y) in e} {:trigger y in l} :: (n, y) in e <==> y in l
  }

  ghost predicate PredsAre(e: Links, n: Node, l: seq<Node>) {
    forall x {:trigger (x, n) in e} {:trigger x in l} :: (x, n) in e <==> x in l
  }

  /** The nodes that start the region are led to by this node only, or by none. */
  ghost predicate LedToBy(e: Links, r: Region, o: Option<Node>) {
    forall x, a {:trigger (x, a) in e} :: a in r.first ==> ((x, a) in e <==> o == Some(x))
  }

  ghost predicate LeadsTo(e: Links, r: Region, o: Option<Node>) {
    forall a, y {:trigger (a, y) in e} :: a in r.last ==> ((a, y) in e <==> o == Some(y))
  }

  function Only(l: seq<Node>): Option<Node> {
    if l == [] then None else Some(l[0])
  }

  lemma {:induction false} OnlyLinkBefore(e: Links, p: Point, preds: seq<Node>)
    requires Faithful(e, p) && PredsAre(e, FirstNode(p), preds) && |preds| <= 1
    ensures LedToBy(e, RegionOf(p), Only(preds))
  {
    var r, f := RegionOf(p), FirstNode(p);
    EndsOfPoint(p);
    forall x, a | a in r.first ensures (x, a) in e <==> Only(preds) == Some(x) {
      assert f in r.nodes && a in r.nodes;
      assert (x, a) in e ==> (x, f) in e;
      assert (x, f) in e ==> (x, a) in e;
      assert (x, f) in e <==> x in preds;
    }
  }

  lemma {:induction false} OnlyLinkAfter(e: Links, p: Point, succs: seq<Node>)
    requires Faithful(e, p) && SuccsAre(e, LastNode(p), succs) && |succs| <= 1
    ensures LeadsTo(e, RegionOf(p), Only(succs))
  {
    var r, l := RegionOf(p), LastNode(p);
    EndsOfPoint(p);
    forall a, y | a in r.last ensures (a, y) in e <==> Only(succs) == Some(y) {
      assert l in r.nodes && a in r.nodes;
      assert (a, y) in e ==> (l, y) in e;
      assert (l, y) in e ==> (a, y) in e;
      assert (l, y) in e <==> y in succs;
    }
  }

  /** Points with the same node before and the same node after are twins. */
  lemma {:induction false} SameLinksAreTwins(e: Links, r: Region, q: Region, before: Option<Node>, after: Option<Node>)
    requires IsModule(e, r) && IsModule(e, q) && r.nodes !! q.nodes
    requires LedToBy(e, r, before) && LedToBy(e, q, before) && LeadsTo(e, r, after) && LeadsTo(e, q, after)
    ensures Twins(e, r, q)
  {
    var f :| f in r.first;
    var g :| g in q.first;
    assert before.Some? ==> (before.value, f) in e && (before.value, g) in e;
    assert before.Some? ==> before.value !in r.nodes && before.value !in q.nodes;
  }

  /** Two nodes of one module that lead each alone to some point outside are the same node. */
  lemma {:induction false} OneWayOut(e: Links, m: Region, r: Region, q: Region, x: Node, y: Node)
    requires IsModule(e, m) && IsModule(e, r) && IsModule(e, q)
    requires LedToBy(e, r, Some(x)) && LedToBy(e, q, Some(y)) && x in m.nodes && y in m.nodes
    requires m.nodes !! r.nodes && m.nodes !! q.nodes
    ensures x == y
  {
    var f :| f in r.first;
    var g :| g in q.first;
    assert (x, f) in e && (y, g) in e;
    assert x in m.last && y in m.last;
    assert (y, f) in e;
  }

  lemma {:induction false} OneWayIn(e: Links, m: Region, r: Region, q: Region, x: Node, y: Node)
    requires IsModule(e, m) && IsModule(e, r) && IsModule(e, q)
    requires LeadsTo(e, r, Some(x)) && LeadsTo(e, q, Some(y)) && x in m.nodes && y in m.nodes
    requires m.nodes !! r.nodes && m.nodes !! q.nodes
    ensures x == y
  {
    var f :| f in r.last;
    var g :| g in q.last;
    assert (f, x) in e && (g, y) in e;
    assert x in m.first && y in m.first;
    assert (f, y) in e;
  }

  /** All the nodes before p are in c, and all those after c are in p: c leads to p as one region to another. */
  lemma {:induction false} LinksMakeJoined(e: Links, c: Point, p: Point, preds: seq<Node>, succs: seq<Node>)
    requires Faithful(e, c) && Faithful(e, p) && Disjoint(c, p)
    requires PredsAre(e, FirstNode(p), preds) && SuccsAre(e, LastNode(c), succs) && (preds != [] || succs != [])
    requires forall x :: x in preds ==> x in Leaves(c)
    requires forall y :: y in succs ==> y in Leaves(p)
    ensures Joined(e, RegionOf(c), RegionOf(p))
  {
    var r, q, f, l := RegionOf(c), RegionOf(p), FirstNode(p), LastNode(c);
    RegionHasLeaves(c);
    RegionHasLeaves(p);
    EndsOfPoint(c);
    EndsOfPoint(p);
    assert exists a, b :: a in r.nodes && b in q.nodes && (a, b) in e by {
      if preds != [] {
        assert preds[0] in preds && (preds[0], f) in e;
      } else {
        assert succs[0] in succs && (l, succs[0]) in e;
      }
    }
    var a, b :| a in r.nodes && b in q.nodes && (a, b) in e;
    assert a in r.last && b in q.first;
    forall k, s | k in r.last && s in q.first ensures (k, s) in e {
      assert (k, b) in e;
    }
    forall x, y | (x, y) in e && x in r.nodes && y !in r.nodes ensures y in q.nodes {
      assert (l, y) in e;
    }
    forall x, y | (x, y) in e && y in q.nodes && x !in q.nodes ensures x in r.nodes {
      assert (x, f) in e;
    }
  }
}
