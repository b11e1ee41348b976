/** A bloc that is made of links and forks, and that the contraction steps do not contract: two nodes
    that lead to two others, without a node between. */
module TwoForks {
  import opened Contractible
  import opened Contraction
  import opened Gates
  import opened Graph
  import opened Lists
  import opened PointRegions
  import opened Points
  import opened Regions

  /** Some end of the point has several links, and not to one and the same point. */
  ghost predicate Spread(g: ControlGraph, ps: seq<Point>, p: Point)
    requires Solid(p)
  {
    || (|Preds(g, p)| > 1 && !SimplyLinked(ps, Preds(g, p)))
    || (|Succs(g, p)| > 1 && !SimplyLinked(ps, Succs(g, p)))
  }

  /** When every point is spread, no step applies. */
  lemma {:induction false} SpreadIsStuck(g: ControlGraph, ps: seq<Point>)
    requires |ps| > 1 && forall p {:trigger p in ps} :: p in ps ==> Solid(p) && Spread(g, ps, p)
    ensures Stuck(g, ps, NotImplemented)
  {
  }

  /** Several nodes of a bag of nodes are in several points. */
  lemma {:induction false} NodesAreApart(ns: seq<Node>, l: seq<Node>)
    requires |l| > 1 && l[0] != l[1]
    ensures !SimplyLinked(Elementaries(ns), l)
  {
    var c := CommonSon(Elementaries(ns), l);
    assert l[0] in l && l[1] in l;
  }

  /** Nodes 0 and 1 both lead to nodes 2 and 3. */
  ghost function TwoByTwo(): ControlGraph {
    ControlGraph([0, 1, 2, 3], map n | n in {0, 1, 2, 3} :: After(n), map n | n in {0, 1, 2, 3} :: Before(n))
  }

  function After(n: Node): seq<Node> {
    if n < 2 then [2, 3] else []
  }

  function Before(n: Node): seq<Precursor> {
    if n < 2 then [] else [Precursor(0, false), Precursor(1, false)]
  }

  lemma {:induction false} FromsOf(n: Node)
    ensures Froms(Before(n)) == if n < 2 then [] else [0, 1]
  {
  }

  ghost predicate IsTwoByTwo(e: Links) {
    forall a: Node, b: Node {:trigger (a, b) in e} :: (a, b) in e <==> a < 2 && 2 <= b < 4
  }

  lemma {:induction false} TwoByTwoLinks()
    ensures IsTwoByTwo(TwoByTwo().Links())
  {
    var g := TwoByTwo();
    var e := g.Links();
    forall a: Node, b: Node ensures (a, b) in e <==> a < 2 && 2 <= b < 4 {
      assert a in g.outs ==> g.outs[a] == After(a);
      if a < 2 && 2 <= b < 4 { assert After(a)[b - 2] == b; }
    }
  }

  lemma {:induction false} TwoByTwoIsAcyclic()
    ensures Acyclic(TwoByTwo().Links())
  {
    var e := TwoByTwo().Links();
    forall a ensures !Reach(e, a, a) {
      if Reach(e, a, a) {
        var c := ReachFirst(e, a, a);
        ReachStaysIn(e, {c}, c, a);
      }
    }
  }

  lemma {:induction false} TwoByTwoGates()
    ensures OutGatesOk(TwoByTwo().outs) && InGatesOk(TwoByTwo().ins)
  {
    var ins := TwoByTwo().ins;
    forall b: Node | b in ins
      ensures Distinct(Froms(ins[b])) && forall a {:trigger a in Froms(ins[b])} :: a in Froms(ins[b]) ==> a in ins
    {
      FromsOf(b);
    }
  }

  lemma {:induction false} TwoByTwoIsMirrored()
    ensures Mirror(TwoByTwo().outs, TwoByTwo().ins)
  {
    var g := TwoByTwo();
    forall a: Node, b: Node | a in g.outs && b in g.ins ensures b in g.outs[a] <==> a in Froms(g.ins[b]) {
      FromsOf(b);
    }
  }

  lemma {:induction false} TwoByTwoIsValid()
    ensures TwoByTwo().Valid()
  {
    TwoByTwoIsAcyclic();
    TwoByTwoGates();
    TwoByTwoIsMirrored();
    var nodes: seq<Node> := [0, 1, 2, 3];
    assert Elements(nodes) == {0, 1, 2, 3};
  }

  /** The links of a node with successors, or with precursors, go to two points. */
  lemma {:induction false} TwoByTwoIsSpread(n: Node)
    requires n < 4
    ensures Spread(TwoByTwo(), Elementaries([0, 1, 2, 3]), Elementary(n))
  {
    FromsOf(n);
    NodesAreApart([0, 1, 2, 3], [2, 3]);
    NodesAreApart([0, 1, 2, 3], [0, 1]);
  }

  /** No step applies to the four points. */
  lemma {:induction false} TwoByTwoIsStuck()
    ensures BagOk(TwoByTwo(), Elementaries([0, 1, 2, 3])) && LeavesOf(Elementaries([0, 1, 2, 3])) == [0, 1, 2, 3]
    ensures Stuck(TwoByTwo(), Elementaries([0, 1, 2, 3]), NotImplemented)
  {
    var g, ns: seq<Node> := TwoByTwo(), [0, 1, 2, 3];
    var ps := Elementaries(ns);
    TwoByTwoIsValid();
    forall n: Node | n in g.ins ensures forall m {:trigger m in Froms(g.ins[n])} :: m in Froms(g.ins[n]) ==> m in ns {
      FromsOf(n);
    }
    ElementariesAreOk(g, ns);
    forall p | p in ps ensures Solid(p) && Spread(g, ps, p) {
      TwoByTwoIsSpread(p.node);
    }
    SpreadIsStuck(g, ps);
  }

  /** No tree of chains and of forks with one link at each end of a branch has these nodes. */
  lemma {:induction false} TwoByTwoIsNotBuilt()
    ensures !HasTree(TwoByTwo().Links(), [0, 1, 2, 3])
  {
    TwoByTwoIsStuck();
    StuckHasNoTree(TwoByTwo(), Elementaries([0, 1, 2, 3]), [0, 1, 2, 3]);
  }

  // ----- the tree that they have

  /** What a list of two points has to have to be a block. */
  lemma {:induction false} BlockOfTwo(e: Links, p: Point, q: Point)
    requires Faithful(e, p) && Faithful(e, q) && Disjoint(p, q)
    ensures SolidOf([p, q]) && AllFaithful(e, [p, q]) && AllDisjoint([p, q])
    ensures Twins(e, RegionOf(p), RegionOf(q)) ==> AllTwins(e, [p, q])
    ensures Joined(e, RegionOf(p), RegionOf(q)) ==> InChain(e, [p, q])
    ensures LeavesOf([p, q]) == Leaves(p) + Leaves(q)
    ensures RegionOf(Fork([p, q])) == Union(RegionOf(p), RegionOf(q))
  {
    var one := [p];
    assert [p, q][..1] == one && one[..0] == [];
    assert LeavesOf([]) == [] && [] + Leaves(p) == Leaves(p);
    assert one[..|one| - 1] == [] && AllDisjoint([]) && DisjointFrom([], p);
    assert SolidOf(one) && AllDisjoint(one);
    assert TwinOfAll(e, [], q) && AllTwins(e, one);
    assert UnionOf(one) == RegionOf(p);
  }

  lemma {:induction false} PairIsFork(e: Links, a: Node, b: Node)
    requires Acyclic(e) && IsTwoByTwo(e) && ((a, b) == (0, 1) || (a, b) == (2, 3))
    ensures Faithful(e, Fork([Elementary(a), Elementary(b)]))
    ensures RegionOf(Fork([Elementary(a), Elementary(b)])) == Region({a, b}, {a, b}, {a, b})
    ensures Leaves(Fork([Elementary(a), Elementary(b)])) == [a, b]
  {
    var p, q := Elementary(a), Elementary(b);
    NodeIsFaithful(e, a);
    NodeIsFaithful(e, b);
    assert Twins(e, RegionOf(p), RegionOf(q));
    BlockOfTwo(e, p, q);
    assert [a] + [b] == [a, b] && {a} + {b} == {a, b};
    ForkIsFaithful(e, [p, q]);
  }

  lemma {:induction false} PairsAreLinked(e: Links, p: Point, q: Point)
    requires Acyclic(e) && IsTwoByTwo(e) && Faithful(e, p) && Faithful(e, q) && Disjoint(p, q)
    requires RegionOf(p) == Region({0, 1}, {0, 1}, {0, 1}) && RegionOf(q) == Region({2, 3}, {2, 3}, {2, 3})
    ensures Faithful(e, Linked([p, q]))
  {
    assert Joined(e, RegionOf(p), RegionOf(q));
    BlockOfTwo(e, p, q);
    ChainIsFaithful(e, [p, q]);
  }

  /** The order of the four nodes is that of a tree: the fork of 0 and 1, then the fork of 2 and 3. */
  lemma {:induction false} TwoByTwoHasTree()
    ensures Faithful(TwoByTwo().Links(),
      Linked([Fork([Elementary(0), Elementary(1)]), Fork([Elementary(2), Elementary(3)])]))
  {
    var e, p, q := TwoByTwo().Links(), Fork([Elementary(0), Elementary(1)]), Fork([Elementary(2), Elementary(3)]);
    TwoByTwoIsAcyclic();
    TwoByTwoLinks();
    PairIsFork(e, 0, 1);
    PairIsFork(e, 2, 3);
    PairsAreLinked(e, p, q);
  }
}
