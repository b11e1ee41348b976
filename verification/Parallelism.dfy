/** How many cores a bloc can use at once: its trees of points against its control graph. */
module Parallelism {
  import opened BagPoints
  import opened Blocs
  import opened Contractible
  import opened Contraction
  import opened Gates
  import opened Graph
  import opened Lists
  import opened Narrow
  import opened PointRegions
  import opened Points
  import opened Trees
  import opened Wrappers

  // ----- lists with the same elements

  lemma {:induction false} SameWeight(l: seq<Node>, m: seq<Node>, s: set<Node>, w: Levels)
    requires multiset(l) == multiset(m)
    ensures Weight(l, s, w) == Weight(m, s, w)
    decreases |l|
  {
    if l == [] {
      assert m == [] by { assert |multiset(m)| == 0; }
    } else {
      var x, front := l[|l| - 1], l[..|l| - 1];
      assert l == front + [x];
      assert x in multiset(m);
      var i := Find(m, x);
      assert multiset(front) == multiset(l) - multiset{x};
      assert multiset(Erase(m, i)) == multiset(m) - multiset{x};
      SameWeight(front, Erase(m, i), s, w);
      WeightOfErased(m, i, s, w);
    }
  }

  lemma {:induction false} WeightOfErased(l: seq<Node>, i: nat, s: set<Node>, w: Levels)
    requires i < |l|
    ensures Weight(l, s, w) == Weight(Erase(l, i), s, w) + if l[i] in s then w(l[i]) else 0
  {
    var a, x, b := l[..i], [l[i]], l[i + 1..];
    assert l == a + x + b && Erase(l, i) == a + b;
    WeightOfConcat(a + x, b, s, w);
    WeightOfConcat(a, x, s, w);
    WeightOfConcat(a, b, s, w);
    assert x[..0] == [];
  }

  lemma {:induction false} DistinctCounts<T>(l: seq<T>, x: T)
    requires Distinct(l)
    ensures multiset(l)[x] <= 1
    decreases |l|
  {
    if l != [] {
      FrontIsInside(l);
      DistinctCounts(l[..|l| - 1], x);
      assert l == l[..|l| - 1] + [l[|l| - 1]];
    }
  }

  lemma {:induction false} SameIsDistinct<T>(l: seq<T>, m: seq<T>)
    requires multiset(l) == multiset(m) && Distinct(m)
    ensures Distinct(l)
  {
    forall i, j | 0 <= i < j < |l| ensures l[i] != l[j] {
      DistinctCounts(m, l[i]);
      var a, b := l[..i + 1], l[i + 1..];
      assert l == a + b && a[i] in multiset(a) && b[j - i - 1] in multiset(b);
      assert multiset(l) == multiset(a) + multiset(b);
    }
  }

  // ----- the width of a control graph

  /** Nodes none of which waits for another. */
  ghost predicate Independent(e: Links, s: set<Node>) {
    forall a: Node, b: Node {:trigger Reach(e, a, b)} :: a in s && b in s ==> !Reach(e, a, b)
  }

  ghost predicate AreAmong(s: set<Node>, l: seq<Node>) {
    forall n {:trigger n in s} :: n in s ==> n in l
  }

  /** The largest total level of independent nodes of the list. */
  ghost predicate IsWidth(e: Links, l: seq<Node>, w: Levels, width: nat) {
    && (forall s {:trigger Independent(e, s)} :: Independent(e, s) && AreAmong(s, l) ==> Weight(l, s, w) <= width)
    && exists s {:trigger Independent(e, s)} :: Independent(e, s) && AreAmong(s, l) && Weight(l, s, w) == width
  }

  lemma {:induction false} IndependentIsAntichain(e: Links, p: Point, s: set<Node>)
    requires OrderIsReach(e, p) && AreAmong(s, Leaves(p))
    ensures Independent(e, s) <==> Antichain(p, s)
  {
    if Antichain(p, s) {
      forall a: Node, b: Node | a in s && b in s ensures !Reach(e, a, b) {
        assert Before(p, a, b) <==> Reach(e, a, b);
      }
    }
  }

  /** The level of a faithful tree is the width of the graph of its nodes. */
  lemma {:induction false} LevelIsGraphWidth(e: Links, p: Point, l: seq<Node>, w: Levels)
    requires OrderIsReach(e, p) && Distinct(l) && multiset(Leaves(p)) == multiset(l)
    ensures IsWidth(e, l, w, Level(p, w))
  {
    forall n ensures n in l <==> n in Leaves(p) { assert n in multiset(l) <==> n in multiset(Leaves(p)); }
    forall s | Independent(e, s) && AreAmong(s, l) ensures Weight(l, s, w) <= Level(p, w) {
      IndependentIsAntichain(e, p, s);
      LevelIsBound(p, s, w);
      SameWeight(l, Leaves(p), s, w);
    }
    SameIsDistinct(Leaves(p), l);
    var s := LevelIsAttained(p, w);
    IndependentIsAntichain(e, p, s);
    SameWeight(l, Leaves(p), s, w);
  }

  // ----- from the groups of a bloc to one fork

  /** Contracting the nodes has led to these points, which no further contraction applies to. */
  ghost predicate StuckOn(g: ControlGraph, ps: seq<Point>, ns: seq<Node>) {
    BagOk(g, ps) && AllNarrow(g, ps) && multiset(LeavesOf(ps)) == multiset(ns) && Stuck(g, ps, NotImplemented)
  }

  /** Some nodes joined by links, all of those, cannot be contracted to one point. */
  ghost predicate SomeGroupIsStuck(g: ControlGraph, nodes: seq<Node>) {
    exists ns, ps :: StuckOn(g, ps, ns) && IsGroup(g, nodes, ns)
  }

  /** Every group of nodes joined by links has a tree. */
  ghost predicate GroupsHaveTrees(g: ControlGraph, nodes: seq<Node>) {
    forall ns {:trigger IsGroup(g, nodes, ns)} :: IsGroup(g, nodes, ns) ==> HasTree(g.Links(), ns)
  }

  ghost predicate IsGroup(g: ControlGraph, nodes: seq<Node>, ns: seq<Node>) {
    && ns != [] && Distinct(ns)
    && forall a, b {:trigger ReachOrSame(Undirected(g.Links()), a, b)} :: a in ns ==>
      a in nodes && (b in ns <==> ReachOrSame(Undirected(g.Links()), a, b))
  }

  /** The tree of some nodes: simplified down to one point. */
  method Simplify(g: ControlGraph, ns: seq<Node>) returns (r: Result<Point, PointError>)
    requires g.Valid() && Distinct(ns) && ns != [] && SelfContained(g, ns)
    ensures r.Success? ==> Faithful(g.Links(), r.value) && multiset(Leaves(r.value)) == multiset(ns)
    ensures r.Success? ==> Built(g.Links(), r.value)
    ensures r.Success? <==> HasTree(g.Links(), ns)
    ensures r.Failure? ==> r.error == NotImplemented && exists ps :: StuckOn(g, ps, ns)
  {
    var bp := new BagPoint(g, ns);
    var done, steps := bp.BasicSimplify();
    if done.Failure? {
      StuckIsPlain(g, bp.nodes, done.error);
      StuckHasNoTree(g, bp.nodes, ns);
      assert StuckOn(g, bp.nodes, ns);
      return Failure(done.error);
    }
    assert bp.nodes == [bp.nodes[0]] && bp.nodes[0] in bp.nodes;
    LeavesOfOne(bp.nodes[0]);
    assert Built(g.Links(), bp.nodes[0]);
    return Success(bp.nodes[0]);
  }

  lemma {:induction false} NothingAround(g: ControlGraph, p: Point)
    requires g.Valid() && Faithful(g.Links(), p) && SelfContained(g, Leaves(p))
    ensures LedToBy(g.Links(), RegionOf(p), None) && LeadsTo(g.Links(), RegionOf(p), None)
  {
    var e, r := g.Links(), RegionOf(p);
    RegionHasLeaves(p);
    forall x, a | a in r.first ensures (x, a) !in e {
      GatesTell(g, a);
      assert (x, a) in e <==> x in Froms(g.ins[a]);
    }
    forall a, y | a in r.last ensures (a, y) !in e {
      assert (a, y) in e <==> y in g.outs[a];
    }
  }

  /** The trees of groups of nodes that no link joins. */
  ghost predicate Groups(g: ControlGraph, pts: seq<Point>) {
    && BagOk(g, pts) && Distinct(LeavesOf(pts))
    && forall p {:trigger p in pts} :: p in pts ==> SelfContained(g, Leaves(p))
  }

  lemma {:induction false} NewPointIsApart(pts: seq<Point>, p: Point)
    requires PairwiseDisjoint(pts) && Distinct(pts) && DisjointFrom(pts, p) && Leaves(p) != []
    ensures PairwiseDisjoint(pts + [p]) && Distinct(pts + [p])
  {
    assert Leaves(p)[0] in Leaves(p);
    if p in pts { PointHasLeaf(pts, p, Leaves(p)[0]); }
    DistinctSnoc(pts, p);
    forall q | q in pts ensures Disjoint(q, p) && Disjoint(p, q) {
      forall n: Node | n in Leaves(q) ensures n !in Leaves(p) { PointHasLeaf(pts, q, n); }
    }
  }

  lemma {:induction false} AddGroup(g: ControlGraph, pts: seq<Point>, p: Point)
    requires Groups(g, pts) && Faithful(g.Links(), p) && SelfContained(g, Leaves(p)) && Distinct(Leaves(p))
    requires DisjointFrom(pts, p)
    ensures Groups(g, pts + [p]) && LeavesOf(pts + [p]) == LeavesOf(pts) + Leaves(p)
  {
    LeavesOfConcat(pts, [p]);
    LeavesOfOne(p);
    EndsOfPoint(p);
    RegionHasLeaves(p);
    NewPointIsApart(pts, p);
    DistinctConcat(LeavesOf(pts), Leaves(p));
    SelfContainedTogether(g, LeavesOf(pts), Leaves(p));
  }

  lemma {:induction false} SelfContainedTogether(g: ControlGraph, l: seq<Node>, m: seq<Node>)
    requires SelfContained(g, l) && SelfContained(g, m)
    ensures SelfContained(g, l + m)
  {
  }

  lemma {:induction false} GroupsAreFork(g: ControlGraph, pts: seq<Point>)
    requires Groups(g, pts) && pts != []
    ensures Faithful(g.Links(), Fork(pts))
  {
    forall p | p in pts
      ensures Solid(p) && LedToBy(g.Links(), RegionOf(p), None) && LeadsTo(g.Links(), RegionOf(p), None)
    {
      assert Faithful(g.Links(), p);
      NothingAround(g, p);
    }
    BetweenIsForkOf(g, pts, pts, None, None);
  }

  /** Links, read in both directions, do not leave the group. */
  ghost predicate KeepsLinked(e: Links, ns: seq<Node>) {
    forall a, b {:trigger ReachOrSame(Undirected(e), a, b)} :: a in ns && ReachOrSame(Undirected(e), a, b) ==> b in ns
  }

  lemma {:induction false} GroupIsSelfContained(g: ControlGraph, ns: seq<Node>)
    requires g.Valid() && (forall n :: n in ns ==> n in g.nodes) && KeepsLinked(g.Links(), ns)
    ensures SelfContained(g, ns)
  {
    var u := Undirected(g.Links());
    forall n | n in ns ensures n in g.outs { assert n in Elements(g.nodes); }
    forall n, m | n in ns && n in g.outs && m in g.outs[n] ensures m in ns {
      UndirectedLink(g.Links(), n, m);
      LinkReaches(u, n, m);
      assert ReachOrSame(u, n, m);
    }
    forall n, m | n in ns && n in g.ins && m in Froms(g.ins[n]) ensures m in ns {
      GatesTell(g, n);
      UndirectedLink(g.Links(), n, m);
      LinkReaches(u, n, m);
      assert ReachOrSame(u, n, m);
    }
  }

  ghost function GraphOf(b: Bloc): ControlGraph
    reads b
  {
    ControlGraph(b.nodes, b.outs, b.ins)
  }

  /** The node is in one of the first k groups. */
  ghost predicate Listed(parts: seq<seq<Node>>, k: nat, n: Node) {
    exists i {:trigger parts[i]} :: 0 <= i < k && i < |parts| && n in parts[i]
  }

  ghost predicate Covers(pts: seq<Point>, parts: seq<seq<Node>>, k: nat) {
    forall n: Node {:trigger n in LeavesOf(pts)} {:trigger Listed(parts, k, n)} ::
      n in LeavesOf(pts) <==> Listed(parts, k, n)
  }

  lemma {:induction false} CoverOneMore(pts: seq<Point>, p: Point, parts: seq<seq<Node>>, k: nat)
    requires Covers(pts, parts, k) && k < |parts| && forall n :: n in parts[k] <==> n in Leaves(p)
    requires forall i, n :: 0 <= i < k && n in parts[i] ==> n !in parts[k]
    ensures DisjointFrom(pts, p) && Covers(pts + [p], parts, k + 1)
  {
    LeavesOfConcat(pts, [p]);
    LeavesOfOne(p);
    forall n: Node ensures Listed(parts, k + 1, n) <==> Listed(parts, k, n) || n in parts[k] {}
    forall n: Node | n in LeavesOf(pts) ensures n !in Leaves(p) {
      assert Listed(parts, k, n);
    }
  }

  lemma {:induction false} SameGroupHasTree(e: Links, l: seq<Node>, m: seq<Node>)
    requires Distinct(l) && Distinct(m) && (forall n :: n in l <==> n in m) && HasTree(e, l)
    ensures HasTree(e, m)
  {
    DistinctSame(l, m);
    var t :| Built(e, t) && multiset(Leaves(t)) == multiset(l);
    assert multiset(Leaves(t)) == multiset(m);
  }

  /** A group is one of the parts that the bloc is split into. */
  lemma {:induction false} PartsHaveTrees(g: ControlGraph, nodes: seq<Node>, parts: seq<seq<Node>>)
    requires forall n :: n in nodes ==> Listed(parts, |parts|, n)
    requires forall i {:trigger parts[i]} :: 0 <= i < |parts| ==>
      IsGroup(g, nodes, parts[i]) && HasTree(g.Links(), parts[i])
    ensures GroupsHaveTrees(g, nodes)
  {
    forall ns | IsGroup(g, nodes, ns) ensures HasTree(g.Links(), ns) {
      var a := ns[0];
      assert a in ns && ReachOrSame(Undirected(g.Links()), a, a);
      var i :| 0 <= i < |parts| && a in parts[i];
      forall n ensures n in parts[i] <==> n in ns {
        assert n in parts[i] <==> ReachOrSame(Undirected(g.Links()), a, n);
      }
      SameGroupHasTree(g.Links(), parts[i], ns);
    }
  }

  /** The lists are the groups of g: joined nodes share a list, and no node is in two of them. */
  ghost predicate AreGroups(g: ControlGraph, parts: seq<seq<Node>>) {
    && (forall i {:trigger parts[i]} :: 0 <= i < |parts| ==> IsGroup(g, g.nodes, parts[i]))
    && (forall i, j, n :: 0 <= i < j < |parts| && n in parts[i] ==> n !in parts[j])
  }

  /** The lists that a bloc is split into are its groups. */
  lemma {:induction false} PartsAreGroups(g: ControlGraph, parts: seq<seq<Node>>)
    requires forall n :: n in g.nodes <==> exists k :: 0 <= k < |parts| && n in parts[k]
    requires forall k :: 0 <= k < |parts| ==> parts[k] != [] && Distinct(parts[k])
    requires forall k, l, n :: 0 <= k < l < |parts| && n in parts[k] ==> n !in parts[l]
    requires forall k, a, b :: 0 <= k < |parts| && a in parts[k] ==>
      (b in parts[k] <==> ReachOrSame(Undirected(g.Links()), a, b))
    ensures AreGroups(g, parts) && forall n :: n in g.nodes <==> Listed(parts, |parts|, n)
  {
    forall i | 0 <= i < |parts| ensures IsGroup(g, g.nodes, parts[i]) {
      forall x: Node, y: Node | x in parts[i]
        ensures x in g.nodes && (y in parts[i] <==> ReachOrSame(Undirected(g.Links()), x, y))
      {
        assert y in parts[i] <==> ReachOrSame(Undirected(g.Links()), x, y);
      }
    }
  }

  lemma {:induction false} GroupIsInside(g: ControlGraph, ns: seq<Node>)
    requires IsGroup(g, g.nodes, ns)
    ensures KeepsLinked(g.Links(), ns) && forall n :: n in ns ==> n in g.nodes
  {
    forall n | n in ns ensures n in g.nodes { assert ReachOrSame(Undirected(g.Links()), n, n); }
  }

  /** One list has no tree, and leads to points that no step applies to. */
  ghost predicate SomePartIsStuck(g: ControlGraph, parts: seq<seq<Node>>) {
    exists k, ps :: 0 <= k < |parts| && StuckOn(g, ps, parts[k]) && !HasTree(g.Links(), parts[k])
  }

  /** The trees of some groups. */
  method TreesOf(g: ControlGraph, parts: seq<seq<Node>>) returns (r: Result<seq<Point>, PointError>)
    requires g.Valid() && AreGroups(g, parts)
    ensures r.Success? ==> |r.value| == |parts| && Groups(g, r.value) && Covers(r.value, parts, |parts|)
    ensures r.Success? ==> forall i {:trigger parts[i]} :: 0 <= i < |parts| ==> HasTree(g.Links(), parts[i])
    ensures r.Failure? ==> r.error == NotImplemented && SomePartIsStuck(g, parts)
  {
    var pts: seq<Point> := [];
    for k := 0 to |parts|
      invariant |pts| == k && Groups(g, pts)
      invariant Covers(pts, parts, k)
      invariant forall i {:trigger parts[i]} :: 0 <= i < k ==> HasTree(g.Links(), parts[i])
    {
      GroupIsInside(g, parts[k]);
      GroupIsSelfContained(g, parts[k]);
      var p := Simplify(g, parts[k]);
      if p.Failure? { return Failure(p.error); }
      SameLeavesOf(g, p.value, parts[k]);
      CoverOneMore(pts, p.value, parts, k);
      AddGroup(g, pts, p.value);
      pts := pts + [p.value];
    }
    return Success(pts);
  }

  /** The groups of the bloc that no link joins. */
  method GroupsOf(b: Bloc) returns (parts: seq<seq<Node>>)
    requires b.Valid()
    modifies b`colour
    ensures AreGroups(GraphOf(b), parts) && (parts == [] <==> b.nodes == [])
    ensures forall n :: n in b.nodes <==> Listed(parts, |parts|, n)
  {
    parts := b.SplitIntoIndependentGraphs();
    ghost var g := GraphOf(b);
    assert g.Links() == b.Links();
    PartsAreGroups(g, parts);
    if parts != [] {
      assert parts[0][0] in parts[0];
      assert Listed(parts, |parts|, parts[0][0]);
    }
    assert b.nodes != [] ==> Listed(parts, |parts|, b.nodes[0]);
  }

  lemma {:induction false} TreesHoldAll(nodes: seq<Node>, parts: seq<seq<Node>>, pts: seq<Point>)
    requires forall n :: n in nodes <==> Listed(parts, |parts|, n)
    requires Covers(pts, parts, |parts|)
    ensures forall n :: n in nodes <==> n in LeavesOf(pts)
  {
    forall n: Node ensures n in nodes <==> n in LeavesOf(pts) {
      assert n in LeavesOf(pts) <==> Listed(parts, |parts|, n);
    }
  }

  lemma {:induction false} StuckPart(g: ControlGraph, parts: seq<seq<Node>>)
    requires AreGroups(g, parts) && SomePartIsStuck(g, parts)
    ensures SomeGroupIsStuck(g, g.nodes) && !GroupsHaveTrees(g, g.nodes)
  {
    var k, ps :| 0 <= k < |parts| && StuckOn(g, ps, parts[k]) && !HasTree(g.Links(), parts[k]);
    assert IsGroup(g, g.nodes, parts[k]);
  }

  /** The trees of the groups of the bloc that no link joins. */
  method AnalyzeParallelism(b: Bloc) returns (r: Result<seq<Point>, PointError>)
    requires b.Valid()
    modifies b`colour
    ensures b.nodes == [] ==> r == Success([])
    ensures b.nodes != [] && r.Success? ==> Groups(GraphOf(b), r.value) && r.value != []
    ensures r.Success? ==> forall n :: n in b.nodes <==> n in LeavesOf(r.value)
    ensures r.Success? <==> GroupsHaveTrees(GraphOf(b), b.nodes)
    ensures r.Failure? ==> r.error == NotImplemented && SomeGroupIsStuck(GraphOf(b), b.nodes)
  {
    var parts := GroupsOf(b);
    var g := ControlGraph(b.nodes, b.outs, b.ins);
    if parts == [] {
      PartsHaveTrees(g, b.nodes, parts);
      return Success([]);
    }
    r := TreesOf(g, parts);
    if r.Success? {
      PartsHaveTrees(g, b.nodes, parts);
      TreesHoldAll(b.nodes, parts, r.value);
    } else {
      StuckPart(g, parts);
    }
  }

  lemma {:induction false} SameLeavesOf(g: ControlGraph, p: Point, ns: seq<Node>)
    requires SelfContained(g, ns) && Distinct(ns) && multiset(Leaves(p)) == multiset(ns)
    ensures SelfContained(g, Leaves(p)) && Distinct(Leaves(p)) && forall n :: n in ns <==> n in Leaves(p)
  {
    forall n ensures n in ns <==> n in Leaves(p) { assert n in multiset(ns) <==> n in multiset(Leaves(p)); }
    SameLeaves(g, ns, Leaves(p));
    SameIsDistinct(Leaves(p), ns);
  }

  /** The number of cores that the bloc can use at once, when the contraction steps lead to one point per group. */
  method GetMaxLevelOfParallelism(b: Bloc, w: Levels) returns (r: Result<nat, PointError>)
    requires b.Valid()
    modifies b`colour
    ensures r.Success? ==> IsWidth(b.Links(), b.nodes, w, r.value)
    ensures r.Success? <==> GroupsHaveTrees(GraphOf(b), b.nodes)
    ensures r.Failure? ==> r.error == NotImplemented && SomeGroupIsStuck(GraphOf(b), b.nodes)
  {
    var pts := AnalyzeParallelism(b);
    if pts.Failure? { return Failure(pts.error); }
    var l := Points.GetMaxLevelOfParallelism(Fork(pts.value), w);
    if b.nodes == [] {
      assert Independent(b.Links(), {}) && Weight(b.nodes, {}, w) == 0;
      return Success(l);
    }
    GroupsAreFork(GraphOf(b), pts.value);
    DistinctSame(LeavesOf(pts.value), b.nodes);
    LevelIsGraphWidth(b.Links(), Fork(pts.value), b.nodes, w);
    return Success(l);
  }

  lemma {:induction false} DistinctSame(l: seq<Node>, m: seq<Node>)
    requires Distinct(l) && Distinct(m) && forall n :: n in l <==> n in m
    ensures multiset(l) == multiset(m)
  {
    forall n ensures multiset(l)[n] == multiset(m)[n] {
      DistinctCounts(l, n);
      DistinctCounts(m, n);
      assert n in l <==> n in m;
      assert n in multiset(l) <==> n in l;
      assert n in multiset(m) <==> n in m;
    }
  }
}
