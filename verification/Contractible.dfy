/** Why the contraction steps never stop while there is a tree to be made: some chain or fork is always left. */
module Contractible {
  import opened Contraction
  import opened Gates
  import opened Graph
  import opened Lists
  import opened PointRegions
  import opened Points
  import opened Regions
  import opened Trees
  import opened Wrappers

  // ----- the parts of a tree that a point of the bag holds

  ghost predicate Holds(p: Point, s: Point) {
    forall n {:trigger n in Leaves(s)} :: n in Leaves(s) ==> n in Leaves(p)
  }

  ghost predicate Held(ps: seq<Point>, s: Point) {
    exists p {:trigger Holds(p, s)} :: p in ps && Holds(p, s)
  }

  ghost predicate Covered(ps: seq<Point>, s: Point) {
    forall n {:trigger n in Leaves(s)} :: n in Leaves(s) ==> n in LeavesOf(ps)
  }

  lemma {:induction false} NodeIsHeld(ps: seq<Point>, n: Node)
    requires n in LeavesOf(ps)
    ensures Held(ps, Elementary(n))
  {
    PointIsFound(ps, n);
    assert Holds(PointWith(ps, n).value, Elementary(n));
  }

  lemma {:induction false} ChildIsInside(s: Point, k: nat)
    requires !s.Elementary? && k < |s.nodes|
    ensures Holds(s, s.nodes[k])
  {
    forall n | n in Leaves(s.nodes[k]) ensures n in Leaves(s) { PointHasLeaf(s.nodes, s.nodes[k], n); }
  }

  /** A part that no point holds has a part that no point holds although each of its own parts is held. */
  lemma {:induction false} FindUnheld(e: Links, ps: seq<Point>, s: Point) returns (m: Point)
    requires Built(e, s) && Covered(ps, s) && !Held(ps, s)
    ensures Built(e, m) && !m.Elementary? && Holds(s, m) && !Held(ps, m)
    ensures forall k {:trigger m.nodes[k]} :: 0 <= k < |m.nodes| ==> Held(ps, m.nodes[k])
    decreases s
  {
    if s.Elementary? {
      assert s.node in Leaves(s);
      NodeIsHeld(ps, s.node);
    }
    if k :| 0 <= k < |s.nodes| && !Held(ps, s.nodes[k]) {
      ChildIsInside(s, k);
      m := FindUnheld(e, ps, s.nodes[k]);
    } else {
      m := s;
    }
  }

  ghost predicate HoldsUpTo(p: Point, l: seq<Point>, k: nat) {
    forall i {:trigger l[i]} :: 0 <= i < k && i < |l| ==> Holds(p, l[i])
  }

  lemma {:induction false} HoldsAll(p: Point, l: seq<Point>, n: Node)
    requires HoldsUpTo(p, l, |l|) && n in LeavesOf(l)
    ensures n in Leaves(p)
  {
    LeafHasPoint(l, n);
    var q :| q in l && n in Leaves(q);
    var i :| 0 <= i < |l| && l[i] == q;
  }

  lemma {:induction false} HoldsWhole(ps: seq<Point>, m: Point, p: Point)
    requires !m.Elementary? && p in ps && HoldsUpTo(p, m.nodes, |m.nodes|)
    ensures Held(ps, m)
  {
    forall n | n in Leaves(m) ensures n in Leaves(p) { HoldsAll(p, m.nodes, n); }
    assert Holds(p, m);
  }

  /** Two neighbours in a list that no point holds as a whole are held by different points. */
  lemma {:induction false} FindBorder(ps: seq<Point>, m: Point, k: nat, p: Point) returns (j: nat, p': Point, q: Point)
    requires !m.Elementary? && !Held(ps, m) && k < |m.nodes| && p in ps && HoldsUpTo(p, m.nodes, k + 1)
    requires forall i {:trigger m.nodes[i]} :: 0 <= i < |m.nodes| ==> Held(ps, m.nodes[i])
    ensures j + 1 < |m.nodes| && p' in ps && q in ps && p' != q
    ensures Holds(p', m.nodes[j]) && Holds(q, m.nodes[j + 1])
    decreases |m.nodes| - k
  {
    var l := m.nodes;
    if k + 1 == |l| { HoldsWhole(ps, m, p); }
    assert Held(ps, l[k + 1]);
    q :| q in ps && Holds(q, l[k + 1]);
    if q == p {
      j, p', q := FindBorder(ps, m, k + 1, p);
    } else {
      j, p' := k, p;
    }
  }

  // ----- a fork that no point holds

  lemma {:induction false} LinksBefore(g: ControlGraph, p: Point, q: Point, s: Point, t: Point, before: Option<Node>)
    requires Faithful(g.Links(), p) && Faithful(g.Links(), s) && Faithful(g.Links(), t) && Disjoint(p, q)
    requires LedToBy(g.Links(), RegionOf(s), before) && LedToBy(g.Links(), RegionOf(t), before)
    requires Holds(p, s) && Holds(q, t)
    ensures LedToBy(g.Links(), RegionOf(p), before)
  {
    var e, r := g.Links(), RegionOf(p);
    RegionHasLeaves(p);
    RegionHasLeaves(s);
    RegionHasLeaves(t);
    var a :| a in RegionOf(s).first;
    var b :| b in RegionOf(t).first;
    assert a in r.nodes && b !in r.nodes;
    assert forall x :: (x, a) in e ==> x !in r.nodes by {
      forall x | (x, a) in e ensures x !in r.nodes { assert (x, b) in e; }
    }
    assert a in r.first by {
      assert FromFirst(e, r, a);
      var f :| f in r.first && ReachOrSame(e, f, a);
      if f != a { var c := ReachLast(e, f, a); }
    }
    forall x, f | f in r.first ensures (x, f) in e <==> before == Some(x) {
      assert (x, f) in e ==> (x, a) in e;
      assert (x, a) in e ==> (x, f) in e;
    }
  }

  lemma {:induction false} LinksAfter(g: ControlGraph, p: Point, q: Point, s: Point, t: Point, after: Option<Node>)
    requires Faithful(g.Links(), p) && Faithful(g.Links(), s) && Faithful(g.Links(), t) && Disjoint(p, q)
    requires LeadsTo(g.Links(), RegionOf(s), after) && LeadsTo(g.Links(), RegionOf(t), after)
    requires Holds(p, s) && Holds(q, t)
    ensures LeadsTo(g.Links(), RegionOf(p), after)
  {
    var e, r := g.Links(), RegionOf(p);
    RegionHasLeaves(p);
    RegionHasLeaves(s);
    RegionHasLeaves(t);
    var a :| a in RegionOf(s).last;
    var b :| b in RegionOf(t).last;
    assert a in r.nodes && b !in r.nodes;
    assert forall y :: (a, y) in e ==> y !in r.nodes by {
      forall y | (a, y) in e ensures y !in r.nodes { assert (b, y) in e; }
    }
    assert a in r.last by {
      assert ToLast(e, r, a);
      var f :| f in r.last && ReachOrSame(e, a, f);
      if f != a { var c := ReachFirst(e, a, f); }
    }
    forall f, y | f in r.last ensures (f, y) in e <==> after == Some(y) {
      assert (f, y) in e ==> (a, y) in e;
      assert (a, y) in e ==> (f, y) in e;
    }
  }

  lemma {:induction false} OneAtMost(l: seq<Node>, o: Option<Node>)
    requires Distinct(l) && forall x {:trigger x in l} :: x in l <==> o == Some(x)
    ensures |l| <= 1 && Only(l) == o
  {
    DistinctLength(l);
    assert AsSet(l) == if o.None? then {} else {o.value};
    assert l != [] ==> l[0] in l;
  }

  /** A point with one node before it at most lists it alone. */
  lemma {:induction false} OnlyBefore(g: ControlGraph, ps: seq<Point>, p: Point, before: Option<Node>)
    requires BagOk(g, ps) && p in ps && Solid(p) && LedToBy(g.Links(), RegionOf(p), before)
    ensures |Preds(g, p)| <= 1 && Only(Preds(g, p)) == before
  {
    var preds := Preds(g, p);
    MemberHasLinks(g, ps, p);
    EndsOfPoint(p);
    OneAtMost(preds, before);
  }

  lemma {:induction false} OnlyAfter(g: ControlGraph, ps: seq<Point>, p: Point, after: Option<Node>)
    requires BagOk(g, ps) && p in ps && Solid(p) && LeadsTo(g.Links(), RegionOf(p), after)
    ensures |Succs(g, p)| <= 1 && Only(Succs(g, p)) == after
  {
    var succs := Succs(g, p);
    MemberHasLinks(g, ps, p);
    EndsOfPoint(p);
    OneAtMost(succs, after);
  }

  /** Two points that hold different branches of a fork are branches of a fork themselves. */
  lemma {:induction false} ForkIsLeft(g: ControlGraph, ps: seq<Point>, p: Point, q: Point, s: Point, t: Point,
      before: Option<Node>, after: Option<Node>)
    requires BagOk(g, ps) && p in ps && q in ps && p != q && Holds(p, s) && Holds(q, t)
    requires Faithful(g.Links(), s) && Faithful(g.Links(), t)
    requires BranchOf(g.Links(), s, before, after) && BranchOf(g.Links(), t, before, after)
    ensures Forkable(g, ps, p, before.None?, after.None?)
  {
    MemberHasLinks(g, ps, p);
    MemberHasLinks(g, ps, q);
    assert Disjoint(p, q) && Disjoint(q, p);
    LinksBefore(g, p, q, s, t, before);
    LinksBefore(g, q, p, t, s, before);
    LinksAfter(g, p, q, s, t, after);
    LinksAfter(g, q, p, t, s, after);
    OnlyBefore(g, ps, p, before);
    OnlyBefore(g, ps, q, before);
    OnlyAfter(g, ps, p, after);
    OnlyAfter(g, ps, q, after);
    assert Beside(g, ps, p, q, before.None?, after.None?);
  }

  // ----- a chain that no point holds

  /** The border between two points of a chain that are held by different points of the bag. */
  ghost predicate Border(e: Links, p: Point, q: Point, s: Point, t: Point) {
    && Faithful(e, p) && Faithful(e, q) && Disjoint(p, q) && Faithful(e, s) && Faithful(e, t)
    && Joined(e, RegionOf(s), RegionOf(t)) && Holds(p, s) && Holds(q, t)
  }

  /** The last nodes of p are those of s; all that follows them is in t. */
  lemma {:induction false} OverTheBorder(e: Links, p: Point, q: Point, s: Point, t: Point, k: Node)
    requires Border(e, p, q, s, t) && k in RegionOf(p).last
    ensures k in Leaves(s) && exists y :: (k, y) in e
    ensures forall y :: (k, y) in e ==> y in Leaves(t)
  {
    var r, c := RegionOf(p), RegionOf(s);
    RegionHasLeaves(p);
    RegionHasLeaves(s);
    RegionHasLeaves(t);
    var a :| a in c.last;
    var b :| b in RegionOf(t).first;
    assert (a, b) in e && a in r.nodes && b in Leaves(q) && b !in r.nodes;
    assert (k, b) in e;
    assert k in r.nodes && k !in RegionOf(t).nodes;
  }

  lemma {:induction false} BackOverTheBorder(e: Links, p: Point, q: Point, s: Point, t: Point, f: Node)
    requires Border(e, p, q, s, t) && f in RegionOf(q).first
    ensures f in Leaves(t) && exists x :: (x, f) in e
    ensures forall x :: (x, f) in e ==> x in Leaves(s)
  {
    var r, c := RegionOf(q), RegionOf(t);
    RegionHasLeaves(p);
    RegionHasLeaves(q);
    RegionHasLeaves(s);
    RegionHasLeaves(t);
    var a :| a in RegionOf(s).last;
    var b :| b in c.first;
    assert (a, b) in e && b in r.nodes && a in Leaves(p) && a !in r.nodes;
    assert (a, f) in e;
    assert f in r.nodes && f !in RegionOf(s).nodes;
  }

  lemma {:induction false} InOnePoint(ps: seq<Point>, l: seq<Node>, q: Point)
    requires PairwiseDisjoint(ps) && q in ps && l != [] && forall n :: n in l ==> n in Leaves(q)
    ensures CommonSon(ps, l) == Some(q) && SimplyLinked(ps, l)
  {
    assert l[0] in l;
    PointHasLeaf(ps, q, l[0]);
    PointIsFound(ps, l[0]);
    PointIsUnique(ps, PointWith(ps, l[0]).value, q, l[0]);
  }

  /** A step on from p is possible. */
  lemma {:induction false} ChainIsLeft(g: ControlGraph, ps: seq<Point>, p: Point, q: Point, s: Point, t: Point)
    requires BagOk(g, ps) && p in ps && q in ps && Border(g.Links(), p, q, s, t)
    ensures CanStepOn(g, ps, p) && SimplyLinked(ps, Succs(g, p))
  {
    var e := g.Links();
    MemberHasLinks(g, ps, p);
    MemberHasLinks(g, ps, q);
    EndsOfPoint(p);
    EndsOfPoint(q);
    OverTheBorder(e, p, q, s, t, LastNode(p));
    BackOverTheBorder(e, p, q, s, t, FirstNode(q));
    InOnePoint(ps, Succs(g, p), q);
    InOnePoint(ps, Preds(g, q), p);
  }

  // ----- what is before a point

  lemma {:induction false} ApartInBlock(l: seq<Point>, i: nat, j: nat)
    requires AllDisjoint(l) && i < j < |l|
    ensures Disjoint(l[i], l[j]) && Disjoint(l[j], l[i])
    decreases |l|
  {
    var m := |l| - 1;
    if j < m {
      ApartInBlock(l[..m], i, j);
    } else {
      forall n: Node | n in Leaves(l[i]) ensures n !in Leaves(l[m]) {
        assert l[..m][i] == l[i];
        PointHasLeaf(l[..m], l[i], n);
      }
    }
  }

  /** All nodes of an earlier point of a chain are before all those of a later one. */
  lemma {:induction false} ChainReaches(e: Links, l: seq<Point>, i: nat, j: nat, a: Node, b: Node)
    requires SolidOf(l) && AllFaithful(e, l) && InChain(e, l) && i < j < |l| && a in Leaves(l[i]) && b in Leaves(l[j])
    ensures Reach(e, a, b)
    decreases j - i
  {
    SolidAt(l, i);
    SolidAt(l, i + 1);
    assert l[i] in l && l[i + 1] in l && JoinedAt(e, l, i);
    assert Faithful(e, l[i]) && Faithful(e, l[i + 1]);
    RegionHasLeaves(l[i]);
    RegionHasLeaves(l[i + 1]);
    if j == i + 1 {
      AllReachAll(e, RegionOf(l[i]), RegionOf(l[j]), a, b);
    } else {
      var c := FirstNode(l[i + 1]);
      EndsOfPoint(l[i + 1]);
      AllReachAll(e, RegionOf(l[i]), RegionOf(l[i + 1]), a, c);
      ChainReaches(e, l, i + 1, j, c, b);
      ReachTransitive(e, a, c, b);
    }
  }

  /** s has all the nodes that lead to f, and all its nodes are before f. */
  ghost predicate IsBefore(e: Links, s: Point, f: Node) {
    && (forall v {:trigger (v, f) in e} :: (v, f) in e ==> v in Leaves(s))
    && forall n {:trigger n in Leaves(s)} :: n in Leaves(s) ==> Reach(e, n, f)
  }

  lemma {:induction false} ChildWith(s: Point, n: Node) returns (k: nat)
    requires !s.Elementary? && n in Leaves(s)
    ensures k < |s.nodes| && n in Leaves(s.nodes[k])
  {
    LeafHasPoint(s.nodes, n);
    var q :| q in s.nodes && n in Leaves(q);
    k :| 0 <= k < |s.nodes| && s.nodes[k] == q;
  }

  /** A link inside a tree goes from one point of a chain to the next: the former is all there is before its end. */
  lemma {:induction false} FindBefore(e: Links, t: Point, u: Node, f: Node) returns (s: Point)
    requires Acyclic(e) && Built(e, t) && u in Leaves(t) && f in Leaves(t) && (u, f) in e
    ensures Built(e, s) && Holds(t, s) && IsBefore(e, s, f)
    decreases t
  {
    LinkReaches(e, u, f);
    assert u != f && !t.Elementary?;
    var a := ChildWith(t, u);
    var b := ChildWith(t, f);
    ChildIsInside(t, a);
    if a == b {
      s := FindBefore(e, t.nodes[a], u, f);
    } else {
      LinkBetween(e, t, a, b, u, f);
      s := t.nodes[a];
    }
  }

  lemma {:induction false} LinkBetween(e: Links, t: Point, a: nat, b: nat, u: Node, f: Node)
    requires Acyclic(e) && Built(e, t) && !t.Elementary? && a < |t.nodes| && b < |t.nodes| && a != b
    requires u in Leaves(t.nodes[a]) && f in Leaves(t.nodes[b]) && (u, f) in e
    ensures IsBefore(e, t.nodes[a], f)
  {
    var l := t.nodes;
    LinkReaches(e, u, f);
    forall q | q in l ensures Faithful(e, q) { BuiltIsFaithful(e, q); }
    if a < b { ApartInBlock(l, a, b); } else { ApartInBlock(l, b, a); }
    SolidAt(l, a);
    SolidAt(l, b);
    assert Faithful(e, l[a]) && Faithful(e, l[b]);
    RegionHasLeaves(l[a]);
    RegionHasLeaves(l[b]);
    match t
    case Fork(_) => NoLinkInFork(e, l, a, b, u, f);
    case Linked(_) =>
      if b < a {
        ChainReaches(e, l, b, a, f, u);
        ReachTransitive(e, u, f, u);
      }
      NextInChain(e, l, a, b, u, f);
      assert JoinedAt(e, l, a);
      forall n | n in Leaves(l[a]) ensures Reach(e, n, f) { ChainReaches(e, l, a, b, n, f); }
  }

  lemma {:induction false} NoLinkInFork(e: Links, l: seq<Point>, a: nat, b: nat, u: Node, f: Node)
    requires Acyclic(e) && AllFaithful(e, l) && SameEnds(e, l) && AllDisjoint(l) && a < |l| && b < |l| && a != b
    requires u in Leaves(l[a]) && f in Leaves(l[b])
    ensures !Reach(e, u, f)
  {
    var before, after :| EndsAre(e, l, before, after);
    if a < b { ApartInBlock(l, a, b); } else { ApartInBlock(l, b, a); }
    assert l[a] in l && l[b] in l && BranchOf(e, l[a], before, after) && BranchOf(e, l[b], before, after);
    assert Faithful(e, l[a]) && Faithful(e, l[b]);
    RegionHasLeaves(l[a]);
    RegionHasLeaves(l[b]);
    SameLinksAreTwins(e, RegionOf(l[a]), RegionOf(l[b]), before, after);
    NoneAcross(e, RegionOf(l[a]), RegionOf(l[b]), u, f);
  }

  lemma {:induction false} NextInChain(e: Links, l: seq<Point>, a: nat, b: nat, u: Node, f: Node)
    requires AllFaithful(e, l) && SolidOf(l) && InChain(e, l) && AllDisjoint(l) && a < b < |l|
    requires u in Leaves(l[a]) && f in Leaves(l[b]) && (u, f) in e
    ensures b == a + 1 && forall v {:trigger (v, f) in e} :: (v, f) in e ==> v in Leaves(l[a])
  {
    assert l[a] in l && l[a + 1] in l && Faithful(e, l[a]) && Faithful(e, l[a + 1]);
    assert JoinedAt(e, l, a);
    RegionHasLeaves(l[a]);
    RegionHasLeaves(l[a + 1]);
    ApartInBlock(l, a, b);
    ApartInBlock(l, a, a + 1);
    assert f in Leaves(l[a + 1]);
    if b > a + 1 { ApartInBlock(l, a + 1, b); }
    assert f in RegionOf(l[b]).first;
  }

  // ----- something is always left to do

  /** A chain or one of the forks can be contracted. */
  ghost predicate SomeStep(g: ControlGraph, ps: seq<Point>) {
    !NoChain(g, ps) || exists noBefore, noAfter :: !NoFork(g, ps, noBefore, noAfter)
  }

  lemma {:induction false} ForkStep(g: ControlGraph, ps: seq<Point>, m: Point, k: nat, p: Point, q: Point)
    requires BagOk(g, ps) && Built(g.Links(), m) && m.Fork? && k + 1 < |m.nodes|
    requires p in ps && q in ps && p != q && Holds(p, m.nodes[k]) && Holds(q, m.nodes[k + 1])
    ensures SomeStep(g, ps)
  {
    var e, l := g.Links(), m.nodes;
    var before, after :| EndsAre(e, l, before, after);
    BuiltIsFaithful(e, l[k]);
    BuiltIsFaithful(e, l[k + 1]);
    ForkIsLeft(g, ps, p, q, l[k], l[k + 1], before, after);
    assert !NoFork(g, ps, before.None?, after.None?);
  }

  /** The border that two neighbours in a chain make between the points that hold them. */
  lemma {:induction false} BorderInChain(g: ControlGraph, ps: seq<Point>, m: Point, k: nat, p: Point, q: Point)
    requires BagOk(g, ps) && Built(g.Links(), m) && m.Linked? && k + 1 < |m.nodes|
    requires p in ps && q in ps && p != q && Holds(p, m.nodes[k]) && Holds(q, m.nodes[k + 1])
    ensures Border(g.Links(), p, q, m.nodes[k], m.nodes[k + 1])
  {
    var e, l := g.Links(), m.nodes;
    BuiltIsFaithful(e, l[k]);
    BuiltIsFaithful(e, l[k + 1]);
    assert JoinedAt(e, l, k);
    assert Faithful(e, p) && Faithful(e, q) && Disjoint(p, q);
  }

  /** The nodes before p are not in one point of the bag. */
  ghost predicate Scattered(g: ControlGraph, ps: seq<Point>, p: Point)
    requires Solid(p)
  {
    Preds(g, p) != [] && !SimplyLinked(ps, Preds(g, p))
  }

  lemma {:induction false} ScatteredIsNotHeld(g: ControlGraph, ps: seq<Point>, p: Point, s: Point)
    requires BagOk(g, ps) && p in ps && Solid(p) && Scattered(g, ps, p) && IsBefore(g.Links(), s, FirstNode(p))
    ensures !Held(ps, s)
  {
    if Held(ps, s) {
      var c :| c in ps && Holds(c, s);
      MemberHasLinks(g, ps, p);
      InOnePoint(ps, Preds(g, p), c);
    }
  }

  /** p starts before the nodes of s. */
  lemma {:induction false} StartsEarlier(e: Links, p: Point, q: Point, s: Point, t: Point, bound: nat)
    requires Acyclic(e) && Border(e, p, q, s, t)
    requires forall n {:trigger n in Leaves(s)} :: n in Leaves(s) ==> Rank(e, n) < bound
    ensures Rank(e, FirstNode(p)) < bound
  {
    var f, r := FirstNode(p), RegionOf(p);
    EndsOfPoint(p);
    assert ToLast(e, r, f);
    var k :| k in r.last && ReachOrSame(e, f, k);
    OverTheBorder(e, p, q, s, t, k);
    if f != k { RankGrows(e, f, k); }
  }

  /** Before a point with scattered nodes before it there is a part of the tree that no point holds. */
  lemma {:induction false} FindEarlier(g: ControlGraph, ps: seq<Point>, t: Point, p: Point) returns (s: Point)
    requires BagOk(g, ps) && Built(g.Links(), t) && p in ps && Solid(p) && Scattered(g, ps, p)
    requires forall n {:trigger n in LeavesOf(ps)} :: n in LeavesOf(ps) ==> n in Leaves(t)
    ensures Built(g.Links(), s) && Holds(t, s) && !Held(ps, s)
    ensures forall n {:trigger n in Leaves(s)} :: n in Leaves(s) ==> Rank(g.Links(), n) < Rank(g.Links(), FirstNode(p))
  {
    var e, f, u := g.Links(), FirstNode(p), Preds(g, p)[0];
    MemberHasLinks(g, ps, p);
    assert u in Preds(g, p);
    PointHasLeaf(ps, p, f);
    s := FindBefore(e, t, u, f);
    ScatteredIsNotHeld(g, ps, p, s);
    forall n | n in Leaves(s) ensures Rank(e, n) < Rank(e, f) { RankGrows(e, n, f); }
  }

  /** While some part s of a tree is held by no point, a step is left: in s, or in a part before it. */
  lemma {:induction false} StepIsLeft(g: ControlGraph, ps: seq<Point>, t: Point, s: Point, bound: nat)
    requires BagOk(g, ps) && Built(g.Links(), t) && Built(g.Links(), s) && Holds(t, s) && !Held(ps, s)
    requires forall n {:trigger n in Leaves(t)} {:trigger n in LeavesOf(ps)} :: n in Leaves(t) <==> n in LeavesOf(ps)
    requires forall n {:trigger n in Leaves(s)} :: n in Leaves(s) ==> Rank(g.Links(), n) < bound
    ensures SomeStep(g, ps)
    decreases bound
  {
    var e := g.Links();
    var m := FindUnheld(e, ps, s);
    assert Held(ps, m.nodes[0]);
    var p0 :| p0 in ps && Holds(p0, m.nodes[0]);
    var k, p, q := FindBorder(ps, m, 0, p0);
    if m.Fork? {
      ForkStep(g, ps, m, k, p, q);
    } else {
      BorderInChain(g, ps, m, k, p, q);
      ChildIsInside(m, k);
      StartsEarlier(e, p, q, m.nodes[k], m.nodes[k + 1], bound);
      ChainIsLeft(g, ps, p, q, m.nodes[k], m.nodes[k + 1]);
      if Scattered(g, ps, p) {
        var b := FindEarlier(g, ps, t, p);
        StepIsLeft(g, ps, t, b, Rank(e, FirstNode(p)));
      } else {
        assert Linkable(g, ps, p);
      }
    }
  }

  /** There is a tree with these nodes. */
  ghost predicate HasTree(e: Links, ns: seq<Node>) {
    exists t {:trigger Built(e, t)} :: Built(e, t) && multiset(Leaves(t)) == multiset(ns)
  }

  /** As long as there is more than one point a step is left, whenever their nodes have a tree. */
  lemma {:induction false} NeverStuck(g: ControlGraph, ps: seq<Point>, t: Point)
    requires BagOk(g, ps) && |ps| > 1 && Built(g.Links(), t)
    requires forall n {:trigger n in Leaves(t)} {:trigger n in LeavesOf(ps)} :: n in Leaves(t) <==> n in LeavesOf(ps)
    ensures SomeStep(g, ps)
  {
    var e := g.Links();
    TreeIsNotHeld(g, ps, t);
    forall n | n in Leaves(t) ensures Rank(e, n) < |Sources(e)| + 1 { SubsetSize(Ancestors(e, n), Sources(e)); }
    StepIsLeft(g, ps, t, t, |Sources(e)| + 1);
  }

  /** Points that no step applies to have no tree. */
  lemma {:induction false} StuckHasNoTree(g: ControlGraph, ps: seq<Point>, ns: seq<Node>)
    requires BagOk(g, ps) && Stuck(g, ps, NotImplemented) && multiset(LeavesOf(ps)) == multiset(ns)
    ensures !HasTree(g.Links(), ns)
  {
    if HasTree(g.Links(), ns) {
      var t :| Built(g.Links(), t) && multiset(Leaves(t)) == multiset(ns);
      forall n ensures n in Leaves(t) <==> n in LeavesOf(ps) {
        assert n in multiset(Leaves(t)) <==> n in multiset(LeavesOf(ps));
      }
      NeverStuck(g, ps, t);
    }
  }

  lemma {:induction false} TreeIsNotHeld(g: ControlGraph, ps: seq<Point>, t: Point)
    requires BagOk(g, ps) && |ps| > 1
    requires forall n {:trigger n in LeavesOf(ps)} :: n in LeavesOf(ps) ==> n in Leaves(t)
    ensures !Held(ps, t)
  {
    if Held(ps, t) {
      var c :| c in ps && Holds(c, t);
      assert ps[0] != ps[1];
      var p := if ps[0] == c then ps[1] else ps[0];
      assert Disjoint(p, c);
      MemberHasLinks(g, ps, p);
      PointHasLeaf(ps, p, FirstNode(p));
    }
  }
}
