/** Regions of a control graph that are entered and left as one node would be. */
module Regions {
  import opened Graph

  /** Nodes, those that start the region and those that end it. */
  datatype Region = Region(nodes: set<Node>, first: set<Node>, last: set<Node>)

  /** Links come from outside only to the first nodes, and from the same outside nodes to all of these. */
  ghost predicate EnteredAsOne(e: Links, r: Region) {
    forall x, a {:trigger (x, a) in e} :: (x, a) in e && a in r.nodes && x !in r.nodes ==>
      a in r.first && forall b {:trigger b in r.first} :: b in r.first ==> (x, b) in e
  }

  ghost predicate LeftAsOne(e: Links, r: Region) {
    forall a, y {:trigger (a, y) in e} :: (a, y) in e && a in r.nodes && y !in r.nodes ==>
      a in r.last && forall b {:trigger b in r.last} :: b in r.last ==> (b, y) in e
  }

  /** No link inside the region leads to a first node or from a last one. */
  ghost predicate EndsAreEnds(e: Links, r: Region) {
    && (forall x, a {:trigger (x, a) in e} :: (x, a) in e && a in r.first ==> x !in r.nodes)
    && (forall a, y {:trigger (a, y) in e} :: (a, y) in e && a in r.last ==> y !in r.nodes)
  }

  ghost predicate FromFirst(e: Links, r: Region, a: Node) {
    exists s :: s in r.first && ReachOrSame(e, s, a)
  }

  ghost predicate ToLast(e: Links, r: Region, a: Node) {
    exists k :: k in r.last && ReachOrSame(e, a, k)
  }

  ghost predicate Spanned(e: Links, r: Region) {
    && r.first != {} && r.last != {} && r.first <= r.nodes && r.last <= r.nodes
    && forall a {:trigger FromFirst(e, r, a)} {:trigger ToLast(e, r, a)} ::
      a in r.nodes ==> FromFirst(e, r, a) && ToLast(e, r, a)
  }

  ghost predicate IsModule(e: Links, r: Region) {
    EnteredAsOne(e, r) && LeftAsOne(e, r) && EndsAreEnds(e, r) && Spanned(e, r)
  }

  lemma {:induction false} OneNode(e: Links, n: Node)
    requires Acyclic(e)
    ensures IsModule(e, Region({n}, {n}, {n}))
  {
    if (n, n) in e { LinkReaches(e, n, n); }
    assert ReachOrSame(e, n, n);
  }

  // ----- one region after the other

  /** Every last node of r leads to every first node of q; r leads nowhere else, and q is led to from nowhere else. */
  ghost predicate Joined(e: Links, r: Region, q: Region) {
    && (forall a, b {:trigger (a, b) in e} :: a in r.last && b in q.first ==> (a, b) in e)
    && (forall a, y {:trigger (a, y) in e} :: (a, y) in e && a in r.nodes && y !in r.nodes ==> y in q.nodes)
    && (forall x, b {:trigger (x, b) in e} :: (x, b) in e && b in q.nodes && x !in q.nodes ==> x in r.nodes)
  }

  function Chain(r: Region, q: Region): Region {
    Region(r.nodes + q.nodes, r.first, q.last)
  }

  lemma {:induction false} AllReachAll(e: Links, r: Region, q: Region, a: Node, b: Node)
    requires IsModule(e, r) && IsModule(e, q) && Joined(e, r, q) && a in r.nodes && b in q.nodes
    ensures Reach(e, a, b)
  {
    assert ToLast(e, r, a) && FromFirst(e, q, b);
    var k :| k in r.last && ReachOrSame(e, a, k);
    var s :| s in q.first && ReachOrSame(e, s, b);
    assert (k, s) in e;
    LinkReaches(e, k, s);
    ReachTransitive(e, a, k, s);
    ReachTransitive(e, a, s, b);
  }

  lemma {:induction false} NoneBack(e: Links, r: Region, q: Region, a: Node, b: Node)
    requires Acyclic(e) && IsModule(e, r) && IsModule(e, q) && Joined(e, r, q) && a in r.nodes && b in q.nodes
    ensures !Reach(e, b, a) && (b, a) !in e
  {
    AllReachAll(e, r, q, a, b);
    if (b, a) in e { LinkReaches(e, b, a); }
    if Reach(e, b, a) { ReachTransitive(e, a, b, a); }
  }

  lemma {:induction false} ChainSpans(e: Links, r: Region, q: Region, a: Node)
    requires IsModule(e, r) && IsModule(e, q) && Joined(e, r, q) && a in r.nodes + q.nodes
    ensures FromFirst(e, Chain(r, q), a) && ToLast(e, Chain(r, q), a)
  {
    if a in q.nodes {
      assert ToLast(e, q, a);
      var k :| k in q.last && ReachOrSame(e, a, k);
      var s :| s in r.first;
      AllReachAll(e, r, q, s, a);
    }
    if a in r.nodes {
      assert FromFirst(e, r, a);
      var s :| s in r.first && ReachOrSame(e, s, a);
      var k :| k in q.last;
      AllReachAll(e, r, q, a, k);
    }
  }

  lemma {:induction false} ChainIsModule(e: Links, r: Region, q: Region)
    requires Acyclic(e) && IsModule(e, r) && IsModule(e, q) && Joined(e, r, q) && r.nodes !! q.nodes
    ensures IsModule(e, Chain(r, q))
  {
    var c := Chain(r, q);
    forall a {:trigger FromFirst(e, c, a)} {:trigger ToLast(e, c, a)} | a in c.nodes
      ensures FromFirst(e, c, a) && ToLast(e, c, a)
    {
      ChainSpans(e, r, q, a);
    }
    forall x, a | (x, a) in e && a in c.first ensures x !in c.nodes {
      if x in q.nodes { NoneBack(e, r, q, a, x); }
    }
    forall a, y | (a, y) in e && a in c.last ensures y !in c.nodes {
      if y in r.nodes { NoneBack(e, r, q, y, a); }
    }
    forall x, a | (x, a) in e && a in c.nodes && x !in c.nodes
      ensures a in c.first && forall b :: b in c.first ==> (x, b) in e
    {
      assert a !in q.nodes;
    }
    forall a, y | (a, y) in e && a in c.nodes && y !in c.nodes
      ensures a in c.last && forall b :: b in c.last ==> (b, y) in e
    {
      assert a !in r.nodes;
    }
  }

  // ----- regions side by side

  /** No link between the regions, and the same nodes around both. */
  ghost predicate Twins(e: Links, r: Region, q: Region) {
    && (forall a, b {:trigger (a, b) in e} :: (a, b) in e ==>
          !(a in r.nodes && b in q.nodes) && !(a in q.nodes && b in r.nodes))
    && (forall x, a, b {:trigger (x, a) in e, (x, b) in e} :: a in r.first && b in q.first ==>
          ((x, a) in e <==> (x, b) in e))
    && (forall y, a, b {:trigger (a, y) in e, (b, y) in e} :: a in r.last && b in q.last ==>
          ((a, y) in e <==> (b, y) in e))
  }

  function Union(r: Region, q: Region): Region {
    Region(r.nodes + q.nodes, r.first + q.first, r.last + q.last)
  }

  /** A walk that leaves a set has a link that does. */
  lemma {:induction false} WalkLeaves(e: Links, s: set<Node>, a: Node, b: Node, n: nat) returns (x: Node, y: Node)
    requires Steps(e, a, b, n) && a in s && b !in s
    ensures x in s && y !in s && (x, y) in e && ReachOrSame(e, y, b)
    decreases n
  {
    var c :| (a, c) in e && Steps(e, c, b, n - 1);
    if c in s {
      x, y := WalkLeaves(e, s, c, b, n - 1);
    } else {
      x, y := a, c;
      if n > 1 { assert n - 1 >= 1 && Steps(e, c, b, n - 1); }
    }
  }

  /** No walk goes from a region to its twin. */
  lemma {:induction false} NoneAcross(e: Links, r: Region, q: Region, a: Node, b: Node)
    requires Acyclic(e) && IsModule(e, r) && IsModule(e, q) && Twins(e, r, q) && r.nodes !! q.nodes
    requires a in r.nodes && b in q.nodes
    ensures !Reach(e, a, b)
  {
    if Reach(e, a, b) {
      var n: nat :| n >= 1 && Steps(e, a, b, n);
      var x, y := WalkLeaves(e, r.nodes, a, b, n);
      assert x in r.last && y !in q.nodes;
      assert ToLast(e, q, b);
      var k :| k in q.last && ReachOrSame(e, b, k);
      assert (k, y) in e;
      LinkReaches(e, k, y);
      ReachTransitive(e, y, b, k);
      ReachTransitive(e, y, k, y);
    }
  }

  lemma {:induction false} TwinsTurned(e: Links, r: Region, q: Region)
    requires Twins(e, r, q)
    ensures Twins(e, q, r)
  {
  }

  lemma {:induction false} UnionSpans(e: Links, r: Region, q: Region, a: Node)
    requires Spanned(e, r) && Spanned(e, q) && a in r.nodes + q.nodes
    ensures FromFirst(e, Union(r, q), a) && ToLast(e, Union(r, q), a)
  {
    var t := if a in r.nodes then r else q;
    assert FromFirst(e, t, a) && ToLast(e, t, a);
    var s :| s in t.first && ReachOrSame(e, s, a);
    var k :| k in t.last && ReachOrSame(e, a, k);
    assert s in Union(r, q).first && k in Union(r, q).last;
  }

  lemma {:induction false} UnionIsModule(e: Links, r: Region, q: Region)
    requires Acyclic(e) && IsModule(e, r) && IsModule(e, q) && Twins(e, r, q) && r.nodes !! q.nodes
    ensures IsModule(e, Union(r, q))
  {
    var u := Union(r, q);
    forall a {:trigger FromFirst(e, u, a)} {:trigger ToLast(e, u, a)} | a in u.nodes
      ensures FromFirst(e, u, a) && ToLast(e, u, a)
    {
      UnionSpans(e, r, q, a);
    }
    var f :| f in r.first;
    var g :| g in q.first;
    forall x, a | (x, a) in e && a in u.nodes && x !in u.nodes
      ensures a in u.first && forall b :: b in u.first ==> (x, b) in e
    {
      assert (x, f) in e && (x, g) in e;
    }
    var k :| k in r.last;
    var l :| l in q.last;
    forall a, y | (a, y) in e && a in u.nodes && y !in u.nodes
      ensures a in u.last && forall b :: b in u.last ==> (b, y) in e
    {
      assert (k, y) in e && (l, y) in e;
    }
  }

  /** What is a twin of two twins is a twin of their union. */
  lemma {:induction false} TwinOfUnion(e: Links, r: Region, q: Region, t: Region)
    requires Twins(e, r, t) && Twins(e, q, t)
    ensures Twins(e, Union(r, q), t)
  {
  }
}
