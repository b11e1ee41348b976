/** Redundant control links: a link is useless when its ends are joined by
    another path, of at least two links. */
module Redundancy {
  import opened Graph

  /** There is a path of at least two links from a to b. */
  ghost predicate LongReach(e: Links, a: Node, b: Node) {
    exists c :: (a, c) in e && Reach(e, c, b)
  }

  ghost function UselessLinks(e: Links): Links {
    set l | l in e && LongReach(e, l.0, l.1)
  }

  lemma {:induction false} ReachIsLinkOrLong(e: Links, a: Node, b: Node)
    ensures Reach(e, a, b) <==> (a, b) in e || LongReach(e, a, b)
  {
    if Reach(e, a, b) {
      var c := ReachFirst(e, a, b);
    }
    if (a, b) in e { LinkReaches(e, a, b); }
    if LongReach(e, a, b) {
      var c :| (a, c) in e && Reach(e, c, b);
      LinkReaches(e, a, c);
      ReachTransitive(e, a, c, b);
    }
  }

  /** Long paths after adding the link u -> v to an acyclic graph. */
  lemma {:induction false} LongReachAfterNewLink(e: Links, u: Node, v: Node, a: Node, b: Node)
    requires Acyclic(e + {(u, v)})
    ensures LongReach(e + {(u, v)}, a, b) <==>
            LongReach(e, a, b) || (JoinedBy(e, u, v, a, b) && (a, b) != (u, v))
  {
    var f := e + {(u, v)};
    AcyclicSubset(e, f);
    AcyclicAfterNewLink(e, u, v);
    if LongReach(f, a, b) {
      var c :| (a, c) in f && Reach(f, c, b);
      ReachAfterNewLink(e, u, v, c, b);
      if (a, c) in e {
        LinkReaches(e, a, c);
        if !Reach(e, c, b) { ReachTransitive(e, a, c, u); }
      }
    }
    if LongReach(e, a, b) {
      var c :| (a, c) in e && Reach(e, c, b);
      ReachMonotone(e, f, c, b);
    }
    if JoinedBy(e, u, v, a, b) && (a, b) != (u, v) {
      if a == u {
        ReachMonotone(e, f, v, b);
      } else {
        var c := ReachFirst(e, a, u);
        ReachAfterNewLink(e, u, v, c, b);
      }
    }
  }

  lemma {:induction false} KeptLinksReach(e: Links, a: Node, b: Node)
    requires Acyclic(e) && Reach(e, a, b)
    ensures Reach(e - UselessLinks(e), a, b)
    decreases Rank(e, b) - Rank(e, a)
  {
    var f := e - UselessLinks(e);
    RankGrows(e, a, b);
    if (a, b) in f {
      LinkReaches(f, a, b);
    } else {
      ReachIsLinkOrLong(e, a, b);
      var c :| (a, c) in e && Reach(e, c, b);
      LinkReaches(e, a, c);
      RankGrows(e, a, c);
      RankGrows(e, c, b);
      KeptLinksReach(e, a, c);
      KeptLinksReach(e, c, b);
      ReachTransitive(f, a, c, b);
    }
  }

  /** Removing every useless link of an acyclic graph changes no reachability. */
  lemma {:induction false} RemovingUselessKeepsReach(e: Links)
    requires Acyclic(e)
    ensures SameReach(e, e - UselessLinks(e))
  {
    var f := e - UselessLinks(e);
    forall a, b ensures Reach(e, a, b) <==> Reach(f, a, b) {
      if Reach(e, a, b) { KeptLinksReach(e, a, b); }
      if Reach(f, a, b) { ReachMonotone(f, e, a, b); }
    }
  }

  /** Nothing more can go: dropping any kept link would disconnect its ends. */
  lemma {:induction false} KeptLinksAreNeeded(e: Links, l: (Node, Node))
    requires l in e - UselessLinks(e)
    ensures !Reach(e - UselessLinks(e) - {l}, l.0, l.1)
  {
    var g := e - UselessLinks(e) - {l};
    if Reach(g, l.0, l.1) {
      var c := ReachFirst(g, l.0, l.1);
      assert c != l.1 && (l.0, c) in e;
      ReachMonotone(g, e, c, l.1);
    }
  }
}
