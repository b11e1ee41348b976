/** Control-flow graphs as finite sets of links: reachability, acyclicity and
    the rank that every acyclic graph has. */
module Graph {

  type Node = nat
  type Links = set<(Node, Node)>

  /** There is a walk of exactly n links from a to b. */
  ghost predicate Steps(e: Links, a: Node, b: Node, n: nat)
    decreases n
  {
    if n == 0 then a == b else exists c :: (a, c) in e && Steps(e, c, b, n - 1)
  }

  /** b is reached from a through at least one link. */
  ghost predicate Reach(e: Links, a: Node, b: Node) {
    exists n: nat :: n >= 1 && Steps(e, a, b, n)
  }

  ghost predicate ReachOrSame(e: Links, a: Node, b: Node) {
    a == b || Reach(e, a, b)
  }

  ghost predicate Acyclic(e: Links) {
    forall a :: !Reach(e, a, a)
  }

  ghost predicate SameReach(e: Links, f: Links) {
    forall a, b :: Reach(e, a, b) <==> Reach(f, a, b)
  }

  /** A set that links cannot leave. */
  ghost predicate Closed(e: Links, s: set<Node>) {
    forall a, b :: a in s && (a, b) in e ==> b in s
  }

  lemma {:induction false} LinkReaches(e: Links, a: Node, b: Node)
    requires (a, b) in e
    ensures Reach(e, a, b)
  {
    assert Steps(e, b, b, 0);
    assert Steps(e, a, b, 1);
  }

  lemma {:induction false} StepsConcat(e: Links, a: Node, b: Node, c: Node, n: nat, m: nat)
    requires Steps(e, a, b, n) && Steps(e, b, c, m)
    ensures Steps(e, a, c, n + m)
    decreases n
  {
    if n > 0 {
      var x :| (a, x) in e && Steps(e, x, b, n - 1);
      StepsConcat(e, x, b, c, n - 1, m);
    }
  }

  lemma {:induction false} ReachTransitive(e: Links, a: Node, b: Node, c: Node)
    requires ReachOrSame(e, a, b) && ReachOrSame(e, b, c)
    ensures ReachOrSame(e, a, c)
    ensures Reach(e, a, b) || Reach(e, b, c) ==> Reach(e, a, c)
  {
    if Reach(e, a, b) && Reach(e, b, c) {
      var n: nat :| n >= 1 && Steps(e, a, b, n);
      var m: nat :| m >= 1 && Steps(e, b, c, m);
      StepsConcat(e, a, b, c, n, m);
    }
  }

  /** A non-empty walk starts with a link. */
  lemma {:induction false} ReachFirst(e: Links, a: Node, b: Node) returns (c: Node)
    requires Reach(e, a, b)
    ensures (a, c) in e && ReachOrSame(e, c, b)
  {
    var n: nat :| n >= 1 && Steps(e, a, b, n);
    c :| (a, c) in e && Steps(e, c, b, n - 1);
    if n > 1 { assert n - 1 >= 1 && Steps(e, c, b, n - 1); }
  }

  /** A non-empty walk ends with a link. */
  lemma {:induction false} ReachLast(e: Links, a: Node, b: Node) returns (c: Node)
    requires Reach(e, a, b)
    ensures (c, b) in e
  {
    var n: nat :| n >= 1 && Steps(e, a, b, n);
    c := StepsLast(e, a, b, n);
  }

  lemma {:induction false} StepsLast(e: Links, a: Node, b: Node, n: nat) returns (c: Node)
    requires n >= 1 && Steps(e, a, b, n)
    ensures (c, b) in e
    decreases n
  {
    var x :| (a, x) in e && Steps(e, x, b, n - 1);
    if n == 1 { c := a; } else { c := StepsLast(e, x, b, n - 1); }
  }

  lemma {:induction false} StepsMonotone(e: Links, f: Links, a: Node, b: Node, n: nat)
    requires e <= f && Steps(e, a, b, n)
    ensures Steps(f, a, b, n)
    decreases n
  {
    if n > 0 {
      var x :| (a, x) in e && Steps(e, x, b, n - 1);
      StepsMonotone(e, f, x, b, n - 1);
    }
  }

  lemma {:induction false} ReachMonotone(e: Links, f: Links, a: Node, b: Node)
    requires e <= f && Reach(e, a, b)
    ensures Reach(f, a, b)
  {
    var n: nat :| n >= 1 && Steps(e, a, b, n);
    StepsMonotone(e, f, a, b, n);
  }

  lemma {:induction false} AcyclicSubset(e: Links, f: Links)
    requires e <= f && Acyclic(f)
    ensures Acyclic(e)
  {
    forall a ensures !Reach(e, a, a) {
      if Reach(e, a, a) { ReachMonotone(e, f, a, a); }
    }
  }

  lemma {:induction false} StepsStayIn(e: Links, s: set<Node>, a: Node, b: Node, n: nat)
    requires Closed(e, s) && a in s && Steps(e, a, b, n)
    ensures b in s
    decreases n
  {
    if n > 0 {
      var x :| (a, x) in e && Steps(e, x, b, n - 1);
      StepsStayIn(e, s, x, b, n - 1);
    }
  }

  lemma {:induction false} ReachStaysIn(e: Links, s: set<Node>, a: Node, b: Node)
    requires Closed(e, s) && a in s && ReachOrSame(e, a, b)
    ensures b in s
  {
    if a != b {
      var n: nat :| n >= 1 && Steps(e, a, b, n);
      StepsStayIn(e, s, a, b, n);
    }
  }

  /** The pairs that one more link u -> v joins. */
  ghost predicate JoinedBy(e: Links, u: Node, v: Node, a: Node, b: Node) {
    ReachOrSame(e, a, u) && ReachOrSame(e, v, b)
  }

  lemma {:induction false} StepsThroughNewLink(e: Links, u: Node, v: Node, a: Node, b: Node, n: nat)
    requires n >= 1 && Steps(e + {(u, v)}, a, b, n)
    ensures Reach(e, a, b) || JoinedBy(e, u, v, a, b)
    decreases n
  {
    var x :| (a, x) in e + {(u, v)} && Steps(e + {(u, v)}, x, b, n - 1);
    if n > 1 {
      StepsThroughNewLink(e, u, v, x, b, n - 1);
    }
    if (a, x) in e {
      LinkReaches(e, a, x);
      if ReachOrSame(e, x, b) {
        ReachTransitive(e, a, x, b);
      } else {
        ReachTransitive(e, a, x, u);
      }
    }
  }

  /** Reachability after adding one link, in terms of reachability before. */
  lemma {:induction false} ReachAfterNewLink(e: Links, u: Node, v: Node, a: Node, b: Node)
    ensures Reach(e + {(u, v)}, a, b) <==> Reach(e, a, b) || JoinedBy(e, u, v, a, b)
  {
    var f := e + {(u, v)};
    if Reach(f, a, b) {
      var n: nat :| n >= 1 && Steps(f, a, b, n);
      StepsThroughNewLink(e, u, v, a, b, n);
    }
    if Reach(e, a, b) { ReachMonotone(e, f, a, b); }
    if JoinedBy(e, u, v, a, b) {
      LinkReaches(f, u, v);
      if a != u { ReachMonotone(e, f, a, u); }
      if v != b { ReachMonotone(e, f, v, b); }
      ReachTransitive(f, a, u, v);
      ReachTransitive(f, a, v, b);
    }
  }

  /** A new link closes a cycle exactly when its end already leads to its start. */
  lemma {:induction false} AcyclicAfterNewLink(e: Links, u: Node, v: Node)
    requires Acyclic(e)
    ensures Acyclic(e + {(u, v)}) <==> !ReachOrSame(e, v, u)
    ensures Acyclic(e + {(u, v)}) <==> !Reach(e + {(u, v)}, v, v)
  {
    var f := e + {(u, v)};
    ReachAfterNewLink(e, u, v, v, v);
    forall a ensures Reach(f, a, a) ==> ReachOrSame(e, v, u) {
      ReachAfterNewLink(e, u, v, a, a);
      if Reach(f, a, a) { ReachTransitive(e, v, a, u); }
    }
  }

  /** Links, read in both directions. */
  ghost function Undirected(e: Links): Links {
    e + set l | l in e :: (l.1, l.0)
  }

  lemma {:induction false} UndirectedLink(e: Links, a: Node, b: Node)
    ensures (a, b) in Undirected(e) <==> (a, b) in e || (b, a) in e
  {
    if (b, a) in e { assert ((b, a).1, (b, a).0) in Undirected(e); }
  }

  lemma {:induction false} UndirectedSteps(e: Links, a: Node, b: Node, n: nat)
    requires Steps(Undirected(e), a, b, n)
    ensures Steps(Undirected(e), b, a, n)
    decreases n
  {
    if n > 0 {
      var u := Undirected(e);
      var x :| (a, x) in u && Steps(u, x, b, n - 1);
      UndirectedSteps(e, x, b, n - 1);
      assert Steps(u, a, a, 0);
      assert (x, a) in u;
      assert Steps(u, x, a, 1);
      StepsConcat(u, b, x, a, n - 1, 1);
    }
  }

  lemma {:induction false} UndirectedSymmetric(e: Links, a: Node, b: Node)
    requires ReachOrSame(Undirected(e), a, b)
    ensures ReachOrSame(Undirected(e), b, a)
  {
    if a != b {
      var n: nat :| n >= 1 && Steps(Undirected(e), a, b, n);
      UndirectedSteps(e, a, b, n);
    }
  }

  /** The nodes that links of e leave from. */
  function Sources(e: Links): set<Node> {
    set l | l in e :: l.0
  }

  ghost function Ancestors(e: Links, b: Node): set<Node> {
    set a | a in Sources(e) && Reach(e, a, b)
  }

  /** The number of ancestors; it grows along every link of an acyclic graph. */
  ghost function Rank(e: Links, b: Node): nat {
    |Ancestors(e, b)|
  }

  lemma {:induction false} ReachStartsAtSource(e: Links, a: Node, b: Node)
    requires Reach(e, a, b)
    ensures a in Sources(e)
  {
    var c := ReachFirst(e, a, b);
    assert (a, c).0 in Sources(e);
  }

  lemma {:induction false} ProperSubsetIsSmaller<T>(s: set<T>, t: set<T>, x: T)
    requires s <= t && x in t && x !in s
    ensures |s| < |t|
  {
    var d := t - s;
    assert t == s + d && s !! d && x in d;
    assert |t| == |s| + |d|;
  }

  lemma {:induction false} RankGrows(e: Links, a: Node, b: Node)
    requires Acyclic(e) && Reach(e, a, b)
    ensures Rank(e, a) < Rank(e, b)
  {
    ReachStartsAtSource(e, a, b);
    forall x | x in Ancestors(e, a) ensures x in Ancestors(e, b) {
      ReachTransitive(e, x, a, b);
    }
    ProperSubsetIsSmaller(Ancestors(e, a), Ancestors(e, b), a);
  }
}
