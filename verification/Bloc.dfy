/** The edition and the static analysis of the control graph of a Bloc. */
module Blocs {
  import opened Wrappers
  import opened Graph
  import opened Gates
  import opened Lists
  import opened Redundancy

  datatype EditError = SelfLink | NotConnected | CycleDetected

  type LinkMap = map<Node, set<Node>>

  /** The indexing operator of the dependency maps: an absent key reads as empty. */
  function At(m: LinkMap, a: Node): set<Node> {
    if a in m then m[a] else {}
  }

  ghost predicate ForwardExact(e: Links, fw: LinkMap) {
    forall a, b :: b in At(fw, a) <==> Reach(e, a, b)
  }

  ghost predicate BackwardExact(e: Links, bw: LinkMap) {
    forall a, b :: a in At(bw, b) <==> Reach(e, a, b)
  }

  ghost function OutLinks(a: Node, l: seq<Node>): (e: Links)
    ensures forall x, y :: (x, y) in e <==> x == a && y in l
  {
    set b | b in l :: (a, b)
  }

  datatype Colour = White | Grey

  /** Moving the head of the queue behind the visited nodes changes neither their union nor their order. */
  lemma {:induction false} NextInLine(ll: seq<Node>, fifo: seq<Node>)
    requires fifo != [] && Distinct(ll + fifo)
    ensures (ll + [fifo[0]]) + fifo[1..] == ll + fifo
    ensures fifo[0] !in Elements(ll) && Elements(ll + [fifo[0]]) == Elements(ll) + {fifo[0]}
  {
    forall k | 0 <= k < |ll| ensures ll[k] != fifo[0] {
      assert (ll + fifo)[k] != (ll + fifo)[|ll|];
    }
  }

  /** The state of a visit: `ll` is visited, `fifo` waits, and exactly these nodes are newly grey. */
  ghost predicate Frontier(u: Links, start: Node, before: set<Node>, ll: seq<Node>, fifo: seq<Node>, greys: set<Node>) {
    && Distinct(ll + fifo) && start in ll + fifo
    && greys == before + Elements(ll + fifo) && Elements(ll + fifo) !! before
    && (forall n :: n in ll + fifo ==> ReachOrSame(u, start, n))
    && (forall n, m :: n in ll && (n, m) in u ==> m in greys)
  }

  lemma {:induction false} FrontierMoves(u: Links, start: Node, before: set<Node>, ll: seq<Node>, fifo: seq<Node>,
      greys: set<Node>, added: seq<Node>)
    requires Frontier(u, start, before, ll, fifo, greys) && fifo != []
    requires Distinct(added) && forall n: Node :: n in added <==> (fifo[0], n) in u && n !in greys
    ensures Frontier(u, start, before, ll + [fifo[0]], fifo[1..] + added, greys + Elements(added))
  {
    var cur := fifo[0];
    var seen := ll + fifo;
    NextInLine(ll, fifo);
    assert (ll + [cur]) + (fifo[1..] + added) == seen + added;
    assert Elements(seen + added) == Elements(seen) + Elements(added);
    DistinctConcat(seen, added);
    assert cur in seen;
    forall n | n in added ensures ReachOrSame(u, start, n) {
      LinkReaches(u, cur, n);
      ReachTransitive(u, start, cur, n);
    }
  }

  lemma {:induction false} TailElements(fifo: seq<Node>, added: seq<Node>)
    requires fifo != []
    ensures Elements(fifo[1..] + added) <= Elements(fifo) + Elements(added)
  {
  }

  /** One node visited: the frontier moves, inside the nodes of the bloc, and one more node is visited. */
  lemma {:induction false} VisitMoves(u: Links, start: Node, before: set<Node>, ll: seq<Node>, fifo: seq<Node>,
      greys: set<Node>, added: seq<Node>, keys: set<Node>)
    requires Frontier(u, start, before, ll, fifo, greys) && fifo != []
    requires Distinct(added) && forall n: Node :: n in added <==> (fifo[0], n) in u && n !in greys
    requires Elements(ll) + Elements(fifo) <= keys && Elements(added) <= keys
    ensures Frontier(u, start, before, ll + [fifo[0]], fifo[1..] + added, greys + Elements(added))
    ensures Elements(ll + [fifo[0]]) + Elements(fifo[1..] + added) <= keys
    ensures fifo[0] in keys && fifo[0] !in Elements(ll) && Elements(ll + [fifo[0]]) == Elements(ll) + {fifo[0]}
  {
    FrontierMoves(u, start, before, ll, fifo, greys, added);
    NextInLine(ll, fifo);
    TailElements(fifo, added);
    assert fifo[0] in Elements(fifo);
  }

  lemma {:induction false} VisitComplete(e: Links, start: Node, before: set<Node>, ll: seq<Node>, greys: set<Node>)
    requires Frontier(Undirected(e), start, before, ll, [], greys) && Closed(Undirected(e), before)
    ensures greys == before + Elements(ll) && Elements(ll) !! before && Distinct(ll) && start in ll
    ensures Closed(Undirected(e), greys)
    ensures forall n :: n in ll <==> ReachOrSame(Undirected(e), start, n)
  {
    assert ll + [] == ll;
    ClosedAgain(e, before, Elements(ll));
    forall n | ReachOrSame(Undirected(e), start, n) ensures n in ll {
      ReachStaysIn(Undirected(e), Elements(ll), start, n);
    }
  }

  /** The groups found so far partition the grey nodes into classes of joined nodes. */
  ghost predicate Groups(u: Links, parts: seq<seq<Node>>, greys: set<Node>) {
    && (forall n :: n in greys <==> exists k :: 0 <= k < |parts| && n in parts[k])
    && (forall k :: 0 <= k < |parts| ==> parts[k] != [] && Distinct(parts[k]))
    && (forall k, l, n :: 0 <= k < l < |parts| && n in parts[k] ==> n !in parts[l])
    && (forall k, a, b :: 0 <= k < |parts| && a in parts[k] ==> (b in parts[k] <==> ReachOrSame(u, a, b)))
  }

  lemma {:induction false} NewGroup(e: Links, parts: seq<seq<Node>>, greys: set<Node>, start: Node, ll: seq<Node>)
    requires Groups(Undirected(e), parts, greys) && Elements(ll) !! greys
    requires Distinct(ll) && start in ll
    requires forall n :: n in ll <==> ReachOrSame(Undirected(e), start, n)
    ensures Groups(Undirected(e), parts + [ll], greys + Elements(ll))
  {
    var u, parts' := Undirected(e), parts + [ll];
    forall a, b | a in ll ensures b in ll <==> ReachOrSame(u, a, b) {
      UndirectedSymmetric(e, start, a);
      if b in ll { ReachTransitive(u, a, start, b); }
      if ReachOrSame(u, a, b) { ReachTransitive(u, start, a, b); }
    }
    forall n ensures n in greys + Elements(ll) <==> exists k :: 0 <= k < |parts'| && n in parts'[k] {
      if n in greys {
        var k :| 0 <= k < |parts| && n in parts[k];
        assert n in parts'[k];
      }
      if n in ll { assert n in parts'[|parts|]; }
    }
  }

  /** The gates of a node list its neighbours in both directions. */
  lemma {:induction false} Neighbours(nodes: seq<Node>, outs: OutGates, ins: InGates, a: Node)
    requires WellFormed(nodes, outs, ins) && a in outs
    ensures forall b: Node :: (a, b) in Undirected(LinksOf(outs)) <==> b in Elements(outs[a]) + Elements(Froms(ins[a]))
    ensures Elements(outs[a]) <= outs.Keys && Elements(Froms(ins[a])) <= outs.Keys
  {
    var e := LinksOf(outs);
    forall b: Node ensures (a, b) in Undirected(e) <==> b in Elements(outs[a]) + Elements(Froms(ins[a])) {
      UndirectedLink(e, a, b);
    }
  }

  /** What remains of a closed set once a closed part is taken out is closed, links being read both ways. */
  lemma {:induction false} ClosedAgain(e: Links, before: set<Node>, s: set<Node>)
    requires Closed(Undirected(e), before) && before !! s
    requires Closed(Undirected(e), before + s)
    ensures Closed(Undirected(e), s)
  {
    var u := Undirected(e);
    forall a, b | a in s && (a, b) in u ensures b in s {
      UndirectedLink(e, a, b);
      UndirectedLink(e, b, a);
    }
  }

  /** The maps and the report describe exactly the links processed so far. */
  ghost predicate Exact(e: Links, fw: LinkMap, bw: LinkMap, useless: Links) {
    ForwardExact(e, fw) && BackwardExact(e, bw) && useless == UselessLinks(e)
  }

  lemma {:induction false} OneLinkLess(e: Links, toKill: Links, rest: Links, l: (Node, Node))
    requires l in rest && rest <= toKill && toKill <= e
    ensures l in e - (toKill - rest)
    ensures e - (toKill - rest) - {l} == e - (toKill - (rest - {l}))
  {
  }

  lemma {:induction false} NothingProcessed()
    ensures Exact({}, map[], map[], {})
  {
    forall a, b ensures !Reach({}, a, b) {
      if Reach({}, a, b) { var c := ReachFirst({}, a, b); }
    }
  }

  /** One more link: the maps stay the transitive closure and its converse, and
      the report stays the set of useless links, whatever order links come in. */
  lemma {:induction false} ProcessedLink(e: Links, u: Node, v: Node, fw: LinkMap, bw: LinkMap, useless: Links,
                      fw': LinkMap, bw': LinkMap, useless': Links)
    requires Acyclic(e + {(u, v)}) && (u, v) !in e && Exact(e, fw, bw, useless)
    requires forall x, y {:trigger y in At(fw', x)} :: y in At(fw', x) <==>
      (y in At(fw, x) || ((x == u || x in At(bw, u)) && (y == v || y in At(fw, v))))
    requires forall x, y {:trigger x in At(bw', y)} :: x in At(bw', y) <==>
      (x in At(bw, y) || ((x == u || x in At(bw, u)) && (y == v || y in At(fw, v))))
    requires forall l :: l in useless' <==> (l in useless ||
      ((l.0 == u || l.0 in At(bw, u)) && (l.1 == v || l.1 in At(fw, v)) &&
       l.1 in At(fw, l.0) && l in e + {(u, v)}))
    ensures Exact(e + {(u, v)}, fw', bw', useless')
  {
    var f := e + {(u, v)};
    forall a, b
      ensures b in At(fw', a) <==> Reach(f, a, b)
      ensures a in At(bw', b) <==> Reach(f, a, b)
    {
      ReachAfterNewLink(e, u, v, a, b);
    }
    forall l ensures l in useless' <==> l in UselessLinks(f) {
      LongReachAfterNewLink(e, u, v, l.0, l.1);
      ReachIsLinkOrLong(e, l.0, l.1);
    }
  }

  lemma {:induction false} AppendThenErase<T>(s: seq<T>, x: T)
    requires x !in s
    ensures Erase(s + [x], Find(s + [x], x)) == s
  {
  }

  lemma {:induction false} UndoSet<K, V>(m: map<K, V>, k: K, v: V)
    requires k in m
    ensures m[k := v][k := m[k]] == m
  {
  }

  lemma {:induction false} AppendThenErasePrecursor(ps: seq<Precursor>, a: Node)
    requires a !in Froms(ps)
    ensures var ps' := ps + [Precursor(a, false)];
            a in Froms(ps') && Erase(ps', Find(Froms(ps'), a)) == ps
  {
    assert Froms(ps + [Precursor(a, false)]) == Froms(ps) + [a];
    AppendThenErase(Froms(ps), a);
  }

  /** Erasing a link just appended gives back the very same gates. */
  lemma {:induction false} RollBackRestores(outs: OutGates, ins: InGates, a: Node, b: Node)
    requires a in outs && b in ins && b !in outs[a] && a !in Froms(ins[b])
    ensures var outs' := outs[a := outs[a] + [b]];
            outs'[a := Erase(outs'[a], Find(outs'[a], b))] == outs
    ensures var ins' := ins[b := ins[b] + [Precursor(a, false)]];
            a in Froms(ins'[b]) && ins'[b := Erase(ins'[b], Find(Froms(ins'[b]), a))] == ins
  {
    AppendThenErase(outs[a], b);
    UndoSet(outs, a, outs[a] + [b]);
    AppendThenErasePrecursor(ins[b], a);
    UndoSet(ins, b, ins[b] + [Precursor(a, false)]);
  }

  class Bloc {
    var nodes: seq<Node>
    var outs: OutGates
    var ins: InGates
    var fwLinks: LinkMap
    var bwLinks: LinkMap
    var colour: map<Node, Colour>

    ghost function Links(): Links
      reads this`outs
    {
      LinksOf(outs)
    }

    ghost predicate GatesOk()
      reads this`nodes, this`outs, this`ins
    {
      WellFormed(nodes, outs, ins)
    }

    ghost predicate Valid()
      reads this`nodes, this`outs, this`ins
    {
      GatesOk() && Acyclic(Links())
    }

    /** A bloc with the given children and no control link. */
    constructor (children: seq<Node>)
      requires Distinct(children)
      ensures Valid() && nodes == children && Links() == {}
    {
      nodes := children;
      outs := map n | n in children :: [];
      ins := map n | n in children :: [];
      fwLinks, bwLinks, colour := map[], map[], map[];
      new;
      forall a ensures !Reach(Links(), a, a) {
        if Reach(Links(), a, a) { var c := ReachFirst(Links(), a, a); }
      }
    }

    /** Lists `to` in the out gate of `from` and conversely, unless it is there already. */
    method AddInGate(from: Node, to: Node) returns (added: bool)
      requires GatesOk() && from in outs && to in outs
      modifies this`outs, this`ins
      ensures GatesOk()
      ensures added == ((from, to) !in old(Links()))
      ensures outs == if added then old(outs)[from := old(outs)[from] + [to]] else old(outs)
      ensures ins == if added then old(ins)[to := old(ins)[to] + [Precursor(from, false)]] else old(ins)
      ensures Links() == old(Links()) + {(from, to)}
    {
      added := Find(outs[from], to) == |outs[from]|;
      if added {
        AddKeepsGates(nodes, outs, ins, from, to);
        AppendPrecursor(from, to);
        outs := outs[from := outs[from] + [to]];
      }
    }

    method AppendPrecursor(from: Node, to: Node)
      requires to in ins
      modifies this`ins
      ensures from !in Froms(old(ins)[to]) ==> ins == old(ins)[to := old(ins)[to] + [Precursor(from, false)]]
      ensures from in Froms(old(ins)[to]) ==>
        var i := Find(Froms(old(ins)[to]), from);
        ins == old(ins)[to := old(ins)[to][i := Precursor(from, false)]]
    {
      var i := Find(Froms(ins[to]), from);
      if i < |ins[to]| {
        ins := ins[to := ins[to][i := Precursor(from, false)]];
      } else {
        ins := ins[to := ins[to] + [Precursor(from, false)]];
      }
    }

    /** Removes a link from both gates; an absent link is an error. */
    method RemoveLink(from: Node, to: Node) returns (r: Result<(), EditError>)
      requires GatesOk() && from in outs && to in outs
      modifies this`outs, this`ins
      ensures GatesOk() && (old(Valid()) ==> Valid())
      ensures r == if (from, to) in old(Links()) then Success(()) else Failure(NotConnected)
      ensures Links() == old(Links()) - {(from, to)}
      ensures r.Failure? ==> outs == old(outs) && ins == old(ins)
      ensures r.Success? ==> outs == old(outs)[from := Erase(old(outs)[from], Find(old(outs)[from], to))]
      ensures r.Success? ==> ins == old(ins)[to := Erase(old(ins)[to], Find(Froms(old(ins)[to]), from))]
    {
      var i := Find(outs[from], to);
      if i == |outs[from]| { return Failure(NotConnected); }
      RemoveKeepsGates(nodes, outs, ins, from, to);
      var k := Find(Froms(ins[to]), from);
      if k < |ins[to]| {
        ins := ins[to := Erase(ins[to], k)];
      }
      outs := outs[from := Erase(outs[from], i)];
      if old(Valid()) { AcyclicSubset(Links(), old(Links())); }
      return Success(());
    }

    /** Collects in `visited` every node met from `node`, following out gates. */
    method InsertNodeChildren(node: Node, visited: set<Node>) returns (visited': set<Node>)
      requires GatesOk() && node in outs && visited <= outs.Keys
      ensures visited <= visited' <= outs.Keys
      ensures forall b :: b in outs[node] ==> b in visited'
      ensures forall x :: x in visited' && x !in visited ==> Reach(Links(), node, x)
      ensures forall x, y :: x in visited' && x !in visited && (x, y) in Links() ==> y in visited'
      decreases outs.Keys - visited
    {
      visited' := visited;
      for i := 0 to |outs[node]|
        invariant visited <= visited' <= outs.Keys
        invariant forall k :: 0 <= k < i ==> outs[node][k] in visited'
        invariant forall x :: x in visited' && x !in visited ==> Reach(Links(), node, x)
        invariant forall x, y :: x in visited' && x !in visited && (x, y) in Links() ==> y in visited'
      {
        var child := outs[node][i];
        assert (node, child) in Links();
        LinkReaches(Links(), node, child);
        if child !in visited' {
          ghost var before := visited';
          visited' := InsertNodeChildren(child, visited' + {child});
          forall x | x in visited' && x !in visited ensures Reach(Links(), node, x) {
            if x !in before { ReachTransitive(Links(), node, child, x); }
          }
        }
      }
    }

    /** Whether some path of links leads from the node back to itself. */
    method HasCycleThrough(node: Node) returns (cycle: bool)
      requires GatesOk() && node in outs
      ensures cycle <==> Reach(Links(), node, node)
    {
      var visited := InsertNodeChildren(node, {});
      cycle := node in visited;
      if Reach(Links(), node, node) {
        var c := ReachFirst(Links(), node, node);
        assert Closed(Links(), visited);
        ReachStaysIn(Links(), visited, c, node);
      }
    }

    /** Adds a control link; a link that would close a cycle is taken back. */
    method AddLink(from: Node, to: Node) returns (r: Result<bool, EditError>)
      requires Valid() && from in outs && to in outs
      modifies this`outs, this`ins
      ensures Valid()
      ensures r == if from == to then Failure(SelfLink)
                   else if (from, to) in old(Links()) then Success(false)
                   else if Reach(old(Links()), to, from) then Failure(CycleDetected)
                   else Success(true)
      ensures r == Success(true) ==>
        outs == old(outs)[from := old(outs)[from] + [to]] &&
        ins == old(ins)[to := old(ins)[to] + [Precursor(from, false)]] &&
        Links() == old(Links()) + {(from, to)}
      ensures r != Success(true) ==> outs == old(outs) && ins == old(ins)
    {
      if from == to { return Failure(SelfLink); }
      var added := AddInGate(from, to);
      AcyclicAfterNewLink(old(Links()), from, to);
      if added {
        var cycle := HasCycleThrough(to);
        if cycle {
          var removed := RemoveLink(from, to);
          RollBackRestores(old(outs), old(ins), from, to);
          return Failure(CycleDetected);
        }
      }
      return Success(added);
    }

    /** Inserts the targets, then `last`, among the nodes that follow x, and
        reports the direct links from x that were followed already. */
    method AddForward(x: Node, targets: set<Node>, last: Node, links: Links, useless: Links)
      returns (useless': Links)
      requires last !in targets
      modifies this`fwLinks
      ensures forall z, y {:trigger y in At(fwLinks, z)} :: y in At(fwLinks, z) <==>
        (y in At(old(fwLinks), z) || (z == x && (y in targets || y == last)))
      ensures forall l :: l in useless' <==> (l in useless ||
        (l.0 == x && (l.1 in targets || l.1 == last) && l.1 in At(old(fwLinks), x) && l in links))
    {
      useless' := useless;
      var rest := targets;
      while rest != {}
        invariant rest <= targets
        invariant forall z, y {:trigger y in At(fwLinks, z)} :: y in At(fwLinks, z) <==>
          (y in At(old(fwLinks), z) || (z == x && y in targets && y !in rest))
        invariant forall l :: l in useless' <==> (l in useless ||
          (l.0 == x && l.1 in targets && l.1 !in rest && l.1 in At(old(fwLinks), x) && l in links))
        decreases rest
      {
        var y :| y in rest;
        rest := rest - {y};
        useless' := InsertForward(x, y, links, useless');
      }
      useless' := InsertForward(x, last, links, useless');
    }

    /** Inserts one dependency; one that existed already makes a direct link useless. */
    method InsertForward(x: Node, y: Node, links: Links, useless: Links) returns (useless': Links)
      modifies this`fwLinks
      ensures forall z, w {:trigger w in At(fwLinks, z)} :: w in At(fwLinks, z) <==>
        (w in At(old(fwLinks), z) || (z == x && w == y))
      ensures useless' == if y in At(old(fwLinks), x) && (x, y) in links then useless + {(x, y)} else useless
    {
      useless' := useless;
      if y in At(fwLinks, x) {
        if (x, y) in links { useless' := useless + {(x, y)}; }
      }
      fwLinks := fwLinks[x := At(fwLinks, x) + {y}];
    }

    method InsertBackward(y: Node, sources: set<Node>, last: Node)
      modifies this`bwLinks
      ensures forall x, z {:trigger x in At(bwLinks, z)} :: x in At(bwLinks, z) <==>
        (x in At(old(bwLinks), z) || (z == y && (x in sources || x == last)))
    {
      bwLinks := bwLinks[y := At(bwLinks, y) + sources + {last}];
    }

    /** Takes one more link into account; `links` holds it already. */
    method ProcessLink(n1: Node, n2: Node, links: Links, useless: Links) returns (useless': Links)
      requires n1 !in At(bwLinks, n1) && n2 !in At(fwLinks, n2)
      modifies this`fwLinks, this`bwLinks
      ensures forall x, y {:trigger y in At(fwLinks, x)} :: y in At(fwLinks, x) <==>
        (y in At(old(fwLinks), x) ||
         ((x == n1 || x in At(old(bwLinks), n1)) && (y == n2 || y in At(old(fwLinks), n2))))
      ensures forall x, y {:trigger x in At(bwLinks, y)} :: x in At(bwLinks, y) <==>
        (x in At(old(bwLinks), y) ||
         ((x == n1 || x in At(old(bwLinks), n1)) && (y == n2 || y in At(old(fwLinks), n2))))
      ensures forall l :: l in useless' <==> (l in useless ||
        ((l.0 == n1 || l.0 in At(old(bwLinks), n1)) && (l.1 == n2 || l.1 in At(old(fwLinks), n2)) &&
         l.1 in At(old(fwLinks), l.0) && l in links))
    {
      var bwn1, fwn2 := At(bwLinks, n1), At(fwLinks, n2);
      useless' := useless;
      var rest := bwn1;
      while rest != {}
        invariant rest <= bwn1
        invariant bwLinks == old(bwLinks)
        invariant forall x, y {:trigger y in At(fwLinks, x)} :: y in At(fwLinks, x) <==>
          (y in At(old(fwLinks), x) || (x in bwn1 && x !in rest && (y == n2 || y in fwn2)))
        invariant forall l :: l in useless' <==> (l in useless ||
          (l.0 in bwn1 && l.0 !in rest && (l.1 == n2 || l.1 in fwn2) &&
           l.1 in At(old(fwLinks), l.0) && l in links))
        decreases rest
      {
        var x :| x in rest;
        rest := rest - {x};
        useless' := AddForward(x, fwn2, n2, links, useless');
      }
      useless' := AddForward(n1, fwn2, n2, links, useless');
      rest := fwn2;
      while rest != {}
        invariant rest <= fwn2
        invariant forall x, y {:trigger y in At(fwLinks, x)} :: y in At(fwLinks, x) <==>
          (y in At(old(fwLinks), x) || ((x == n1 || x in bwn1) && (y == n2 || y in fwn2)))
        invariant forall x, y {:trigger x in At(bwLinks, y)} :: x in At(bwLinks, y) <==>
          (x in At(old(bwLinks), y) || (y in fwn2 && y !in rest && (x == n1 || x in bwn1)))
        decreases rest
      {
        var y :| y in rest;
        rest := rest - {y};
        InsertBackward(y, bwn1, n1);
      }
      InsertBackward(n2, bwn1, n1);
    }

    /** Takes every link of one out gate into account. */
    method ProcessOutGate(n1: Node, links: Links, useless: Links)
      returns (links': Links, useless': Links)
      requires n1 in outs && Distinct(outs[n1]) && Acyclic(links + OutLinks(n1, outs[n1]))
      requires links !! OutLinks(n1, outs[n1])
      requires Exact(links, fwLinks, bwLinks, useless)
      modifies this`fwLinks, this`bwLinks
      ensures links' == links + OutLinks(n1, outs[n1])
      ensures Exact(links', fwLinks, bwLinks, useless')
    {
      links', useless' := links, useless;
      for j := 0 to |outs[n1]|
        invariant links' == links + OutLinks(n1, outs[n1][..j])
        invariant Exact(links', fwLinks, bwLinks, useless')
      {
        var n2 := outs[n1][j];
        ghost var before, fw, bw, us := links', fwLinks, bwLinks, useless';
        assert (n1, n2) !in before;
        links' := links' + {(n1, n2)};
        AcyclicSubset(links', links + OutLinks(n1, outs[n1]));
        AcyclicSubset(before, links');
        useless' := ProcessLink(n1, n2, links', useless');
        ProcessedLink(before, n1, n2, fw, bw, us, fwLinks, bwLinks, useless');
        assert links' == links + OutLinks(n1, outs[n1][..j + 1]);
      }
      assert outs[n1][..|outs[n1]|] == outs[n1];
    }

    /** Computes both dependency maps of the whole bloc and the useless links. */
    method PerformCFComputations() returns (useless: Links)
      requires Valid()
      modifies this`fwLinks, this`bwLinks
      ensures ForwardExact(Links(), fwLinks) && BackwardExact(Links(), bwLinks)
      ensures useless == UselessLinks(Links())
    {
      fwLinks, bwLinks := map[], map[];
      var links: Links := {};
      useless := {};
      NothingProcessed();
      for i := 0 to |nodes|
        invariant forall a, b :: (a, b) in links <==> a in nodes[..i] && a in outs && b in outs[a]
        invariant Exact(links, fwLinks, bwLinks, useless)
      {
        var n1 := nodes[i];
        assert n1 in Elements(nodes);
        AcyclicSubset(links + OutLinks(n1, outs[n1]), Links());
        links, useless := ProcessOutGate(n1, links, useless);
      }
      assert links == Links() by {
        forall a | a in outs ensures a in nodes[..|nodes|] { assert a in Elements(nodes); }
      }
    }

    /** Whether a path leads from start to end (forwards) or from end to start. */
    method AreLinked(start: Node, end: Node, forward: bool) returns (linked: bool)
      requires ForwardExact(Links(), fwLinks) && BackwardExact(Links(), bwLinks)
      ensures linked <==> if forward then Reach(Links(), start, end) else Reach(Links(), end, start)
    {
      var nexts := if forward then At(fwLinks, start) else At(bwLinks, start);
      linked := end in nexts;
    }

    /** Whether no path orders the two nodes. */
    method ArePossiblyRunnableAtSameTime(start: Node, end: Node) returns (free: bool)
      requires ForwardExact(Links(), fwLinks) && BackwardExact(Links(), bwLinks)
      ensures free <==> !Reach(Links(), start, end) && !Reach(Links(), end, start)
    {
      free := end !in At(fwLinks, start) && end !in At(bwLinks, start);
    }

    /** Removes one link that is present. */
    method RemovePresentLink(l: (Node, Node))
      requires Valid() && l in Links()
      modifies this`outs, this`ins
      ensures Valid() && Links() == old(Links()) - {l}
    {
      assert l == (l.0, l.1);
      var r := RemoveLink(l.0, l.1);
    }

    method RemoveLinks(toKill: Links)
      requires Valid() && toKill <= Links()
      modifies this`outs, this`ins
      ensures Valid() && Links() == old(Links()) - toKill
    {
      ghost var e := Links();
      var rest := toKill;
      while rest != {}
        invariant rest <= toKill && Valid() && Links() == e - (toKill - rest)
        decreases rest
      {
        var l :| l in rest;
        OneLinkLess(e, toKill, rest, l);
        RemovePresentLink(l);
        rest := rest - {l};
      }
    }

    /** Removes every useless link; the nodes stay ordered as before, by as few links as possible. */
    method RemoveRedundantLinks()
      requires Valid()
      modifies this`outs, this`ins, this`fwLinks, this`bwLinks
      ensures Valid()
      ensures Links() == old(Links()) - UselessLinks(old(Links()))
      ensures SameReach(old(Links()), Links())
      ensures forall l :: l in Links() ==> !Reach(Links() - {l}, l.0, l.1)
    {
      var toKill := PerformCFComputations();
      RemoveLinks(toKill);
      fwLinks, bwLinks := map[], map[];
      ghost var e := old(Links());
      RemovingUselessKeepsReach(e);
      forall l | l in Links() ensures !Reach(Links() - {l}, l.0, l.1) {
        KeptLinksAreNeeded(e, l);
      }
    }

    ghost function Greys(): set<Node>
      reads this`colour
    {
      set n | n in colour && colour[n] == Grey
    }

    /** Greys the white nodes of a list and queues them. */
    method QueueWhites(l: seq<Node>, fifo: seq<Node>) returns (fifo': seq<Node>, ghost whites: seq<Node>)
      requires Elements(l) <= colour.Keys
      modifies this`colour
      ensures colour.Keys == old(colour).Keys
      ensures fifo' == fifo + whites && Distinct(whites)
      ensures Elements(whites) == Elements(l) - old(Greys())
      ensures Greys() == old(Greys()) + Elements(whites)
    {
      fifo', whites := fifo, [];
      for i := 0 to |l|
        invariant colour.Keys == old(colour).Keys
        invariant fifo' == fifo + whites && Distinct(whites)
        invariant Elements(whites) == Elements(l[..i]) - old(Greys())
        invariant Greys() == old(Greys()) + Elements(whites)
      {
        var n := l[i];
        assert n in Elements(l);
        assert Elements(l[..i + 1]) == Elements(l[..i]) + {n};
        if colour[n] == White {
          ghost var before := Greys();
          assert n !in Elements(whites);
          DistinctSnoc(whites, n);
          colour := colour[n := Grey];
          fifo', whites := fifo' + [n], whites + [n];
          assert Greys() == before + {n};
        }
      }
      assert l[..|l|] == l;
    }

    /** Visits the head of the queue: its white neighbours, in both directions, join the queue. */
    method VisitNext(fifo: seq<Node>) returns (fifo': seq<Node>, ghost added: seq<Node>)
      requires GatesOk() && colour.Keys == outs.Keys && fifo != [] && fifo[0] in outs
      modifies this`colour
      ensures colour.Keys == outs.Keys && fifo' == fifo[1..] + added && Distinct(added)
      ensures forall n: Node :: n in added <==> (fifo[0], n) in Undirected(Links()) && n !in old(Greys())
      ensures Greys() == old(Greys()) + Elements(added) && Elements(added) <= outs.Keys
    {
      var cur := fifo[0];
      Neighbours(nodes, outs, ins, cur);
      ghost var added1, added2;
      fifo', added1 := QueueWhites(outs[cur], fifo[1..]);
      fifo', added2 := QueueWhites(Froms(ins[cur]), fifo');
      DistinctConcat(added1, added2);
      added := added1 + added2;
      assert Elements(added) == Elements(added1) + Elements(added2);
      assert forall n :: n in added <==> n in Elements(added);
    }

    /** Breadth-first visit, in both directions, of the nodes joined to `start`. */
    method VisitComponent(start: Node) returns (ll: seq<Node>)
      requires GatesOk() && colour.Keys == outs.Keys
      requires start in outs && start !in Greys()
      requires Closed(Undirected(Links()), Greys())
      modifies this`colour
      ensures colour.Keys == outs.Keys && Closed(Undirected(Links()), Greys())
      ensures Greys() == old(Greys()) + Elements(ll) && Elements(ll) !! old(Greys())
      ensures Distinct(ll) && start in ll
      ensures forall n :: n in ll <==> ReachOrSame(Undirected(Links()), start, n)
    {
      ghost var u, before := Undirected(Links()), Greys();
      colour := colour[start := Grey];
      ll := [];
      var fifo := [start];
      assert Greys() == before + {start} && [] + [start] == [start];
      while fifo != []
        invariant colour.Keys == outs.Keys && Elements(ll) + Elements(fifo) <= outs.Keys
        invariant Frontier(u, start, before, ll, fifo, Greys())
        decreases outs.Keys - Elements(ll)
      {
        var cur := fifo[0];
        assert cur in Elements(fifo);
        ghost var fifo0, greys0, added := fifo, Greys(), [];
        fifo, added := VisitNext(fifo);
        VisitMoves(u, start, before, ll, fifo0, greys0, added, outs.Keys);
        ll := ll + [cur];
      }
      VisitComplete(Links(), start, before, ll, Greys());
    }

    /** The position of the first white child, or the number of children. */
    method FirstWhite() returns (it: nat)
      requires colour.Keys == Elements(nodes)
      ensures it <= |nodes|
      ensures it < |nodes| ==> nodes[it] in colour && nodes[it] !in Greys()
      ensures it == |nodes| ==> Greys() == Elements(nodes)
    {
      it := 0;
      while it < |nodes| && colour[nodes[it]] != White
        invariant it <= |nodes| && forall k :: 0 <= k < it ==> nodes[k] in Greys()
      {
        it := it + 1;
      }
    }

    /** Adds the group of a white node. */
    method AddGroup(start: Node, parts: seq<seq<Node>>) returns (parts': seq<seq<Node>>)
      requires GatesOk() && colour.Keys == outs.Keys && start in outs && start !in Greys()
      requires Closed(Undirected(Links()), Greys()) && Groups(Undirected(Links()), parts, Greys())
      modifies this`colour
      ensures colour.Keys == outs.Keys && old(Greys()) <= Greys() && start in Greys()
      ensures Closed(Undirected(Links()), Greys()) && Groups(Undirected(Links()), parts', Greys())
    {
      ghost var before := Greys();
      var ll := VisitComponent(start);
      NewGroup(Links(), parts, before, start, ll);
      assert start in Elements(ll);
      return parts + [ll];
    }

    /** Splits the children into groups that no control link joins. */
    method SplitIntoIndependentGraphs() returns (parts: seq<seq<Node>>)
      requires Valid()
      modifies this`colour
      ensures forall n :: n in nodes <==> exists k :: 0 <= k < |parts| && n in parts[k]
      ensures forall k :: 0 <= k < |parts| ==> parts[k] != [] && Distinct(parts[k])
      ensures forall k, l, n :: 0 <= k < l < |parts| && n in parts[k] ==> n !in parts[l]
      ensures forall k, a, b :: 0 <= k < |parts| && a in parts[k] ==>
        (b in parts[k] <==> ReachOrSame(Undirected(Links()), a, b))
    {
      colour := map n | n in nodes :: White;
      assert Greys() == {};
      parts := [];
      var it := 0;
      while it < |nodes|
        invariant 0 <= it <= |nodes| && colour.Keys == Elements(nodes) && Closed(Undirected(Links()), Greys())
        invariant it < |nodes| ==> nodes[it] in colour && nodes[it] !in Greys()
        invariant it == |nodes| ==> Greys() == Elements(nodes)
        invariant Greys() <= Elements(nodes) && Groups(Undirected(Links()), parts, Greys())
        decreases Elements(nodes) - Greys()
      {
        parts := AddGroup(nodes[it], parts);
        it := FirstWhite();
      }
      assert forall n :: n in nodes <==> n in Greys();
    }
  }
}
