/** Control gates. The out gate of a node lists the nodes it leads to; the in
    gate lists its precursors, each with the flag raised when it is done. */
module Gates {
  import opened Graph
  import opened Lists

  datatype Precursor = Precursor(from: Node, done: bool)

  type OutGates = map<Node, seq<Node>>
  type InGates = map<Node, seq<Precursor>>

  function Froms(ps: seq<Precursor>): (fs: seq<Node>)
    ensures |fs| == |ps| && forall i :: 0 <= i < |ps| ==> fs[i] == ps[i].from
  {
    seq(|ps|, i requires 0 <= i < |ps| => ps[i].from)
  }

  /** The first position of an element, or the length when it is absent. */
  function Find<T(==)>(s: seq<T>, x: T): (i: nat)
    ensures i <= |s|
    ensures i < |s| ==> s[i] == x
    ensures forall j :: 0 <= j < i ==> s[j] != x
    ensures i < |s| <==> x in s
  {
    if s == [] then 0 else if s[0] == x then 0 else
      assert s == [s[0]] + s[1..];
      1 + Find(s[1..], x)
  }

  /** Erases the element at position i. */
  function Erase<T>(s: seq<T>, i: nat): (r: seq<T>)
    requires i < |s|
    ensures multiset(s) == multiset(r) + multiset{s[i]}
  {
    assert s == s[..i] + [s[i]] + s[i + 1..];
    s[..i] + s[i + 1..]
  }

  lemma {:induction false} EraseDistinct<T>(s: seq<T>, i: nat)
    requires i < |s| && Distinct(s)
    ensures Distinct(Erase(s, i))
    ensures forall x :: x in Erase(s, i) <==> x in s && x != s[i]
  {
    var r := Erase(s, i);
    forall x | x in s && x != s[i] ensures x in r {
      var j :| 0 <= j < |s| && s[j] == x;
      if j < i { assert r[j] == x; } else { assert r[j - 1] == x; }
    }
  }

  ghost function LinksOf(outs: OutGates): (e: Links)
    ensures forall a, b :: (a, b) in e <==> a in outs && b in outs[a]
  {
    set a, b | a in outs && b in outs[a] :: (a, b)
  }

  /** Each end of every link knows the other one. */
  ghost predicate Mirror(outs: OutGates, ins: InGates) {
    forall a, b {:trigger b in outs[a]} {:trigger a in Froms(ins[b])} ::
      a in outs && b in ins ==> (b in outs[a] <==> a in Froms(ins[b]))
  }

  ghost predicate OutGatesOk(outs: OutGates) {
    forall a {:trigger outs[a]} :: a in outs ==>
      Distinct(outs[a]) && forall b {:trigger b in outs[a]} :: b in outs[a] ==> b in outs
  }

  ghost predicate InGatesOk(ins: InGates) {
    forall b {:trigger ins[b]} :: b in ins ==>
      Distinct(Froms(ins[b])) && forall a {:trigger a in Froms(ins[b])} :: a in Froms(ins[b]) ==> a in ins
  }

  function Elements<T(!new)>(s: seq<T>): (r: set<T>)
    ensures forall x :: x in r <==> x in s
  {
    set x | x in s
  }

  /** The gates of exactly the given nodes, without duplicates or strangers. */
  ghost predicate WellFormed(nodes: seq<Node>, outs: OutGates, ins: InGates) {
    && Distinct(nodes)
    && outs.Keys == Elements(nodes) && ins.Keys == Elements(nodes)
    && OutGatesOk(outs) && InGatesOk(ins) && Mirror(outs, ins)
  }

  /** The control links of a bloc, as both sides list them. */
  datatype ControlGraph = ControlGraph(nodes: seq<Node>, outs: OutGates, ins: InGates) {
    ghost function Links(): Links { LinksOf(outs) }

    ghost predicate Valid() {
      nodes != [] && WellFormed(nodes, outs, ins) && Acyclic(Links())
    }
  }

  lemma {:induction false} AddedLink(outs: OutGates, ins: InGates, a: Node, b: Node)
    requires a in outs && b in ins && b !in outs[a] && Mirror(outs, ins)
    ensures Mirror(outs[a := outs[a] + [b]], ins[b := ins[b] + [Precursor(a, false)]])
    ensures LinksOf(outs[a := outs[a] + [b]]) == LinksOf(outs) + {(a, b)}
    ensures a !in Froms(ins[b]) && Froms(ins[b] + [Precursor(a, false)]) == Froms(ins[b]) + [a]
  {
    assert Froms(ins[b] + [Precursor(a, false)]) == Froms(ins[b]) + [a];
  }

  lemma {:induction false} RemovedLink(outs: OutGates, ins: InGates, a: Node, b: Node)
    requires a in outs && b in outs[a] && b in ins && Mirror(outs, ins)
    requires Distinct(outs[a]) && Distinct(Froms(ins[b]))
    ensures a in Froms(ins[b])
    ensures var outs' := outs[a := Erase(outs[a], Find(outs[a], b))];
            var ins' := ins[b := Erase(ins[b], Find(Froms(ins[b]), a))];
            Mirror(outs', ins') && LinksOf(outs') == LinksOf(outs) - {(a, b)} &&
            Froms(ins'[b]) == Erase(Froms(ins[b]), Find(Froms(ins[b]), a))
  {
    var i, k := Find(outs[a], b), Find(Froms(ins[b]), a);
    EraseDistinct(outs[a], i);
    EraseDistinct(Froms(ins[b]), k);
    assert Froms(Erase(ins[b], k)) == Erase(Froms(ins[b]), k);
  }

  lemma {:induction false} OutGatesSet(outs: OutGates, a: Node, l: seq<Node>)
    requires OutGatesOk(outs) && a in outs && Distinct(l) && Elements(l) <= outs.Keys
    ensures OutGatesOk(outs[a := l])
  {
    var outs' := outs[a := l];
    forall x | x in outs' ensures Distinct(outs'[x]) && forall b :: b in outs'[x] ==> b in outs' {
      if x == a { assert forall b :: b in l ==> b in Elements(l); }
    }
  }

  lemma {:induction false} InGatesSet(ins: InGates, b: Node, l: seq<Precursor>)
    requires InGatesOk(ins) && b in ins && Distinct(Froms(l)) && Elements(Froms(l)) <= ins.Keys
    ensures InGatesOk(ins[b := l])
  {
    var ins' := ins[b := l];
    forall x | x in ins' ensures Distinct(Froms(ins'[x])) && forall a :: a in Froms(ins'[x]) ==> a in ins' {
      if x == b { assert forall a :: a in Froms(l) ==> a in Elements(Froms(l)); }
    }
  }

  lemma {:induction false} AddKeepsOutGates(outs: OutGates, a: Node, b: Node)
    requires OutGatesOk(outs) && a in outs && b in outs && b !in outs[a]
    ensures OutGatesOk(outs[a := outs[a] + [b]])
  {
    DistinctSnoc(outs[a], b);
    OutGatesSet(outs, a, outs[a] + [b]);
  }

  lemma {:induction false} AddKeepsInGates(ins: InGates, a: Node, b: Node)
    requires InGatesOk(ins) && a in ins && b in ins && a !in Froms(ins[b])
    requires Froms(ins[b] + [Precursor(a, false)]) == Froms(ins[b]) + [a]
    ensures InGatesOk(ins[b := ins[b] + [Precursor(a, false)]])
  {
    DistinctSnoc(Froms(ins[b]), a);
    InGatesSet(ins, b, ins[b] + [Precursor(a, false)]);
  }

  /** Listing a new link at both its ends keeps the gates well formed. */
  lemma {:induction false} AddKeepsGates(nodes: seq<Node>, outs: OutGates, ins: InGates, a: Node, b: Node)
    requires WellFormed(nodes, outs, ins) && a in outs && b in outs && b !in outs[a]
    ensures WellFormed(nodes, outs[a := outs[a] + [b]], ins[b := ins[b] + [Precursor(a, false)]])
    ensures LinksOf(outs[a := outs[a] + [b]]) == LinksOf(outs) + {(a, b)}
    ensures a !in Froms(ins[b])
  {
    AddedLink(outs, ins, a, b);
    AddKeepsOutGates(outs, a, b);
    AddKeepsInGates(ins, a, b);
  }

  /** Erasing a link at both its ends keeps the gates well formed. */
  lemma {:induction false} RemoveKeepsGates(nodes: seq<Node>, outs: OutGates, ins: InGates, a: Node, b: Node)
    requires WellFormed(nodes, outs, ins) && a in outs && b in outs && b in outs[a]
    ensures a in Froms(ins[b])
    ensures var outs' := outs[a := Erase(outs[a], Find(outs[a], b))];
            var ins' := ins[b := Erase(ins[b], Find(Froms(ins[b]), a))];
            WellFormed(nodes, outs', ins') && LinksOf(outs') == LinksOf(outs) - {(a, b)}
  {
    RemovedLink(outs, ins, a, b);
    EraseDistinct(outs[a], Find(outs[a], b));
    EraseDistinct(Froms(ins[b]), Find(Froms(ins[b]), a));
    OutGatesSet(outs, a, Erase(outs[a], Find(outs[a], b)));
    InGatesSet(ins, b, Erase(ins[b], Find(Froms(ins[b]), a)));
  }
}
