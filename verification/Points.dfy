/** Points: trees of links (one after the other) and forks (side by side) over nodes. */
module Points {
  import opened Graph
  import opened Lists

  datatype Point = Elementary(node: Node) | Linked(nodes: seq<Point>) | Fork(nodes: seq<Point>)

  /** How many cores a node can use at once. */
  type Levels = Node -> nat

  function Leaves(p: Point): seq<Node>
    decreases p
  {
    match p
    case Elementary(n) => [n]
    case Linked(ps) => LeavesOf(ps)
    case Fork(ps) => LeavesOf(ps)
  }

  function LeavesOf(ps: seq<Point>): seq<Node>
    decreases ps
  {
    if ps == [] then [] else LeavesOf(ps[..|ps| - 1]) + Leaves(ps[|ps| - 1])
  }

  // ----- the level of parallelism

  function Level(p: Point, w: Levels): nat
    decreases p
  {
    match p
    case Elementary(n) => w(n)
    case Linked(ps) => MaxLevel(ps, w)
    case Fork(ps) => SumLevel(ps, w)
  }

  function MaxLevel(ps: seq<Point>, w: Levels): nat
    decreases ps
  {
    if ps == [] then 0
    else
      var m, l := MaxLevel(ps[..|ps| - 1], w), Level(ps[|ps| - 1], w);
      if m < l then l else m
  }

  function SumLevel(ps: seq<Point>, w: Levels): nat
    decreases ps
  {
    if ps == [] then 0 else SumLevel(ps[..|ps| - 1], w) + Level(ps[|ps| - 1], w)
  }

  /** The maximum over the chain, the sum over the branches. */
  method GetMaxLevelOfParallelism(p: Point, w: Levels) returns (ret: nat)
    ensures ret == Level(p, w)
    decreases p
  {
    match p
    case Elementary(n) => ret := w(n);
    case Linked(ps) =>
      ret := 0;
      for i := 0 to |ps|
        invariant ret == MaxLevel(ps[..i], w)
      {
        var l := GetMaxLevelOfParallelism(ps[i], w);
        assert ps[..i + 1][..i] == ps[..i];
        if ret < l { ret := l; }
      }
      assert ps[..|ps|] == ps;
    case Fork(ps) =>
      ret := 0;
      for i := 0 to |ps|
        invariant ret == SumLevel(ps[..i], w)
      {
        var l := GetMaxLevelOfParallelism(ps[i], w);
        assert ps[..i + 1][..i] == ps[..i];
        ret := ret + l;
      }
      assert ps[..|ps|] == ps;
  }

  // ----- the order of the leaves

  /** Node a has to be over before node b can start. */
  ghost predicate Before(p: Point, a: Node, b: Node)
    decreases p
  {
    match p
    case Elementary(n) => false
    case Linked(ps) => BeforeInside(ps, a, b) || BeforeAcross(ps, a, b)
    case Fork(ps) => BeforeInside(ps, a, b)
  }

  ghost predicate BeforeInside(ps: seq<Point>, a: Node, b: Node)
    decreases ps
  {
    ps != [] && (BeforeInside(ps[..|ps| - 1], a, b) || Before(ps[|ps| - 1], a, b))
  }

  /** a is in an earlier point of the chain than b. */
  ghost predicate BeforeAcross(ps: seq<Point>, a: Node, b: Node)
    decreases ps
  {
    ps != [] && (BeforeAcross(ps[..|ps| - 1], a, b) || (a in LeavesOf(ps[..|ps| - 1]) && b in Leaves(ps[|ps| - 1])))
  }

  /** Nodes that may all run at the same time. */
  ghost predicate Antichain(p: Point, s: set<Node>) {
    forall a: Node, b: Node {:trigger Before(p, a, b)} :: a in s && b in s ==> !Before(p, a, b)
  }

  /** The total level of the nodes of a list that are in s. */
  ghost function Weight(l: seq<Node>, s: set<Node>, w: Levels): nat {
    if l == [] then 0
    else Weight(l[..|l| - 1], s, w) + if l[|l| - 1] in s then w(l[|l| - 1]) else 0
  }

  lemma {:induction false} WeightOfConcat(l: seq<Node>, m: seq<Node>, s: set<Node>, w: Levels)
    ensures Weight(l + m, s, w) == Weight(l, s, w) + Weight(m, s, w)
    decreases |m|
  {
    if m == [] {
      assert l + m == l;
    } else {
      assert (l + m)[..|l + m| - 1] == l + m[..|m| - 1];
      WeightOfConcat(l, m[..|m| - 1], s, w);
    }
  }

  /** Only membership of the listed nodes matters. */
  lemma {:induction false} WeightOfSame(l: seq<Node>, s: set<Node>, t: set<Node>, w: Levels)
    requires forall n :: n in l ==> (n in s <==> n in t)
    ensures Weight(l, s, w) == Weight(l, t, w)
    decreases |l|
  {
    if l != [] { WeightOfSame(l[..|l| - 1], s, t, w); }
  }

  lemma {:induction false} WeightOfNothing(l: seq<Node>, w: Levels)
    ensures Weight(l, {}, w) == 0
    decreases |l|
  {
    if l != [] { WeightOfNothing(l[..|l| - 1], w); }
  }

  // ----- the bound is safe

  /** Nodes that may run together never need more cores than the level. */
  lemma {:induction false} LevelIsBound(p: Point, s: set<Node>, w: Levels)
    requires Antichain(p, s)
    ensures Weight(Leaves(p), s, w) <= Level(p, w)
    decreases p, 0
  {
    match p
    case Elementary(n) => assert [n][..0] == [];
    case Linked(ps) =>
      forall a: Node, b: Node | a in s && b in s ensures !BeforeInside(ps, a, b) && !BeforeAcross(ps, a, b) {
        assert !Before(p, a, b);
      }
      MaxIsBound(ps, s, w);
    case Fork(ps) =>
      forall a: Node, b: Node | a in s && b in s ensures !BeforeInside(ps, a, b) {
        assert !Before(p, a, b);
      }
      SumIsBound(ps, s, w);
  }

  ghost predicate InsideAntichain(ps: seq<Point>, s: set<Node>) {
    forall a: Node, b: Node {:trigger BeforeInside(ps, a, b)} :: a in s && b in s ==> !BeforeInside(ps, a, b)
  }

  ghost predicate AcrossAntichain(ps: seq<Point>, s: set<Node>) {
    forall a: Node, b: Node {:trigger BeforeAcross(ps, a, b)} :: a in s && b in s ==> !BeforeAcross(ps, a, b)
  }

  lemma {:induction false} SumIsBound(ps: seq<Point>, s: set<Node>, w: Levels)
    requires InsideAntichain(ps, s)
    ensures Weight(LeavesOf(ps), s, w) <= SumLevel(ps, w)
    decreases ps, 1
  {
    if ps != [] {
      var front, last := ps[..|ps| - 1], ps[|ps| - 1];
      assert forall a: Node, b: Node {:trigger BeforeInside(front, a, b)} ::
        BeforeInside(front, a, b) ==> BeforeInside(ps, a, b);
      assert forall a: Node, b: Node {:trigger Before(last, a, b)} :: Before(last, a, b) ==> BeforeInside(ps, a, b);
      SumIsBound(front, s, w);
      LevelIsBound(last, s, w);
      WeightOfConcat(LeavesOf(front), Leaves(last), s, w);
    }
  }

  lemma {:induction false} MaxIsBound(ps: seq<Point>, s: set<Node>, w: Levels)
    requires InsideAntichain(ps, s) && AcrossAntichain(ps, s)
    ensures Weight(LeavesOf(ps), s, w) <= MaxLevel(ps, w)
    decreases ps, 1
  {
    if ps != [] {
      var front, last := ps[..|ps| - 1], ps[|ps| - 1];
      assert forall a: Node, b: Node {:trigger BeforeInside(front, a, b)} ::
        BeforeInside(front, a, b) ==> BeforeInside(ps, a, b);
      assert forall a: Node, b: Node {:trigger BeforeAcross(front, a, b)} ::
        BeforeAcross(front, a, b) ==> BeforeAcross(ps, a, b);
      assert forall a: Node, b: Node {:trigger Before(last, a, b)} :: Before(last, a, b) ==> BeforeInside(ps, a, b);
      MaxIsBound(front, s, w);
      LevelIsBound(last, s, w);
      WeightOfConcat(LeavesOf(front), Leaves(last), s, w);
      if a: Node :| a in s && a in LeavesOf(front) {
        forall b: Node | b in Leaves(last) ensures b !in s { assert b in s ==> BeforeAcross(ps, a, b); }
        WeightOfSame(Leaves(last), s, {}, w);
        WeightOfNothing(Leaves(last), w);
      } else {
        WeightOfSame(LeavesOf(front), s, {}, w);
        WeightOfNothing(LeavesOf(front), w);
      }
    }
  }

  // ----- the bound is attained

  lemma {:induction false} BeforeIsInside(p: Point, a: Node, b: Node)
    requires Before(p, a, b)
    ensures a in Leaves(p) && b in Leaves(p)
    decreases p, 0
  {
    match p
    case Elementary(n) =>
    case Linked(ps) => BeforeIsInsideOf(ps, a, b);
    case Fork(ps) => BeforeIsInsideOf(ps, a, b);
  }

  lemma {:induction false} BeforeIsInsideOf(ps: seq<Point>, a: Node, b: Node)
    requires BeforeInside(ps, a, b) || BeforeAcross(ps, a, b)
    ensures a in LeavesOf(ps) && b in LeavesOf(ps)
    decreases ps, 1
  {
    var front, last := ps[..|ps| - 1], ps[|ps| - 1];
    if BeforeInside(front, a, b) || BeforeAcross(front, a, b) {
      BeforeIsInsideOf(front, a, b);
    } else if Before(last, a, b) {
      BeforeIsInside(last, a, b);
    }
  }

  /** Some nodes that may run together need as many cores as the level. */
  lemma {:induction false} LevelIsAttained(p: Point, w: Levels) returns (s: set<Node>)
    requires Distinct(Leaves(p))
    ensures Antichain(p, s) && (forall n :: n in s ==> n in Leaves(p)) && Weight(Leaves(p), s, w) == Level(p, w)
    decreases p, 0
  {
    match p
    case Elementary(n) =>
      s := {n};
      assert [n][..0] == [];
    case Linked(ps) => s := MaxIsAttained(ps, w);
    case Fork(ps) => s := SumIsAttained(ps, w);
  }

  lemma {:induction false} SumIsAttained(ps: seq<Point>, w: Levels) returns (s: set<Node>)
    requires Distinct(LeavesOf(ps))
    ensures InsideAntichain(ps, s) && (forall n :: n in s ==> n in LeavesOf(ps))
    ensures Weight(LeavesOf(ps), s, w) == SumLevel(ps, w)
    decreases ps, 1
  {
    if ps == [] {
      s := {};
    } else {
      var front, last := ps[..|ps| - 1], ps[|ps| - 1];
      DistinctParts(LeavesOf(front), Leaves(last));
      var f := SumIsAttained(front, w);
      var l := LevelIsAttained(last, w);
      s := f + l;
      forall a: Node, b: Node | a in s && b in s ensures !BeforeInside(ps, a, b) {
        if BeforeInside(front, a, b) { BeforeIsInsideOf(front, a, b); }
        if Before(last, a, b) { BeforeIsInside(last, a, b); }
      }
      WeightOfSame(LeavesOf(front), s, f, w);
      WeightOfSame(Leaves(last), s, l, w);
      WeightOfConcat(LeavesOf(front), Leaves(last), s, w);
    }
  }

  lemma {:induction false} MaxIsAttained(ps: seq<Point>, w: Levels) returns (s: set<Node>)
    requires Distinct(LeavesOf(ps))
    ensures InsideAntichain(ps, s) && AcrossAntichain(ps, s) && (forall n :: n in s ==> n in LeavesOf(ps))
    ensures Weight(LeavesOf(ps), s, w) == MaxLevel(ps, w)
    decreases ps, 1
  {
    if ps == [] {
      s := {};
    } else {
      var front, last := ps[..|ps| - 1], ps[|ps| - 1];
      DistinctParts(LeavesOf(front), Leaves(last));
      var f := MaxIsAttained(front, w);
      var l := LevelIsAttained(last, w);
      s := if MaxLevel(front, w) < Level(last, w) then l else f;
      forall a: Node, b: Node | a in s && b in s ensures !BeforeInside(ps, a, b) && !BeforeAcross(ps, a, b) {
        if BeforeInside(front, a, b) || BeforeAcross(front, a, b) { BeforeIsInsideOf(front, a, b); }
        if Before(last, a, b) { BeforeIsInside(last, a, b); }
      }
      WeightOfConcat(LeavesOf(front), Leaves(last), s, w);
      if MaxLevel(front, w) < Level(last, w) {
        WeightOfSame(LeavesOf(front), s, {}, w);
        WeightOfNothing(LeavesOf(front), w);
      } else {
        WeightOfSame(Leaves(last), s, {}, w);
        WeightOfNothing(Leaves(last), w);
      }
    }
  }

  /** The level is the largest total level of nodes that may run at the same time. */
  lemma {:induction false} LevelIsWidth(p: Point, w: Levels)
    requires Distinct(Leaves(p))
    ensures forall s :: Antichain(p, s) ==> Weight(Leaves(p), s, w) <= Level(p, w)
    ensures exists s :: Antichain(p, s) && Weight(Leaves(p), s, w) == Level(p, w)
  {
    forall s | Antichain(p, s) ensures Weight(Leaves(p), s, w) <= Level(p, w) { LevelIsBound(p, s, w); }
    var s := LevelIsAttained(p, w);
  }
}
