/** Increasing lists of ranks, and the ranks at which a flag is raised. */
module Ranks {

  /** The increasing list of the ranks whose flag is v. */
  function Positions(flags: seq<bool>, v: bool): (ps: seq<nat>)
    ensures |ps| <= |flags|
  {
    if flags == [] then []
    else var n := |flags| - 1;
      Positions(flags[..n], v) + if flags[n] == v then [n] else []
  }

  ghost predicate Increasing(s: seq<nat>) {
    forall i, j :: 0 <= i < j < |s| ==> s[i] < s[j]
  }

  /** Positions is an increasing bijection onto the ranks that carry the flag. */
  lemma {:induction false} PositionsAreRanks(flags: seq<bool>, v: bool)
    ensures Increasing(Positions(flags, v))
    ensures forall r: nat :: r in Positions(flags, v) <==> r < |flags| && flags[r] == v
  {
    if flags != [] {
      var n := |flags| - 1;
      PositionsAreRanks(flags[..n], v);
      var front := Positions(flags[..n], v);
      forall i | 0 <= i < |front| ensures front[i] < n { assert front[i] in front; }
    }
  }

  /** The ranks with and without the flag share out all ranks. */
  lemma {:induction false} PositionsComplement(flags: seq<bool>)
    ensures |Positions(flags, true)| + |Positions(flags, false)| == |flags|
    ensures forall r: nat :: r < |flags| ==> (r in Positions(flags, true) <==> r !in Positions(flags, false))
  {
    PositionsAreRanks(flags, true);
    PositionsAreRanks(flags, false);
    if flags != [] { PositionsComplement(flags[..|flags| - 1]); }
  }

  lemma {:induction false} LastIsGreatest(s: seq<nat>, t: seq<nat>)
    requires Increasing(s) && Increasing(t) && s != [] && t != []
    requires forall r :: r in s <==> r in t
    ensures s[|s| - 1] == t[|t| - 1]
  {
    var m, k := |s| - 1, |t| - 1;
    assert s[m] in t && t[k] in s;
  }

  /** There is only one increasing list of a given set of ranks. */
  lemma {:induction false} IncreasingListsAreEqual(s: seq<nat>, t: seq<nat>)
    requires Increasing(s) && Increasing(t)
    requires forall r :: r in s <==> r in t
    ensures s == t
    decreases |s|
  {
    assert s != [] ==> s[|s| - 1] in s;
    assert t != [] ==> t[|t| - 1] in t;
    if s != [] {
      LastIsGreatest(s, t);
      var m, k := |s| - 1, |t| - 1;
      assert forall r :: r in s <==> r in s[..m] || r == s[m];
      assert forall r :: r in t <==> r in t[..k] || r == t[k];
      IncreasingListsAreEqual(s[..m], t[..k]);
    }
  }

  lemma {:induction false} PositionsPrefix(flags: seq<bool>, v: bool, n: nat)
    requires n <= |flags|
    ensures Positions(flags[..n], v) <= Positions(flags, v)
    decreases |flags|
  {
    if n < |flags| {
      PositionsPrefix(flags[..|flags| - 1], v, n);
      assert flags[..|flags| - 1][..n] == flags[..n];
    } else {
      assert flags[..n] == flags;
    }
  }

  /** An increasing list cut at m: each rank is in one half only. */
  lemma {:induction false} CutApart(s: seq<nat>, m: nat, r: nat)
    requires Increasing(s) && m <= |s|
    ensures r in s[m..] <==> r in s && r !in s[..m]
  {
    if r in s {
      var k :| 0 <= k < |s| && s[k] == r;
      if k < m { assert s[..m][k] == r; } else { assert s[m..][k - m] == r; }
    }
  }

  /** The raised ranks among the first n. */
  function FirstRanks(flags: seq<bool>, n: nat): seq<nat> {
    if n < |flags| then Positions(flags[..n], true) else Positions(flags, true)
  }

  lemma {:induction false} FirstRanksNext(flags: seq<bool>, n: nat)
    ensures FirstRanks(flags, n + 1) == FirstRanks(flags, n) + if n < |flags| && flags[n] then [n] else []
  {
    if n < |flags| {
      assert flags[..n + 1][..n] == flags[..n];
      assert flags[..|flags|] == flags;
    }
  }

  lemma {:induction false} FirstRanksPrefix(flags: seq<bool>, n: nat)
    ensures FirstRanks(flags, n) <= Positions(flags, true)
  {
    if n < |flags| { PositionsPrefix(flags, true, n); }
  }
}
