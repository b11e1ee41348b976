/** Lists without repetition, and the sets of ranks below a bound. */
module Lists {

  ghost predicate Distinct<T>(s: seq<T>) {
    forall i, j :: 0 <= i < j < |s| ==> s[i] != s[j]
  }

  lemma {:induction false} DistinctConcat<T>(s: seq<T>, t: seq<T>)
    requires Distinct(s) && Distinct(t) && forall x :: x in s ==> x !in t
    ensures Distinct(s + t)
  {
    forall i, j | 0 <= i < j < |s + t| ensures (s + t)[i] != (s + t)[j] {
      if i < |s| { assert s[i] in s; }
    }
  }

  lemma {:induction false} DistinctSnoc<T>(s: seq<T>, x: T)
    requires Distinct(s) && x !in s
    ensures Distinct(s + [x])
  {
  }

  lemma {:induction false} DistinctParts<T>(l: seq<T>, m: seq<T>)
    requires Distinct(l + m)
    ensures Distinct(l) && Distinct(m) && forall x :: x in l ==> x !in m
  {
    var lm := l + m;
    assert forall i :: 0 <= i < |l| ==> lm[i] == l[i];
    assert forall i :: 0 <= i < |m| ==> lm[|l| + i] == m[i];
    forall i, j | 0 <= i < |l| && 0 <= j < |m| ensures l[i] != m[j] {
      assert lm[i] != lm[|l| + j];
    }
  }

  lemma {:induction false} FrontIsInside<T>(l: seq<T>)
    requires l != []
    ensures var front := l[..|l| - 1]; l[|l| - 1] in l && forall p {:trigger p in front} :: p in front ==> p in l
    ensures Distinct(l) ==> Distinct(l[..|l| - 1]) && l[|l| - 1] !in l[..|l| - 1]
  {
    var front := l[..|l| - 1];
    forall p | p in front ensures p in l {
      var i :| 0 <= i < |front| && front[i] == p;
      assert l[i] == p;
    }
  }

  ghost function AsSet<T>(s: seq<T>): set<T> {
    set x | x in s
  }

  lemma {:induction false} DistinctLength<T>(s: seq<T>)
    requires Distinct(s)
    ensures |AsSet(s)| == |s|
  {
    if s != [] {
      var n := |s| - 1;
      DistinctLength(s[..n]);
      assert s == s[..n] + [s[n]];
      assert AsSet(s) == AsSet(s[..n]) + {s[n]};
    }
  }

  ghost function Below(n: nat): (s: set<nat>)
    ensures |s| == n && forall i: nat :: i in s <==> i < n
  {
    if n == 0 then {} else Below(n - 1) + {n - 1}
  }

  lemma {:induction false} SubsetSize<T>(s: set<T>, t: set<T>)
    requires s <= t
    ensures |s| <= |t|
    ensures |s| == |t| ==> s == t
  {
    assert t == s + (t - s);
  }

  lemma {:induction false} TooMany(s: seq<nat>, n: nat)
    requires n < |s|
    ensures !(Distinct(s) && forall i :: i in s ==> i < n)
  {
    if Distinct(s) && forall i :: i in s ==> i < n {
      DistinctLength(s);
      SubsetSize(AsSet(s), Below(n));
    }
  }

  /** n distinct ranks below n are all of them. */
  lemma {:induction false} EveryRankIsListed(s: seq<nat>, n: nat, r: nat)
    requires Distinct(s) && |s| == n && r < n && forall i :: i in s ==> i < n
    ensures r in s
  {
    DistinctLength(s);
    SubsetSize(AsSet(s), Below(n));
    assert r in Below(n);
  }

  /** A shorter list misses some rank. */
  lemma {:induction false} SomeRankIsMissing(s: seq<nat>, n: nat)
    requires |s| < n
    ensures exists r: nat :: r < n && r !in s
  {
    if forall r: nat :: r < n ==> r in s {
      assert Below(n) <= AsSet(s);
      SubsetSize(Below(n), AsSet(s));
      SetIsShorter(s);
    }
  }

  lemma {:induction false} SetIsShorter<T>(s: seq<T>)
    ensures |AsSet(s)| <= |s|
  {
    if s != [] {
      var n := |s| - 1;
      SetIsShorter(s[..n]);
      assert s == s[..n] + [s[n]];
      assert AsSet(s) == AsSet(s[..n]) + {s[n]};
    }
  }

  /** A list as long as its set has no repetition. */
  lemma {:induction false} FullLengthIsDistinct<T>(s: seq<T>)
    requires |AsSet(s)| == |s|
    ensures Distinct(s)
  {
    if s != [] {
      var n := |s| - 1;
      assert s == s[..n] + [s[n]];
      assert AsSet(s) == AsSet(s[..n]) + {s[n]};
      SetIsShorter(s[..n]);
      FullLengthIsDistinct(s[..n]);
      assert s[n] !in AsSet(s[..n]);
      assert forall i :: 0 <= i < n ==> s[i] in s[..n];
    }
  }
}
