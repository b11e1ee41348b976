/** Sums of lists of integers. */
module Sums {
  function Sum(ns: seq<int>): int {
    if ns == [] then 0 else Sum(ns[..|ns| - 1]) + ns[|ns| - 1]
  }

  lemma {:induction false} SumOfUpdate(ns: seq<int>, k: nat, v: int)
    requires k < |ns|
    ensures Sum(ns[k := v]) == Sum(ns) - ns[k] + v
    decreases |ns|
  {
    var m := |ns| - 1;
    if k == m {
      assert ns[k := v][..m] == ns[..m];
    } else {
      SumOfUpdate(ns[..m], k, v);
      assert ns[k := v][..m] == ns[..m][k := v];
    }
  }

  lemma {:induction false} SumGrows(a: seq<int>, b: seq<int>)
    requires |a| == |b| && forall i {:trigger b[i]} :: 0 <= i < |a| ==> a[i] <= b[i]
    ensures Sum(a) <= Sum(b)
    decreases |a|
  {
    if a != [] { SumGrows(a[..|a| - 1], b[..|b| - 1]); }
  }
}
