/** Items numbered group after group: who owns a number, and its rank in its group. */
module Numbering {

  /** The number of the first item of group k. */
  function Offset(counts: seq<nat>, k: nat): nat
    requires k <= |counts|
  {
    if k == 0 then 0 else Offset(counts, k - 1) + counts[k - 1]
  }

  function Total(counts: seq<nat>): nat {
    Offset(counts, |counts|)
  }

  predicate Owns(counts: seq<nat>, k: nat, w: nat) {
    k < |counts| && Offset(counts, k) <= w < Offset(counts, k) + counts[k]
  }

  function OwnerBelow(counts: seq<nat>, w: nat, n: nat): (k: nat)
    requires n <= |counts| && w < Offset(counts, n)
    ensures k < n && Owns(counts, k, w)
  {
    if Offset(counts, n - 1) <= w then n - 1 else OwnerBelow(counts, w, n - 1)
  }

  /** The group of number w. */
  function Owner(counts: seq<nat>, w: nat): (k: nat)
    requires w < Total(counts)
    ensures Owns(counts, k, w)
  {
    OwnerBelow(counts, w, |counts|)
  }

  /** The rank of number w in its group. */
  function Local(counts: seq<nat>, w: nat): (j: nat)
    requires w < Total(counts)
    ensures j < counts[Owner(counts, w)]
  {
    w - Offset(counts, Owner(counts, w))
  }

  lemma {:induction false} OffsetsGrow(counts: seq<nat>, j: nat, k: nat)
    requires j <= k <= |counts|
    ensures Offset(counts, j) <= Offset(counts, k)
    decreases k
  {
    if j < k { OffsetsGrow(counts, j, k - 1); }
  }

  lemma {:induction false} EndsBefore(counts: seq<nat>, j: nat, k: nat)
    requires j < k <= |counts|
    ensures Offset(counts, j) + counts[j] <= Offset(counts, k)
  {
    OffsetsGrow(counts, j + 1, k);
  }

  lemma {:induction false} OneOwner(counts: seq<nat>, j: nat, k: nat, w: nat)
    requires Owns(counts, j, w) && Owns(counts, k, w)
    ensures j == k
  {
    if j < k { EndsBefore(counts, j, k); }
    if k < j { EndsBefore(counts, k, j); }
  }

  /** No two groups share a number, and every number below the total has a group. */
  lemma {:induction false} OwnsIsOwner(counts: seq<nat>, k: nat, w: nat)
    ensures Owns(counts, k, w) <==> w < Total(counts) && Owner(counts, w) == k
  {
    if Owns(counts, k, w) {
      EndsBefore(counts, k, |counts|);
      OneOwner(counts, Owner(counts, w), k, w);
    }
  }

  lemma {:induction false} NothingBefore(counts: seq<nat>, k: nat)
    requires k <= |counts|
    ensures Offset(counts, k) == 0 <==> forall j :: 0 <= j < k ==> counts[j] == 0
  {
    if k > 0 { NothingBefore(counts, k - 1); }
  }
}
