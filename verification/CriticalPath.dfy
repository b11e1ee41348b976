/** Sharing cores between branches: the branch on the critical path gets the next shot. */
module CriticalPaths {

  /** A weight per iteration and the cores one iteration takes. */
  datatype LoopWeight = LoopWeight(weight: real, cores: int)

  /** The flags depend on the first loop weight, of which there is always one. */
  datatype ComplexWeight = ComplexWeight(elementary: real, loops: seq<LoopWeight>) {
    predicate Valid() { loops != [] }

    predicate IsUnsetLoopWeight()
      requires Valid()
    {
      loops[0].cores == 0
    }

    predicate HasValidLoopWeight()
      requires Valid()
    {
      loops[0].weight > 0.0 && loops[0].cores != -1
    }

    predicate IsDefaultValue()
      requires Valid()
    {
      elementary < 0.0 && loops[0].cores == -1
    }
  }

  /** The time the loops take on n cores. */
  function LoopsLength(loops: seq<LoopWeight>, n: nat): real
    requires n >= 1
  {
    if loops == [] then 0.0
    else
      var l := loops[|loops| - 1];
      LoopsLength(loops[..|loops| - 1], n) + if l.cores > 0 then l.weight * l.cores as real / n as real else 0.0
  }

  function TotalLength(w: ComplexWeight, n: nat): real
    requires n >= 1
  {
    (if w.elementary >= 0.0 then w.elementary else 0.0) + LoopsLength(w.loops, n)
  }

  /** What a branch adds to the comparison: branches without any weight do not take part. */
  function Length(w: ComplexWeight, n: nat): real
    requires n >= 1 && w.Valid()
  {
    if w.IsDefaultValue() then 0.0 else TotalLength(w, n)
  }

  method CalculateTotalLength(w: ComplexWeight, n: nat) returns (totalWeight: real)
    requires n >= 1 && w.Valid() && !w.IsDefaultValue()
    ensures totalWeight == Length(w, n)
  {
    totalWeight := 0.0;
    if w.elementary >= 0.0 { totalWeight := totalWeight + w.elementary; }
    ghost var start := totalWeight;
    for i := 0 to |w.loops|
      invariant totalWeight == start + LoopsLength(w.loops[..i], n)
    {
      assert w.loops[..i + 1][..i] == w.loops[..i];
      if w.loops[i].cores > 0 {
        totalWeight := totalWeight + w.loops[i].weight * w.loops[i].cores as real / n as real;
      }
    }
    assert w.loops[..|w.loops|] == w.loops;
  }

  // ----- what a length adds up to

  lemma {:induction false} LoopsAddUp(a: seq<LoopWeight>, l: LoopWeight, b: seq<LoopWeight>, n: nat)
    requires n >= 1
    ensures LoopsLength(a + [l] + b, n) ==
            LoopsLength(a + b, n) + if l.cores > 0 then l.weight * l.cores as real / n as real else 0.0
    decreases |b|
  {
    if b == [] {
      assert (a + [l])[..|a|] == a && a + [l] + b == a + [l] && a + b == a;
    } else {
      var front := b[..|b| - 1];
      LoopsAddUp(a, l, front, n);
      assert (a + [l] + b)[..|a + [l] + b| - 1] == a + [l] + front;
      assert (a + b)[..|a + b| - 1] == a + front;
    }
  }

  /** A branch with one loop: its elementary weight, and the work of the loop shared by the cores. */
  lemma {:induction false} LengthOfOneLoop(elementary: real, l: LoopWeight, n: nat)
    requires n >= 1 && elementary >= 0.0
    ensures Length(ComplexWeight(elementary, [l]), n) ==
            elementary + if l.cores > 0 then l.weight * l.cores as real / n as real else 0.0
  {
    assert [] + [l] + [] == [l];
    LoopsAddUp([], l, [], n);
  }

  /** A loop more, wherever it stands, lengthens the branch by its own work shared by the cores. */
  lemma {:induction false} LoopLengthens(elementary: real, a: seq<LoopWeight>, l: LoopWeight, b: seq<LoopWeight>,
      n: nat)
    requires n >= 1 && elementary >= 0.0 && a + b != []
    ensures Length(ComplexWeight(elementary, a + [l] + b), n) ==
            Length(ComplexWeight(elementary, a + b), n)
            + if l.cores > 0 then l.weight * l.cores as real / n as real else 0.0
  {
    LoopsAddUp(a, l, b, n);
  }

  /** A longer elementary part lengthens the branch by as much, however many cores it has. */
  lemma {:induction false} ElementaryLengthens(elementary: real, d: real, loops: seq<LoopWeight>, n: nat)
    requires n >= 1 && elementary >= 0.0 && d >= 0.0 && loops != []
    ensures Length(ComplexWeight(elementary + d, loops), n) == Length(ComplexWeight(elementary, loops), n) + d
  {
  }

  /** A negative elementary weight counts for nothing; with a first loop weight that is not set either, neither do
      the loops. */
  lemma {:induction false} UnsetElementary(elementary: real, loops: seq<LoopWeight>, n: nat)
    requires n >= 1 && elementary < 0.0 && loops != []
    ensures Length(ComplexWeight(elementary, loops), n) ==
            if loops[0].cores == -1 then 0.0 else Length(ComplexWeight(0.0, loops), n)
  {
  }

  // ----- how a length depends on the number of cores

  function LoopsWork(loops: seq<LoopWeight>): real {
    if loops == [] then 0.0
    else
      var l := loops[|loops| - 1];
      LoopsWork(loops[..|loops| - 1]) + if l.cores > 0 then l.weight * l.cores as real else 0.0
  }

  lemma {:induction false} DivAdds(a: real, b: real, n: real)
    requires n > 0.0
    ensures (a + b) / n == a / n + b / n
  {
  }

  /** The loops share out a fixed amount of work. */
  lemma {:induction false} LoopsShareWork(loops: seq<LoopWeight>, n: nat)
    requires n >= 1
    ensures LoopsLength(loops, n) == LoopsWork(loops) / n as real
    decreases |loops|
  {
    if loops != [] {
      var front, l := loops[..|loops| - 1], loops[|loops| - 1];
      LoopsShareWork(front, n);
      DivAdds(LoopsWork(front), if l.cores > 0 then l.weight * l.cores as real else 0.0, n as real);
    }
  }

  lemma {:induction false} DivShrinks(a: real, m: real, n: real)
    requires 0.0 < m <= n
    ensures a >= 0.0 ==> 0.0 <= a / n <= a / m
    ensures a > 0.0 ==> a / n > 0.0
    ensures a <= 0.0 ==> a / m <= a / n <= 0.0
  {
    var x, y := a / m, a / n;
    assert x * m == a && y * n == a;
  }

  /** A branch of positive length keeps one whatever it is given. */
  lemma {:induction false} StaysPositive(w: ComplexWeight, m: nat, n: nat)
    requires w.Valid() && 1 <= m <= n && Length(w, m) > 0.0
    ensures Length(w, n) > 0.0
  {
    LoopsShareWork(w.loops, m);
    LoopsShareWork(w.loops, n);
    DivShrinks(LoopsWork(w.loops), m as real, n as real);
  }

  predicate NonNegative(w: ComplexWeight) {
    forall i :: 0 <= i < |w.loops| && w.loops[i].cores > 0 ==> w.loops[i].weight >= 0.0
  }

  lemma {:induction false} WorkIsNonNegative(loops: seq<LoopWeight>)
    requires forall i :: 0 <= i < |loops| && loops[i].cores > 0 ==> loops[i].weight >= 0.0
    ensures LoopsWork(loops) >= 0.0
    decreases |loops|
  {
    if loops != [] {
      WorkIsNonNegative(loops[..|loops| - 1]);
      var l := loops[|loops| - 1];
      if l.cores > 0 { assert l.weight * l.cores as real >= 0.0; }
    }
  }

  /** More cores never lengthen a branch. */
  lemma {:induction false} LengthShrinks(w: ComplexWeight, m: nat, n: nat)
    requires w.Valid() && NonNegative(w) && 1 <= m <= n
    ensures 0.0 <= Length(w, n) <= Length(w, m)
  {
    LoopsShareWork(w.loops, m);
    LoopsShareWork(w.loops, n);
    WorkIsNonNegative(w.loops);
    DivShrinks(LoopsWork(w.loops), m as real, n as real);
  }
}
