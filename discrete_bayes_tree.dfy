/** Evaluation of a discrete Bayes tree: a forest of cliques, each owning one
    conditional and its child cliques, whose joint probability at a complete
    assignment is the product of every clique's conditional value. Building
    the tree (elimination) is not modelled; ownership of children is the
    nesting of the datatype. */
module DiscreteBayesTree {
  import opened DiscreteValues
  import opened Potentials
  import opened DiscreteConditional

  datatype Clique = Clique(conditional: Conditional, children: seq<Clique>)

  datatype BayesTree = BayesTree(roots: seq<Clique>)

  /** The product a clique stands for: its conditional's value times the
      product of its children's values. */
  function CliqueValue(clique: Clique, values: Values): real
    decreases clique
  {
    Value(clique.conditional, values) * ForestValue(clique.children, values)
  }

  /** The product of the cliques' values, multiplied in order, starting from
      1.0. */
  function ForestValue(cliques: seq<Clique>, values: Values): real
    decreases cliques
  {
    if cliques == [] then 1.0
    else ForestValue(cliques[..|cliques| - 1], values) * CliqueValue(cliques[|cliques| - 1], values)
  }

  /** `DiscreteBayesTreeClique::evaluate(values)`: the conditional's value,
      multiplied by each child's `evaluate` in turn. */
  method EvaluateClique(clique: Clique, values: Values) returns (result: real)
    ensures result == CliqueValue(clique, values)
    decreases clique
  {
    result := Value(clique.conditional, values);
    for i := 0 to |clique.children|
      invariant result == Value(clique.conditional, values) * ForestValue(clique.children[..i], values)
    {
      assert clique.children[..i + 1][..i] == clique.children[..i];
      var childValue := EvaluateClique(clique.children[i], values);
      result := result * childValue;
    }
    assert clique.children[..|clique.children|] == clique.children;
  }

  /** `DiscreteBayesTree::evaluate(values)`: 1.0 multiplied by each root's
      `evaluate` in turn. */
  method Evaluate(tree: BayesTree, values: Values) returns (result: real)
    ensures result == ForestValue(tree.roots, values)
  {
    result := 1.0;
    for i := 0 to |tree.roots|
      invariant result == ForestValue(tree.roots[..i], values)
    {
      assert tree.roots[..i + 1][..i] == tree.roots[..i];
      var rootValue := EvaluateClique(tree.roots[i], values);
      result := result * rootValue;
    }
    assert tree.roots[..|tree.roots|] == tree.roots;
  }

  /** A clique without children evaluates to its conditional's value, and a
      tree without roots to 1.0. */
  lemma LeafAndEmptyTree(conditional: Conditional, values: Values)
    ensures CliqueValue(Clique(conditional, []), values) == Value(conditional, values)
    ensures ForestValue(BayesTree([]).roots, values) == 1.0
  {
  }

  /** The product of a sequence of reals, multiplied in order from 1.0. */
  function Product(rs: seq<real>): real
    decreases |rs|
  {
    if rs == [] then 1.0 else Product(rs[..|rs| - 1]) * rs[|rs| - 1]
  }

  /** The value of each clique of a forest, in order. */
  function CliqueValues(cliques: seq<Clique>, values: Values): (vs: seq<real>)
    ensures |vs| == |cliques|
    ensures forall i :: 0 <= i < |cliques| ==> vs[i] == CliqueValue(cliques[i], values)
    decreases |cliques|
  {
    if cliques == [] then []
    else CliqueValues(cliques[..|cliques| - 1], values) + [CliqueValue(cliques[|cliques| - 1], values)]
  }

  /** A forest's value is the product of its cliques' values. */
  lemma {:induction false} ForestValueIsProduct(cliques: seq<Clique>, values: Values)
    ensures ForestValue(cliques, values) == Product(CliqueValues(cliques, values))
    decreases |cliques|
  {
    if cliques != [] {
      var init := cliques[..|cliques| - 1];
      ForestValueIsProduct(init, values);
      var vs := CliqueValues(cliques, values);
      assert vs[..|vs| - 1] == CliqueValues(init, values);
    }
  }

  lemma {:induction false} ProductAppend(xs: seq<real>, ys: seq<real>)
    ensures Product(xs + ys) == Product(xs) * Product(ys)
    decreases |ys|
  {
    if ys == [] {
      assert xs + ys == xs;
    } else {
      var init := ys[..|ys| - 1];
      assert (xs + ys)[..|xs + ys| - 1] == xs + init;
      ProductAppend(xs, init);
    }
  }

  lemma ProductInsert(before: seq<real>, r: real, after: seq<real>)
    ensures Product(before + [r] + after) == Product(before + after) * r
  {
    ProductAppend(before + [r], after);
    ProductAppend(before, [r]);
    ProductAppend(before, after);
    assert [r][..0] == [];
  }

  lemma ProductStep(init: seq<real>, last: real, before: seq<real>, after: seq<real>)
    requires Product(init) == Product(before + after)
    ensures Product(init + [last]) == Product(before + [last] + after)
  {
    ProductInsert(before, last, after);
    assert (init + [last])[..|init|] == init;
  }

  /** A product does not depend on the order of its factors. */
  lemma {:induction false} ProductPermutation(xs: seq<real>, ys: seq<real>)
    requires multiset(xs) == multiset(ys)
    ensures Product(xs) == Product(ys)
    decreases |xs|
  {
    if xs != [] {
      var init, last := xs[..|xs| - 1], xs[|xs| - 1];
      assert last in multiset(ys);
      var k :| 0 <= k < |ys| && ys[k] == last;
      var before, after := ys[..k], ys[k + 1..];
      assert xs == init + [last];
      assert ys == before + [last] + after;
      assert multiset(init) == multiset(xs) - multiset{last};
      assert multiset(before + after) == multiset(ys) - multiset{last};
      ProductPermutation(init, before + after);
      ProductStep(init, last, before, after);
    } else {
      assert |ys| == |multiset(ys)| == 0;
    }
  }

  /** Rearranging the cliques rearranges their values the same way. */
  lemma {:induction false} CliqueValuesPermutation(xs: seq<Clique>, ys: seq<Clique>, values: Values)
    requires multiset(xs) == multiset(ys)
    ensures multiset(CliqueValues(xs, values)) == multiset(CliqueValues(ys, values))
    decreases |xs|
  {
    if xs != [] {
      var init, last := xs[..|xs| - 1], xs[|xs| - 1];
      assert last in multiset(ys);
      var k :| 0 <= k < |ys| && ys[k] == last;
      var before, after := ys[..k], ys[k + 1..];
      assert xs == init + [last];
      assert ys == before + [last] + after;
      assert multiset(init) == multiset(xs) - multiset{last};
      assert multiset(before + after) == multiset(ys) - multiset{last};
      CliqueValuesPermutation(init, before + after, values);
      CliqueValuesStep(init, last, before, after, values);
    } else {
      assert |ys| == |multiset(ys)| == 0;
    }
  }

  lemma CliqueValuesStep(init: seq<Clique>, last: Clique, before: seq<Clique>, after: seq<Clique>, values: Values)
    requires multiset(CliqueValues(init, values)) == multiset(CliqueValues(before + after, values))
    ensures multiset(CliqueValues(init + [last], values)) == multiset(CliqueValues(before + [last] + after, values))
  {
    CliqueValuesAppend(init, [last], values);
    CliqueValuesAppend(before, after, values);
    CliqueValuesAppend(before + [last], after, values);
    CliqueValuesAppend(before, [last], values);
  }

  lemma CliqueValuesAppend(xs: seq<Clique>, ys: seq<Clique>, values: Values)
    ensures CliqueValues(xs + ys, values) == CliqueValues(xs, values) + CliqueValues(ys, values)
  {
  }

  /** The value of a forest does not depend on the order of its cliques: any
      rearrangement of the roots (or of one clique's children) gives the
      same product. */
  lemma ForestValuePermutation(xs: seq<Clique>, ys: seq<Clique>, values: Values)
    requires multiset(xs) == multiset(ys)
    ensures ForestValue(xs, values) == ForestValue(ys, values)
  {
    ForestValueIsProduct(xs, values);
    ForestValueIsProduct(ys, values);
    CliqueValuesPermutation(xs, ys, values);
    ProductPermutation(CliqueValues(xs, values), CliqueValues(ys, values));
  }

  /** Every conditional in the clique's subtree is non-negative at `values`. */
  ghost predicate AllNonNegative(clique: Clique, values: Values)
    decreases clique
  {
    && Value(clique.conditional, values) >= 0.0
    && forall i :: 0 <= i < |clique.children| ==> AllNonNegative(clique.children[i], values)
  }

  /** Some conditional in the clique's subtree is 0 at `values`. */
  ghost predicate SomeZero(clique: Clique, values: Values)
    decreases clique
  {
    || Value(clique.conditional, values) == 0.0
    || exists i :: 0 <= i < |clique.children| && SomeZero(clique.children[i], values)
  }

  /** Non-negative conditionals give a non-negative clique value. */
  lemma {:induction false} CliqueValueNonNegative(clique: Clique, values: Values)
    requires AllNonNegative(clique, values)
    ensures CliqueValue(clique, values) >= 0.0
    decreases clique, 1
  {
    ForestValueNonNegative(clique.children, values);
  }

  /** Non-negative conditionals everywhere give a non-negative forest value. */
  lemma {:induction false} ForestValueNonNegative(cliques: seq<Clique>, values: Values)
    requires forall i :: 0 <= i < |cliques| ==> AllNonNegative(cliques[i], values)
    ensures ForestValue(cliques, values) >= 0.0
    decreases cliques, 0
  {
    if cliques != [] {
      ForestValueNonNegative(cliques[..|cliques| - 1], values);
      CliqueValueNonNegative(cliques[|cliques| - 1], values);
    }
  }

  /** A zero conditional anywhere in the subtree makes the clique value 0. */
  lemma {:induction false} CliqueValueZero(clique: Clique, values: Values)
    requires SomeZero(clique, values)
    ensures CliqueValue(clique, values) == 0.0
    decreases clique, 1
  {
    if Value(clique.conditional, values) != 0.0 {
      var i :| 0 <= i < |clique.children| && SomeZero(clique.children[i], values);
      ForestValueZero(clique.children, i, values);
    }
  }

  /** A forest with a clique whose subtree holds a zero conditional has
      value 0. */
  lemma {:induction false} ForestValueZero(cliques: seq<Clique>, i: nat, values: Values)
    requires i < |cliques| && SomeZero(cliques[i], values)
    ensures ForestValue(cliques, values) == 0.0
    decreases cliques, 0
  {
    var n := |cliques|;
    if i == n - 1 {
      CliqueValueZero(cliques[i], values);
    } else {
      assert cliques[..n - 1][i] == cliques[i];
      ForestValueZero(cliques[..n - 1], i, values);
    }
  }

  /** Variables A and B of the two-clique example. */
  const A: Key := 0
  const B: Key := 1

  /** P(A): P(A=0) = 0.3, P(A=1) = 0.7. */
  function PriorA(): Conditional
  {
    Conditional([A], map[A := 2], (a: Values) => if Get(a, A) == 0 then 0.3 else 0.7, 1)
  }

  /** P(B | A): P(B=0|A=0) = 0.8, P(B=1|A=0) = 0.2, P(B=0|A=1) = 0.1,
      P(B=1|A=1) = 0.9. */
  function BGivenA(): Conditional
  {
    Conditional([B, A], map[A := 2, B := 2],
      (a: Values) =>
        if Get(a, A) == 0 then (if Get(a, B) == 0 then 0.8 else 0.2)
        else (if Get(a, B) == 0 then 0.1 else 0.9),
      1)
  }

  /** The tree with root clique P(A) and its child clique P(B | A). */
  function ExampleTree(): BayesTree
  {
    BayesTree([Clique(PriorA(), [Clique(BGivenA(), [])])])
  }

  /** The joint probability of the example at {A:0, B:0} is 0.3 * 0.8 and at
      {A:1, B:1} is 0.7 * 0.9; and with evidence A = 0 the most probable B
      is 0. */
  lemma ExampleValues()
    ensures ForestValue(ExampleTree().roots, map[A := 0, B := 0]) == 0.24
    ensures ForestValue(ExampleTree().roots, map[A := 1, B := 1]) == 0.63
    ensures ChooseSpec(BGivenA(), map[A := 0]).Success?
    ensures IsSolution(ChooseSpec(BGivenA(), map[A := 0]).value, B, 2, 0)
  {
    var c, e := BGivenA(), map[A := 0];
    assert Parents(c) == [A];
    assert HasAll(Parents(c), e);
    var t := ChooseSpec(c, e).value;
    forall v: nat
      ensures Probability(t, B, v) == if v == 0 then 0.8 else 0.2
    {
      ChooseEvaluatesWithEvidence(c, e, map[B := v]);
      assert map[B := v] + EvidenceOn(Parents(c), e) == map[B := v, A := 0];
    }
  }
}
