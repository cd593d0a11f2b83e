/** The table a discrete conditional is stored in. The decision-tree
    representation (`AlgebraicDecisionTree`, `DecisionTreeFactor`) is not
    modelled: a table is the real-valued function of an assignment that the
    tree computes, and restriction fixes one variable of that function. */
module Potentials {
  import opened DiscreteValues

  /** The values of an algebraic decision tree: one real per assignment. */
  type ADT = Values -> real

  /** `ADT::choose(j, value)`: the table with variable `j` fixed at `value`. */
  function Restrict(t: ADT, j: Key, value: nat): ADT
  {
    (a: Values) => t(a[j := value])
  }

  /** A decision-tree factor: its ordered keys, the cardinality of each
      variable, and its table. `size()` is the number of keys. */
  datatype Factor = Factor(keys: seq<Key>, cardinalities: map<Key, nat>, table: ADT)

  /** The cardinality the factor records for `j` (0 for an unknown key). */
  function Cardinality(cardinalities: map<Key, nat>, j: Key): nat
  {
    if j in cardinalities then cardinalities[j] else 0
  }

  /** Pointwise quotient of two tables; a zero denominator gives 0. */
  function Divide(numerator: ADT, denominator: ADT): ADT
  {
    (a: Values) => if denominator(a) == 0.0 then 0.0 else numerator(a) / denominator(a)
  }

  /** Sum of `t` over the first `n` values of variable `j`, every other
      variable held at its value in `a`. */
  function SumRange(t: ADT, j: Key, n: nat, a: Values): real
    decreases n
  {
    if n == 0 then 0.0 else SumRange(t, j, n - 1, a) + t(a[j := n - 1])
  }

  /** The table with the variables of `keys` summed out, one at a time. */
  function SumOut(t: ADT, keys: seq<Key>, cardinalities: map<Key, nat>): ADT
    decreases |keys|
  {
    if keys == [] then t
    else
      var inner := SumOut(t, keys[1..], cardinalities);
      (a: Values) => SumRange(inner, keys[0], Cardinality(cardinalities, keys[0]), a)
  }

  /** `DecisionTreeFactor::sum(nrFrontals)`: sum out the first `n` keys; the
      remaining keys are those of the result. */
  function SumFrontals(f: Factor, n: nat): Factor
  {
    var k := if n <= |f.keys| then n else |f.keys|;
    Factor(f.keys[k..], f.cardinalities, SumOut(f.table, f.keys[..k], f.cardinalities))
  }

  /** The sum over one variable does not depend on the value that variable
      had beforehand. */
  lemma {:induction false} SumRangeIgnoresSummedValue(t: ADT, j: Key, n: nat, a: Values, v: nat)
    ensures SumRange(t, j, n, a[j := v]) == SumRange(t, j, n, a)
    decreases n
  {
    if n > 0 {
      SumRangeIgnoresSummedValue(t, j, n - 1, a, v);
      assert a[j := v][j := n - 1] == a[j := n - 1];
    }
  }

  /** Summing a table divided by a constant non-zero denominator is dividing
      the sum. */
  lemma {:induction false} SumRangeOfQuotient(t: ADT, d: ADT, j: Key, n: nat, a: Values, s: real)
    requires s != 0.0
    requires forall u :: 0 <= u < n ==> Restrict(d, j, u)(a) == s
    ensures SumRange(Divide(t, d), j, n, a) == SumRange(t, j, n, a) / s
    decreases n
  {
    if n > 0 {
      SumRangeOfQuotient(t, d, j, n - 1, a, s);
      assert Restrict(d, j, n - 1)(a) == s;
      DivisionDistributes(SumRange(t, j, n - 1, a), t(a[j := n - 1]), s);
    }
  }

  lemma DivisionDistributes(x: real, y: real, s: real)
    requires s != 0.0
    ensures x / s + y / s == (x + y) / s
  {
    var p, q := x / s, y / s;
    assert p * s == x && q * s == y;
    assert (p + q) * s == x + y;
  }
}
