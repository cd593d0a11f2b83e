/** A discrete conditional P(frontals | parents): a decision-tree factor whose
    first `nrFrontals` keys are the frontal variables and whose remaining keys
    are the parents, with evidence restriction (`choose`), most-probable
    explanation (`solve`, `solveInPlace`) and sampling (`sample`,
    `sampleInPlace`). The object is never changed after construction, so it
    is a value; the caller's assignment that the in-place operations write
    into is an `Assignment` object. */
module DiscreteConditional {
  import opened DiscreteValues
  import opened Potentials

  /** The two `std::runtime_error`s the conditional throws. */
  datatype Error =
    | ParentValueMissing   // "DiscreteConditional::choose: parent value missing"
    | ExpectedOneFrontal   // "Expected only one frontal variable in choose."

  datatype Result<+T> = Success(value: T) | Failure(error: Error)

  datatype Outcome = Pass | Fail(error: Error)

  datatype Option<+T> = None | Some(value: T)

  datatype Conditional = Conditional(
    keys: seq<Key>,                  // frontal keys first, then parent keys
    cardinalities: map<Key, nat>,
    table: ADT,
    nrFrontals: nat)

  /** `size_t` is 64 bits wide. */
  const SIZE_T_MODULUS: nat := 0x1_0000_0000_0000_0000

  /** Subtraction of two sizes in unsigned `size_t` arithmetic: the result
      is a size, and adding `b` back gives `a` modulo 2^64. */
  function SizeSub(a: nat, b: nat): (r: nat)
    requires a < SIZE_T_MODULUS && b < SIZE_T_MODULUS
    ensures r < SIZE_T_MODULUS
    ensures (r + b) % SIZE_T_MODULUS == a
  {
    if b <= a then a - b else SIZE_T_MODULUS + a - b
  }

  function Min(a: nat, b: nat): nat
  {
    if a <= b then a else b
  }

  /** The frontal keys: the first `nrFrontals` keys. */
  function Frontals(c: Conditional): (r: seq<Key>)
  {
    c.keys[..Min(c.nrFrontals, |c.keys|)]
  }

  /** The parent keys: every key after the frontals. */
  function Parents(c: Conditional): (r: seq<Key>)
  {
    c.keys[Min(c.nrFrontals, |c.keys|)..]
  }

  /** The first frontal key exists and has a recorded cardinality, so that
      `firstFrontalKey()` and `cardinality()` are defined. */
  predicate FirstFrontalKnown(c: Conditional)
  {
    |c.keys| > 0 && c.keys[0] in c.cardinalities
  }

  /** Every frontal key has a recorded cardinality, so that `cardinality()`
      is defined on each of them. */
  predicate FrontalsKnown(c: Conditional)
  {
    forall i :: 0 <= i < |Frontals(c)| ==> Frontals(c)[i] in c.cardinalities
  }

  /** The factor part of the conditional (what `DecisionTreeFactor` holds). */
  function AsFactor(c: Conditional): Factor
  {
    Factor(c.keys, c.cardinalities, c.table)
  }

  /** The conditional's value at a complete assignment. */
  function Value(c: Conditional, values: Values): (r: real)
  {
    c.table(values)
  }

  // ---------------------------------------------------------------------
  // Constructors

  /** `DiscreteConditional(nrFrontals, f)`: `f` normalised by its sum over
      the first `nrFrontals` keys. */
  function FromFactor(nrFrontals: nat, f: Factor): Conditional
  {
    Conditional(f.keys, f.cardinalities, Divide(f.table, SumFrontals(f, nrFrontals).table), nrFrontals)
  }

  /** `DiscreteConditional(joint, marginal)`: the quotient `joint / marginal`,
      with `joint.size() - marginal.size()` frontal keys. */
  function FromJointAndMarginal(joint: Factor, marginal: Factor): Conditional
    requires |joint.keys| < SIZE_T_MODULUS && |marginal.keys| < SIZE_T_MODULUS
  {
    Conditional(joint.keys, joint.cardinalities, Divide(joint.table, marginal.table),
                SizeSub(|joint.keys|, |marginal.keys|))
  }

  /** `DiscreteConditional(joint, marginal, orderedKeys)`: as above, with the
      key list replaced by `orderedKeys`. */
  function FromJointAndMarginalOrdered(joint: Factor, marginal: Factor, orderedKeys: seq<Key>): Conditional
    requires |joint.keys| < SIZE_T_MODULUS && |marginal.keys| < SIZE_T_MODULUS
  {
    FromJointAndMarginal(joint, marginal).(keys := orderedKeys)
  }

  /** The joint/marginal constructor: when the marginal has no more keys
      than the joint, the first `|joint| - |marginal|` keys of the joint are
      frontal and the rest are parents; when
      it has more, the `size_t` subtraction wraps and the count exceeds the
      number of keys. The table is the quotient wherever the marginal is
      non-zero. */
  lemma JointAndMarginalSplit(joint: Factor, marginal: Factor, a: Values)
    requires |joint.keys| < SIZE_T_MODULUS && |marginal.keys| < SIZE_T_MODULUS
    ensures var c := FromJointAndMarginal(joint, marginal);
      && (|marginal.keys| <= |joint.keys| ==>
            && c.nrFrontals == |joint.keys| - |marginal.keys|
            && Frontals(c) + Parents(c) == joint.keys
            && |Parents(c)| == |marginal.keys|)
      && (|marginal.keys| > |joint.keys| ==> c.nrFrontals > |c.keys|)
      && (marginal.table(a) != 0.0 ==> Value(c, a) * marginal.table(a) == joint.table(a))
  {
  }

  /** The ordered-keys constructor keeps the frontal count and the table of
      the joint/marginal constructor and takes its key order, and hence its
      frontal and parent keys, from `orderedKeys`. */
  lemma OrderedKeysReplaceKeyList(joint: Factor, marginal: Factor, orderedKeys: seq<Key>)
    requires |marginal.keys| <= |joint.keys| == |orderedKeys| < SIZE_T_MODULUS
    ensures var c := FromJointAndMarginalOrdered(joint, marginal, orderedKeys);
      var n := |joint.keys| - |marginal.keys|;
      && c.nrFrontals == FromJointAndMarginal(joint, marginal).nrFrontals == n
      && c.table == FromJointAndMarginal(joint, marginal).table
      && Frontals(c) == orderedKeys[..n]
      && Parents(c) == orderedKeys[n..]
  {
  }

  /** Normalisation: for a conditional built from a factor with one frontal
      variable, the table sums to 1 over that variable's domain at every
      parent assignment where the factor's own sum is non-zero. */
  lemma {:induction false} FromFactorNormalized(f: Factor, a: Values)
    requires |f.keys| > 0
    requires SumRange(f.table, f.keys[0], Cardinality(f.cardinalities, f.keys[0]), a) != 0.0
    ensures var c := FromFactor(1, f);
      SumRange(c.table, f.keys[0], Cardinality(c.cardinalities, f.keys[0]), a) == 1.0
  {
    var j, n := f.keys[0], Cardinality(f.cardinalities, f.keys[0]);
    var s := SumRange(f.table, j, n, a);
    var d := SumFrontals(f, 1).table;
    assert f.keys[..1][1..] == [] && f.keys[..1][0] == j;
    assert d == SumOut(f.table, f.keys[..1], f.cardinalities);
    assert SumOut(f.table, f.keys[..1][1..], f.cardinalities) == f.table;
    forall b
      ensures d(b) == SumRange(f.table, j, n, b)
    {
    }
    forall u | 0 <= u < n
      ensures Restrict(d, j, u)(a) == s
    {
      SumRangeIgnoresSummedValue(f.table, j, n, a, u);
    }
    SumRangeOfQuotient(f.table, d, j, n, a, s);
    assert s / s == 1.0;
  }

  // ---------------------------------------------------------------------
  // equals

  /** What `equals` may be handed: a decision-tree factor (a conditional is
      one too) or a discrete factor of some other kind. */
  datatype DiscreteFactor = DecisionTree(factor: Factor) | OtherFactor

  /** `equals(other, tol)`: false for a factor that is not a decision-tree
      factor; otherwise the tables agree within `tol` everywhere. */
  ghost predicate Equals(c: Conditional, other: DiscreteFactor, tol: real)
  {
    match other
    case OtherFactor => false
    case DecisionTree(f) => forall a :: -tol <= c.table(a) - f.table(a) <= tol
  }

  /** A conditional equals itself as a factor at any non-negative tolerance,
      and never equals a factor of another kind. */
  lemma EqualsReflexive(c: Conditional, tol: real)
    requires tol >= 0.0
    ensures Equals(c, DecisionTree(AsFactor(c)), tol)
    ensures !Equals(c, OtherFactor, tol)
  {
  }

  // ---------------------------------------------------------------------
  // choose

  /** Every key of `ps` has a value in `evidence`. */
  predicate HasAll(ps: seq<Key>, evidence: Values)
  {
    forall i :: 0 <= i < |ps| ==> ps[i] in evidence
  }

  /** The table restricted at each key of `ps`, in order, to its evidence. */
  function RestrictAll(t: ADT, ps: seq<Key>, evidence: Values): ADT
    requires HasAll(ps, evidence)
    decreases |ps|
  {
    if ps == [] then t
    else
      var last := ps[|ps| - 1];
      Restrict(RestrictAll(t, ps[..|ps| - 1], evidence), last, evidence[last])
  }

  /** The outcome of `choose`: failure when a parent is missing from the
      evidence, else the table restricted at every parent. */
  function ChooseSpec(c: Conditional, evidence: Values): (r: Result<ADT>)
  {
    if HasAll(Parents(c), evidence)
    then Success(RestrictAll(c.table, Parents(c), evidence))
    else Failure(ParentValueMissing)
  }

  /** The evidence restricted to the keys of `ps`. */
  function EvidenceOn(ps: seq<Key>, evidence: Values): Values
  {
    map p | p in ps && p in evidence :: evidence[p]
  }

  /** Restricting at `ps` means evaluating the table with the evidence of
      `ps` written over the assignment. */
  lemma {:induction false} RestrictAllAt(t: ADT, ps: seq<Key>, evidence: Values, a: Values)
    requires HasAll(ps, evidence)
    ensures RestrictAll(t, ps, evidence)(a) == t(a + EvidenceOn(ps, evidence))
    decreases |ps|
  {
    if ps != [] {
      var init, last := ps[..|ps| - 1], ps[|ps| - 1];
      assert HasAll(init, evidence);
      var v := evidence[last];
      RestrictAllAt(t, init, evidence, a[last := v]);
      assert RestrictAll(t, ps, evidence) == Restrict(RestrictAll(t, init, evidence), last, v);
      assert RestrictAll(t, ps, evidence)(a) == RestrictAll(t, init, evidence)(a[last := v]);
      assert a[last := v] + EvidenceOn(init, evidence) == a + EvidenceOn(ps, evidence);
    } else {
      assert a + EvidenceOn(ps, evidence) == a;
    }
  }

  /** Two evidence maps that agree on every key of `ps` (present in both with
      the same value) restrict the table identically. */
  lemma {:induction false} RestrictAllIgnoresOtherKeys(t: ADT, ps: seq<Key>, e1: Values, e2: Values)
    requires HasAll(ps, e1) && HasAll(ps, e2)
    requires forall i :: 0 <= i < |ps| ==> e1[ps[i]] == e2[ps[i]]
    ensures RestrictAll(t, ps, e1) == RestrictAll(t, ps, e2)
    decreases |ps|
  {
    if ps != [] {
      RestrictAllIgnoresOtherKeys(t, ps[..|ps| - 1], e1, e2);
    }
  }

  /** `choose` reads only the parents' entries of the evidence: evidence maps
      that agree on which parents are present and on their values give the
      same outcome, whatever else they hold. */
  lemma ChooseReadsOnlyParents(c: Conditional, e1: Values, e2: Values)
    requires forall i :: 0 <= i < |Parents(c)| ==>
      (Parents(c)[i] in e1 <==> Parents(c)[i] in e2) &&
      (Parents(c)[i] in e1 ==> e1[Parents(c)[i]] == e2[Parents(c)[i]])
    ensures ChooseSpec(c, e1) == ChooseSpec(c, e2)
  {
    if HasAll(Parents(c), e1) {
      RestrictAllIgnoresOtherKeys(c.table, Parents(c), e1, e2);
    }
  }

  /** What `choose` returns: the table evaluated with the parents' evidence
      written over the queried assignment. */
  lemma ChooseEvaluatesWithEvidence(c: Conditional, evidence: Values, a: Values)
    requires HasAll(Parents(c), evidence)
    ensures ChooseSpec(c, evidence).Success?
    ensures ChooseSpec(c, evidence).value(a) == c.table(a + EvidenceOn(Parents(c), evidence))
  {
    RestrictAllAt(c.table, Parents(c), evidence, a);
  }

  /** `choose(parentsValues)`: restrict the table one parent at a time, in
      parent order; a parent missing from the evidence is an error. */
  method Choose(c: Conditional, parentsValues: Values) returns (r: Result<ADT>)
    ensures r.Failure? <==> exists i :: 0 <= i < |Parents(c)| && Parents(c)[i] !in parentsValues
    ensures r.Failure? ==> r.error == ParentValueMissing
    ensures r == ChooseSpec(c, parentsValues)
  {
    var parents := Parents(c);
    var pFS := c.table;
    for i := 0 to |parents|
      invariant HasAll(parents[..i], parentsValues)
      invariant pFS == RestrictAll(c.table, parents[..i], parentsValues)
    {
      var j := parents[i];
      if j !in parentsValues {
        return Failure(ParentValueMissing);
      }
      assert parents[..i + 1][..i] == parents[..i];
      pFS := Restrict(pFS, j, parentsValues[j]);
    }
    assert parents[..|parents|] == parents;
    return Success(pFS);
  }

  /** `chooseAsFactor(parentsValues)`: `choose`, then package the result as a
      factor over the single frontal key. A missing parent is reported before
      a wrong frontal count. */
  method ChooseAsFactor(c: Conditional, parentsValues: Values) returns (r: Result<Factor>)
    requires c.nrFrontals == 1 ==> FirstFrontalKnown(c)
    ensures ChooseSpec(c, parentsValues).Failure? ==> r == Failure(ParentValueMissing)
    ensures ChooseSpec(c, parentsValues).Success? && c.nrFrontals != 1 ==> r == Failure(ExpectedOneFrontal)
    ensures ChooseSpec(c, parentsValues).Success? && c.nrFrontals == 1 ==>
      r.Success? &&
      r.value.keys == [c.keys[0]] &&
      r.value.cardinalities == map[c.keys[0] := c.cardinalities[c.keys[0]]] &&
      r.value.table == ChooseSpec(c, parentsValues).value
  {
    var pFS := Choose(c, parentsValues);
    if pFS.Failure? {
      return Failure(pFS.error);
    }
    if c.nrFrontals != 1 {
      return Failure(ExpectedOneFrontal);
    }
    var frontalKey := c.keys[0];
    var frontalCardinality := c.cardinalities[frontalKey];
    return Success(Factor([frontalKey], map[frontalKey := frontalCardinality], pFS.value));
  }

  // ---------------------------------------------------------------------
  // solveInPlace

  /** Configuration `k` is the first of the largest in the enumeration: no
      configuration beats it and every earlier one is strictly smaller. */
  ghost predicate IsFirstMax(pFS: ADT, configurations: seq<Values>, k: nat)
  {
    && k < |configurations|
    && (forall i :: 0 <= i < |configurations| ==> pFS(configurations[i]) <= pFS(configurations[k]))
    && (forall i :: 0 <= i < k ==> pFS(configurations[i]) < pFS(configurations[k]))
  }

  /** `mpe` is what the search in `solveInPlace` ends with: the empty
      assignment when no configuration has a positive value (none beats the
      initial maximum 0), else the first largest configuration. */
  ghost predicate IsMpe(pFS: ADT, configurations: seq<Values>, mpe: Values)
  {
    if forall i :: 0 <= i < |configurations| ==> pFS(configurations[i]) <= 0.0
    then mpe == map[]
    else exists k: nat :: IsFirstMax(pFS, configurations, k) && mpe == configurations[k]
  }

  /** The first largest configuration is unique, so `IsMpe` determines the
      solution. */
  lemma MpeUnique(pFS: ADT, configurations: seq<Values>, m1: Values, m2: Values)
    requires IsMpe(pFS, configurations, m1) && IsMpe(pFS, configurations, m2)
    ensures m1 == m2
  {
    if !forall i :: 0 <= i < |configurations| ==> pFS(configurations[i]) <= 0.0 {
      var k1: nat :| IsFirstMax(pFS, configurations, k1) && m1 == configurations[k1];
      var k2: nat :| IsFirstMax(pFS, configurations, k2) && m2 == configurations[k2];
      assert pFS(configurations[k1]) == pFS(configurations[k2]);
      assert k1 == k2;
    }
  }

  /** The search loop of `solveInPlace`: the running maximum starts at 0 and
      a configuration replaces the best only when strictly larger. */
  method FindMpe(pFS: ADT, allPosbValues: seq<Values>) returns (mpe: Values, maxP: real)
    ensures IsMpe(pFS, allPosbValues, mpe)
    ensures maxP >= 0.0
    ensures maxP == 0.0 <==> forall i :: 0 <= i < |allPosbValues| ==> pFS(allPosbValues[i]) <= 0.0
    ensures maxP > 0.0 ==> maxP == pFS(mpe)
  {
    mpe := map[];
    maxP := 0.0;
    ghost var best: nat := 0;
    for n := 0 to |allPosbValues|
      invariant maxP >= 0.0
      invariant maxP == 0.0 ==> mpe == map[] && forall i :: 0 <= i < n ==> pFS(allPosbValues[i]) <= 0.0
      invariant maxP > 0.0 ==>
        && best < n && mpe == allPosbValues[best] && maxP == pFS(mpe)
        && (forall i :: 0 <= i < n ==> pFS(allPosbValues[i]) <= maxP)
        && (forall i :: 0 <= i < best ==> pFS(allPosbValues[i]) < maxP)
    {
      var pValueS := pFS(allPosbValues[n]);
      if pValueS > maxP {
        maxP := pValueS;
        mpe := allPosbValues[n];
        best := n;
      }
    }
    if maxP > 0.0 {
      assert IsFirstMax(pFS, allPosbValues, best);
    }
  }

  /** `solveInPlace(values)`: choose with `values` as evidence, search the
      frontal configurations `allPosbValues` (the cartesian product of the
      frontal domains, in the order it is produced) for the first largest,
      and write `mpe[j]` into `values` for every frontal key `j`. A missing
      parent is an error and leaves `values` as it was. */
  method SolveInPlace(c: Conditional, values: Assignment, allPosbValues: seq<Values>) returns (o: Outcome)
    requires FrontalsKnown(c)
    modifies values
    ensures ChooseSpec(c, old(values.entries)).Failure? ==>
      o == Fail(ParentValueMissing) && values.entries == old(values.entries)
    ensures ChooseSpec(c, old(values.entries)).Success? ==>
      o == Pass &&
      exists mpe :: IsMpe(ChooseSpec(c, old(values.entries)).value, allPosbValues, mpe) &&
        values.entries == Overwrite(old(values.entries), Frontals(c), mpe)
  {
    var pFS := Choose(c, values.entries);
    if pFS.Failure? {
      return Fail(pFS.error);
    }
    var mpe, maxP := FindMpe(pFS.value, allPosbValues);
    var frontals := Frontals(c);
    for i := 0 to |frontals|
      invariant values.entries == Overwrite(old(values.entries), frontals[..i], mpe)
    {
      assert frontals[..i + 1][..i] == frontals[..i];
      var j := frontals[i];
      values.entries := values.entries[j := Get(mpe, j)];
    }
    assert frontals[..|frontals|] == frontals;
    return Pass;
  }

  /** After `solveInPlace` every frontal key holds its solved value and every
      other entry of `values` is unchanged: `OverwriteSpec` for the frontal
      keys. */
  lemma SolveInPlaceWritesOnlyFrontals(c: Conditional, before: Values, after: Values, mpe: Values)
    requires after == Overwrite(before, Frontals(c), mpe)
    ensures after.Keys == before.Keys + set j | j in Frontals(c)
    ensures forall j :: j in Frontals(c) ==> after[j] == Get(mpe, j)
    ensures forall k :: k in before && k !in Frontals(c) ==> after[k] == before[k]
  {
    OverwriteSpec(before, Frontals(c), mpe);
  }

  // ---------------------------------------------------------------------
  // solve

  /** Probability of frontal value `v` in the restricted table, queried as
      the one-entry assignment `{j: v}`. */
  function Probability(pFS: ADT, j: Key, v: nat): (r: real)
  {
    pFS(map[j := v])
  }

  /** `v` is what `solve` returns for the restricted table `pFS` over the
      domain `0 .. n-1` of `j`: the smallest index of largest probability
      when some probability is positive, else 0. */
  ghost predicate IsSolution(pFS: ADT, j: Key, n: nat, v: nat)
  {
    if forall u :: 0 <= u < n ==> Probability(pFS, j, u) <= 0.0
    then v == 0
    else
      && v < n
      && (forall u :: 0 <= u < n ==> Probability(pFS, j, u) <= Probability(pFS, j, v))
      && (forall u :: 0 <= u < v ==> Probability(pFS, j, u) < Probability(pFS, j, v))
  }

  /** `solve(parentsValues)` for the single frontal variable: scan its domain
      in increasing order, replacing the best only on a strict improvement
      over the running maximum that starts at 0. */
  method Solve(c: Conditional, parentsValues: Values) returns (r: Result<nat>)
    requires c.nrFrontals == 1 && FirstFrontalKnown(c)
    ensures r.Failure? <==> ChooseSpec(c, parentsValues).Failure?
    ensures r.Failure? ==> r.error == ParentValueMissing
    ensures r.Success? ==>
      IsSolution(ChooseSpec(c, parentsValues).value, c.keys[0], c.cardinalities[c.keys[0]], r.value)
  {
    var pFS := Choose(c, parentsValues);
    if pFS.Failure? {
      return Failure(pFS.error);
    }
    var t := pFS.value;
    var mpe: nat := 0;
    var maxP := 0.0;
    var j := c.keys[0];
    var n := c.cardinalities[j];
    for value := 0 to n
      invariant maxP >= 0.0
      invariant maxP == 0.0 ==> mpe == 0 && forall u :: 0 <= u < value ==> Probability(t, j, u) <= 0.0
      invariant maxP > 0.0 ==>
        && mpe < value && maxP == Probability(t, j, mpe)
        && (forall u :: 0 <= u < value ==> Probability(t, j, u) <= maxP)
        && (forall u :: 0 <= u < mpe ==> Probability(t, j, u) < maxP)
    {
      var frontals := map[j := value];
      var pValueS := t(frontals);
      assert pValueS == Probability(t, j, value);
      if pValueS > maxP {
        maxP := pValueS;
        mpe := value;
      }
    }
    assert IsSolution(t, j, n, mpe);
    return Success(mpe);
  }

  /** The solution is unique. */
  lemma SolutionUnique(pFS: ADT, j: Key, n: nat, v1: nat, v2: nat)
    requires IsSolution(pFS, j, n, v1) && IsSolution(pFS, j, n, v2)
    ensures v1 == v2
  {
  }

  /** The one-key configurations `{j: 0}, …, {j: n-1}` in increasing order. */
  function SingleKeyConfigurations(j: Key, n: nat): seq<Values>
  {
    seq(n, u => map[j := u])
  }

  /** For one frontal variable enumerated in increasing order, `solve` and
      `solveInPlace` agree: the value `solveInPlace` writes for `j` is the
      one `solve` returns. */
  lemma SolveAgreesWithSolveInPlace(pFS: ADT, j: Key, n: nat, mpe: Values, v: nat)
    requires IsMpe(pFS, SingleKeyConfigurations(j, n), mpe)
    requires IsSolution(pFS, j, n, v)
    ensures Get(mpe, j) == v
  {
    var cs := SingleKeyConfigurations(j, n);
    if forall u :: 0 <= u < n ==> Probability(pFS, j, u) <= 0.0 {
      assert forall i :: 0 <= i < |cs| ==> pFS(cs[i]) == Probability(pFS, j, i);
    } else {
      var u0 :| 0 <= u0 < n && Probability(pFS, j, u0) > 0.0;
      assert pFS(cs[u0]) > 0.0;
      var k: nat :| IsFirstMax(pFS, cs, k) && mpe == cs[k];
      assert Get(mpe, j) == k;
      assert pFS(cs[v]) == Probability(pFS, j, v);
      assert pFS(cs[k]) == Probability(pFS, j, k);
    }
  }

  // ---------------------------------------------------------------------
  // sample

  /** The first index holding exactly 1.0, if any. */
  function FirstCertain(p: seq<real>): (r: Option<nat>)
    ensures r.Some? ==> r.value < |p| && p[r.value] == 1.0 && forall u :: 0 <= u < r.value ==> p[u] != 1.0
    ensures r.None? ==> forall u :: 0 <= u < |p| ==> p[u] != 1.0
    decreases |p|
  {
    if p == [] then None
    else if p[0] == 1.0 then Some(0)
    else match FirstCertain(p[1..])
      case None => None
      case Some(v) => Some(v + 1)
  }

  /** The probability vector `p` that `sample` fills: entry `v` is the
      probability of frontal value `v`. */
  function ProbabilityVector(pFS: ADT, j: Key, n: nat): (r: seq<real>)
  {
    seq(n, (v: int) requires 0 <= v => Probability(pFS, j, v))
  }

  /** What `sample` returns: the first value of probability exactly 1.0
      without drawing; otherwise the generator's draw `draw(p)` from the
      categorical distribution with weights `p`. */
  function SampleSpec(pFS: ADT, j: Key, n: nat, draw: seq<real> -> nat): (r: nat)
  {
    match FirstCertain(ProbabilityVector(pFS, j, n))
    case Some(v) => v
    case None => draw(ProbabilityVector(pFS, j, n))
  }

  /** The sampling shortcut: when some value has probability exactly 1.0,
      the sample is the first such value, whatever the generator would draw;
      otherwise it is the draw. */
  lemma SampleShortcut(pFS: ADT, j: Key, n: nat, draw: seq<real> -> nat)
    ensures (exists v :: 0 <= v < n && Probability(pFS, j, v) == 1.0) ==>
      var s := SampleSpec(pFS, j, n, draw);
      && s < n && Probability(pFS, j, s) == 1.0
      && (forall u :: 0 <= u < s ==> Probability(pFS, j, u) != 1.0)
      && (forall other: seq<real> -> nat :: SampleSpec(pFS, j, n, other) == s)
    ensures (forall v :: 0 <= v < n ==> Probability(pFS, j, v) != 1.0) ==>
      SampleSpec(pFS, j, n, draw) == draw(ProbabilityVector(pFS, j, n))
  {
    var p := ProbabilityVector(pFS, j, n);
    assert forall v :: 0 <= v < n ==> p[v] == Probability(pFS, j, v);
  }

  /** `sample(parentsValues)` for the single frontal variable: fill `p` in
      increasing order and return the first value of probability exactly
      1.0; if there is none, hand `p` to the generator. The process-wide
      generator is the parameter `draw`. */
  method Sample(c: Conditional, parentsValues: Values, draw: seq<real> -> nat) returns (r: Result<nat>)
    requires c.nrFrontals == 1 && FirstFrontalKnown(c)
    ensures r.Failure? <==> ChooseSpec(c, parentsValues).Failure?
    ensures r.Failure? ==> r.error == ParentValueMissing
    ensures r.Success? ==>
      r.value == SampleSpec(ChooseSpec(c, parentsValues).value, c.keys[0], c.cardinalities[c.keys[0]], draw)
  {
    var pFS := Choose(c, parentsValues);
    if pFS.Failure? {
      return Failure(pFS.error);
    }
    var key := c.keys[0];
    var nj := c.cardinalities[key];
    var p := new real[nj];
    for value := 0 to nj
      invariant forall u :: 0 <= u < value ==> p[u] == Probability(pFS.value, key, u) && p[u] != 1.0
    {
      var frontals := map[key := value];
      p[value] := pFS.value(frontals);
      if p[value] == 1.0 {
        ghost var q := ProbabilityVector(pFS.value, key, nj);
        assert q[..value] == p[..value] && q[value] == 1.0;
        FirstCertainOfPrefix(q, value);
        return Success(value);
      }
    }
    assert p[..] == ProbabilityVector(pFS.value, key, nj);
    return Success(draw(p[..]));
  }

  /** When `p[v]` is the first 1.0, `FirstCertain` finds it. */
  lemma FirstCertainOfPrefix(p: seq<real>, v: nat)
    requires v < |p| && p[v] == 1.0 && forall u :: 0 <= u < v ==> p[u] != 1.0
    ensures FirstCertain(p) == Some(v)
  {
  }

  /** `sampleInPlace(values)`: sample the single frontal variable with
      `values` as evidence and store the result under its key. */
  method SampleInPlace(c: Conditional, values: Assignment, draw: seq<real> -> nat) returns (o: Outcome)
    requires c.nrFrontals == 1 && FirstFrontalKnown(c)
    modifies values
    ensures ChooseSpec(c, old(values.entries)).Failure? ==>
      o == Fail(ParentValueMissing) && values.entries == old(values.entries)
    ensures ChooseSpec(c, old(values.entries)).Success? ==>
      o == Pass &&
      values.entries == old(values.entries)[c.keys[0] :=
        SampleSpec(ChooseSpec(c, old(values.entries)).value, c.keys[0], c.cardinalities[c.keys[0]], draw)]
  {
    var j := c.keys[0];
    var sampled := Sample(c, values.entries, draw);
    if sampled.Failure? {
      return Fail(sampled.error);
    }
    values.entries := values.entries[j := sampled.value];
    return Pass;
  }
}
