# Discrete conditionals and Bayes-tree evaluation (GTSAM)

This project models two parts of GTSAM's exact discrete inference.

- `DiscreteConditional` is a conditional probability table P(frontals | parents). It is stored as a decision-tree factor whose first `nrFrontals` keys are the frontal variables and whose remaining keys are the parents. The model covers:
  - its constructors (the frontal count and the key order);
  - `equals`;
  - evidence restriction (`choose`, `chooseAsFactor`);
  - the most-probable-explanation search (`solve`, `solveInPlace`);
  - sampling (`sample`, `sampleInPlace`).
- Bayes-tree evaluation computes the joint probability of a complete assignment. A clique's value is its conditional's value times the values of its child cliques. A tree's value is the product of its roots' values.

The decision-tree table is abstract. It is a function from an assignment (`DiscreteValues`, a map from key to domain index) to a real. Restricting it fixes one variable of that function.

A conditional is a value, because every one of its operations is `const`. The caller's `DiscreteValues` that `solveInPlace` and `sampleInPlace` write into is the class `DiscreteValues.Assignment`. Those two methods modify only that object.

`EvaluateClique` and `Evaluate` have no `modifies` clause. So evaluation changes neither the tree nor the assignment.

Errors the source throws become `Result`/`Outcome` values:
- `ParentValueMissing` when a parent has no evidence;
- `ExpectedOneFrontal` when `chooseAsFactor` is called on a conditional without exactly one frontal.

Files:
- `discrete_values.dfy`: keys, assignments, `operator[]`'s default of 0, and the caller's assignment object.
- `potentials.dfy`: the abstract table, restriction, and stand-ins for the factor's division and sum used by the constructors.
- `discrete_conditional.dfy`: the conditional and its operations.
- `discrete_bayes_tree.dfy`: cliques, trees, evaluation, and the two-clique example P(A) P(B | A).

## Model

| member | source | states |
|---|---|---|
| DiscreteConditional.SizeSub | gtsam/discrete/DiscreteConditional.cpp:51 | `joint.size()-marginal.size()` is computed in 64-bit unsigned arithmetic: the result is below 2^64 and adding the marginal's size back gives the joint's size modulo 2^64 |
| DiscreteConditional.JointAndMarginalSplit | gtsam/discrete/DiscreteConditional.cpp:47-54 | when the marginal has no more keys than the joint, the first `|joint|-|marginal|` keys are frontal and the rest, as many as the marginal has, are parents; when it has more, the count wraps past the number of keys; wherever the marginal is non-zero the conditional times the marginal is the joint |
| DiscreteConditional.OrderedKeysReplaceKeyList | gtsam/discrete/DiscreteConditional.cpp:57-62 | the ordered-keys constructor keeps the frontal count and the table of the joint/marginal constructor and takes frontals and parents from the given key order |
| DiscreteConditional.FromFactorNormalized | gtsam/discrete/DiscreteConditional.cpp:41-44 | a conditional built as `f / f.sum(1)` sums to 1 over its frontal variable's domain wherever the factor's sum is non-zero |
| DiscreteConditional.EqualsReflexive | gtsam/discrete/DiscreteConditional.cpp:88-97 | `equals` is false for a factor that is not a decision-tree factor, and a conditional equals its own factor at any non-negative tolerance |
| DiscreteConditional.Choose | gtsam/discrete/DiscreteConditional.cpp:100-117 | `choose` fails with "parent value missing" exactly when some parent key is absent from the evidence; otherwise it returns the table restricted at each parent in parent order |
| DiscreteConditional.ChooseEvaluatesWithEvidence | gtsam/discrete/DiscreteConditional.cpp:104-116 | when every parent has evidence, the restricted table at any assignment is the original table at that assignment overridden by the parents' evidence |
| DiscreteConditional.ChooseReadsOnlyParents | gtsam/discrete/DiscreteConditional.cpp:106-109 | two evidence maps that agree on the parent keys give the same `choose` result; entries for other keys have no effect |
| DiscreteConditional.ChooseAsFactor | gtsam/discrete/DiscreteConditional.cpp:120-133 | a missing parent fails first; otherwise a conditional without exactly one frontal fails with "Expected only one frontal variable"; otherwise the result is a factor over the first key alone, with its cardinality and the restricted table |
| DiscreteConditional.FindMpe | gtsam/discrete/DiscreteConditional.cpp:150-160 | the MPE search returns the first configuration in enumeration order whose value beats every earlier one and is maximal among all; the empty assignment with maximum 0 when no value is positive |
| DiscreteConditional.MpeUnique | gtsam/discrete/DiscreteConditional.cpp:153-160 | the MPE the search specifies is unique for a given table and enumeration |
| DiscreteConditional.SolveInPlace | gtsam/discrete/DiscreteConditional.cpp:136-166 | a missing parent leaves `*values` untouched and fails; otherwise `*values` is its old contents with each frontal key set to its value in the MPE (0 where the MPE has none) |
| DiscreteConditional.SolveInPlaceWritesOnlyFrontals | gtsam/discrete/DiscreteConditional.cpp:163-165 | after `solveInPlace` every frontal key is present with its solved value, no other key is added, and every non-frontal entry keeps its old value |
| DiscreteValues.OverwriteSpec | gtsam/discrete/DiscreteConditional.cpp:163-165 | writing `values[j] = mpe[j]` over a key list adds exactly those keys, gives each its (defaulted) value in the source map, and leaves all other entries alone |
| DiscreteConditional.Solve | gtsam/discrete/DiscreteConditional.cpp:177-199 | `solve` fails exactly when `choose` does; otherwise it returns 0 when no frontal value has positive probability, and else the lowest index whose probability is at least every other's and strictly above every lower index's |
| DiscreteConditional.SolutionUnique | gtsam/discrete/DiscreteConditional.cpp:189-197 | the strict-improvement tie-break determines the solution uniquely |
| DiscreteConditional.SolveAgreesWithSolveInPlace | gtsam/discrete/DiscreteConditional.cpp:136-199 | for a single frontal enumerated in increasing order, the value `solveInPlace` writes equals the value `solve` returns |
| DiscreteConditional.FirstCertain | gtsam/discrete/DiscreteConditional.cpp:214-219 | finds the first index whose probability is exactly 1.0, or reports that no entry is 1.0 |
| DiscreteConditional.SampleShortcut | gtsam/discrete/DiscreteConditional.cpp:214-222 | when some value has probability exactly 1.0 the sample is the first such value whatever the generator would draw; otherwise it is the generator's draw from the probability vector |
| DiscreteConditional.Sample | gtsam/discrete/DiscreteConditional.cpp:202-223 | `sample` fails exactly when `choose` does; otherwise it returns the first value of probability 1.0 or else the draw from the filled probability vector |
| DiscreteConditional.SampleInPlace | gtsam/discrete/DiscreteConditional.cpp:169-174 | a missing parent leaves `*values` untouched and fails; otherwise only the first frontal key is (over)written, with the sampled value |
| DiscreteBayesTree.EvaluateClique | gtsam/discrete/DiscreteBayesTree.cpp:33-41 | a clique's `evaluate` is its conditional's value times the product of its children's values |
| DiscreteBayesTree.Evaluate | gtsam/discrete/DiscreteBayesTree.cpp:49-56 | a tree's `evaluate` is the product of its roots' values, starting from 1.0 |
| DiscreteBayesTree.LeafAndEmptyTree | gtsam/discrete/DiscreteBayesTree.cpp:33-56 | a clique without children evaluates to its conditional's value, and a tree without roots to 1.0 |
| DiscreteBayesTree.ForestValuePermutation | gtsam/discrete/DiscreteBayesTree.cpp:52-54 | the product over roots (or children) does not depend on their order: any rearrangement gives the same value |
| DiscreteBayesTree.CliqueValueNonNegative | gtsam/discrete/DiscreteBayesTree.cpp:36-40 | a clique whose subtree holds only non-negative conditional values evaluates to a non-negative value |
| DiscreteBayesTree.ForestValueNonNegative | gtsam/discrete/DiscreteBayesTree.cpp:51-55 | a forest whose cliques hold only non-negative conditional values evaluates to a non-negative value |
| DiscreteBayesTree.CliqueValueZero | gtsam/discrete/DiscreteBayesTree.cpp:36-40 | a conditional that is 0 anywhere in a clique's subtree makes the clique evaluate to 0 |
| DiscreteBayesTree.ForestValueZero | gtsam/discrete/DiscreteBayesTree.cpp:51-55 | a conditional that is 0 anywhere in the forest makes the forest evaluate to 0 |
| DiscreteBayesTree.ExampleValues | gtsam/discrete/DiscreteBayesTree.cpp:33-56 | for root P(A) with child P(B given A), evaluation at {A:0, B:0} is 0.24 and at {A:1, B:1} is 0.63; with evidence A = 0, `solve` for B picks 0 |

## Left out

- Decision-tree internals (`AlgebraicDecisionTree`, `DecisionTreeFactor`) are not part of this model. A table is the function of an assignment that the tree computes.
  - Restriction fixes one variable of that function.
  - The factor division `f / g` is a pointwise quotient, taken as 0 where the denominator is 0.
  - `sum(n)` sums out the first `n` keys.
  - These two are stand-ins for code that is not part of this model. The key order a real division produces is not modelled: the constructors keep the joint's key order.
- Tables are total. Evaluating at an assignment that lacks a variable reads through the table's own semantics, so there is no missing-variable error in evaluation.
- Floating point: probabilities are `real`. The exact `== 1.0` and strict `>` comparisons carry over; rounding does not.
- The random generator (`static mt19937 rng(2)`, `std::discrete_distribution`) is the parameter `draw`, applied to the probability vector. Its state advancing between calls is not modelled.
- The enumeration `cartesianProduct` produces is the parameter `allPosbValues` of `SolveInPlace`. Its order and its contents (that it enumerates every combination of frontal values) are not modelled.
- Console output (`print`, the diagnostics in `choose`'s handler) and the `ISDEBUG` paths are not modelled. The `COUNT` path skips normalisation, and the other path only prints.
- The `Signature` constructor builds its table from a parser that is not part of this model.
- `DiscreteBayesTree::equals` delegates to the generic Bayes tree and is not modelled. Building the tree (elimination) and its shared-pointer links are not modelled either: children are nested values.
- DiscreteConditional.SolveInPlace: requires that every frontal key has a recorded cardinality. `cardinality(idx)` throws `out_of_range` for an unknown key (gtsam/discrete/DiscreteConditional.cpp:146), and that throw is not modelled.
- DiscreteConditional.ChooseAsFactor, DiscreteConditional.Solve, DiscreteConditional.Sample, DiscreteConditional.SampleInPlace: these require that the first frontal key has a recorded cardinality. `cardinality(j)` throws `out_of_range` for an unknown key, and that throw is not modelled.
- DiscreteConditional.Solve, DiscreteConditional.Sample, DiscreteConditional.SampleInPlace: the source only `assert`s `nrFrontals() == 1`, so the model takes it as a precondition rather than an error result.
- The choose error carries no key: the exception message at gtsam/discrete/DiscreteConditional.cpp:113 names none.
- A frontal count larger than the number of keys (reachable through the wrapped subtraction) is clamped when the model splits frontals from parents. Iterating past the end of the key list in the source is undefined behaviour.
- DiscreteConditional.Equals compares tables only. The tolerance comparison of the decision trees' structure is not modelled.
