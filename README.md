# Fuzzy sets: trapezoidal membership and Zadeh operators

A Dafny model of the fuzzy-set core of `EL7038/FuzzyInferenceSystem/FuzzyInferenceSystem.py`.
That core has two layers. The first evaluates the membership degree of a point in a
trapezoidal fuzzy set given by four breakpoints, and samples that over a universe. The
second combines membership sets with intersection (element-wise min), union
(element-wise max) and complement (element-wise `1 - x`).

Numbers are exact `real`s and numpy arrays are `seq<real>`. The model keeps the
evaluator's branches in source order, including the two `d == 0` fallbacks. A lemma
shows those fallbacks are never taken. The error raised for a breakpoint list that does
not have four entries is a `Result` value.

Files:
- `degrees.dfy` (module `Degrees`): Python's `min`/`max` on a pair, and the predicate that a membership set lies in [0, 1].
- `membership.dfy` (module `Membership`): `Degree` (the trapezoid evaluator), `FuzzyFun` (the evaluator mapped over a universe), and their properties.
- `set_ops.dfy` (module `SetOps`): `Intersection`, `Union`, `Complement` and their algebraic laws.
- `examples.dfy` (module `Examples`): the script's sets A to E, its 41-point grid, and its four composite operations, all stated as lemmas.

Points where the code is looser than its documentation, and the model follows the code:
- The docstrings of `intersection` and `union` (`FuzzyInferenceSystem.py:53`, `63`) ask for arrays of the same length. But `zip` (lines 58, 68) silently stops at the shorter input. The model truncates the same way.
- The code never checks that the breakpoints are non-decreasing (lines 20-38). The model accepts any four numbers. The range bound is proved for unordered breakpoints too.
- `trap_fuzzy_fun` (line 48) never calls the evaluator on an empty universe. So an empty universe gives an empty set even with a malformed breakpoint list. `FuzzyFun` models this.

## Model

| member | source | states |
|---|---|---|
| Degrees.Min | EL7038/FuzzyInferenceSystem/FuzzyInferenceSystem.py:58 | the pair minimum is at most both arguments and equals one of them |
| Degrees.Max | EL7038/FuzzyInferenceSystem/FuzzyInferenceSystem.py:68 | the pair maximum is at least both arguments and equals one of them |
| Membership.Degree | EL7038/FuzzyInferenceSystem/FuzzyInferenceSystem.py:13-38 | fails with NonTrapezoidalSet exactly when the breakpoint list does not have 4 entries; otherwise the degree lies in [0, 1] for any four breakpoints, ordered or not, and is 0 below p0 or above p3 |
| Membership.EdgeFallbacksUnreachable | EL7038/FuzzyInferenceSystem/FuzzyInferenceSystem.py:25-36 | for any four breakpoints, ordered or not, neither `d == 0` fallback is reached: wherever the rising branch is taken its width is positive and the degree is (a - p0)/(p1 - p0); wherever the falling branch is taken its width is negative and the degree is (a - p3)/(p2 - p3); so no division by zero occurs |
| Membership.CoreIsFull | EL7038/FuzzyInferenceSystem/FuzzyInferenceSystem.py:23-38 | with ordered breakpoints the degree is 1 if and only if p1 <= a <= p2 |
| Membership.SupportIsPositive | EL7038/FuzzyInferenceSystem/FuzzyInferenceSystem.py:23-38 | with ordered breakpoints the degree is positive if and only if a lies in (p0, p3) or in [p1, p2] |
| Membership.RisingEdge | EL7038/FuzzyInferenceSystem/FuzzyInferenceSystem.py:25-30 | with ordered breakpoints, on [p0, p1) the degree is (a - p0)/(p1 - p0) |
| Membership.RisingEdgeMonotone | EL7038/FuzzyInferenceSystem/FuzzyInferenceSystem.py:25-30 | the degree is non-decreasing along [p0, p1) |
| Membership.FallingEdge | EL7038/FuzzyInferenceSystem/FuzzyInferenceSystem.py:31-36 | with ordered breakpoints, on (p2, p3] the degree is (a - p3)/(p2 - p3) |
| Membership.FallingEdgeMonotone | EL7038/FuzzyInferenceSystem/FuzzyInferenceSystem.py:31-36 | the degree is non-increasing along (p2, p3] |
| Membership.MatchesRampMinimum | EL7038/FuzzyInferenceSystem/FuzzyInferenceSystem.py:23-38 | with ordered breakpoints, including zero-width edges, the degree equals the minimum of an independent rising ramp over [p0, p1] and falling ramp over [p2, p3] |
| Membership.DegenerateLeftEdge | EL7038/FuzzyInferenceSystem/FuzzyInferenceSystem.py:23-38 | the trapezoid [2, 2, 3, 4] has degree 1 at 2 |
| Membership.DegenerateRightEdge | EL7038/FuzzyInferenceSystem/FuzzyInferenceSystem.py:23-38 | the trapezoid [1, 2, 3, 3] has degree 1 at 3 |
| Membership.FuzzyFun | EL7038/FuzzyInferenceSystem/FuzzyInferenceSystem.py:41-48 | succeeds exactly when the universe is empty or the breakpoints are four; then keeps length and order, element i being the degree of sample i, and all values lie in [0, 1] |
| SetOps.Intersection | EL7038/FuzzyInferenceSystem/FuzzyInferenceSystem.py:51-58 | length is that of the shorter input; element i is a lower bound of both inputs' element i and equals one of them (their minimum) |
| SetOps.Union | EL7038/FuzzyInferenceSystem/FuzzyInferenceSystem.py:61-68 | length is that of the shorter input; element i is an upper bound of both inputs' element i and equals one of them (their maximum) |
| SetOps.Complement | EL7038/FuzzyInferenceSystem/FuzzyInferenceSystem.py:71-77 | keeps the length; element i and the input's element i sum to 1 |
| SetOps.IntersectionCommutative | EL7038/FuzzyInferenceSystem/FuzzyInferenceSystem.py:58 | intersection is commutative, for any lengths |
| SetOps.UnionCommutative | EL7038/FuzzyInferenceSystem/FuzzyInferenceSystem.py:68 | union is commutative, for any lengths |
| SetOps.IntersectionIdempotent | EL7038/FuzzyInferenceSystem/FuzzyInferenceSystem.py:58 | a set intersected with itself is itself |
| SetOps.UnionIdempotent | EL7038/FuzzyInferenceSystem/FuzzyInferenceSystem.py:68 | a set joined with itself is itself |
| SetOps.IntersectionAssociative | EL7038/FuzzyInferenceSystem/FuzzyInferenceSystem.py:58 | intersection is associative |
| SetOps.UnionAssociative | EL7038/FuzzyInferenceSystem/FuzzyInferenceSystem.py:68 | union is associative |
| SetOps.Absorption | EL7038/FuzzyInferenceSystem/FuzzyInferenceSystem.py:58-68 | both absorption laws hold when the first set is not longer than the second |
| SetOps.IntersectionDistributesOverUnion | EL7038/FuzzyInferenceSystem/FuzzyInferenceSystem.py:58-68 | intersection distributes over union, for any lengths |
| SetOps.ComplementInvolution | EL7038/FuzzyInferenceSystem/FuzzyInferenceSystem.py:77 | complementing twice gives back the set |
| SetOps.DeMorganUnion | EL7038/FuzzyInferenceSystem/FuzzyInferenceSystem.py:58-77 | the complement of a union is the intersection of the complements |
| SetOps.DeMorganIntersection | EL7038/FuzzyInferenceSystem/FuzzyInferenceSystem.py:58-77 | the complement of an intersection is the union of the complements |
| SetOps.IntersectionInUnit | EL7038/FuzzyInferenceSystem/FuzzyInferenceSystem.py:58 | intersection keeps [0, 1]-valued sets [0, 1]-valued |
| SetOps.UnionInUnit | EL7038/FuzzyInferenceSystem/FuzzyInferenceSystem.py:68 | union keeps [0, 1]-valued sets [0, 1]-valued |
| SetOps.ComplementInUnit | EL7038/FuzzyInferenceSystem/FuzzyInferenceSystem.py:77 | complement keeps [0, 1]-valued sets [0, 1]-valued |
| SetOps.HalfBounds | EL7038/FuzzyInferenceSystem/FuzzyInferenceSystem.py:58-77 | a set met with its complement stays at most 1/2 everywhere, and joined with it stays at least 1/2 |
| SetOps.NoExcludedMiddle | EL7038/FuzzyInferenceSystem/FuzzyInferenceSystem.py:58-77 | the set [0.5] met with its complement is [0.5], not empty, and joined with it is [0.5], not full |
| Examples.Linspace | EL7038/FuzzyInferenceSystem/FuzzyInferenceSystem.py:88 | n samples from lo to hi with both ends included |
| Examples.LinspaceEvenGaps | EL7038/FuzzyInferenceSystem/FuzzyInferenceSystem.py:88 | consecutive samples are exactly (hi - lo)/(n - 1) apart |
| Examples.LinspaceIncreasing | EL7038/FuzzyInferenceSystem/FuzzyInferenceSystem.py:88 | the samples are strictly increasing when lo < hi |
| Examples.Grid | EL7038/FuzzyInferenceSystem/FuzzyInferenceSystem.py:88 | the script's grid has 41 samples, sample k being -1 + k/20, so it runs from -1 to 1 |
| Examples.Sampled | EL7038/FuzzyInferenceSystem/FuzzyInferenceSystem.py:95 | a trapezoid sampled on the grid gives a 41-element membership set in [0, 1] whose element k is the degree of grid sample k |
| Examples.ExampleSetsOrdered | EL7038/FuzzyInferenceSystem/FuzzyInferenceSystem.py:81-85 | the sets A to E all have four non-decreasing breakpoints |
| Examples.SetAAtGridEnds | EL7038/FuzzyInferenceSystem/FuzzyInferenceSystem.py:81-95 | set A sampled on the grid is 1 at the first sample (-1) and 0 at the last (1) |
| Examples.OperationsAreMembershipSets | EL7038/FuzzyInferenceSystem/FuzzyInferenceSystem.py:110-135 | each of the four composite operations yields a 41-element set with values in [0, 1] |
| Examples.Operation4DeMorgan | EL7038/FuzzyInferenceSystem/FuzzyInferenceSystem.py:135 | the fourth operation, not (A or B), equals (not A) and (not B) |

## Left out

- Plotting with matplotlib (`FuzzyInferenceSystem.py:96-106`, `111-145`) and CSV export with `np.savetxt` (lines 148-151): output only, with no logic.
- The script's `S.append` loop (lines 90-97) and the `op1`..`op4` bindings (lines 110-135): these are script sequencing. They appear only as the example lemmas in `examples.dfy`, not as modelled state.
- Floating-point behaviour of numpy: all arithmetic, including the `np.linspace` grid, is exact real arithmetic. IEEE rounding is not modelled.
- Python values other than numbers passed as points or breakpoints (strings, NaN) are not modelled. Inputs are reals.
- `EL7038/Lab1/control_triang.py`: the rule-based controller and its feedback loop. They are built entirely on scikit-fuzzy (`ctrl.Antecedent`, `ctrl.Rule`, `ControlSystemSimulation.compute`, centroid defuzzification). That library's code is not part of this model, so its behaviour would have to be invented.
