# Discrete dynamic programming solvers, modelled in Dafny

This project models the solution engine of a discrete dynamic-programming
package for a growth model on an n-state capital grid
(`codes/ddp_algorithms.py`). It has two layers.

**Primitives.** These are pure array operations on an n x n utility grid `u`:
- `bellman_equation`: one Bellman sweep. Cells where `u` is NaN (infeasible) become 0.
- `state_wise_max`: the maximum and the first arg-max of each column of the NaN-zeroed grid.
- `v_greedy`: the two composed.
- `evaluate_policy`: the exact value of a deterministic policy, the solution of
  `(I - beta * Q_policy) v = U_policy`.
- `random_policy`: a random feasible action per state.

**Solvers.** Each solver drives the primitives in a loop bounded by `max_iter`
and fills history buffers pre-allocated with `max_iter` rows:
- `value_iteration`;
- `policy_iteration`;
- `modified_policy_iteration`.

## How the model represents the source

**Axes.** Row i of every grid is the action (next-period capital) and column j
the state (current capital). So:
- the continuation value `beta * v[i]` is added along rows;
- maximisation runs down each column;
- a policy's payoff at state j is `u[policy[j]][j]`.

**Doubles.** A double is `Num = NaN | Num(real)`. Arithmetic on a NaN operand
gives NaN, `np.max` of an array holding NaN is NaN, and `NaN < crit` is
false. The model tracks these because the solvers produce NaN and let it
spread. Reals stand for doubles: rounding is not modelled.

**Linear algebra.** `Q_policy`, `I - beta * Q_policy` and the matrix-vector
product are written out as sequences (`LinearAlgebra`).

**Policy evaluation.** The solve is given by its postcondition. For
`0 <= beta < 1` the solution is constructed in closed form along the
policy's functional graph (`PolicyGraph`): every path enters a cycle within
n steps, and every cycle length divides n!. The solution is proved to be
the only one.

**Solvers as methods.** Each solver is a method over `array`s of rows,
proved against a trajectory of mutually recursive functions (the value, the
greedy pair and the next value at iteration t). The histories are stated with
`History.Rows`: a written prefix followed by blank rows. The inner loop of
modified policy iteration is a method of its own (`PartialEvaluation`),
proved against the function `PartialEval`.

**Errors.** An error that stops the source is an outcome in the model:
- `random_policy` drawing from an empty set;
- the out-of-bounds history write of `policy_iteration`.

**Details of the code the model keeps:**
- `value_iteration` writes the policy row of every iteration, the converging
  one included: the write at `codes/ddp_algorithms.py:154` comes before the
  test at line 158. Only the value row of that iteration is skipped.
- `value_iteration`'s policy history is allocated with `np.zeros(..., dtype=int)`
  (line 149), so its rows that were never written hold 0.
- `policy_iteration` writes rows i + 1 (line 193). When no earlier iteration
  stops the loop, its last iteration writes row `max_iter`, one past the end
  of the buffers, and the run fails (`PIError.IndexOutOfBounds`).

**Unfolding wrappers.** Some recursive functions reach their expensive
definitions through an extra layer of wrapper functions:
- `PIGreedyOf` and `PINextOf`;
- `MPIGreedyOf` and `MPINextOf`;
- `PartialPass` and `PartialPassOf`;
- `UpdateEntriesOf` and `UpdateIterOf`.

The wrappers exist only to limit how far the verifier unfolds a definition,
which keeps verification cheap. Each trajectory has a lemma that unfolds
its definition by one step (`PartialEvalStep`, `MPIStepFacts`,
`PIStepFacts`). These lemmas, and `VIMaxIsGreedy`, restate definitions; the
table marks them "(definition unfolding)".

## Model

| member | source | states |
|---|---|---|
| Numeric.MaxNumSpec | codes/ddp_algorithms.py:156 | `np.max` is NaN exactly when some entry is NaN; otherwise it is one of the entries and no entry exceeds it |
| Numeric.AbsDiffAt | codes/ddp_algorithms.py:156 | entry j of `np.absolute(a - b)` is the absolute difference of entries j, NaN when either is NaN |
| Numeric.MaxAbsDiffBelow | codes/ddp_algorithms.py:156-158 | the stopping test `max_diff < crit` holds exactly when neither vector holds NaN and every entry moved by less than `crit` |
| Numeric.MaxAbsDiffFinite | codes/ddp_algorithms.py:156 | the distance between two NaN-free vectors is a number |
| LinearAlgebra.SystemRow | codes/ddp_algorithms.py:83-87 | row j of `(I - beta * Q_policy) v` is `v[j] - beta * v[policy[j]]` |
| LinearAlgebra.DotNumExact | codes/ddp_algorithms.py:243 | a dot product on doubles equals the exact one on a NaN-free vector and is NaN otherwise |
| LinearAlgebra.QDotSelects | codes/ddp_algorithms.py:236-243 | `Q_policy.dot(v)` picks `v[policy[j]]` on a NaN-free v; one NaN in v makes every entry NaN |
| PolicyGraph.Cyclic | codes/ddp_algorithms.py:83-89 | following a policy for n + n! steps lands where n steps do, which is what makes the system solvable in closed form |
| PolicyGraph.Solve | codes/ddp_algorithms.py:89 | for 0 <= beta < 1 the closed form satisfies `v[j] == b[j] + beta * v[policy[j]]` in every state |
| PolicyGraph.SolutionUnique | codes/ddp_algorithms.py:89 | for 0 <= beta < 1 every solution of the evaluation equation is the closed form |
| PolicyGraph.SolutionsAgree | codes/ddp_algorithms.py:89 | any two solutions of the same evaluation equation are equal |
| PolicyGraph.FixedPointIsLinearSystem | codes/ddp_algorithms.py:78-89 | v satisfies the per-state fixed-point equation exactly when `(I - beta * Q_policy) v == b` |
| Primitives.BellmanEquation | codes/ddp_algorithms.py:25-27 | the sweep of an n x n grid is an n x n grid |
| Primitives.BellmanEquationAt | codes/ddp_algorithms.py:25-27 | cell [i][j] is 0 where `u[i][j]` is NaN and `u[i][j] + beta * val_old[i]` otherwise; with a NaN-free `val_old` no cell is NaN |
| Primitives.ArgMax | codes/ddp_algorithms.py:51 | `np.argmax` returns an index whose entry no entry exceeds, and every earlier entry is strictly smaller (first index on ties) |
| Primitives.StateWiseMaxSpec | codes/ddp_algorithms.py:48-52 | per column of the NaN-zeroed grid: the value is the entry at the policy's row, no entry exceeds it, and no earlier row attains it |
| Primitives.ColumnMaxUnique | codes/ddp_algorithms.py:48-52 | the maximum and first arg-max of a column are determined by the column, so the previous row fixes `state_wise_max` completely |
| Primitives.VGreedy | codes/ddp_algorithms.py:109-113 | `v_greedy` returns a policy into [0, n) and per state the NaN-zeroed candidate `u[i][j] + beta * v[i]` of the chosen row, no smaller than any row's candidate and larger than every earlier row's |
| Primitives.EvaluatePolicy | codes/ddp_algorithms.py:78-90 | a value is returned exactly when every chosen payoff `u[policy[j]][j]` is a number, and it satisfies `v[j] == u[policy[j]][j] + beta * v[policy[j]]` |
| Primitives.EvaluatePolicySolvesSystem | codes/ddp_algorithms.py:78-89 | the returned value solves `(I - beta * Q_policy) v == U_policy` in matrix form |
| Primitives.EvaluatePolicyUnique | codes/ddp_algorithms.py:89 | any vector satisfying the evaluation equation is the one returned |
| Primitives.GreedyKeepsEvaluation | codes/ddp_algorithms.py:188-197 | when a policy is greedy for its own value, the greedy value equals that value |
| Primitives.RandomPolicy | codes/ddp_algorithms.py:129-133 | a policy is returned exactly when every column has a row with a nonzero NaN-zeroed entry, and each state's chosen row is such a row |
| History.RowsAt | codes/ddp_algorithms.py:148-149 | row t of a buffer holds the t-th written row below the written count and the blank row from there on |
| History.RowsWrite | codes/ddp_algorithms.py:161 | writing the first blank row of a buffer extends its written prefix by that row |
| History.RowsUnwritten | codes/ddp_algorithms.py:179-180 | a NaN buffer whose row 0 holds the NaN row is the unwritten buffer |
| History.NewBuffer | codes/ddp_algorithms.py:148-149 | a fresh buffer of `max_iter` blank rows |
| Fixtures.BellmanExample | codes/algorithm_test.py:91-98 | on the test grid, an all-ones `val_old` and beta 0.95 add 0.95 to every cell |
| Fixtures.StateWiseMaxExample | codes/algorithm_test.py:100-113 | the test grid gives policy [2, 2, 2] and the bottom row's values |
| Fixtures.EvaluatePolicyExample | codes/algorithm_test.py:115-121 | policy [1, 1, 1] with beta 0.95 is worth [15.95, 16.0, 16.03333333] |
| ValueIteration.Crit | codes/ddp_algorithms.py:142-143 | `crit` defaults to 1e-6 and is otherwise the caller's |
| ValueIteration.VIValueIsMax | codes/ddp_algorithms.py:153-154 | `val_new` is the column maximum of the swept grid `v_new` |
| ValueIteration.VIMaxIsGreedy | codes/ddp_algorithms.py:153-154 | (definition unfolding) a sweep followed by the state-wise maximum is `v_greedy` of `val_old` |
| ValueIteration.ValueIterationStep | codes/ddp_algorithms.py:153-162 | the loop body writes policy row i, stops exactly when iteration i converges, and writes value row i only when it does not |
| ValueIteration.ValueIteration | codes/ddp_algorithms.py:137-166 | `num_iter` is the first converging iteration or `max_iter - 1`; no earlier iteration converges; policy rows up to `num_iter` and value rows of the non-converging iterations are written, the rest stay 0 / NaN |
| ValueIteration.ValueIterationRows | codes/ddp_algorithms.py:148-164 | the histories row by row: policy row t is iteration t's greedy policy for t <= `num_iter`, value row t is the value after t + 1 steps for t < `num_iter` (and at `num_iter` when it did not converge), every other row blank |
| PolicyIteration.AdmissibleEvaluates | codes/ddp_algorithms.py:183-184 | the random policy picks feasible payoffs only, so its evaluation returns a value |
| PolicyIteration.OutcomeConverged | codes/ddp_algorithms.py:186-203 | the loop returns `num_iter == m` exactly when iteration m - 1 is the first whose policy repeats, every earlier evaluation went through, and m - 1 is not the last iteration |
| PolicyIteration.PIResultConverged | codes/ddp_algorithms.py:186-203 | the same characterisation of `num_iter` for the run's own trajectory (`PIConvergesFirstAt`: iteration m - 1 is the first whose greedy policy repeats, every earlier evaluation went through, m - 1 is not the last iteration), both directions |
| PolicyIteration.PIResultConvergedOnlyIf | codes/ddp_algorithms.py:186-203 | a run that returns `num_iter == m` converged first at iteration m - 1 |
| PolicyIteration.PIResultConvergedIf | codes/ddp_algorithms.py:186-203 | a run that converges first at iteration m - 1 returns `num_iter == m` |
| PolicyIteration.PIAtEvaluates | codes/ddp_algorithms.py:184-201 | every (policy, value) pair carried by the loop is `evaluate_policy` of its policy |
| PolicyIteration.PIStable | codes/ddp_algorithms.py:188-198 | when the greedy policy repeats, `Tv` equals the current value |
| PolicyIteration.PIConvergedIsFixedPoint | codes/ddp_algorithms.py:188-198 | at convergence the value equals its own greedy value and no action's candidate exceeds it: a fixed point of the Bellman operator |
| PolicyIteration.PIStepFacts | codes/ddp_algorithms.py:186-201 | (definition unfolding) iteration i's greedy pair, next evaluated policy, stopping test and two new rows, in terms of the current pair |
| PolicyIteration.PolicyIterationStep | codes/ddp_algorithms.py:186-201 | the loop body writes rows i + 1 with the greedy policy and greedy value (not `Tv`), carries `Tv` forward, and stops exactly when the policy repeats |
| PolicyIteration.PolicyIteration | codes/ddp_algorithms.py:168-205 | fails with `NoFeasibleAction` exactly when some column has no feasible action; otherwise the outcome is that of the trajectory from a feasible random policy, and a converged run returns `num_iter = i + 1 < max_iter` with rows 1 .. `num_iter` written |
| PolicyIteration.PolicyIterationRows | codes/ddp_algorithms.py:179-203 | row 0 and every row after `num_iter` stay NaN; row t + 1 holds iteration t's greedy policy and greedy value |
| ModifiedPolicyIteration.K | codes/ddp_algorithms.py:212-213 | `k` defaults to 30 and is otherwise the caller's |
| ModifiedPolicyIteration.PolicyUpdateAt | codes/ddp_algorithms.py:236-243 | the update `U_policy + beta * Q_policy.dot(v)` is `u[policy[s]][s] + beta * v[policy[s]]` per state on a NaN-free v, and all NaN otherwise |
| ModifiedPolicyIteration.PolicyUpdateFixedPoint | codes/ddp_algorithms.py:236-243 | a vector is left unchanged by the update exactly when it is `evaluate_policy` of the policy |
| ModifiedPolicyIteration.FixedPointEvaluates | codes/ddp_algorithms.py:236-243 | a vector the update leaves unchanged is the policy's evaluated value |
| ModifiedPolicyIteration.EvaluationIsFixed | codes/ddp_algorithms.py:236-243 | the policy's evaluated value is left unchanged by the update |
| ModifiedPolicyIteration.PartialEvalStep | codes/ddp_algorithms.py:242-250 | (definition unfolding) one pass of the inner loop: keep v when the update moves it by less than `crit`, otherwise go on from the update |
| ModifiedPolicyIteration.FirstSettle | codes/ddp_algorithms.py:242-250 | the first pass whose update moves the iterate by less than `crit`, or k when none does |
| ModifiedPolicyIteration.PartialEvalFirstSettle | codes/ddp_algorithms.py:242-250 | the inner loop returns the iterate just before the first settling update, or the k-th iterate |
| ModifiedPolicyIteration.PartialEvalKeepsSolution | codes/ddp_algorithms.py:242-250 | started at the policy's exact value, the inner loop stays there for any `crit` and k |
| ModifiedPolicyIteration.PartialEvalKeepsNaN | codes/ddp_algorithms.py:242-250 | a NaN entering the inner loop is never washed out |
| ModifiedPolicyIteration.PartialEvaluation | codes/ddp_algorithms.py:242-250 | the inner loop method computes `PartialEval` |
| ModifiedPolicyIteration.MPIStepFacts | codes/ddp_algorithms.py:227-252 | (definition unfolding) iteration t's greedy pair is `v_greedy` of `val_old`, and the next `val_old` is the inner loop's result from the greedy value |
| ModifiedPolicyIteration.StopTest | codes/ddp_algorithms.py:231-234 | the outer stopping test passes exactly when `val_old` holds no NaN and the greedy value is within `crit` of it in every state |
| ModifiedPolicyIteration.ModifiedPolicyIterationStep | codes/ddp_algorithms.py:227-256 | the loop body stops without writing exactly when iteration i converges; otherwise it writes row i with the greedy policy and the inner loop's value |
| ModifiedPolicyIteration.ModifiedPolicyIteration | codes/ddp_algorithms.py:207-260 | `num_iter` is the first converging iteration or `max_iter - 1`; no earlier iteration converges; rows of non-converging iterations are written and the rest stay NaN |
| ModifiedPolicyIteration.ModifiedPolicyIterationRows | codes/ddp_algorithms.py:222-258 | the histories row by row: row t holds iteration t's greedy policy and the value its inner loop reached for t < `num_iter` (and at `num_iter` when it did not converge), every other row NaN |

## Left out

- `codes/ddp_functions.py` (utility, production, steady state) is not part of this model: it is real-exponent floating-point numerics.
- `codes/ddp_auxiliary.py` (grid construction under numba, linearised solution by eigenvalues) is not part of this model. Its row/column and NaN conventions are what the grid type assumes.
- `codes/ddp_plots.py` (plotting) and `codes/ddp_profile.py` (a profiling and printing decorator) are not part of this model: they are I/O.
- Floating-point rounding is not modelled. Values are exact reals, and infinities are not modelled.
- `np.linalg.solve` is modelled by its result, not by Gaussian elimination.
- Primitives.EvaluatePolicy: requires `0 <= beta < 1`, while the source only needs `I - beta * Q_policy` to be non-singular. It gives None when a chosen payoff is NaN. The source would then return a vector with NaN spread by elimination, and which entries carry NaN is not modelled.
- PolicyIteration.PolicyIteration: when the greedy policy of a non-final iteration picks a NaN payoff, the run ends with `PIError.NaNValue`. The source would go on with NaN values, and the model does not follow that continuation.
- PolicyIteration.PolicyIteration: the histories are stated for a converged run only. A run failing with `NoFeasibleAction` or `IndexOutOfBounds` returns no histories, because the source raises there. The histories of a `NaNValue` run are not stated, because the source goes on with NaN values there and the model does not follow that continuation (previous line).
- Primitives.RandomPolicy: the draw is nondeterministic. Its uniform distribution and its seeding are not modelled.
- ValueIteration.ValueIteration, PolicyIteration.PolicyIteration, ModifiedPolicyIteration.ModifiedPolicyIteration: require `max_iter >= 1` and `n >= 1`. Outside them the source fails (`i` is unbound after an empty loop; `np.max` of an empty array raises).
- Convergence rates, contraction and monotonicity of the iterations are not stated. Termination rests on the `max_iter` bound alone.
- The Bellman test's fixtures are 3-D arrays, and only their 2-D n x n case is modelled.
