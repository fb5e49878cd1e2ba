/** The array primitives of the solution engine: one Bellman sweep, the
    state-wise maximisation, their composition (the greedy step), exact
    policy evaluation and the random feasible policy.

    Axis convention of every grid: row i is the next-period capital (the
    action), column j the current capital (the state). The continuation
    value `beta * v[i]` is added along rows, maximisation runs down each
    column, and the payoff of a policy at state j is `u[policy[j]][j]`. */
module Primitives {
  import opened Numeric
  import opened LinearAlgebra
  import opened PolicyGraph

  type Grid = seq<seq<Num>>

  predicate IsRect(g: Grid, width: nat) {
    forall i :: 0 <= i < |g| ==> |g[i]| == width
  }

  predicate IsSquare(g: Grid) {
    IsRect(g, |g|)
  }

  /** `bellman_equation`: `u + beta * val_old[:, None]`, then NaN cells of
      `u` set to 0. */
  function BellmanEquation(u: Grid, valOld: seq<Num>, beta: real): (r: Grid)
    requires IsSquare(u) && |valOld| == |u|
    ensures |r| == |u| && IsSquare(r)
  {
    BellmanRows(u, valOld, beta, |u|)
  }

  /** The first k rows of the sweep, built row by row so that a solver's
      reasoning about a whole sweep need not expand its cells. */
  function BellmanRows(u: Grid, valOld: seq<Num>, beta: real, k: nat): (r: Grid)
    requires IsSquare(u) && |valOld| == |u| && k <= |u|
    ensures |r| == k && IsRect(r, |u|)
  {
    if k == 0 then [] else BellmanRows(u, valOld, beta, k - 1) + [BellmanRow(u, valOld, beta, k - 1)]
  }

  /** Row i of the sweep: action i's payoff plus its discounted value. */
  function BellmanRow(u: Grid, valOld: seq<Num>, beta: real, i: nat): (r: seq<Num>)
    requires IsSquare(u) && |valOld| == |u| && i < |u|
    ensures |r| == |u|
  {
    seq(|u|, j requires 0 <= j < |u| =>
      if u[i][j].NaN? then Num(0.0) else Add(u[i][j], Mul(Num(beta), valOld[i])))
  }

  lemma {:induction false} BellmanRowsAt(u: Grid, valOld: seq<Num>, beta: real, k: nat)
    requires IsSquare(u) && |valOld| == |u| && k <= |u|
    ensures forall i :: 0 <= i < k ==> BellmanRows(u, valOld, beta, k)[i] == BellmanRow(u, valOld, beta, i)
  {
    if k > 0 {
      BellmanRowsAt(u, valOld, beta, k - 1);
    }
  }

  /** Each cell is the payoff plus the discounted value of the row's next
      state, or 0 where the payoff is NaN; with a NaN-free value vector no
      cell is NaN. */
  lemma {:induction false} BellmanEquationAt(u: Grid, valOld: seq<Num>, beta: real)
    requires IsSquare(u) && |valOld| == |u|
    ensures forall i, j :: 0 <= i < |u| && 0 <= j < |u| ==>
      BellmanEquation(u, valOld, beta)[i][j]
        == if u[i][j].NaN? then Num(0.0) else Add(u[i][j], Mul(Num(beta), valOld[i]))
    ensures NoNaN(valOld) ==> forall i, j :: 0 <= i < |u| && 0 <= j < |u| ==>
      BellmanEquation(u, valOld, beta)[i][j].Num?
  {
    BellmanRowsAt(u, valOld, beta, |u|);
  }

  /** `np.argmax` of a non-empty vector: the first index of its largest entry. */
  function ArgMax(s: seq<real>): (k: nat)
    requires |s| > 0
    ensures k < |s|
    ensures forall i :: 0 <= i < |s| ==> s[i] <= s[k]
    ensures forall i :: 0 <= i < k ==> s[i] < s[k]
  {
    if |s| == 1 then 0
    else
      var k := ArgMax(s[..|s| - 1]);
      if s[|s| - 1] > s[k] then |s| - 1 else k
  }

  /** Column j of `np.where(np.isnan(g), 0, g)`. */
  function Column(g: Grid, j: nat): (c: seq<real>)
    requires forall i :: 0 <= i < |g| ==> j < |g[i]|
    ensures |c| == |g|
  {
    seq(|g|, i requires 0 <= i < |g| => NanToZero(g[i][j]))
  }

  /** Row k holds the largest NaN-zeroed entry m of column j, and no row
      above k holds it. */
  predicate IsColumnMax(g: Grid, j: nat, k: nat, m: real)
    requires forall i :: 0 <= i < |g| ==> j < |g[i]|
  {
    k < |g| && m == NanToZero(g[k][j]) &&
    (forall i :: 0 <= i < |g| ==> NanToZero(g[i][j]) <= m) &&
    (forall i :: 0 <= i < k ==> NanToZero(g[i][j]) < m)
  }

  /** The best value and best action of every state. */
  datatype Greedy = Greedy(value: seq<real>, policy: seq<nat>)

  /** `state_wise_max`: per column, the maximum and the arg-max of the
      NaN-zeroed grid (axis 0). */
  function StateWiseMax(g: Grid): (r: Greedy)
    requires |g| > 0 && IsRect(g, |g[0]|)
    ensures |r.value| == |g[0]| && |r.policy| == |g[0]|
  {
    ColumnMaxima(g, |g[0]|)
  }

  /** The maxima of the first w columns. */
  function ColumnMaxima(g: Grid, w: nat): (r: Greedy)
    requires |g| > 0 && IsRect(g, |g[0]|) && w <= |g[0]|
    ensures |r.value| == w && |r.policy| == w
  {
    if w == 0 then Greedy([], [])
    else
      var r := ColumnMaxima(g, w - 1);
      var c := Column(g, w - 1);
      var k := ArgMax(c);
      Greedy(r.value + [c[k]], r.policy + [k])
  }

  lemma {:induction false} ColumnMaximaSpec(g: Grid, w: nat)
    requires |g| > 0 && IsRect(g, |g[0]|) && w <= |g[0]|
    ensures forall j :: 0 <= j < w ==>
      IsColumnMax(g, j, ColumnMaxima(g, w).policy[j], ColumnMaxima(g, w).value[j])
  {
    if w > 0 {
      ColumnMaximaSpec(g, w - 1);
      var c := Column(g, w - 1);
      assert forall i :: 0 <= i < |g| ==> c[i] == NanToZero(g[i][w - 1]);
    }
  }

  /** Each column's entry of the result is its maximum and first arg-max. */
  lemma {:induction false} StateWiseMaxSpec(g: Grid)
    requires |g| > 0 && IsRect(g, |g[0]|)
    ensures forall j :: 0 <= j < |g[0]| ==>
      IsColumnMax(g, j, StateWiseMax(g).policy[j], StateWiseMax(g).value[j])
  {
    ColumnMaximaSpec(g, |g[0]|);
  }

  /** The maximum and the first row attaining it are determined by the
      column: there is one answer `IsColumnMax` admits. */
  lemma {:induction false} ColumnMaxUnique(g: Grid, j: nat, k: nat, m: real, k': nat, m': real)
    requires forall i :: 0 <= i < |g| ==> j < |g[i]|
    requires IsColumnMax(g, j, k, m) && IsColumnMax(g, j, k', m')
    ensures k == k' && m == m'
  {
  }

  /** The candidate value of action i at state j after one Bellman sweep,
      NaN-zeroed: 0 when the transition is infeasible or `v[i]` is NaN. */
  function Candidate(u: Grid, v: seq<Num>, beta: real, i: nat, j: nat): real
    requires IsSquare(u) && |v| == |u| && i < |u| && j < |u|
  {
    if u[i][j].NaN? || v[i].NaN? then 0.0 else u[i][j].value + beta * v[i].value
  }

  /** `v_greedy`: the state-wise maximum of one Bellman sweep. */
  function VGreedy(v: seq<Num>, u: Grid, beta: real): (r: Greedy)
    requires IsSquare(u) && |u| > 0 && |v| == |u|
    ensures |r.value| == |u| && IsPolicy(r.policy, |u|)
    ensures forall j :: 0 <= j < |u| ==>
      r.value[j] == Candidate(u, v, beta, r.policy[j], j) &&
      (forall i :: 0 <= i < |u| ==> Candidate(u, v, beta, i, j) <= r.value[j]) &&
      (forall i :: 0 <= i < r.policy[j] ==> Candidate(u, v, beta, i, j) < r.value[j])
  {
    var g := BellmanEquation(u, v, beta);
    var r := StateWiseMax(g);
    StateWiseMaxSpec(g);
    BellmanEquationAt(u, v, beta);
    assert forall i, j :: 0 <= i < |u| && 0 <= j < |u| ==>
      NanToZero(g[i][j]) == Candidate(u, v, beta, i, j);
    r
  }

  /** `U_policy = u_grid[policy, range(n)]`: the payoff of each state's
      chosen action. */
  function PolicyPayoff(pol: seq<nat>, u: Grid): (b: seq<Num>)
    requires IsSquare(u) && IsPolicy(pol, |u|)
    ensures |b| == |u|
  {
    seq(|u|, j requires 0 <= j < |u| => u[pol[j]][j])
  }

  /** `evaluate_policy`: the solution v of `(I - beta * Q_policy) v = U_policy`.
      None stands for a payoff vector holding NaN (the policy picks an
      infeasible transition), whose solve this model does not follow. */
  function EvaluatePolicy(pol: seq<nat>, u: Grid, beta: real): (r: Option<seq<real>>)
    requires IsSquare(u) && IsPolicy(pol, |u|) && 0.0 <= beta < 1.0
    ensures r.Some? <==> forall j :: 0 <= j < |u| ==> u[pol[j]][j].Num?
    ensures r.Some? ==> |r.value| == |u| &&
                        forall j :: 0 <= j < |u| ==> r.value[j] == u[pol[j]][j].value + beta * r.value[pol[j]]
  {
    if FeasiblePayoff(pol, u) then Some(SolvePayoff(pol, u, beta)) else None
  }

  predicate FeasiblePayoff(pol: seq<nat>, u: Grid)
    requires IsSquare(u) && IsPolicy(pol, |u|)
    ensures FeasiblePayoff(pol, u) <==> forall j :: 0 <= j < |u| ==> u[pol[j]][j].Num?
  {
    var b := PolicyPayoff(pol, u);
    assert forall j :: 0 <= j < |u| ==> b[j] == u[pol[j]][j];
    NoNaN(b)
  }

  function SolvePayoff(pol: seq<nat>, u: Grid, beta: real): (v: seq<real>)
    requires IsSquare(u) && IsPolicy(pol, |u|) && 0.0 <= beta < 1.0 && FeasiblePayoff(pol, u)
    ensures |v| == |u|
    ensures forall j :: 0 <= j < |u| ==> v[j] == u[pol[j]][j].value + beta * v[pol[j]]
  {
    var b := Values(PolicyPayoff(pol, u));
    assert SolvesEvaluation(pol, b, beta, Solve(pol, b, beta));
    SolutionsAgree(pol, b, beta);
    var v :| SolvesEvaluation(pol, b, beta, v);
    PayoffEquation(pol, u, beta, v);
    v
  }

  /** The evaluation equation over `U_policy` read back in terms of the grid. */
  lemma {:induction false} PayoffEquation(pol: seq<nat>, u: Grid, beta: real, v: seq<real>)
    requires IsSquare(u) && IsPolicy(pol, |u|) && NoNaN(PolicyPayoff(pol, u))
    requires SolvesEvaluation(pol, Values(PolicyPayoff(pol, u)), beta, v)
    ensures |v| == |u|
    ensures forall j :: 0 <= j < |u| ==> v[j] == u[pol[j]][j].value + beta * v[pol[j]]
  {
    var b := PolicyPayoff(pol, u);
    forall j | 0 <= j < |u|
      ensures v[j] == u[pol[j]][j].value + beta * v[pol[j]]
    {
      assert Values(b)[j] == b[j].value == u[pol[j]][j].value;
    }
  }

  /** The result of `evaluate_policy` solves the linear system in matrix form. */
  lemma {:induction false} EvaluatePolicySolvesSystem(pol: seq<nat>, u: Grid, beta: real)
    requires IsSquare(u) && IsPolicy(pol, |u|) && 0.0 <= beta < 1.0
    requires EvaluatePolicy(pol, u, beta).Some?
    ensures NoNaN(PolicyPayoff(pol, u))
    ensures MatVec(SystemMatrix(pol, beta), EvaluatePolicy(pol, u, beta).value)
         == Values(PolicyPayoff(pol, u))
  {
    var b := Values(PolicyPayoff(pol, u));
    FixedPointIsLinearSystem(pol, b, beta, EvaluatePolicy(pol, u, beta).value);
  }

  /** Any vector that satisfies the evaluation equation is the one
      `evaluate_policy` returns (0 <= beta < 1 makes the system non-singular). */
  lemma {:induction false} EvaluatePolicyUnique(pol: seq<nat>, u: Grid, beta: real, v: seq<real>)
    requires IsSquare(u) && IsPolicy(pol, |u|) && 0.0 <= beta < 1.0
    requires |v| == |u| && forall j :: 0 <= j < |u| ==> u[pol[j]][j].Num?
    requires forall j :: 0 <= j < |u| ==> v[j] == u[pol[j]][j].value + beta * v[pol[j]]
    ensures EvaluatePolicy(pol, u, beta) == Some(v)
  {
    var p := PolicyPayoff(pol, u);
    var b := Values(p);
    var r := EvaluatePolicy(pol, u, beta).value;
    forall j | 0 <= j < |u|
      ensures b[j] == u[pol[j]][j].value
    {
      assert b[j] == p[j].value;
    }
    assert SolvesEvaluation(pol, b, beta, v) && SolvesEvaluation(pol, b, beta, r);
    SolutionsAgree(pol, b, beta);
  }

  /** A policy that is greedy for its own value reproduces that value: the
      greedy value of a state is the payoff of the policy's action plus the
      discounted value it leads to, which is the evaluation equation. */
  lemma {:induction false} GreedyKeepsEvaluation(pol: seq<nat>, u: Grid, beta: real, v: seq<real>)
    requires IsSquare(u) && |u| > 0 && IsPolicy(pol, |u|) && 0.0 <= beta < 1.0
    requires EvaluatePolicy(pol, u, beta) == Some(v)
    requires VGreedy(Lift(v), u, beta).policy == pol
    ensures VGreedy(Lift(v), u, beta).value == v
  {
    var g := VGreedy(Lift(v), u, beta);
    forall j | 0 <= j < |u|
      ensures g.value[j] == v[j]
    {
      assert g.value[j] == Candidate(u, Lift(v), beta, pol[j], j);
      assert Lift(v)[pol[j]] == Num(v[pol[j]]);
    }
  }

  /** Row i is a possible choice at state j: its NaN-zeroed entry is nonzero. */
  predicate Admissible(g: Grid, i: nat, j: nat)
    requires IsSquare(g) && i < |g| && j < |g|
  {
    NanToZero(g[i][j]) != 0.0
  }

  predicate HasAdmissible(g: Grid, j: nat)
    requires IsSquare(g) && j < |g|
  {
    exists i :: 0 <= i < |g| && Admissible(g, i, j)
  }

  /** `random_policy`: for each column j, a row drawn from the nonzero
      entries of the NaN-zeroed column. The draw is left nondeterministic.
      None stands for the error `np.random.choice` raises on a column with no
      such entry. */
  method RandomPolicy(g: Grid) returns (r: Option<seq<nat>>)
    requires IsSquare(g)
    ensures r.Some? <==> forall j :: 0 <= j < |g| ==> HasAdmissible(g, j)
    ensures r.Some? ==> IsPolicy(r.value, |g|) &&
                        forall j :: 0 <= j < |g| ==> Admissible(g, r.value[j], j)
  {
    var pol: seq<nat> := [];
    var j := 0;
    while j < |g|
      invariant j <= |g| && |pol| == j
      invariant forall k :: 0 <= k < j ==> HasAdmissible(g, k)
      invariant forall k :: 0 <= k < j ==> pol[k] < |g| && Admissible(g, pol[k], k)
    {
      if !HasAdmissible(g, j) {
        return None;
      }
      var i :| 0 <= i < |g| && Admissible(g, i, j);
      pol := pol + [i];
      j := j + 1;
    }
    r := Some(pol);
  }
}
