/** `value_iteration`: repeat the greedy step from the zero vector until the
    value moves by less than `crit` in every state, or `max_iter` iterations
    have run. */
module ValueIteration {
  import opened Numeric
  import opened LinearAlgebra
  import opened Primitives
  import opened History

  /** `crit` when the caller passes None. */
  const DefaultCrit: real := 0.000001

  function Crit(crit: Option<real>): (c: real)
    ensures crit.Some? ==> c == crit.value
    ensures crit.None? ==> c == 0.000001
  {
    if crit.None? then DefaultCrit else crit.value
  }

  // The loop as mutually recursive sequences, one per assignment of its
  // body: `val_old` going into iteration t, the grid `v_new` that
  // `bellman_equation` builds from it, the pair that `state_wise_max`
  // extracts from that grid, and its policy row. `val_new` is read off the
  // grid at the chosen rows, which is the column maximum (VIValueIsMax).

  /** `val_old` at the start of iteration t: zero, then the previous `val_new`. */
  function VIValue(u: Grid, beta: real, t: nat): (v: seq<Num>)
    requires IsSquare(u) && |u| > 0
    ensures |v| == |u| && NoNaN(v)
    decreases t, |u|
  {
    if t == 0 then Zeros(|u|) else VINext(u, beta, t - 1)
  }

  /** `val_new` in iteration t: the grid's entry at each state's chosen row. */
  function VINext(u: Grid, beta: real, t: nat): (v: seq<Num>)
    requires IsSquare(u) && |u| > 0
    ensures |v| == |u| && NoNaN(v)
    decreases t, |u| + 4
  {
    Lift(Picked(VIGrid(u, beta, t), VIPolicy(u, beta, t)))
  }

  /** `v_new` in iteration t. */
  function VIGrid(u: Grid, beta: real, t: nat): (g: Grid)
    requires IsSquare(u) && |u| > 0
    ensures |g| == |u| && IsSquare(g)
    decreases t, |u| + 1
  {
    BellmanEquation(u, VIValue(u, beta, t), beta)
  }

  /** `val_new` and the policy row of iteration t. */
  function VIMax(u: Grid, beta: real, t: nat): (r: Greedy)
    requires IsSquare(u) && |u| > 0
    ensures |r.value| == |u| && IsPolicy(r.policy, |u|)
    decreases t, |u| + 2
  {
    var r := StateWiseMax(VIGrid(u, beta, t));
    StateWiseMaxSpec(VIGrid(u, beta, t));
    assert forall j :: 0 <= j < |u| ==> IsColumnMax(VIGrid(u, beta, t), j, r.policy[j], r.value[j]);
    r
  }

  /** The greedy policy computed in iteration t. */
  function VIPolicy(u: Grid, beta: real, t: nat): (p: seq<nat>)
    requires IsSquare(u) && |u| > 0
    ensures IsPolicy(p, |u|)
    decreases t, |u| + 3
  {
    VIMax(u, beta, t).policy
  }

  /** The entry each state's chosen row holds, NaN-zeroed. */
  function Picked(g: Grid, pol: seq<nat>): (v: seq<real>)
    requires IsSquare(g) && IsPolicy(pol, |g|)
    ensures |v| == |g|
  {
    seq(|g|, j requires 0 <= j < |g| => NanToZero(g[pol[j]][j]))
  }

  /** `val_new` is the maximum of each column of `v_new`. */
  lemma {:induction false} VIValueIsMax(u: Grid, beta: real, t: nat)
    requires IsSquare(u) && |u| > 0
    ensures VIValue(u, beta, t + 1) == Lift(VIMax(u, beta, t).value)
  {
    var g, r := VIGrid(u, beta, t), VIMax(u, beta, t);
    StateWiseMaxSpec(g);
    assert forall j :: 0 <= j < |u| ==> IsColumnMax(g, j, r.policy[j], r.value[j]);
    assert Picked(g, r.policy) == r.value;
    assert VINext(u, beta, t) == Lift(Picked(g, r.policy));
  }

  /** Each iteration is one greedy step: a Bellman sweep followed by the
      state-wise maximum is `v_greedy` of `val_old`. */
  lemma {:induction false} VIMaxIsGreedy(u: Grid, beta: real, t: nat)
    requires IsSquare(u) && |u| > 0
    ensures VIMax(u, beta, t) == VGreedy(VIValue(u, beta, t), u, beta)
  {
  }

  /** Iteration t stops the loop: `max |val_new - val_old| < crit`. */
  predicate VIConverged(u: Grid, beta: real, crit: real, t: nat)
    requires IsSquare(u) && |u| > 0
  {
    Below(MaxAbsDiff(VIValue(u, beta, t + 1), VIValue(u, beta, t)), crit)
  }

  /** None of the iterations before i stopped the loop. */
  predicate NoneConverged(u: Grid, beta: real, crit: real, i: nat)
    requires IsSquare(u) && |u| > 0
  {
    forall t :: 0 <= t < i ==> !VIConverged(u, beta, crit, t)
  }

  /** The first i policy rows: the greedy policies of iterations 0 .. i-1. */
  function VIPolicies(u: Grid, beta: real, i: nat): (r: seq<seq<nat>>)
    requires IsSquare(u) && |u| > 0
    ensures |r| == i
  {
    if i == 0 then [] else VIPolicies(u, beta, i - 1) + [VIPolicy(u, beta, i - 1)]
  }

  lemma {:induction false} VIPoliciesAt(u: Grid, beta: real, i: nat)
    requires IsSquare(u) && |u| > 0
    ensures forall t :: 0 <= t < i ==> VIPolicies(u, beta, i)[t] == VIPolicy(u, beta, t)
  {
    if i > 0 {
      VIPoliciesAt(u, beta, i - 1);
    }
  }

  /** The first i value rows: the values `val_new` of iterations 0 .. i-1. */
  function VIValues(u: Grid, beta: real, i: nat): (r: seq<seq<Num>>)
    requires IsSquare(u) && |u| > 0
    ensures |r| == i
  {
    if i == 0 then [] else VIValues(u, beta, i - 1) + [VIValue(u, beta, i)]
  }

  lemma {:induction false} VIValuesAt(u: Grid, beta: real, i: nat)
    requires IsSquare(u) && |u| > 0
    ensures forall t :: 0 <= t < i ==> VIValues(u, beta, i)[t] == VIValue(u, beta, t + 1)
  {
    if i > 0 {
      VIValuesAt(u, beta, i - 1);
    }
  }

  /** A row of the integer policy history that was never written. */
  function ZeroPolicy(n: nat): seq<nat> {
    seq(n, _ => 0)
  }

  /** The value rows written by a run that stops at iteration `numIter`:
      one per iteration before it, plus its own when it did not converge. */
  function VIValueRows(u: Grid, beta: real, crit: real, numIter: nat): seq<seq<Num>>
    requires IsSquare(u) && |u| > 0
  {
    if VIConverged(u, beta, crit, numIter) then VIValues(u, beta, numIter)
    else VIValues(u, beta, numIter + 1)
  }

  /** The body of the loop for iteration i: the Bellman sweep and the
      state-wise maximum from `val_old`, the policy row write, the stopping
      test and, when the loop goes on, the value row write. `stop` reports
      the break. */
  method ValueIterationStep(u: Grid, beta: real, crit: real, maxIter: nat, i: nat, valOld: seq<Num>,
                            valueHist: array<seq<Num>>, policyHist: array<seq<nat>>)
    returns (valNew: seq<Num>, stop: bool)
    requires IsSquare(u) && |u| > 0 && i < maxIter
    requires valOld == VIValue(u, beta, i)
    requires policyHist[..] == Rows(VIPolicies(u, beta, i), ZeroPolicy(|u|), maxIter)
    requires valueHist[..] == Rows(VIValues(u, beta, i), NaNRow(|u|), maxIter)
    modifies valueHist, policyHist
    ensures valNew == VIValue(u, beta, i + 1)
    ensures stop <==> VIConverged(u, beta, crit, i)
    ensures policyHist[..] == Rows(VIPolicies(u, beta, i + 1), ZeroPolicy(|u|), maxIter)
    ensures valueHist[..] == Rows(VIValues(u, beta, if stop then i else i + 1), NaNRow(|u|), maxIter)
  {
    var vNew := BellmanEquation(u, valOld, beta);
    assert vNew == VIGrid(u, beta, i);
    var g := StateWiseMax(vNew);
    assert g == VIMax(u, beta, i);
    VIValueIsMax(u, beta, i);
    valNew := Lift(g.value);
    RowsWrite(VIPolicies(u, beta, i), ZeroPolicy(|u|), maxIter, g.policy);
    policyHist[i] := g.policy;
    stop := Below(MaxAbsDiff(valNew, valOld), crit);
    if !stop {
      RowsWrite(VIValues(u, beta, i), NaNRow(|u|), maxIter, valNew);
      valueHist[i] := valNew;
    }
  }

  /** `value_iteration`. `num_iter` is the first iteration that stops the
      loop, or the last one, `max_iter - 1`; the policy history holds one
      row per iteration up to and including it, the value history one row
      per iteration that did not stop the loop, and every other row keeps
      its initial NaN (values) or 0 (policies). */
  method ValueIteration(crit: Option<real>, maxIter: nat, u: Grid, beta: real)
    returns (valueHist: array<seq<Num>>, policyHist: array<seq<nat>>, numIter: nat)
    requires IsSquare(u) && |u| > 0 && maxIter >= 1
    ensures numIter < maxIter
    ensures NoneConverged(u, beta, Crit(crit), numIter)
    ensures VIConverged(u, beta, Crit(crit), numIter) || numIter == maxIter - 1
    ensures policyHist[..] == Rows(VIPolicies(u, beta, numIter + 1), ZeroPolicy(|u|), maxIter)
    ensures valueHist[..] == Rows(VIValueRows(u, beta, Crit(crit), numIter), NaNRow(|u|), maxIter)
  {
    var n := |u|;
    var c := Crit(crit);
    valueHist := NewBuffer(NaNRow(n), maxIter);
    policyHist := NewBuffer(ZeroPolicy(n), maxIter);
    var valOld := Zeros(n);
    numIter := 0;
    var i := 0;
    while i < maxIter
      invariant i <= maxIter && (i > 0 ==> numIter == i - 1)
      invariant valOld == VIValue(u, beta, i)
      invariant NoneConverged(u, beta, c, i)
      invariant policyHist[..] == Rows(VIPolicies(u, beta, i), ZeroPolicy(n), maxIter)
      invariant valueHist[..] == Rows(VIValues(u, beta, i), NaNRow(n), maxIter)
    {
      numIter := i;
      var valNew, stop := ValueIterationStep(u, beta, c, maxIter, i, valOld, valueHist, policyHist);
      if stop {
        assert VIValueRows(u, beta, c, i) == VIValues(u, beta, i);
        break;
      }
      valOld := valNew;
      i := i + 1;
    }
    assert i == maxIter ==> VIValueRows(u, beta, c, numIter) == VIValues(u, beta, i);
  }

  /** The history in the source's terms: policy row t holds the greedy
      policy of iteration t up to `num_iter` and 0 after it; value row t
      holds the value after t + 1 greedy steps for t < `num_iter`, and at
      `num_iter` too when that iteration did not converge; every other
      value row is NaN; and no iteration before `num_iter` met the
      criterion. */
  lemma {:induction false} ValueIterationRows(u: Grid, beta: real, crit: real, maxIter: nat, numIter: nat,
                           values: seq<seq<Num>>, policies: seq<seq<nat>>)
    requires IsSquare(u) && |u| > 0 && numIter < maxIter
    requires NoneConverged(u, beta, crit, numIter)
    requires policies == Rows(VIPolicies(u, beta, numIter + 1), ZeroPolicy(|u|), maxIter)
    requires values == Rows(VIValueRows(u, beta, crit, numIter), NaNRow(|u|), maxIter)
    ensures forall t :: 0 <= t < maxIter ==>
      policies[t] == if t <= numIter then VIPolicy(u, beta, t) else ZeroPolicy(|u|)
    ensures forall t :: 0 <= t < maxIter ==>
      values[t] == if t < numIter || (t == numIter && !VIConverged(u, beta, crit, t))
                   then VIValue(u, beta, t + 1) else NaNRow(|u|)
  {
    RowsAt(VIPolicies(u, beta, numIter + 1), ZeroPolicy(|u|), maxIter);
    RowsAt(VIValueRows(u, beta, crit, numIter), NaNRow(|u|), maxIter);
    VIValuesAt(u, beta, numIter + 1);
    VIValuesAt(u, beta, numIter);
    VIPoliciesAt(u, beta, numIter + 1);
  }
}
