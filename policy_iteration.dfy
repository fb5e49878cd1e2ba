/** `policy_iteration`: from a random feasible policy, alternate the greedy
    step and exact evaluation until the greedy policy equals the current one.
    The loop writes history rows i + 1, so the write of its last iteration
    always falls one past the end of the buffers. */
module PolicyIteration {
  import opened Numeric
  import opened LinearAlgebra
  import opened Primitives
  import opened History

  /** A policy together with its value: `policy` and `v_policy`. */
  datatype Evaluated = Evaluated(policy: seq<nat>, value: seq<real>)

  /** How a run ends: with `num_iter`, or with the error that stops it. */
  datatype PIError =
    | NoFeasibleAction   // `random_policy` finds a column with no admissible row
    | IndexOutOfBounds   // the row write `store_policy[i + 1]` at i == max_iter - 1
    | NaNValue           // the next policy's payoff holds NaN (see `Evaluate`)
  datatype PIOutcome = Converged(numIter: nat) | Failed(error: PIError)

  /** `evaluate_policy` paired with its policy. */
  function Evaluate(u: Grid, beta: real, pol: seq<nat>): (r: Option<Evaluated>)
    requires IsSquare(u) && IsPolicy(pol, |u|) && 0.0 <= beta < 1.0
    ensures r.Some? ==> r.value.policy == pol && |r.value.value| == |u|
  {
    match EvaluatePolicy(pol, u, beta)
    case None => None
    case Some(v) => Some(Evaluated(pol, v))
  }

  // The loop as mutually recursive sequences: the evaluated policy at the
  // start of iteration t, the greedy pair computed from its value, and the
  // evaluation of the greedy policy, which becomes the next iteration's
  // policy and value. None: an evaluation met a NaN payoff.

  /** `policy` and `v_policy` at the start of iteration t. */
  function PIAt(u: Grid, beta: real, p0: seq<nat>, t: nat): (r: Option<Evaluated>)
    requires IsSquare(u) && |u| > 0 && IsPolicy(p0, |u|) && 0.0 <= beta < 1.0
    ensures r.Some? ==> IsPolicy(r.value.policy, |u|) && |r.value.value| == |u|
    decreases t, |u|
  {
    if t == 0 then Evaluate(u, beta, p0)
    else if PIAt(u, beta, p0, t - 1).None? then None
    else PINext(u, beta, p0, t - 1)
  }

  /** `improved_value, improved_policy` in iteration t. */
  function PIGreedy(u: Grid, beta: real, p0: seq<nat>, t: nat): (g: Greedy)
    requires IsSquare(u) && |u| > 0 && IsPolicy(p0, |u|) && 0.0 <= beta < 1.0
    requires PIAt(u, beta, p0, t).Some?
    ensures |g.value| == |u| && IsPolicy(g.policy, |u|)
    decreases t, |u| + 2
  {
    PIGreedyOf(u, beta, p0, t)
  }

  // The greedy step and the evaluation sit one call below the functions
  // above, so that unfolding the trajectory does not unfold them.

  function PIGreedyOf(u: Grid, beta: real, p0: seq<nat>, t: nat): (g: Greedy)
    requires IsSquare(u) && |u| > 0 && IsPolicy(p0, |u|) && 0.0 <= beta < 1.0
    requires PIAt(u, beta, p0, t).Some?
    ensures |g.value| == |u| && IsPolicy(g.policy, |u|)
    decreases t, |u| + 1
  {
    VGreedy(Lift(PIAt(u, beta, p0, t).value.value), u, beta)
  }

  /** `Tv` in iteration t, with its policy. */
  function PINext(u: Grid, beta: real, p0: seq<nat>, t: nat): (r: Option<Evaluated>)
    requires IsSquare(u) && |u| > 0 && IsPolicy(p0, |u|) && 0.0 <= beta < 1.0
    requires PIAt(u, beta, p0, t).Some?
    ensures r.Some? ==> IsPolicy(r.value.policy, |u|) && |r.value.value| == |u|
    decreases t, |u| + 4
  {
    PINextOf(u, beta, p0, t)
  }

  function PINextOf(u: Grid, beta: real, p0: seq<nat>, t: nat): (r: Option<Evaluated>)
    requires IsSquare(u) && |u| > 0 && IsPolicy(p0, |u|) && 0.0 <= beta < 1.0
    requires PIAt(u, beta, p0, t).Some?
    ensures r.Some? ==> IsPolicy(r.value.policy, |u|) && |r.value.value| == |u|
    decreases t, |u| + 3
  {
    Evaluate(u, beta, PIGreedy(u, beta, p0, t).policy)
  }

  /** Iteration t stops the loop: the greedy policy equals the current one. */
  predicate PIConverged(u: Grid, beta: real, p0: seq<nat>, t: nat)
    requires IsSquare(u) && |u| > 0 && IsPolicy(p0, |u|) && 0.0 <= beta < 1.0
  {
    PIAt(u, beta, p0, t).Some? &&
    PIGreedy(u, beta, p0, t).policy == PIAt(u, beta, p0, t).value.policy
  }

  /** The evaluation of iteration t went through. */
  predicate PIEvaluated(u: Grid, beta: real, p0: seq<nat>, t: nat)
    requires IsSquare(u) && |u| > 0 && IsPolicy(p0, |u|) && 0.0 <= beta < 1.0
  {
    PIAt(u, beta, p0, t).Some?
  }

  /** How the loop goes on from iteration i, given which iterations find
      the greedy policy unchanged and which carry a NaN-free value into the
      next one: the row write at i + 1 fails on the last iteration before
      anything else is looked at, then the policy comparison, then the
      value carried forward. */
  function Outcome(converged: nat -> bool, carried: nat -> bool, maxIter: nat, i: nat): PIOutcome
    requires i < maxIter
    decreases maxIter - i
  {
    if i + 1 == maxIter then Failed(IndexOutOfBounds)
    else if converged(i) then Converged(i + 1)
    else if !carried(i) then Failed(NaNValue)
    else Outcome(converged, carried, maxIter, i + 1)
  }

  /** The loop ends with `num_iter == m` exactly when iteration m - 1 is the
      first that converges, every iteration before it carried its value
      forward, and m - 1 is not the last iteration. */
  lemma {:induction false} OutcomeConverged(converged: nat -> bool, carried: nat -> bool, maxIter: nat, i: nat, m: nat)
    requires i < maxIter
    ensures Outcome(converged, carried, maxIter, i) == Converged(m) <==>
      i < m < maxIter && converged(m - 1) &&
      forall t :: i <= t < m - 1 ==> !converged(t) && carried(t)
    decreases maxIter - i
  {
    if i + 1 < maxIter && !converged(i) && carried(i) {
      OutcomeConverged(converged, carried, maxIter, i + 1, m);
    }
  }

  /** The outcome of a run from the random policy p0, from iteration i on. */
  function PIResult(u: Grid, beta: real, p0: seq<nat>, maxIter: nat, i: nat): PIOutcome
    requires IsSquare(u) && |u| > 0 && IsPolicy(p0, |u|) && 0.0 <= beta < 1.0
    requires i < maxIter
  {
    Outcome(PIConvergence(u, beta, p0), PICarried(u, beta, p0), maxIter, i)
  }

  /** Which iterations of the run converge. */
  function PIConvergence(u: Grid, beta: real, p0: seq<nat>): (c: nat -> bool)
    requires IsSquare(u) && |u| > 0 && IsPolicy(p0, |u|) && 0.0 <= beta < 1.0
    ensures forall t: nat :: c(t) == PIConverged(u, beta, p0, t)
  {
    (t: nat) => PIConverged(u, beta, p0, t)
  }

  /** Which iterations carry an evaluated policy into the next one. */
  function PICarried(u: Grid, beta: real, p0: seq<nat>): (c: nat -> bool)
    requires IsSquare(u) && |u| > 0 && IsPolicy(p0, |u|) && 0.0 <= beta < 1.0
    ensures forall t: nat :: c(t) == PIEvaluated(u, beta, p0, t + 1)
  {
    (t: nat) => PIEvaluated(u, beta, p0, t + 1)
  }

  /** An evaluation that went through went through at every earlier step. */
  lemma {:induction false} PIAtPrefix(u: Grid, beta: real, p0: seq<nat>, s: nat, t: nat)
    requires IsSquare(u) && |u| > 0 && IsPolicy(p0, |u|) && 0.0 <= beta < 1.0
    requires s <= t && PIAt(u, beta, p0, t).Some?
    ensures PIAt(u, beta, p0, s).Some?
    decreases t
  {
    if s < t {
      PIAtPrefix(u, beta, p0, s, t - 1);
    }
  }

  /** A random policy has a finite payoff at every state, so its evaluation
      goes through. */
  lemma {:induction false} AdmissibleEvaluates(u: Grid, beta: real, p0: seq<nat>)
    requires IsSquare(u) && IsPolicy(p0, |u|) && 0.0 <= beta < 1.0
    requires forall j :: 0 <= j < |u| ==> Admissible(u, p0[j], j)
    ensures Evaluate(u, beta, p0).Some?
  {
    assert forall j :: 0 <= j < |u| ==> u[p0[j]][j].Num?;
  }

  /** At convergence the greedy policy is the current one, so evaluating it
      again gives the same value: `Tv == v_policy`. */
  lemma {:induction false} PIStable(u: Grid, beta: real, p0: seq<nat>, t: nat)
    requires IsSquare(u) && |u| > 0 && IsPolicy(p0, |u|) && 0.0 <= beta < 1.0
    requires PIConverged(u, beta, p0, t)
    ensures PIAt(u, beta, p0, t + 1) == PIAt(u, beta, p0, t)
  {
    var e := PIAt(u, beta, p0, t).value;
    PIStepFacts(u, beta, p0, t, e);
    PIAtEvaluates(u, beta, p0, t);
  }


  /** Every evaluated policy on the trajectory is `evaluate_policy` of
      its own policy. */
  lemma {:induction false} PIAtEvaluates(u: Grid, beta: real, p0: seq<nat>, t: nat)
    requires IsSquare(u) && |u| > 0 && IsPolicy(p0, |u|) && 0.0 <= beta < 1.0
    requires PIAt(u, beta, p0, t).Some?
    ensures EvaluatePolicy(PIAt(u, beta, p0, t).value.policy, u, beta) == Some(PIAt(u, beta, p0, t).value.value)
  {
    if t > 0 {
      assert PIAt(u, beta, p0, t) == PINext(u, beta, p0, t - 1) == PINextOf(u, beta, p0, t - 1);
    }
  }

  /** The value at convergence is a fixed point of the Bellman operator
      (NaN cells of the sweep read as 0): in every state it equals the
      greedy value computed from it, which no action's candidate exceeds. */
  lemma {:induction false} PIConvergedIsFixedPoint(u: Grid, beta: real, p0: seq<nat>, t: nat)
    requires IsSquare(u) && |u| > 0 && IsPolicy(p0, |u|) && 0.0 <= beta < 1.0
    requires PIConverged(u, beta, p0, t)
    ensures PIGreedy(u, beta, p0, t).value == PIAt(u, beta, p0, t).value.value
    ensures forall i, j :: 0 <= i < |u| && 0 <= j < |u| ==>
      Candidate(u, Lift(PIAt(u, beta, p0, t).value.value), beta, i, j) <= PIAt(u, beta, p0, t).value.value[j]
  {
    var e := PIAt(u, beta, p0, t).value;
    PIAtEvaluates(u, beta, p0, t);
    assert PIGreedy(u, beta, p0, t) == PIGreedyOf(u, beta, p0, t) == VGreedy(Lift(e.value), u, beta);
    GreedyKeepsEvaluation(e.policy, u, beta, e.value);
  }

  /** Iteration m - 1 is the first whose greedy policy repeats the current
      one, every evaluation before it went through, and m - 1 is not the
      last iteration. */
  predicate PIConvergesFirstAt(u: Grid, beta: real, p0: seq<nat>, maxIter: nat, m: nat)
    requires IsSquare(u) && |u| > 0 && IsPolicy(p0, |u|) && 0.0 <= beta < 1.0
  {
    0 < m < maxIter && PIConverged(u, beta, p0, m - 1) &&
    forall t :: 0 <= t < m - 1 ==> !PIConverged(u, beta, p0, t) && PIEvaluated(u, beta, p0, t + 1)
  }

  /** The run ends with `num_iter == m` exactly when iteration m - 1 is the
      first to converge, every evaluation before it went through, and m - 1
      is not the last iteration. */
  lemma {:induction false} PIResultConverged(u: Grid, beta: real, p0: seq<nat>, maxIter: nat, m: nat)
    requires IsSquare(u) && |u| > 0 && IsPolicy(p0, |u|) && 0.0 <= beta < 1.0 && 0 < maxIter
    ensures PIResult(u, beta, p0, maxIter, 0) == Converged(m) <==> PIConvergesFirstAt(u, beta, p0, maxIter, m)
  {
    if PIResult(u, beta, p0, maxIter, 0) == Converged(m) {
      PIResultConvergedOnlyIf(u, beta, p0, maxIter, m);
    }
    if PIConvergesFirstAt(u, beta, p0, maxIter, m) {
      PIResultConvergedIf(u, beta, p0, maxIter, m);
    }
  }

  /** A run that ends with `num_iter == m` converged first at iteration
      m - 1. */
  lemma {:induction false} PIResultConvergedOnlyIf(u: Grid, beta: real, p0: seq<nat>, maxIter: nat, m: nat)
    requires IsSquare(u) && |u| > 0 && IsPolicy(p0, |u|) && 0.0 <= beta < 1.0 && 0 < maxIter
    requires PIResult(u, beta, p0, maxIter, 0) == Converged(m)
    ensures PIConvergesFirstAt(u, beta, p0, maxIter, m)
  {
    var converged, carried := PIConvergence(u, beta, p0), PICarried(u, beta, p0);
    OutcomeConverged(converged, carried, maxIter, 0, m);
    assert converged(m - 1);
    forall t | 0 <= t < m - 1
      ensures !PIConverged(u, beta, p0, t) && PIEvaluated(u, beta, p0, t + 1)
    {
      assert !converged(t) && carried(t);
    }
  }

  /** A run that converges first at iteration m - 1 ends with
      `num_iter == m`. */
  lemma {:induction false} PIResultConvergedIf(u: Grid, beta: real, p0: seq<nat>, maxIter: nat, m: nat)
    requires IsSquare(u) && |u| > 0 && IsPolicy(p0, |u|) && 0.0 <= beta < 1.0 && 0 < maxIter
    requires PIConvergesFirstAt(u, beta, p0, maxIter, m)
    ensures PIResult(u, beta, p0, maxIter, 0) == Converged(m)
  {
    var converged, carried := PIConvergence(u, beta, p0), PICarried(u, beta, p0);
    assert converged(m - 1);
    forall t | 0 <= t < m - 1
      ensures !converged(t) && carried(t)
    {
      assert !PIConverged(u, beta, p0, t) && PIEvaluated(u, beta, p0, t + 1);
    }
    OutcomeConverged(converged, carried, maxIter, 0, m);
  }

  /** The policy rows written before iteration i: row 0 is never written,
      row t + 1 holds the greedy policy of iteration t. */
  function PIPolicyRows(u: Grid, beta: real, p0: seq<nat>, i: nat): (r: seq<seq<Num>>)
    requires IsSquare(u) && |u| > 0 && IsPolicy(p0, |u|) && 0.0 <= beta < 1.0
    requires PIAt(u, beta, p0, i).Some?
    ensures |r| == i + 1
  {
    if i == 0 then [NaNRow(|u|)]
    else PIPolicyRows(u, beta, p0, i - 1) + [PolicyRow(PIGreedy(u, beta, p0, i - 1).policy)]
  }

  /** The value rows written before iteration i: row t + 1 holds the greedy
      value of iteration t (not its `Tv`). */
  function PIValueRows(u: Grid, beta: real, p0: seq<nat>, i: nat): (r: seq<seq<Num>>)
    requires IsSquare(u) && |u| > 0 && IsPolicy(p0, |u|) && 0.0 <= beta < 1.0
    requires PIAt(u, beta, p0, i).Some?
    ensures |r| == i + 1
  {
    if i == 0 then [NaNRow(|u|)]
    else PIValueRows(u, beta, p0, i - 1) + [Lift(PIGreedy(u, beta, p0, i - 1).value)]
  }

  lemma {:induction false} PIRowsAt(u: Grid, beta: real, p0: seq<nat>, i: nat)
    requires IsSquare(u) && |u| > 0 && IsPolicy(p0, |u|) && 0.0 <= beta < 1.0
    requires PIAt(u, beta, p0, i).Some?
    ensures PIPolicyRows(u, beta, p0, i)[0] == NaNRow(|u|) && PIValueRows(u, beta, p0, i)[0] == NaNRow(|u|)
    ensures forall t :: 0 <= t < i ==> (PIAt(u, beta, p0, t).Some? &&
      PIPolicyRows(u, beta, p0, i)[t + 1] == PolicyRow(PIGreedy(u, beta, p0, t).policy) &&
      PIValueRows(u, beta, p0, i)[t + 1] == Lift(PIGreedy(u, beta, p0, t).value))
  {
    if i > 0 {
      PIRowsAt(u, beta, p0, i - 1);
    }
  }

  /** Iteration i in terms of the current evaluated policy: the greedy
      pair from its value, the next evaluated policy, and the new rows. */
  lemma {:induction false} PIStepFacts(u: Grid, beta: real, p0: seq<nat>, i: nat, current: Evaluated)
    requires IsSquare(u) && |u| > 0 && IsPolicy(p0, |u|) && 0.0 <= beta < 1.0
    requires PIAt(u, beta, p0, i) == Some(current)
    ensures PIGreedy(u, beta, p0, i) == VGreedy(Lift(current.value), u, beta)
    ensures PIAt(u, beta, p0, i + 1) == Evaluate(u, beta, PIGreedy(u, beta, p0, i).policy)
    ensures PIConverged(u, beta, p0, i) <==> PIGreedy(u, beta, p0, i).policy == current.policy
    ensures PIAt(u, beta, p0, i + 1).Some? ==>
      PIPolicyRows(u, beta, p0, i + 1) == PIPolicyRows(u, beta, p0, i) + [PolicyRow(PIGreedy(u, beta, p0, i).policy)] &&
      PIValueRows(u, beta, p0, i + 1) == PIValueRows(u, beta, p0, i) + [Lift(PIGreedy(u, beta, p0, i).value)]
  {
    assert PIGreedy(u, beta, p0, i) == PIGreedyOf(u, beta, p0, i);
    assert PIAt(u, beta, p0, i + 1) == PINext(u, beta, p0, i) == PINextOf(u, beta, p0, i);
  }

  /** One pass of the loop body for iteration i < max_iter - 1: greedy
      step, evaluation of the greedy policy, the two row writes at i + 1,
      then the stopping test. `next` is the evaluated policy carried into
      iteration i + 1 (None: its payoff holds NaN). */
  method PolicyIterationStep(u: Grid, beta: real, ghost p0: seq<nat>, maxIter: nat, i: nat, current: Evaluated,
                             valueHist: array<seq<Num>>, policyHist: array<seq<Num>>)
    returns (stop: bool, next: Option<Evaluated>)
    requires IsSquare(u) && |u| > 0 && IsPolicy(p0, |u|) && 0.0 <= beta < 1.0
    requires i + 1 < maxIter && PIAt(u, beta, p0, i) == Some(current)
    requires valueHist != policyHist
    requires policyHist[..] == Rows(PIPolicyRows(u, beta, p0, i), NaNRow(|u|), maxIter)
    requires valueHist[..] == Rows(PIValueRows(u, beta, p0, i), NaNRow(|u|), maxIter)
    modifies valueHist, policyHist
    ensures stop <==> PIConverged(u, beta, p0, i)
    ensures next == PIAt(u, beta, p0, i + 1)
    ensures next.Some? ==>
      policyHist[..] == Rows(PIPolicyRows(u, beta, p0, i + 1), NaNRow(|u|), maxIter) &&
      valueHist[..] == Rows(PIValueRows(u, beta, p0, i + 1), NaNRow(|u|), maxIter)
  {
    PIStepFacts(u, beta, p0, i, current);
    var g := VGreedy(Lift(current.value), u, beta);
    next := Evaluate(u, beta, g.policy);
    RowsWrite(PIPolicyRows(u, beta, p0, i), NaNRow(|u|), maxIter, PolicyRow(g.policy));
    RowsWrite(PIValueRows(u, beta, p0, i), NaNRow(|u|), maxIter, Lift(g.value));
    policyHist[i + 1] := PolicyRow(g.policy);
    valueHist[i + 1] := Lift(g.value);
    stop := g.policy == current.policy;
  }

  /** `policy_iteration`. The initial policy is the random draw, returned
      as a ghost so that the contract can name the trajectory it starts. */
  method PolicyIteration(maxIter: nat, u: Grid, beta: real)
    returns (valueHist: array<seq<Num>>, policyHist: array<seq<Num>>, outcome: PIOutcome, ghost p0: seq<nat>)
    requires IsSquare(u) && |u| > 0 && maxIter >= 1 && 0.0 <= beta < 1.0
    ensures outcome == Failed(NoFeasibleAction) <==> exists j :: 0 <= j < |u| && !HasAdmissible(u, j)
    ensures outcome != Failed(NoFeasibleAction) ==>
      IsPolicy(p0, |u|) && (forall j :: 0 <= j < |u| ==> Admissible(u, p0[j], j)) &&
      outcome == PIResult(u, beta, p0, maxIter, 0)
    ensures outcome.Converged? ==>
      IsPolicy(p0, |u|) && outcome.numIter < maxIter && PIAt(u, beta, p0, outcome.numIter).Some? &&
      policyHist[..] == Rows(PIPolicyRows(u, beta, p0, outcome.numIter), NaNRow(|u|), maxIter) &&
      valueHist[..] == Rows(PIValueRows(u, beta, p0, outcome.numIter), NaNRow(|u|), maxIter)
  {
    var n := |u|;
    valueHist := NewBuffer(NaNRow(n), maxIter);
    policyHist := NewBuffer(NaNRow(n), maxIter);
    var drawn := RandomPolicy(u);
    if drawn.None? {
      p0 := [];
      outcome := Failed(NoFeasibleAction);
      return;
    }
    var policy := drawn.value;
    p0 := policy;
    AdmissibleEvaluates(u, beta, policy);
    var current := Evaluate(u, beta, policy).value;
    assert PIAt(u, beta, p0, 0) == Some(current);
    RowsUnwritten(NaNRow(n), maxIter);
    assert policyHist[..] == Rows(PIPolicyRows(u, beta, p0, 0), NaNRow(n), maxIter);
    assert valueHist[..] == Rows(PIValueRows(u, beta, p0, 0), NaNRow(n), maxIter);
    // Every iteration but the last; the last one fails on its row write.
    var i := 0;
    while i + 1 < maxIter
      invariant i < maxIter && PIAt(u, beta, p0, i) == Some(current)
      invariant valueHist != policyHist
      invariant PIResult(u, beta, p0, maxIter, 0) == PIResult(u, beta, p0, maxIter, i)
      invariant policyHist[..] == Rows(PIPolicyRows(u, beta, p0, i), NaNRow(n), maxIter)
      invariant valueHist[..] == Rows(PIValueRows(u, beta, p0, i), NaNRow(n), maxIter)
      decreases maxIter - i
    {
      var stop, next := PolicyIterationStep(u, beta, p0, maxIter, i, current, valueHist, policyHist);
      if stop {
        PIStable(u, beta, p0, i);
        outcome := Converged(i + 1);
        return;
      }
      if next.None? {
        outcome := Failed(NaNValue);
        return;
      }
      current := next.value;
      i := i + 1;
    }
    outcome := Failed(IndexOutOfBounds);
  }

  /** The histories of a converged run in the source's terms: row 0 and
      every row after `num_iter` keep their NaN, and row t + 1 for
      t < `num_iter` holds the greedy policy and greedy value of iteration t. */
  lemma {:induction false} PolicyIterationRows(u: Grid, beta: real, p0: seq<nat>, maxIter: nat, numIter: nat,
                            values: seq<seq<Num>>, policies: seq<seq<Num>>)
    requires IsSquare(u) && |u| > 0 && IsPolicy(p0, |u|) && 0.0 <= beta < 1.0
    requires numIter < maxIter && PIAt(u, beta, p0, numIter).Some?
    requires policies == Rows(PIPolicyRows(u, beta, p0, numIter), NaNRow(|u|), maxIter)
    requires values == Rows(PIValueRows(u, beta, p0, numIter), NaNRow(|u|), maxIter)
    ensures forall t :: 0 <= t < maxIter && (t == 0 || t > numIter) ==>
      policies[t] == NaNRow(|u|) && values[t] == NaNRow(|u|)
    ensures forall t :: 0 <= t < numIter ==> (PIAt(u, beta, p0, t).Some? &&
      policies[t + 1] == PolicyRow(PIGreedy(u, beta, p0, t).policy) &&
      values[t + 1] == Lift(PIGreedy(u, beta, p0, t).value))
  {
    PIRowsAt(u, beta, p0, numIter);
    RowsAt(PIPolicyRows(u, beta, p0, numIter), NaNRow(|u|), maxIter);
    RowsAt(PIValueRows(u, beta, p0, numIter), NaNRow(|u|), maxIter);
  }
}
