/** `modified_policy_iteration`: from the zero vector, take the greedy
    step; stop when it moves the value by less than `crit`; otherwise
    evaluate the greedy policy approximately, by at most k applications of
    its Bellman update, and store the policy and the value reached. */
module ModifiedPolicyIteration {
  import opened Numeric
  import opened LinearAlgebra
  import opened Primitives
  import opened History
  import ValueIteration

  /** `k` when the caller passes None. */
  const DefaultK: int := 30

  function K(k: Option<int>): (r: int)
    ensures k.Some? ==> r == k.value
    ensures k.None? ==> r == 30
  {
    if k.None? then DefaultK else k.value
  }

  /** One evaluation step for a fixed policy, on doubles:
      `U_policy + beta * Q_policy.dot(v)`. */
  function PolicyUpdate(u: Grid, beta: real, pol: seq<nat>, v: seq<Num>): (w: seq<Num>)
    requires IsSquare(u) && IsPolicy(pol, |u|) && |v| == |u|
    ensures |w| == |u|
  {
    UpdateEntries(u, beta, pol, v, |u|)
  }

  /** The first k entries of the update, built one entry at a time; each
      entry sits one call below, so that naming the update does not unfold
      it (`UpdateEntriesAt` states the entries). */
  function UpdateEntries(u: Grid, beta: real, pol: seq<nat>, v: seq<Num>, k: nat): (w: seq<Num>)
    requires IsSquare(u) && IsPolicy(pol, |u|) && |v| == |u| && k <= |u|
    ensures |w| == k
    decreases k, 1
  {
    if k == 0 then [] else UpdateEntriesOf(u, beta, pol, v, k)
  }

  function UpdateEntriesOf(u: Grid, beta: real, pol: seq<nat>, v: seq<Num>, k: nat): (w: seq<Num>)
    requires IsSquare(u) && IsPolicy(pol, |u|) && |v| == |u| && 0 < k <= |u|
    ensures |w| == k
    decreases k, 0
  {
    UpdateEntries(u, beta, pol, v, k - 1) + [Add(u[pol[k - 1]][k - 1], Mul(Num(beta), QDot(pol, v)[k - 1]))]
  }

  lemma {:induction false} UpdateEntriesAt(u: Grid, beta: real, pol: seq<nat>, v: seq<Num>, k: nat)
    requires IsSquare(u) && IsPolicy(pol, |u|) && |v| == |u| && k <= |u|
    ensures forall s :: 0 <= s < k ==>
      UpdateEntries(u, beta, pol, v, k)[s] == Add(u[pol[s]][s], Mul(Num(beta), QDot(pol, v)[s]))
  {
    if k > 0 {
      UpdateEntriesAt(u, beta, pol, v, k - 1);
      assert UpdateEntries(u, beta, pol, v, k) == UpdateEntriesOf(u, beta, pol, v, k);
    }
  }

  /** On a NaN-free vector the update is the Bellman equation of the
      policy, state by state; a NaN anywhere in the vector makes every
      entry NaN, because `Q_policy`'s zeros multiply it too. */
  lemma {:induction false} PolicyUpdateAt(u: Grid, beta: real, pol: seq<nat>, v: seq<Num>)
    requires IsSquare(u) && IsPolicy(pol, |u|) && |v| == |u|
    ensures NoNaN(v) ==> forall s :: 0 <= s < |u| ==>
      PolicyUpdate(u, beta, pol, v)[s] == Add(u[pol[s]][s], Mul(Num(beta), v[pol[s]]))
    ensures !NoNaN(v) ==> PolicyUpdate(u, beta, pol, v) == NaNRow(|u|)
  {
    QDotSelects(pol, v);
    UpdateEntriesAt(u, beta, pol, v, |u|);
  }

  /** A NaN-free vector is left unchanged by the update exactly when it is
      the value `evaluate_policy` returns for the policy. */
  lemma {:induction false} PolicyUpdateFixedPoint(u: Grid, beta: real, pol: seq<nat>, v: seq<real>)
    requires IsSquare(u) && IsPolicy(pol, |u|) && |v| == |u| && 0.0 <= beta < 1.0
    ensures PolicyUpdate(u, beta, pol, Lift(v)) == Lift(v) <==> EvaluatePolicy(pol, u, beta) == Some(v)
  {
    if PolicyUpdate(u, beta, pol, Lift(v)) == Lift(v) {
      FixedPointEvaluates(u, beta, pol, v);
    }
    if EvaluatePolicy(pol, u, beta) == Some(v) {
      EvaluationIsFixed(u, beta, pol, v);
    }
  }

  lemma {:induction false} FixedPointEvaluates(u: Grid, beta: real, pol: seq<nat>, v: seq<real>)
    requires IsSquare(u) && IsPolicy(pol, |u|) && |v| == |u| && 0.0 <= beta < 1.0
    requires PolicyUpdate(u, beta, pol, Lift(v)) == Lift(v)
    ensures EvaluatePolicy(pol, u, beta) == Some(v)
  {
    PolicyUpdateAt(u, beta, pol, Lift(v));
    forall s | 0 <= s < |u|
      ensures Num(v[s]) == Add(u[pol[s]][s], Mul(Num(beta), Num(v[pol[s]])))
    {
      assert Lift(v)[s] == Num(v[s]) && Lift(v)[pol[s]] == Num(v[pol[s]]);
    }
    FixedEntries(u, beta, pol, v);
    EvaluatePolicyUnique(pol, u, beta, v);
  }

  /** Entries of the update that reproduce v are the rows of the
      evaluation equation. */
  lemma {:induction false} FixedEntries(u: Grid, beta: real, pol: seq<nat>, v: seq<real>)
    requires IsSquare(u) && IsPolicy(pol, |u|) && |v| == |u|
    requires forall s :: 0 <= s < |u| ==> Num(v[s]) == Add(u[pol[s]][s], Mul(Num(beta), Num(v[pol[s]])))
    ensures forall s :: 0 <= s < |u| ==> u[pol[s]][s].Num? && v[s] == u[pol[s]][s].value + beta * v[pol[s]]
  {
    forall s | 0 <= s < |u|
      ensures u[pol[s]][s].Num? && v[s] == u[pol[s]][s].value + beta * v[pol[s]]
    {
      UpdateEntryFixed(u[pol[s]][s], beta, v[s], v[pol[s]]);
    }
  }

  lemma UpdateEntryFixed(payoff: Num, beta: real, x: real, next: real)
    requires Num(x) == Add(payoff, Mul(Num(beta), Num(next)))
    ensures payoff.Num? && x == payoff.value + beta * next
  {
  }

  lemma {:induction false} EvaluationIsFixed(u: Grid, beta: real, pol: seq<nat>, v: seq<real>)
    requires IsSquare(u) && IsPolicy(pol, |u|) && |v| == |u| && 0.0 <= beta < 1.0
    requires EvaluatePolicy(pol, u, beta) == Some(v)
    ensures PolicyUpdate(u, beta, pol, Lift(v)) == Lift(v)
  {
    var w := PolicyUpdate(u, beta, pol, Lift(v));
    PolicyUpdateAt(u, beta, pol, Lift(v));
    forall s | 0 <= s < |u|
      ensures w[s] == Lift(v)[s]
    {
      assert Lift(v)[pol[s]] == Num(v[pol[s]]);
    }
  }

  /** The inner loop from `improved_value == v` with `steps` passes left:
      each pass computes the update and stops, keeping v, when it moved
      by less than `crit`; otherwise v becomes the update. A pass sits two
      calls below this function, so that naming the loop's result does not
      unfold the update; `PartialEvalStep` states one pass. */
  function PartialEval(u: Grid, beta: real, crit: real, pol: seq<nat>, v: seq<Num>, steps: int): (w: seq<Num>)
    requires IsSquare(u) && |u| > 0 && IsPolicy(pol, |u|) && |v| == |u|
    ensures |w| == |u|
    decreases steps, 2
  {
    if steps <= 0 then v else PartialPass(u, beta, crit, pol, v, steps)
  }

  function PartialPass(u: Grid, beta: real, crit: real, pol: seq<nat>, v: seq<Num>, steps: int): (w: seq<Num>)
    requires IsSquare(u) && |u| > 0 && IsPolicy(pol, |u|) && |v| == |u| && steps > 0
    ensures |w| == |u|
    decreases steps, 1
  {
    PartialPassOf(u, beta, crit, pol, v, steps)
  }

  function PartialPassOf(u: Grid, beta: real, crit: real, pol: seq<nat>, v: seq<Num>, steps: int): (w: seq<Num>)
    requires IsSquare(u) && |u| > 0 && IsPolicy(pol, |u|) && |v| == |u| && steps > 0
    ensures |w| == |u|
    decreases steps, 0
  {
    var next := PolicyUpdate(u, beta, pol, v);
    if Below(MaxAbsDiff(next, v), crit) then v
    else PartialEval(u, beta, crit, pol, next, steps - 1)
  }

  /** One pass of the inner loop. */
  lemma {:induction false} PartialEvalStep(u: Grid, beta: real, crit: real, pol: seq<nat>, v: seq<Num>, steps: int)
    requires IsSquare(u) && |u| > 0 && IsPolicy(pol, |u|) && |v| == |u| && steps > 0
    ensures PartialEval(u, beta, crit, pol, v, steps) ==
      if Below(MaxAbsDiff(PolicyUpdate(u, beta, pol, v), v), crit) then v
      else PartialEval(u, beta, crit, pol, PolicyUpdate(u, beta, pol, v), steps - 1)
  {
    assert PartialEval(u, beta, crit, pol, v, steps) == PartialPass(u, beta, crit, pol, v, steps)
        == PartialPassOf(u, beta, crit, pol, v, steps);
  }

  /** v after m updates; each update sits one call below, so that naming
      an iterate does not unfold the update. */
  function UpdateIter(u: Grid, beta: real, pol: seq<nat>, v: seq<Num>, m: nat): (w: seq<Num>)
    requires IsSquare(u) && IsPolicy(pol, |u|) && |v| == |u|
    ensures |w| == |u|
    decreases m, 1
  {
    if m == 0 then v else UpdateIterOf(u, beta, pol, v, m)
  }

  function UpdateIterOf(u: Grid, beta: real, pol: seq<nat>, v: seq<Num>, m: nat): (w: seq<Num>)
    requires IsSquare(u) && IsPolicy(pol, |u|) && |v| == |u| && m > 0
    ensures |w| == |u|
    decreases m, 0
  {
    PolicyUpdate(u, beta, pol, UpdateIter(u, beta, pol, v, m - 1))
  }

  /** Update m + 1 moves the value by less than `crit`. */
  predicate Settles(u: Grid, beta: real, crit: real, pol: seq<nat>, v: seq<Num>, m: nat)
    requires IsSquare(u) && |u| > 0 && IsPolicy(pol, |u|) && |v| == |u|
  {
    Below(MaxAbsDiff(UpdateIter(u, beta, pol, v, m + 1), UpdateIter(u, beta, pol, v, m)), crit)
  }

  /** The first m in [from, k) at which the iterates settle, or k when
      none does. */
  function FirstSettle(u: Grid, beta: real, crit: real, pol: seq<nat>, v: seq<Num>, k: nat, from: nat): (m: nat)
    requires IsSquare(u) && |u| > 0 && IsPolicy(pol, |u|) && |v| == |u| && from <= k
    ensures from <= m <= k
    ensures m < k ==> Settles(u, beta, crit, pol, v, m)
    ensures forall m' :: from <= m' < m ==> !Settles(u, beta, crit, pol, v, m')
    decreases k - from
  {
    if from == k || Settles(u, beta, crit, pol, v, from) then from
    else FirstSettle(u, beta, crit, pol, v, k, from + 1)
  }

  /** The inner loop returns the iterate at the first update that moves
      the value by less than `crit` (that update itself is dropped), or
      the k-th iterate when none does. */
  lemma {:induction false} PartialEvalFirstSettle(u: Grid, beta: real, crit: real, pol: seq<nat>, v: seq<Num>, k: nat, from: nat)
    requires IsSquare(u) && |u| > 0 && IsPolicy(pol, |u|) && |v| == |u| && from <= k
    ensures PartialEval(u, beta, crit, pol, UpdateIter(u, beta, pol, v, from), k - from)
         == UpdateIter(u, beta, pol, v, FirstSettle(u, beta, crit, pol, v, k, from))
    decreases k - from
  {
    if from < k {
      var x := UpdateIter(u, beta, pol, v, from);
      PartialEvalStep(u, beta, crit, pol, x, k - from);
      assert UpdateIter(u, beta, pol, v, from + 1) == UpdateIterOf(u, beta, pol, v, from + 1) == PolicyUpdate(u, beta, pol, x);
      if !Settles(u, beta, crit, pol, v, from) {
        PartialEvalFirstSettle(u, beta, crit, pol, v, k, from + 1);
      }
    }
  }

  /** Starting from the exact value of the policy, the inner loop stays
      there, whatever `crit` and k are. */
  lemma {:induction false} PartialEvalKeepsSolution(u: Grid, beta: real, crit: real, pol: seq<nat>, v: seq<real>, steps: int)
    requires IsSquare(u) && |u| > 0 && IsPolicy(pol, |u|) && 0.0 <= beta < 1.0
    requires EvaluatePolicy(pol, u, beta) == Some(v)
    ensures PartialEval(u, beta, crit, pol, Lift(v), steps) == Lift(v)
    decreases steps
  {
    if steps > 0 {
      PartialEvalStep(u, beta, crit, pol, Lift(v), steps);
      PolicyUpdateFixedPoint(u, beta, pol, v);
      PartialEvalKeepsSolution(u, beta, crit, pol, v, steps - 1);
    }
  }

  /** A NaN in the value entering the inner loop is never washed out: every
      later update is all NaN and never passes the `crit` test. */
  lemma {:induction false} PartialEvalKeepsNaN(u: Grid, beta: real, crit: real, pol: seq<nat>, v: seq<Num>, steps: int)
    requires IsSquare(u) && |u| > 0 && IsPolicy(pol, |u|) && |v| == |u| && !NoNaN(v)
    ensures !NoNaN(PartialEval(u, beta, crit, pol, v, steps))
    decreases steps
  {
    if steps > 0 {
      var next := PolicyUpdate(u, beta, pol, v);
      PolicyUpdateAt(u, beta, pol, v);
      assert next[0].NaN?;
      PartialEvalStep(u, beta, crit, pol, v, steps);
      PartialEvalKeepsNaN(u, beta, crit, pol, next, steps - 1);
    }
  }

  // The outer loop as mutually recursive sequences: `val_old` going into
  // iteration t, the greedy pair computed from it, and the value the inner
  // loop reaches from the greedy value. The greedy step and the inner loop
  // sit one call below the functions that name them, so that unfolding the
  // trajectory does not unfold them.

  /** `val_old` at the start of iteration t: zero, then the previous
      iteration's `improved_value` after its inner loop. */
  function MPIValue(u: Grid, beta: real, crit: real, k: int, t: nat): (v: seq<Num>)
    requires IsSquare(u) && |u| > 0
    ensures |v| == |u|
    decreases t, |u|
  {
    if t == 0 then Zeros(|u|) else MPINext(u, beta, crit, k, t - 1)
  }

  /** `improved_value, improved_policy` from `v_greedy` in iteration t. */
  function MPIGreedy(u: Grid, beta: real, crit: real, k: int, t: nat): (g: Greedy)
    requires IsSquare(u) && |u| > 0
    ensures |g.value| == |u| && IsPolicy(g.policy, |u|)
    decreases t, |u| + 2
  {
    MPIGreedyOf(u, beta, crit, k, t)
  }

  function MPIGreedyOf(u: Grid, beta: real, crit: real, k: int, t: nat): (g: Greedy)
    requires IsSquare(u) && |u| > 0
    ensures |g.value| == |u| && IsPolicy(g.policy, |u|)
    decreases t, |u| + 1
  {
    VGreedy(MPIValue(u, beta, crit, k, t), u, beta)
  }

  /** `improved_value` after the inner loop of iteration t. */
  function MPINext(u: Grid, beta: real, crit: real, k: int, t: nat): (v: seq<Num>)
    requires IsSquare(u) && |u| > 0
    ensures |v| == |u|
    decreases t, |u| + 4
  {
    MPINextOf(u, beta, crit, k, t)
  }

  function MPINextOf(u: Grid, beta: real, crit: real, k: int, t: nat): (v: seq<Num>)
    requires IsSquare(u) && |u| > 0
    ensures |v| == |u|
    decreases t, |u| + 3
  {
    var g := MPIGreedy(u, beta, crit, k, t);
    PartialEval(u, beta, crit, g.policy, Lift(g.value), k)
  }

  /** Iteration t stops the loop: the greedy value is within `crit` of
      `val_old`. */
  predicate MPIConverged(u: Grid, beta: real, crit: real, k: int, t: nat)
    requires IsSquare(u) && |u| > 0
  {
    Below(MaxAbsDiff(MPIValue(u, beta, crit, k, t), Lift(MPIGreedy(u, beta, crit, k, t).value)), crit)
  }

  /** None of the iterations before i stopped the loop. */
  predicate MPINoneConverged(u: Grid, beta: real, crit: real, k: int, i: nat)
    requires IsSquare(u) && |u| > 0
  {
    forall t :: 0 <= t < i ==> !MPIConverged(u, beta, crit, k, t)
  }

  /** Iteration t in terms of `val_old`: its greedy pair, its stopping
      test and the value its inner loop reaches. */
  lemma {:induction false} MPIStepFacts(u: Grid, beta: real, crit: real, k: int, t: nat)
    requires IsSquare(u) && |u| > 0
    ensures MPIGreedy(u, beta, crit, k, t) == VGreedy(MPIValue(u, beta, crit, k, t), u, beta)
    ensures MPIValue(u, beta, crit, k, t + 1) ==
      PartialEval(u, beta, crit, MPIGreedy(u, beta, crit, k, t).policy, Lift(MPIGreedy(u, beta, crit, k, t).value), k)
  {
    assert MPIGreedy(u, beta, crit, k, t) == MPIGreedyOf(u, beta, crit, k, t);
    assert MPIValue(u, beta, crit, k, t + 1) == MPINext(u, beta, crit, k, t) == MPINextOf(u, beta, crit, k, t);
  }

  /** The stopping test `max|val_old - improved_value| < crit` passes
      exactly when `val_old` holds no NaN and the greedy value is within
      `crit` of it in every state: an iteration entered with a NaN never
      stops the loop. */
  lemma {:induction false} StopTest(a: seq<Num>, b: seq<real>, crit: real)
    requires |a| == |b| > 0
    ensures Below(MaxAbsDiff(a, Lift(b)), crit) <==>
      NoNaN(a) && forall j :: 0 <= j < |a| ==> AbsReal(a[j].value - b[j]) < crit
  {
    MaxAbsDiffBelow(a, Lift(b), crit);
    assert forall j :: 0 <= j < |a| ==> Lift(b)[j] == Num(b[j]);
  }

  /** The first i policy rows: the greedy policies of iterations 0 .. i-1. */
  function MPIPolicyRows(u: Grid, beta: real, crit: real, k: int, i: nat): (r: seq<seq<Num>>)
    requires IsSquare(u) && |u| > 0
    ensures |r| == i
  {
    if i == 0 then [] else MPIPolicyRows(u, beta, crit, k, i - 1) + [PolicyRow(MPIGreedy(u, beta, crit, k, i - 1).policy)]
  }

  /** The first i value rows: the values the inner loops of iterations
      0 .. i-1 reached. */
  function MPIValueRows(u: Grid, beta: real, crit: real, k: int, i: nat): (r: seq<seq<Num>>)
    requires IsSquare(u) && |u| > 0
    ensures |r| == i
  {
    if i == 0 then [] else MPIValueRows(u, beta, crit, k, i - 1) + [MPIValue(u, beta, crit, k, i)]
  }

  lemma {:induction false} MPIRowsAt(u: Grid, beta: real, crit: real, k: int, i: nat)
    requires IsSquare(u) && |u| > 0
    ensures forall t :: 0 <= t < i ==>
      MPIPolicyRows(u, beta, crit, k, i)[t] == PolicyRow(MPIGreedy(u, beta, crit, k, t).policy) &&
      MPIValueRows(u, beta, crit, k, i)[t] == MPIValue(u, beta, crit, k, t + 1)
  {
    if i > 0 {
      MPIRowsAt(u, beta, crit, k, i - 1);
    }
  }

  /** The inner loop: at most k updates of `improved_value` for the fixed
      policy, stopping before the first one that moves it by less than
      `crit`. */
  method PartialEvaluation(u: Grid, beta: real, crit: real, pol: seq<nat>, v0: seq<Num>, k: int)
    returns (v: seq<Num>)
    requires IsSquare(u) && |u| > 0 && IsPolicy(pol, |u|) && |v0| == |u|
    ensures v == PartialEval(u, beta, crit, pol, v0, k)
  {
    v := v0;
    var j := 0;
    while j < k
      invariant 0 <= j && (j <= k || j == 0) && |v| == |u|
      invariant PartialEval(u, beta, crit, pol, v, k - j) == PartialEval(u, beta, crit, pol, v0, k)
      decreases k - j
    {
      PartialEvalStep(u, beta, crit, pol, v, k - j);
      var valNew := PolicyUpdate(u, beta, pol, v);
      if Below(MaxAbsDiff(valNew, v), crit) {
        break;
      }
      v := valNew;
      j := j + 1;
    }
  }

  /** The body of the outer loop for iteration i: the greedy step from
      `val_old`, the stopping test and, when the loop goes on, the inner
      loop and the two row writes at i. */
  method ModifiedPolicyIterationStep(u: Grid, beta: real, crit: real, k: int, maxIter: nat, i: nat, valOld: seq<Num>,
                                     valueHist: array<seq<Num>>, policyHist: array<seq<Num>>)
    returns (stop: bool, valNew: seq<Num>)
    requires IsSquare(u) && |u| > 0 && i < maxIter && valueHist != policyHist
    requires valOld == MPIValue(u, beta, crit, k, i)
    requires policyHist[..] == Rows(MPIPolicyRows(u, beta, crit, k, i), NaNRow(|u|), maxIter)
    requires valueHist[..] == Rows(MPIValueRows(u, beta, crit, k, i), NaNRow(|u|), maxIter)
    modifies valueHist, policyHist
    ensures stop <==> MPIConverged(u, beta, crit, k, i)
    ensures stop ==> unchanged(valueHist) && unchanged(policyHist)
    ensures !stop ==>
      valNew == MPIValue(u, beta, crit, k, i + 1) &&
      policyHist[..] == Rows(MPIPolicyRows(u, beta, crit, k, i + 1), NaNRow(|u|), maxIter) &&
      valueHist[..] == Rows(MPIValueRows(u, beta, crit, k, i + 1), NaNRow(|u|), maxIter)
  {
    MPIStepFacts(u, beta, crit, k, i);
    var g := VGreedy(valOld, u, beta);
    stop := Below(MaxAbsDiff(valOld, Lift(g.value)), crit);
    if stop {
      valNew := valOld;
      return;
    }
    valNew := PartialEvaluation(u, beta, crit, g.policy, Lift(g.value), k);
    RowsWrite(MPIPolicyRows(u, beta, crit, k, i), NaNRow(|u|), maxIter, PolicyRow(g.policy));
    RowsWrite(MPIValueRows(u, beta, crit, k, i), NaNRow(|u|), maxIter, valNew);
    policyHist[i] := PolicyRow(g.policy);
    valueHist[i] := valNew;
  }

  /** The rows written by a run that stops at iteration `numIter`: one per
      iteration before it, plus its own when it did not converge. */
  function MPIWritten(u: Grid, beta: real, crit: real, k: int, numIter: nat): nat
    requires IsSquare(u) && |u| > 0
  {
    if MPIConverged(u, beta, crit, k, numIter) then numIter else numIter + 1
  }

  /** `modified_policy_iteration`. `num_iter` is the first iteration whose
      greedy step moves the value by less than `crit`, or the last one,
      `max_iter - 1`; both histories hold one row per iteration that did
      not stop the loop, and every other row keeps its NaN. */
  method ModifiedPolicyIteration(crit: Option<real>, k: Option<int>, maxIter: nat, u: Grid, beta: real)
    returns (valueHist: array<seq<Num>>, policyHist: array<seq<Num>>, numIter: nat)
    requires IsSquare(u) && |u| > 0 && maxIter >= 1
    ensures numIter < maxIter
    ensures MPINoneConverged(u, beta, ValueIteration.Crit(crit), K(k), numIter)
    ensures MPIConverged(u, beta, ValueIteration.Crit(crit), K(k), numIter) || numIter == maxIter - 1
    ensures policyHist[..] == Rows(MPIPolicyRows(u, beta, ValueIteration.Crit(crit), K(k),
                                     MPIWritten(u, beta, ValueIteration.Crit(crit), K(k), numIter)), NaNRow(|u|), maxIter)
    ensures valueHist[..] == Rows(MPIValueRows(u, beta, ValueIteration.Crit(crit), K(k),
                                    MPIWritten(u, beta, ValueIteration.Crit(crit), K(k), numIter)), NaNRow(|u|), maxIter)
  {
    var n := |u|;
    var c := ValueIteration.Crit(crit);
    var steps := K(k);
    valueHist := NewBuffer(NaNRow(n), maxIter);
    policyHist := NewBuffer(NaNRow(n), maxIter);
    var valOld := Zeros(n);
    numIter := 0;
    var i := 0;
    while i < maxIter
      invariant i <= maxIter && (i > 0 ==> numIter == i - 1)
      invariant valueHist != policyHist
      invariant valOld == MPIValue(u, beta, c, steps, i)
      invariant MPINoneConverged(u, beta, c, steps, i)
      invariant policyHist[..] == Rows(MPIPolicyRows(u, beta, c, steps, i), NaNRow(n), maxIter)
      invariant valueHist[..] == Rows(MPIValueRows(u, beta, c, steps, i), NaNRow(n), maxIter)
    {
      numIter := i;
      var stop, valNew := ModifiedPolicyIterationStep(u, beta, c, steps, maxIter, i, valOld, valueHist, policyHist);
      if stop {
        break;
      }
      valOld := valNew;
      i := i + 1;
    }
  }

  /** The histories in the source's terms: row t holds the greedy policy
      of iteration t and the value its inner loop reached, for every t
      before `num_iter` and at `num_iter` too when that iteration did not
      stop the loop; every other row is NaN. */
  lemma {:induction false} ModifiedPolicyIterationRows(u: Grid, beta: real, crit: real, k: int, maxIter: nat, numIter: nat,
                                   values: seq<seq<Num>>, policies: seq<seq<Num>>)
    requires IsSquare(u) && |u| > 0 && numIter < maxIter
    requires policies == Rows(MPIPolicyRows(u, beta, crit, k, MPIWritten(u, beta, crit, k, numIter)), NaNRow(|u|), maxIter)
    requires values == Rows(MPIValueRows(u, beta, crit, k, MPIWritten(u, beta, crit, k, numIter)), NaNRow(|u|), maxIter)
    ensures forall t :: 0 <= t < maxIter ==>
      if t < numIter || (t == numIter && !MPIConverged(u, beta, crit, k, t))
      then policies[t] == PolicyRow(MPIGreedy(u, beta, crit, k, t).policy) && values[t] == MPIValue(u, beta, crit, k, t + 1)
      else policies[t] == NaNRow(|u|) && values[t] == NaNRow(|u|)
  {
    var w := MPIWritten(u, beta, crit, k, numIter);
    RowsAt(MPIPolicyRows(u, beta, crit, k, w), NaNRow(|u|), maxIter);
    RowsAt(MPIValueRows(u, beta, crit, k, w), NaNRow(|u|), maxIter);
    MPIRowsAt(u, beta, crit, k, w);
  }
}
