/** The linear system `(I - beta * Q_policy) v = b` of a deterministic policy
    and its exact solution.

    A deterministic policy is a map sigma from states to states, so following
    it from any state j enters a cycle within n steps, and every cycle length
    divides n!. Hence sigma^(n + n!)(j) == sigma^n(j), and with
    D(m, j) = sum_{t < m} beta^t * b[sigma^t(j)] the vector

        v[j] = (D(n + n!, j) - beta^(n!) * D(n, j)) / (1 - beta^(n!))

    is the (unique, for 0 <= beta < 1) solution: it is the discounted sum of
    payoffs along the path from j, summed in closed form over the cycle. */
module PolicyGraph {
  import opened LinearAlgebra

  /** sigma^m(j): the state reached from j after m steps of the policy. */
  function Iter(pol: seq<nat>, m: nat, j: nat): (r: nat)
    requires IsPolicy(pol, |pol|) && j < |pol|
    ensures r < |pol|
  {
    if m == 0 then j else Iter(pol, m - 1, pol[j])
  }

  lemma {:induction false} IterAdd(pol: seq<nat>, a: nat, b: nat, j: nat)
    requires IsPolicy(pol, |pol|) && j < |pol|
    ensures Iter(pol, a + b, j) == Iter(pol, a, Iter(pol, b, j))
  {
    if b > 0 {
      IterAdd(pol, a, b - 1, pol[j]);
    }
  }

  /** Among n + 1 values below n, two are equal. */
  lemma {:induction false} Pigeonhole(s: seq<nat>, n: nat) returns (a: nat, b: nat)
    requires n >= 1 && |s| > n
    requires forall k :: 0 <= k < |s| ==> s[k] < n
    ensures a < b < |s| && s[a] == s[b]
    decreases n
  {
    var last := |s| - 1;
    var x := s[last];
    if n == 1 {
      a, b := 0, 1;
    } else if exists k :: 0 <= k < last && s[k] == x {
      a :| 0 <= a < last && s[a] == x;
      b := last;
    } else {
      // Fold the value n - 1 onto x: the first |s| - 1 values then lie
      // below n - 1, and a repetition among them is one among s.
      var t := seq(last, k requires 0 <= k < last => if s[k] == n - 1 then x else s[k]);
      a, b := Pigeonhole(t, n - 1);
    }
  }

  /** Every path enters a cycle of length at most n within n steps. */
  lemma {:induction false} EventuallyPeriodic(pol: seq<nat>, j: nat) returns (len: nat)
    requires IsPolicy(pol, |pol|) && j < |pol|
    ensures 1 <= len <= |pol| && Iter(pol, |pol| + len, j) == Iter(pol, |pol|, j)
  {
    var n := |pol|;
    var s := seq(n + 1, t requires 0 <= t <= n => Iter(pol, t, j));
    var a, b := Pigeonhole(s, n);
    len := b - a;
    IterAdd(pol, n - a, b, j);
    IterAdd(pol, n - a, a, j);
  }

  lemma {:induction false} RepeatPeriod(pol: seq<nat>, j: nat, len: nat, k: nat)
    requires IsPolicy(pol, |pol|) && j < |pol|
    requires Iter(pol, |pol| + len, j) == Iter(pol, |pol|, j)
    ensures Iter(pol, |pol| + k * len, j) == Iter(pol, |pol|, j)
  {
    var n := |pol|;
    if k > 0 {
      RepeatPeriod(pol, j, len, k - 1);
      assert n + k * len == len + (n + (k - 1) * len);
      IterAdd(pol, len, n + (k - 1) * len, j);
      IterAdd(pol, len, n, j);
    }
  }

  function Factorial(n: nat): (r: nat)
    ensures r >= 1
  {
    if n == 0 then 1 else n * Factorial(n - 1)
  }

  lemma {:induction false} FactorialMultiple(n: nat, len: nat) returns (k: nat)
    requires 1 <= len <= n
    ensures Factorial(n) == k * len
  {
    if len == n {
      k := Factorial(n - 1);
    } else {
      var k' := FactorialMultiple(n - 1, len);
      k := n * k';
    }
  }

  /** Following the policy n + n! steps lands where n steps do. */
  lemma {:induction false} Cyclic(pol: seq<nat>, j: nat)
    requires IsPolicy(pol, |pol|) && j < |pol|
    ensures Iter(pol, |pol| + Factorial(|pol|), j) == Iter(pol, |pol|, j)
  {
    var len := EventuallyPeriodic(pol, j);
    var k := FactorialMultiple(|pol|, len);
    RepeatPeriod(pol, j, len, k);
  }

  function Pow(x: real, m: nat): real {
    if m == 0 then 1.0 else x * Pow(x, m - 1)
  }

  lemma {:induction false} PowAdd(x: real, a: nat, b: nat)
    ensures Pow(x, a + b) == Pow(x, a) * Pow(x, b)
  {
    if a > 0 {
      PowAdd(x, a - 1, b);
      assert x * (Pow(x, a - 1) * Pow(x, b)) == (x * Pow(x, a - 1)) * Pow(x, b);
    }
  }

  lemma {:induction false} PowBelowOne(x: real, m: nat)
    requires 0.0 <= x < 1.0 && m >= 1
    ensures 0.0 <= Pow(x, m) < 1.0
  {
    if m == 1 {
      assert Pow(x, 1) == x * 1.0;
    } else {
      PowBelowOne(x, m - 1);
      var p := Pow(x, m - 1);
      assert Pow(x, m) == x * p;
      assert 0.0 <= x * p <= p by {
        assert (1.0 - x) * p >= 0.0;
      }
    }
  }

  /** D(m, j): the payoff of the first m steps from j, discounted. */
  function Discounted(pol: seq<nat>, b: seq<real>, beta: real, m: nat, j: nat): real
    requires IsPolicy(pol, |pol|) && |b| == |pol| && j < |pol|
  {
    if m == 0 then 0.0 else b[j] + beta * Discounted(pol, b, beta, m - 1, pol[j])
  }

  lemma {:induction false} DiscountedSnoc(pol: seq<nat>, b: seq<real>, beta: real, m: nat, j: nat)
    requires IsPolicy(pol, |pol|) && |b| == |pol| && j < |pol|
    ensures Discounted(pol, b, beta, m + 1, j)
         == Discounted(pol, b, beta, m, j) + Pow(beta, m) * b[Iter(pol, m, j)]
  {
    if m > 0 {
      DiscountedSnoc(pol, b, beta, m - 1, pol[j]);
      var rest := Discounted(pol, b, beta, m - 1, pol[j]);
      var tail := Pow(beta, m - 1) * b[Iter(pol, m, j)];
      assert beta * (rest + tail) == beta * rest + Pow(beta, m) * b[Iter(pol, m, j)];
    }
  }

  /** The payoff of each state under the policy: `U_policy[j] == b[j]`. */
  predicate SolvesEvaluation(pol: seq<nat>, b: seq<real>, beta: real, v: seq<real>)
    requires IsPolicy(pol, |pol|)
  {
    |b| == |pol| && |v| == |pol| &&
    forall j :: 0 <= j < |pol| ==> v[j] == b[j] + beta * v[pol[j]]
  }

  /** beta^(n!): the discount over a whole number of turns of any cycle. */
  function Period(pol: seq<nat>, beta: real): real {
    Pow(beta, Factorial(|pol|))
  }

  /** D(n + n!, j). */
  function Far(pol: seq<nat>, b: seq<real>, beta: real, j: nat): real
    requires IsPolicy(pol, |pol|) && |b| == |pol| && j < |pol|
  {
    Discounted(pol, b, beta, |pol| + Factorial(|pol|), j)
  }

  /** D(n, j). */
  function Near(pol: seq<nat>, b: seq<real>, beta: real, j: nat): real
    requires IsPolicy(pol, |pol|) && |b| == |pol| && j < |pol|
  {
    Discounted(pol, b, beta, |pol|, j)
  }

  /** The term of step n from j: `beta^n * b[sigma^n(j)]`. */
  function Tail(pol: seq<nat>, b: seq<real>, beta: real, j: nat): real
    requires IsPolicy(pol, |pol|) && |b| == |pol| && j < |pol|
  {
    Pow(beta, |pol|) * b[Iter(pol, |pol|, j)]
  }

  /** The closed forms of the solution at states `0 .. k - 1`:
      `v[j] == (D(n + n!, j) - beta^(n!) * D(n, j)) / (1 - beta^(n!))`. */
  function ClosedForms(pol: seq<nat>, b: seq<real>, beta: real, k: nat): (v: seq<real>)
    requires IsPolicy(pol, |pol|) && |b| == |pol| && 0.0 <= beta < 1.0 && k <= |pol|
    ensures |v| == k
  {
    if k == 0 then [] else ClosedForms(pol, b, beta, k - 1) + [ClosedForm(pol, b, beta, k - 1)]
  }

  /** The closed form at state j: (D(n + n!, j) - beta^(n!) D(n, j)) / (1 - beta^(n!)). */
  function ClosedForm(pol: seq<nat>, b: seq<real>, beta: real, j: nat): real
    requires IsPolicy(pol, |pol|) && |b| == |pol| && 0.0 <= beta < 1.0 && j < |pol|
  {
    PowBelowOne(beta, Factorial(|pol|));
    (Far(pol, b, beta, j) - Period(pol, beta) * Near(pol, b, beta, j)) / (1.0 - Period(pol, beta))
  }

  /** Entry j of the closed forms. */
  lemma {:induction false} ClosedFormsAt(pol: seq<nat>, b: seq<real>, beta: real, k: nat)
    requires IsPolicy(pol, |pol|) && |b| == |pol| && 0.0 <= beta < 1.0 && k <= |pol|
    ensures forall j :: 0 <= j < k ==>
      ClosedForms(pol, b, beta, k)[j] == ClosedForm(pol, b, beta, j)
  {
    if k > 0 {
      ClosedFormsAt(pol, b, beta, k - 1);
    }
  }

  /** The closed forms without the division. */
  lemma {:induction false} ClosedFormScaled(pol: seq<nat>, b: seq<real>, beta: real, k: nat)
    requires IsPolicy(pol, |pol|) && |b| == |pol| && 0.0 <= beta < 1.0 && k <= |pol|
    ensures forall j :: 0 <= j < k ==>
      ClosedForms(pol, b, beta, k)[j] * (1.0 - Period(pol, beta))
        == Far(pol, b, beta, j) - Period(pol, beta) * Near(pol, b, beta, j)
  {
    ClosedFormsAt(pol, b, beta, k);
    PowBelowOne(beta, Factorial(|pol|));
    forall j | 0 <= j < k
      ensures ClosedForms(pol, b, beta, k)[j] * (1.0 - Period(pol, beta))
           == Far(pol, b, beta, j) - Period(pol, beta) * Near(pol, b, beta, j)
    {
      DivCancel(Far(pol, b, beta, j) - Period(pol, beta) * Near(pol, b, beta, j), 1.0 - Period(pol, beta));
    }
  }

  lemma DivCancel(x: real, d: real)
    requires d != 0.0
    ensures (x / d) * d == x
  {
  }

  /** A vector in the scaled closed form at every state solves the
      evaluation equation. */
  lemma {:induction false} ScaledSolves(pol: seq<nat>, b: seq<real>, beta: real, v: seq<real>)
    requires IsPolicy(pol, |pol|) && |b| == |pol| && 0.0 <= beta < 1.0 && |v| == |pol|
    requires forall j :: 0 <= j < |pol| ==>
      v[j] * (1.0 - Period(pol, beta)) == Far(pol, b, beta, j) - Period(pol, beta) * Near(pol, b, beta, j)
    ensures SolvesEvaluation(pol, b, beta, v)
  {
    forall j | 0 <= j < |pol|
      ensures v[j] == b[j] + beta * v[pol[j]]
    {
      ClosedFormStep(pol, b, beta, j, v[j], v[pol[j]]);
    }
  }

  /** The exact solution of `(I - beta * Q_policy) v = b`. */
  function Solve(pol: seq<nat>, b: seq<real>, beta: real): (v: seq<real>)
    requires IsPolicy(pol, |pol|) && |b| == |pol| && 0.0 <= beta < 1.0
    ensures SolvesEvaluation(pol, b, beta, v)
  {
    ClosedFormScaled(pol, b, beta, |pol|);
    ScaledSolves(pol, b, beta, ClosedForms(pol, b, beta, |pol|));
    ClosedForms(pol, b, beta, |pol|)
  }

  /** One step along the policy, over n + n! steps: the last term of the
      longer sum is beta^(n!) times the last term over n steps. */
  lemma {:induction false} FarStep(pol: seq<nat>, b: seq<real>, beta: real, j: nat)
    requires IsPolicy(pol, |pol|) && |b| == |pol| && j < |pol|
    ensures b[j] + beta * Far(pol, b, beta, pol[j])
         == Far(pol, b, beta, j) + Period(pol, beta) * Tail(pol, b, beta, j)
  {
    var n, bigN := |pol|, Factorial(|pol|);
    DiscountedSnoc(pol, b, beta, n + bigN, j);
    Cyclic(pol, j);
    PowAdd(beta, bigN, n);
    var x, p, bn := Pow(beta, bigN), Pow(beta, n), b[Iter(pol, n, j)];
    assert Pow(beta, n + bigN) == x * p;
    assert (x * p) * bn == x * (p * bn);
  }

  /** One step along the policy, over n steps. */
  lemma {:induction false} NearStep(pol: seq<nat>, b: seq<real>, beta: real, j: nat)
    requires IsPolicy(pol, |pol|) && |b| == |pol| && j < |pol|
    ensures b[j] + beta * Near(pol, b, beta, pol[j])
         == Near(pol, b, beta, j) + Tail(pol, b, beta, j)
  {
    DiscountedSnoc(pol, b, beta, |pol|, j);
  }

  /** Two values in the scaled closed form, at a state and at its
      successor, satisfy that state's evaluation equation. */
  lemma {:induction false} ClosedFormStep(pol: seq<nat>, b: seq<real>, beta: real, j: nat, v: real, v': real)
    requires IsPolicy(pol, |pol|) && |b| == |pol| && 0.0 <= beta < 1.0 && j < |pol|
    requires v * (1.0 - Period(pol, beta)) == Far(pol, b, beta, j) - Period(pol, beta) * Near(pol, b, beta, j)
    requires v' * (1.0 - Period(pol, beta))
          == Far(pol, b, beta, pol[j]) - Period(pol, beta) * Near(pol, b, beta, pol[j])
    ensures v == b[j] + beta * v'
  {
    var x, c := Period(pol, beta), Tail(pol, b, beta, j);
    var far, near := Far(pol, b, beta, j), Near(pol, b, beta, j);
    var far', near' := Far(pol, b, beta, pol[j]), Near(pol, b, beta, pol[j]);
    assert x < 1.0 by { PowBelowOne(beta, Factorial(|pol|)); }
    assert b[j] + beta * far' == far + x * c by { FarStep(pol, b, beta, j); }
    assert b[j] + beta * near' == near + c by { NearStep(pol, b, beta, j); }
    SolutionStep(b[j], beta, x, c, far, near, far', near', v, v');
  }

  /** The algebra of one row of the fixed-point equation: when
      `v * (1 - x) == far - x * near` and `v' * (1 - x) == far' - x * near'`
      with `bj + beta * far' == far + x * c` and `bj + beta * near' == near + c`,
      then `v == bj + beta * v'`. */
  lemma {:induction false} SolutionStep(bj: real, beta: real, x: real, c: real,
                     far: real, near: real, far': real, near': real, v: real, v': real)
    requires x < 1.0
    requires bj + beta * far' == far + x * c
    requires bj + beta * near' == near + c
    requires v * (1.0 - x) == far - x * near
    requires v' * (1.0 - x) == far' - x * near'
    ensures v == bj + beta * v'
  {
    var d := 1.0 - x;
    var q := bj + beta * v';
    calc {
      q * d;
      bj * d + beta * (v' * d);
      bj * d + beta * far' - x * (beta * near');
      bj * d + (far + x * c - bj) - x * (near + c - bj);
      far - x * near;
      v * d;
    }
    assert (q - v) * d == 0.0;
  }

  /** The difference d of two solutions satisfies `d[j] == beta * d[sigma(j)]`,
      so `d[j] == beta^m * d[sigma^m(j)]`. */
  lemma {:induction false} GapAlongPath(pol: seq<nat>, beta: real, d: seq<real>, m: nat, j: nat, k: nat)
    requires IsPolicy(pol, |pol|) && |d| == |pol| && j < |pol| && Iter(pol, m, j) == k
    requires forall i :: 0 <= i < |pol| ==> d[i] == beta * d[pol[i]]
    ensures d[j] == Pow(beta, m) * d[k]
  {
    if m > 0 {
      GapAlongPath(pol, beta, d, m - 1, pol[j], k);
      assert beta * (Pow(beta, m - 1) * d[k]) == (beta * Pow(beta, m - 1)) * d[k];
    }
  }

  /** For 0 <= beta < 1 the system `(I - beta * Q_policy) v = b` has exactly
      one solution, so `Solve` is the solution. */
  lemma {:induction false} SolutionUnique(pol: seq<nat>, b: seq<real>, beta: real, v: seq<real>)
    requires IsPolicy(pol, |pol|) && |b| == |pol| && 0.0 <= beta < 1.0
    requires SolvesEvaluation(pol, b, beta, v)
    ensures v == Solve(pol, b, beta)
  {
    var n, bigN := |pol|, Factorial(|pol|);
    var w := Solve(pol, b, beta);
    var d := seq(n, i requires 0 <= i < n => v[i] - w[i]);
    forall i | 0 <= i < n
      ensures d[i] == beta * d[pol[i]]
    {
      assert v[i] - w[i] == beta * v[pol[i]] - beta * w[pol[i]];
    }
    PowBelowOne(beta, bigN);
    forall j | 0 <= j < n
      ensures v[j] == w[j]
    {
      var p := Iter(pol, n, j);
      Cyclic(pol, j);
      IterAdd(pol, bigN, n, j);
      GapAlongPath(pol, beta, d, bigN, p, p);
      ScaledFixedIsZero(Pow(beta, bigN), d[p]);
      GapAlongPath(pol, beta, d, n, j, p);
    }
  }

  /** Two solutions of the same evaluation equation are equal. */
  lemma {:induction false} SolutionsAgree(pol: seq<nat>, b: seq<real>, beta: real)
    requires IsPolicy(pol, |pol|) && |b| == |pol| && 0.0 <= beta < 1.0
    ensures forall v, w :: SolvesEvaluation(pol, b, beta, v) && SolvesEvaluation(pol, b, beta, w) ==> v == w
  {
    forall v, w | SolvesEvaluation(pol, b, beta, v) && SolvesEvaluation(pol, b, beta, w)
      ensures v == w
    {
      SolutionUnique(pol, b, beta, v);
      SolutionUnique(pol, b, beta, w);
    }
  }

  lemma {:induction false} ScaledFixedIsZero(x: real, g: real)
    requires x < 1.0 && g == x * g
    ensures g == 0.0
  {
    assert (1.0 - x) * g == 0.0;
  }

  /** The fixed-point form and the matrix form of policy evaluation agree:
      `v[j] == b[j] + beta * v[policy[j]]` for all j exactly when
      `(I - beta * Q_policy) v == b`. */
  lemma {:induction false} FixedPointIsLinearSystem(pol: seq<nat>, b: seq<real>, beta: real, v: seq<real>)
    requires IsPolicy(pol, |pol|) && |b| == |pol| && |v| == |pol|
    ensures SolvesEvaluation(pol, b, beta, v) <==> MatVec(SystemMatrix(pol, beta), v) == b
  {
    var av := MatVec(SystemMatrix(pol, beta), v);
    forall j | 0 <= j < |pol|
      ensures av[j] == v[j] - beta * v[pol[j]]
    {
      SystemRow(pol, beta, v, j);
    }
    if av == b {
      assert forall j :: 0 <= j < |pol| ==> b[j] == v[j] - beta * v[pol[j]];
    }
  }
}
