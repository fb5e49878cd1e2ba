/** The dense linear algebra that policy evaluation is written in: the
    selection matrix `Q_policy` (one 1 per row, at `[j][policy[j]]`), the
    system matrix `I - beta * Q_policy`, and matrix-vector products both over
    exact reals and over doubles with NaN. */
module LinearAlgebra {
  import opened Numeric

  /** A deterministic policy on n states: one action index per state. */
  predicate IsPolicy(pol: seq<nat>, n: nat) {
    |pol| == n && forall j :: 0 <= j < n ==> pol[j] < n
  }

  function Dot(a: seq<real>, v: seq<real>): real
    requires |a| == |v|
  {
    if |a| == 0 then 0.0
    else Dot(a[..|a| - 1], v[..|a| - 1]) + a[|a| - 1] * v[|a| - 1]
  }

  /** Row `c` of the n x n identity. */
  function Unit(n: nat, c: nat): (r: seq<real>)
    ensures |r| == n
  {
    seq(n, k => if k == c then 1.0 else 0.0)
  }

  lemma {:induction false} DotUnitPrefix(n: nat, c: nat, v: seq<real>, m: nat)
    requires |v| == n && m <= n
    ensures Dot(Unit(n, c)[..m], v[..m]) == if c < m then v[c] else 0.0
  {
    if m > 0 {
      assert Unit(n, c)[..m][..m - 1] == Unit(n, c)[..m - 1];
      assert v[..m][..m - 1] == v[..m - 1];
      DotUnitPrefix(n, c, v, m - 1);
    }
  }

  /** A unit row picks one entry out of the vector. */
  lemma {:induction false} DotUnit(n: nat, c: nat, v: seq<real>)
    requires |v| == n && c < n
    ensures Dot(Unit(n, c), v) == v[c]
  {
    DotUnitPrefix(n, c, v, n);
    assert Unit(n, c)[..n] == Unit(n, c) && v[..n] == v;
  }

  /** `a - beta * b`, entry by entry. */
  function Combine(a: seq<real>, beta: real, b: seq<real>): (r: seq<real>)
    requires |a| == |b|
    ensures |r| == |a|
  {
    seq(|a|, k requires 0 <= k < |a| => a[k] - beta * b[k])
  }

  lemma {:induction false} DotCombine(a: seq<real>, beta: real, b: seq<real>, v: seq<real>)
    requires |a| == |b| == |v|
    ensures Dot(Combine(a, beta, b), v) == Dot(a, v) - beta * Dot(b, v)
  {
    var n := |a|;
    if n > 0 {
      var c, c' := Combine(a, beta, b), Combine(a[..n - 1], beta, b[..n - 1]);
      assert forall k :: 0 <= k < n - 1 ==> c[..n - 1][k] == c'[k];
      assert c[..n - 1] == c';
      DotCombine(a[..n - 1], beta, b[..n - 1], v[..n - 1]);
      var x, y, z, w := Dot(a[..n - 1], v[..n - 1]), Dot(b[..n - 1], v[..n - 1]), a[n - 1], b[n - 1];
      assert (z - beta * w) * v[n - 1] == z * v[n - 1] - beta * (w * v[n - 1]);
      assert x - beta * y + (z * v[n - 1] - beta * (w * v[n - 1]))
          == (x + z * v[n - 1]) - beta * (y + w * v[n - 1]);
    }
  }

  /** `Q_policy`: zeros except `Q[j][policy[j]] == 1`. */
  function QMatrix(pol: seq<nat>): (q: seq<seq<real>>)
    ensures |q| == |pol| && forall j :: 0 <= j < |q| ==> |q[j]| == |pol|
  {
    seq(|pol|, j requires 0 <= j < |pol| => Unit(|pol|, pol[j]))
  }

  /** `A = I - beta * Q_policy`. */
  function SystemMatrix(pol: seq<nat>, beta: real): (a: seq<seq<real>>)
    ensures |a| == |pol| && forall j :: 0 <= j < |a| ==> |a[j]| == |pol|
  {
    var q := QMatrix(pol);
    seq(|pol|, j requires 0 <= j < |pol| => Combine(Unit(|pol|, j), beta, q[j]))
  }

  function MatVec(a: seq<seq<real>>, v: seq<real>): (r: seq<real>)
    requires forall j :: 0 <= j < |a| ==> |a[j]| == |v|
    ensures |r| == |a|
  {
    seq(|a|, j requires 0 <= j < |a| => Dot(a[j], v))
  }

  /** Row j of `(I - beta * Q_policy) v` is `v[j] - beta * v[policy[j]]`. */
  lemma {:induction false} SystemRow(pol: seq<nat>, beta: real, v: seq<real>, j: nat)
    requires IsPolicy(pol, |v|) && j < |v|
    ensures MatVec(SystemMatrix(pol, beta), v)[j] == v[j] - beta * v[pol[j]]
  {
    var n := |v|;
    var row := SystemMatrix(pol, beta)[j];
    assert QMatrix(pol)[j] == Unit(n, pol[j]);
    assert row == Combine(Unit(n, j), beta, Unit(n, pol[j]));
    DotCombine(Unit(n, j), beta, Unit(n, pol[j]), v);
    DotUnit(n, j, v);
    DotUnit(n, pol[j], v);
    assert MatVec(SystemMatrix(pol, beta), v)[j] == Dot(row, v);
  }

  /** `np.dot` on doubles: a sum of products in which `0 * NaN` is NaN. */
  function DotNum(a: seq<Num>, v: seq<Num>): Num
    requires |a| == |v|
  {
    if |a| == 0 then Num(0.0)
    else Add(DotNum(a[..|a| - 1], v[..|a| - 1]), Mul(a[|a| - 1], v[|a| - 1]))
  }

  lemma {:induction false} DotNumExact(a: seq<real>, v: seq<Num>)
    requires |a| == |v|
    ensures DotNum(Lift(a), v) == if NoNaN(v) then Num(Dot(a, Values(v))) else NaN
  {
    var n := |a|;
    if n > 0 {
      assert Lift(a)[..n - 1] == Lift(a[..n - 1]);
      DotNumExact(a[..n - 1], v[..n - 1]);
      if NoNaN(v) {
        assert Values(v)[..n - 1] == Values(v[..n - 1]);
      } else if NoNaN(v[..n - 1]) {
        assert v[n - 1].NaN?;
      }
    }
  }

  /** `Q_policy.dot(v)` on doubles. */
  function QDot(pol: seq<nat>, v: seq<Num>): (r: seq<Num>)
    requires |v| == |pol|
    ensures |r| == |pol|
  {
    var q := QMatrix(pol);
    seq(|pol|, j requires 0 <= j < |pol| => DotNum(Lift(q[j]), v))
  }

  /** The product picks `v[policy[j]]` for each state when `v` is NaN-free;
      a single NaN in `v` turns every entry of the product into NaN, since
      the zero entries of `Q_policy` multiply it too. */
  lemma {:induction false} QDotSelects(pol: seq<nat>, v: seq<Num>)
    requires IsPolicy(pol, |v|)
    ensures NoNaN(v) ==> forall j :: 0 <= j < |v| ==> QDot(pol, v)[j] == v[pol[j]]
    ensures !NoNaN(v) ==> QDot(pol, v) == NaNRow(|v|)
  {
    var n := |v|;
    forall j | 0 <= j < n
      ensures QDot(pol, v)[j] == if NoNaN(v) then v[pol[j]] else NaN
    {
      DotNumExact(Unit(n, pol[j]), v);
      if NoNaN(v) {
        DotUnit(n, pol[j], Values(v));
      }
    }
  }
}
