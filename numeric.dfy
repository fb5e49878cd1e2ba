/** Floating-point values with a not-a-number sentinel, and the few array
    reductions the solvers use. Reals stand for doubles: rounding is not
    modelled, but NaN is, because the source both produces it (infeasible
    transitions) and relies on how it propagates. */
module Numeric {

  /** A double: either NaN or an exact real. */
  datatype Num = NaN | Num(value: real)

  datatype Option<T> = None | Some(value: T)

  /** `np.where(np.isnan(x), 0, x)` on one entry. */
  function NanToZero(x: Num): real {
    if x.NaN? then 0.0 else x.value
  }

  // IEEE arithmetic: any NaN operand gives NaN.

  function Add(a: Num, b: Num): Num {
    if a.NaN? || b.NaN? then NaN else Num(a.value + b.value)
  }

  function Sub(a: Num, b: Num): Num {
    if a.NaN? || b.NaN? then NaN else Num(a.value - b.value)
  }

  function Mul(a: Num, b: Num): Num {
    if a.NaN? || b.NaN? then NaN else Num(a.value * b.value)
  }

  function AbsReal(x: real): real {
    if x < 0.0 then -x else x
  }

  function Abs(a: Num): Num {
    if a.NaN? then NaN else Num(AbsReal(a.value))
  }

  /** `x < crit` for a double: false when x is NaN. */
  predicate Below(x: Num, crit: real) {
    x.Num? && x.value < crit
  }

  predicate NoNaN(v: seq<Num>) {
    forall j :: 0 <= j < |v| ==> v[j].Num?
  }

  /** A vector of reals as a vector of doubles. */
  function Lift(v: seq<real>): (r: seq<Num>)
    ensures |r| == |v| && NoNaN(r)
    ensures forall j :: 0 <= j < |v| ==> r[j] == Num(v[j])
  {
    seq(|v|, j requires 0 <= j < |v| => Num(v[j]))
  }

  /** The reals of a NaN-free vector. */
  function Values(v: seq<Num>): (r: seq<real>)
    requires NoNaN(v)
    ensures |r| == |v| && Lift(r) == v
  {
    seq(|v|, j requires 0 <= j < |v| => v[j].value)
  }

  function Zeros(n: nat): seq<Num> {
    seq(n, _ => Num(0.0))
  }

  /** `np.tile(np.nan, n)`: a history row that was never written. */
  function NaNRow(n: nat): seq<Num> {
    seq(n, _ => NaN)
  }

  /** A vector of indices as a float array stores it. */
  function PolicyRow(pol: seq<nat>): (r: seq<Num>)
    ensures |r| == |pol|
    ensures forall j :: 0 <= j < |pol| ==> r[j] == Num(pol[j] as real)
  {
    Lift(seq(|pol|, j requires 0 <= j < |pol| => pol[j] as real))
  }

  /** `np.max` of a non-empty array. */
  function MaxNum(s: seq<Num>): Num
    requires |s| > 0
  {
    if |s| == 1 then s[0]
    else
      var m := MaxNum(s[..|s| - 1]);
      var x := s[|s| - 1];
      if m.NaN? || x.NaN? then NaN
      else if x.value > m.value then x
      else m
  }

  /** The maximum is NaN as soon as one entry is NaN; otherwise it is an
      entry, and no entry is larger. */
  lemma {:induction false} MaxNumSpec(s: seq<Num>)
    requires |s| > 0
    ensures MaxNum(s).NaN? <==> exists k :: 0 <= k < |s| && s[k].NaN?
    ensures MaxNum(s).Num? ==> (forall k :: 0 <= k < |s| ==> s[k].value <= MaxNum(s).value)
                               && (exists k :: 0 <= k < |s| && s[k] == MaxNum(s))
  {
    if |s| > 1 {
      var p := s[..|s| - 1];
      MaxNumSpec(p);
      assert forall k :: 0 <= k < |p| ==> p[k] == s[k];
      if MaxNum(p).Num? {
        var k :| 0 <= k < |p| && p[k] == MaxNum(p);
        assert s[k] == MaxNum(p);
      }
    }
  }

  /** `np.absolute(a - b)`, built entry by entry so that a caller holding
      only the distance does not see its entries. */
  function AbsDiff(a: seq<Num>, b: seq<Num>): (d: seq<Num>)
    requires |a| == |b|
    ensures |d| == |a|
  {
    if |a| == 0 then [] else AbsDiff(a[..|a| - 1], b[..|a| - 1]) + [Abs(Sub(a[|a| - 1], b[|a| - 1]))]
  }

  lemma {:induction false} AbsDiffAt(a: seq<Num>, b: seq<Num>)
    requires |a| == |b|
    ensures forall j :: 0 <= j < |a| ==> AbsDiff(a, b)[j] == Abs(Sub(a[j], b[j]))
  {
    if |a| > 0 {
      AbsDiffAt(a[..|a| - 1], b[..|a| - 1]);
    }
  }

  /** `np.max(np.absolute(a - b))`. */
  function MaxAbsDiff(a: seq<Num>, b: seq<Num>): Num
    requires |a| == |b| > 0
  {
    MaxNum(AbsDiff(a, b))
  }

  /** The stopping test `max_diff < crit` holds exactly when neither vector
      holds a NaN and every entry moved by less than `crit`. */
  lemma {:induction false} MaxAbsDiffBelow(a: seq<Num>, b: seq<Num>, crit: real)
    requires |a| == |b| > 0
    ensures Below(MaxAbsDiff(a, b), crit) <==>
      forall j :: 0 <= j < |a| ==>
        a[j].Num? && b[j].Num? && AbsReal(a[j].value - b[j].value) < crit
  {
    var d := AbsDiff(a, b);
    AbsDiffAt(a, b);
    MaxNumSpec(d);
    if Below(MaxNum(d), crit) {
      forall j | 0 <= j < |a|
        ensures a[j].Num? && b[j].Num? && AbsReal(a[j].value - b[j].value) < crit
      {
        assert d[j].Num?;
      }
    }
    if forall j :: 0 <= j < |a| ==>
        a[j].Num? && b[j].Num? && AbsReal(a[j].value - b[j].value) < crit {
      assert forall k :: 0 <= k < |d| ==> d[k].Num? && d[k].value < crit;
    }
  }

  /** On NaN-free vectors the distance is a real. */
  lemma {:induction false} MaxAbsDiffFinite(a: seq<Num>, b: seq<Num>)
    requires |a| == |b| > 0 && NoNaN(a) && NoNaN(b)
    ensures MaxAbsDiff(a, b).Num?
  {
    var d := AbsDiff(a, b);
    AbsDiffAt(a, b);
    MaxNumSpec(d);
    assert forall k :: 0 <= k < |d| ==> d[k].Num?;
  }
}
