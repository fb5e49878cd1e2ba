/** The worked examples of the primitives on the 3 x 3 test grid. */
module Fixtures {
  import opened Numeric
  import opened Primitives

  /** The utility grid of the unit tests (no infeasible entries). */
  function TestGrid(): (u: Grid)
    ensures |u| == 3 && IsSquare(u)
  {
    [[Num(0.0), Num(0.5), Num(0.66666667)],
     [Num(0.75), Num(0.8), Num(0.83333333)],
     [Num(0.85714286), Num(0.875), Num(0.88888889)]]
  }

  /** With `val_old` all ones and beta = 0.95, every cell gains 0.95. */
  lemma {:induction false} BellmanExample()
    ensures BellmanEquation(TestGrid(), [Num(1.0), Num(1.0), Num(1.0)], 0.95)
         == [[Num(0.95), Num(1.45), Num(1.61666667)],
             [Num(1.7), Num(1.75), Num(1.78333333)],
             [Num(1.80714286), Num(1.825), Num(1.83888889)]]
  {
    var r := BellmanEquation(TestGrid(), [Num(1.0), Num(1.0), Num(1.0)], 0.95);
    BellmanEquationAt(TestGrid(), [Num(1.0), Num(1.0), Num(1.0)], 0.95);
    var e := [[Num(0.95), Num(1.45), Num(1.61666667)],
              [Num(1.7), Num(1.75), Num(1.78333333)],
              [Num(1.80714286), Num(1.825), Num(1.83888889)]];
    forall i | 0 <= i < 3
      ensures r[i] == e[i]
    {
      assert forall j :: 0 <= j < 3 ==> r[i][j] == e[i][j];
    }
  }

  /** Every state's best action is the last row, with the bottom row's values. */
  lemma {:induction false} StateWiseMaxExample()
    ensures StateWiseMax(TestGrid()) == Greedy([0.85714286, 0.875, 0.88888889], [2, 2, 2])
  {
  }

  /** Policy [1, 1, 1] with beta = 0.95 is worth [15.95, 16.0, 16.03333333]. */
  lemma {:induction false} EvaluatePolicyExample()
    ensures EvaluatePolicy([1, 1, 1], TestGrid(), 0.95) == Some([15.95, 16.0, 16.03333333])
  {
    EvaluatePolicyUnique([1, 1, 1], TestGrid(), 0.95, [15.95, 16.0, 16.03333333]);
  }
}
