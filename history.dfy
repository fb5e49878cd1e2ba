/** The history buffers the solvers pre-allocate with `max_iter` rows: a
    prefix of rows written so far, and blank rows (NaN, or 0 for an integer
    buffer) after it. */
module History {

  /** A buffer of `total` rows whose first `|written|` rows were written.
      Defined row by row from the end, so that a solver's loop can reason
      about whole buffers without unfolding them. */
  function Rows<T>(written: seq<T>, blank: T, total: nat): (r: seq<T>)
    requires |written| <= total
    ensures |r| == total
    decreases total
  {
    if total == |written| then written else Rows(written, blank, total - 1) + [blank]
  }

  /** Row t of the buffer: written below `|written|`, blank from there on. */
  lemma {:induction false} RowsAt<T>(written: seq<T>, blank: T, total: nat)
    requires |written| <= total
    ensures forall t :: 0 <= t < total ==>
      Rows(written, blank, total)[t] == if t < |written| then written[t] else blank
    decreases total
  {
    if total > |written| {
      RowsAt(written, blank, total - 1);
    }
  }

  /** Writing the first blank row extends the written prefix by one row. */
  lemma {:induction false} RowsWrite<T>(written: seq<T>, blank: T, total: nat, x: T)
    requires |written| < total
    ensures Rows(written, blank, total)[|written| := x] == Rows(written + [x], blank, total)
  {
    RowsAt(written, blank, total);
    RowsAt(written + [x], blank, total);
  }

  /** A first row that holds the blank is as good as unwritten. */
  lemma {:induction false} RowsUnwritten<T>(blank: T, total: nat)
    requires total >= 1
    ensures Rows([], blank, total) == Rows([blank], blank, total)
  {
    RowsAt([], blank, total);
    RowsAt([blank], blank, total);
  }

  /** A buffer of `total` blank rows: `np.tile(np.nan, [max_iter, n])`, or
      `np.zeros((max_iter, n), dtype=int)` with a row of zeros as the blank. */
  method NewBuffer<T>(blank: T, total: nat) returns (a: array<T>)
    ensures fresh(a) && a[..] == Rows([], blank, total)
  {
    a := new T[total](_ => blank);
    RowsAt([], blank, total);
    assert a[..] == Rows([], blank, total);
  }
}
