/**
 * Two-dimensional blocks. The source keeps a block as an array of row
 * pointers (`int **`, `double **`); here a block is an `array2` and its
 * value is the sequence of its rows.
 */
module Matrix {

  /** The contents of `a`, row by row. */
  ghost function Rows<T>(a: array2<T>): (rows: seq<seq<T>>)
    reads a
    ensures |rows| == a.Length0
    ensures forall i | 0 <= i < a.Length0 :: |rows[i]| == a.Length1
    ensures forall i, j | 0 <= i < a.Length0 && 0 <= j < a.Length1 :: rows[i][j] == a[i, j]
  {
    seq(a.Length0, i requires 0 <= i < a.Length0 reads a =>
      seq(a.Length1, j requires 0 <= j < a.Length1 reads a => a[i, j]))
  }

  /** `b` is an n×n block. */
  ghost predicate IsSquare<T>(b: seq<seq<T>>, n: nat) {
    |b| == n && forall i | 0 <= i < n :: |b[i]| == n
  }
}
