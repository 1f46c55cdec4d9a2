/**
 * The quantizer of src/quantization.c: a quantization matrix built from
 * the quality setting, its elementwise reciprocal, a per-block adjustment
 * driven by the block's variance, and the quantize / dequantize passes.
 *
 * The source computes in `double`; here every value is an exact `real`.
 * `sqrt` (used for block sizes other than 8) is a parameter, and `round`
 * is the C library's rounding to the nearest integer, halves away from
 * zero.
 */
module Quantization {
  import opened Matrix

  /** The luminance quantization table of ITU-T T.81, Annex K, Table K.1 (`std_jpeg_luma_quant`). */
  const LumaTable: seq<seq<int>> := [
    [16, 11, 10, 16, 24, 40, 51, 61],
    [12, 12, 14, 19, 26, 58, 60, 55],
    [14, 13, 16, 24, 40, 57, 69, 56],
    [14, 17, 22, 29, 51, 87, 80, 62],
    [18, 22, 37, 56, 68, 109, 103, 77],
    [24, 35, 55, 64, 81, 104, 113, 92],
    [49, 64, 78, 87, 103, 121, 120, 101],
    [72, 92, 95, 98, 112, 100, 103, 99]
  ]

  /** Every entry of the table is an admissible step, between 1 and 255. */
  lemma LumaTableInRange()
    ensures |LumaTable| == 8
    ensures forall i | 0 <= i < 8 :: |LumaTable[i]| == 8
    ensures forall i, j | 0 <= i < 8 && 0 <= j < 8 :: 1 <= LumaTable[i][j] <= 255
  {
  }

  /** Entry (i, j) of the table. */
  function LumaStep(i: nat, j: nat): (step: int)
    requires i < 8 && j < 8
    ensures 1 <= step <= 255
  {
    LumaTableInRange();
    LumaTable[i][j]
  }

  // ---------------------------------------------------------------------
  // Rounding

  /** C's `round`: the nearest integer, halves away from zero. */
  function Round(x: real): (r: int)
    ensures x >= 0.0 ==> x - 0.5 < r as real <= x + 0.5
    ensures x < 0.0 ==> x - 0.5 <= r as real < x + 0.5
  {
    if x >= 0.0 then (x + 0.5).Floor else -((-x + 0.5).Floor)
  }

  /** Rounding moves a value by at most one half, and is symmetric about zero. */
  lemma RoundNearest(x: real)
    ensures x - 0.5 <= Round(x) as real <= x + 0.5
    ensures Round(-x) == -Round(x)
  {
  }

  /** Dividing by a step, rounding and multiplying back lands within half a step of the start. */
  lemma ReconstructWithinHalfStep(x: real, step: real)
    requires step > 0.0
    ensures x - step / 2.0 <= Round(x / step) as real * step <= x + step / 2.0
  {
    var y := x / step;
    var r := Round(y) as real;
    RoundNearest(y);
    var d := r - y;
    var e := d * step;
    Between(d, step);
    assert -step / 2.0 <= e <= step / 2.0;
    ScaleDifference(r, x, step);
    assert r * step - x == e;
    Sandwich(r * step, x, step, e);
  }

  /** A value that differs from x by at most half a step lies within half a step of x. */
  lemma Sandwich(a: real, x: real, step: real, e: real)
    requires a - x == e && -step / 2.0 <= e <= step / 2.0
    ensures x - step / 2.0 <= a <= x + step / 2.0
  {
  }

  /** Multiplying back by the step: r·step − x is (r − x/step)·step. */
  lemma ScaleDifference(r: real, x: real, step: real)
    requires step > 0.0
    ensures r * step - x == (r - x / step) * step
  {
    assert (x / step) * step == x;
  }

  /** A value within one half of zero, scaled by a positive step, is within half that step. */
  lemma Between(d: real, step: real)
    requires -0.5 <= d <= 0.5 && step > 0.0
    ensures -step / 2.0 <= d * step <= step / 2.0
  {
    assert (d + 0.5) * step >= 0.0;
    assert (0.5 - d) * step >= 0.0;
  }

  // ---------------------------------------------------------------------
  // The quantization matrix

  /** `quant_init`'s clamp of the quality to [1, 100]. */
  function ClampQuality(quality: int): (q: int)
    ensures 1 <= q <= 100
    ensures 1 <= quality <= 100 ==> q == quality
    ensures quality < 1 ==> q == 1
    ensures quality > 100 ==> q == 100
  {
    if quality < 1 then 1 else if quality > 100 then 100 else quality
  }

  /** The scale `generate_quant_matrix` applies: 5000/q percent below quality 50, 200 - 2q percent from there. */
  function ScaleFactor(quality: int): real
    requires quality >= 1
  {
    (if quality < 50 then 5000.0 / quality as real else 200.0 - 2.0 * quality as real) / 100.0
  }

  /** Quality 50 leaves the table unscaled, and a higher quality never scales it up. */
  lemma ScaleFactorShape(q1: int, q2: int)
    requires 1 <= q1 <= q2
    ensures ScaleFactor(50) == 1.0
    ensures ScaleFactor(q1) >= ScaleFactor(q2)
    ensures q2 <= 100 ==> ScaleFactor(q2) >= 0.0
  {
    if q2 < 50 {
      var a, b := q1 as real, q2 as real;
      assert 5000.0 / a - 5000.0 / b == 5000.0 * (b - a) / (a * b);
    } else if q1 < 50 {
      var a := q1 as real;
      assert 5000.0 / a > 100.0 by {
        assert 5000.0 == (5000.0 / a) * a;
      }
    }
  }

  /** The clamp of a matrix cell to [1, 255]: low values first, then high ones. */
  function ClampCell(value: real): (c: real)
    ensures 1.0 <= c <= 255.0
    ensures 1.0 <= value <= 255.0 ==> c == value
  {
    var v := if value < 1.0 then 1.0 else value;
    if v > 255.0 then 255.0 else v
  }

  /** Cell (i, j) of `generate_quant_matrix` before the clamp: the table entry scaled for 8×8 blocks, (1 + the distance of (i, j) from the corner) scaled and times 8 for other sizes. */
  function RawCell(n: nat, quality: int, sqrt: real -> real, i: nat, j: nat): real
    requires quality >= 1 && i < n && j < n
  {
    if n == 8 then LumaStep(i, j) as real * ScaleFactor(quality)
    else (1.0 + sqrt((i * i + j * j) as real)) * ScaleFactor(quality) * 8.0
  }

  /** Cell (i, j) of `generate_quant_matrix`: the raw cell clamped to [1, 255]. */
  function QuantCell(n: nat, quality: int, sqrt: real -> real, i: nat, j: nat): real
    requires quality >= 1 && i < n && j < n
  {
    ClampCell(RawCell(n, quality, sqrt, i, j))
  }

  /** Every cell lies in [1, 255]; at quality 50 the 8×8 matrix is the table itself. */
  lemma QuantCellRange(n: nat, quality: int, sqrt: real -> real, i: nat, j: nat)
    requires quality >= 1 && i < n && j < n
    ensures 1.0 <= QuantCell(n, quality, sqrt, i, j) <= 255.0
    ensures n == 8 && quality == 50 ==> QuantCell(n, quality, sqrt, i, j) == LumaStep(i, j) as real
  {
    if n == 8 && quality == 50 {
      ScaleFactorShape(50, 50);
    }
  }

  /** `generate_quant_matrix`: a fresh n×n matrix of the cells above. */
  method GenerateQuantMatrix(n: nat, quality: int, sqrt: real -> real) returns (m: array2<real>)
    requires quality >= 1
    ensures fresh(m) && m.Length0 == n && m.Length1 == n
    ensures forall i, j | 0 <= i < n && 0 <= j < n :: m[i, j] == QuantCell(n, quality, sqrt, i, j)
  {
    m := new real[n, n];
    var scaleFactor: real;
    if quality < 50 {
      scaleFactor := 5000.0 / quality as real;
    } else {
      scaleFactor := 200.0 - 2.0 * quality as real;
    }
    scaleFactor := scaleFactor / 100.0;
    for i := 0 to n
      invariant forall i', j | 0 <= i' < i && 0 <= j < n :: m[i', j] == QuantCell(n, quality, sqrt, i', j)
    {
      for j := 0 to n
        invariant forall i', j' | 0 <= i' < i && 0 <= j' < n :: m[i', j'] == QuantCell(n, quality, sqrt, i', j')
        invariant forall j' | 0 <= j' < j :: m[i, j'] == QuantCell(n, quality, sqrt, i, j')
      {
        var value := CellValue(n, quality, sqrt, i, j, scaleFactor);
        m[i, j] := value;
      }
    }
  }

  /** The body of `generate_quant_matrix`'s loops: one cell, scaled and clamped. */
  method CellValue(n: nat, quality: int, sqrt: real -> real, i: nat, j: nat, scaleFactor: real) returns (value: real)
    requires quality >= 1 && i < n && j < n && scaleFactor == ScaleFactor(quality)
    ensures value == QuantCell(n, quality, sqrt, i, j)
  {
    value := ScaledCell(n, quality, sqrt, i, j, scaleFactor);
    if value < 1.0 {
      value := 1.0;
    }
    if value > 255.0 {
      value := 255.0;
    }
  }

  /** One cell scaled, before the clamp. */
  method ScaledCell(n: nat, quality: int, sqrt: real -> real, i: nat, j: nat, scaleFactor: real) returns (value: real)
    requires quality >= 1 && i < n && j < n && scaleFactor == ScaleFactor(quality)
    ensures value == RawCell(n, quality, sqrt, i, j)
  {
    if n == 8 {
      value := LumaStep(i, j) as real * scaleFactor;
    } else {
      var distance := sqrt((i * i + j * j) as real);
      value := (1.0 + distance) * scaleFactor * 8.0;
    }
  }

  /** `generate_dequant_matrix`: a fresh matrix of the reciprocals of the cells of `quant`. */
  method GenerateDequantMatrix(quant: array2<real>, n: nat) returns (d: array2<real>)
    requires quant.Length0 == n && quant.Length1 == n
    requires forall i, j | 0 <= i < n && 0 <= j < n :: quant[i, j] != 0.0
    ensures fresh(d) && d.Length0 == n && d.Length1 == n
    ensures forall i, j | 0 <= i < n && 0 <= j < n :: d[i, j] == 1.0 / quant[i, j]
  {
    d := new real[n, n];
    for i := 0 to n
      invariant forall i', j | 0 <= i' < i && 0 <= j < n :: d[i', j] == 1.0 / quant[i', j]
    {
      for j := 0 to n
        invariant forall i', j' | 0 <= i' < i && 0 <= j' < n :: d[i', j'] == 1.0 / quant[i', j']
        invariant forall j' | 0 <= j' < j :: d[i, j'] == 1.0 / quant[i, j']
      {
        d[i, j] := 1.0 / quant[i, j];
      }
    }
  }

  // ---------------------------------------------------------------------
  // The per-block adjustment

  /** The variance per thousand, clamped to [0.1, 1.0] (`fmin(1.0, fmax(0.1, variance / 1000.0))`). */
  function NormVariance(variance: real): (nv: real)
    ensures 0.1 <= nv <= 1.0
    ensures 100.0 <= variance <= 1000.0 ==> nv == variance / 1000.0
  {
    var low := if variance / 1000.0 > 0.1 then variance / 1000.0 else 0.1;
    if low < 1.0 then low else 1.0
  }

  /** The factor `adjust_matrix_for_block` scales the cells by: 2 - nv to quantize, its reciprocal to dequantize. */
  function AdjustScale(variance: real, isQuantize: bool): real {
    var nv := NormVariance(variance);
    if isQuantize then 2.0 - nv else 1.0 / (2.0 - nv)
  }

  /**
   * The quantize factor lies in [1.0, 1.9], the dequantize factor is its
   * reciprocal, and flatter blocks (lower variance) get larger steps.
   */
  lemma AdjustScaleRange(variance: real, other: real)
    ensures 1.0 <= AdjustScale(variance, true) <= 1.9
    ensures AdjustScale(variance, false) * AdjustScale(variance, true) == 1.0
    ensures 0.0 < AdjustScale(variance, false) <= 1.0
    ensures variance <= other ==> AdjustScale(variance, true) >= AdjustScale(other, true)
  {
    var s := 2.0 - NormVariance(variance);
    assert (1.0 / s) * s == 1.0;
    assert 1.0 / s <= 1.0 by {
      assert 1.0 == (1.0 / s) * s >= (1.0 / s) * 1.0;
    }
  }

  /**
   * Cell (i, j) of the adjusted matrix: the DC cell is copied, every other
   * cell scaled; in quantize mode a scaled cell below 1 becomes 1.
   */
  function AdjustedCell(source: real, i: nat, j: nat, scale: real, isQuantize: bool): real {
    if i == 0 && j == 0 then source
    else
      var c := source * scale;
      if isQuantize && c < 1.0 then 1.0 else c
  }

  /** The DC cell is unscaled; quantize-mode cells from cells of at least 1 stay at least 1. */
  lemma AdjustedCellFacts(source: real, i: nat, j: nat, scale: real, isQuantize: bool)
    ensures i == 0 && j == 0 ==> AdjustedCell(source, i, j, scale, isQuantize) == source
    ensures !(i == 0 && j == 0) && !isQuantize ==> AdjustedCell(source, i, j, scale, isQuantize) == source * scale
    ensures isQuantize && source >= 1.0 ==> AdjustedCell(source, i, j, scale, isQuantize) >= 1.0
  {
  }

  // ---------------------------------------------------------------------
  // Variance of a block

  /** The cells of `rows`, row after row. */
  function Flatten(rows: seq<seq<real>>): seq<real> {
    if rows == [] then [] else Flatten(rows[..|rows| - 1]) + rows[|rows| - 1]
  }

  /** Flattening rows of width n gives n cells per row. */
  lemma {:induction false} FlattenLength(rows: seq<seq<real>>, n: nat)
    requires forall i | 0 <= i < |rows| :: |rows[i]| == n
    ensures |Flatten(rows)| == |rows| * n
    decreases |rows|
  {
    if rows != [] {
      FlattenLength(rows[..|rows| - 1], n);
    }
  }

  /** The sum of the values of `s`. */
  function Total(s: seq<real>): real {
    if s == [] then 0.0 else Total(s[..|s| - 1]) + s[|s| - 1]
  }

  /** The sum of the squares of the values of `s`. */
  function TotalSq(s: seq<real>): real {
    if s == [] then 0.0 else TotalSq(s[..|s| - 1]) + s[|s| - 1] * s[|s| - 1]
  }

  /** The population variance: the mean of the squares less the square of the mean. */
  function Variance(s: seq<real>): real
    requires |s| > 0
  {
    var n := |s| as real;
    var mean := Total(s) / n;
    TotalSq(s) / n - mean * mean
  }

  /**
   * The Cauchy–Schwarz bound behind a nonnegative variance: n times the
   * sum of squares is at least the square of the sum.
   */
  lemma {:induction false} Spread(s: seq<real>)
    ensures TotalSq(s) >= 0.0
    ensures |s| as real * TotalSq(s) >= Total(s) * Total(s)
    decreases |s|
  {
    if |s| == 1 {
      assert s[..0] == [];
    } else if s != [] {
      var front, x := s[..|s| - 1], s[|s| - 1];
      Spread(front);
      var k, t, q := |front| as real, Total(front), TotalSq(front);
      assert k * (q + k * x * x - 2.0 * t * x) >= (t - k * x) * (t - k * x) by {
        assert k * (q + k * x * x - 2.0 * t * x) - (t - k * x) * (t - k * x) == k * q - t * t;
      }
      SpreadStep(k, t, q, x);
    }
  }

  /** One step of `Spread`: appending x to k values of sum t and square sum q. */
  lemma SpreadStep(k: real, t: real, q: real, x: real)
    requires k > 0.0 && q >= 0.0 && k * q >= t * t
    requires k * (q + k * x * x - 2.0 * t * x) >= (t - k * x) * (t - k * x)
    ensures q + x * x >= 0.0
    ensures (k + 1.0) * (q + x * x) >= (t + x) * (t + x)
  {
    var r := q + k * x * x - 2.0 * t * x;
    assert (k + 1.0) * (q + x * x) - (t + x) * (t + x) == (k * q - t * t) + r;
    SquareNonnegative(t - k * x);
    assert k * r >= 0.0;
    NonnegativeFactor(k, r);
  }

  /** A square is never negative. */
  lemma SquareNonnegative(a: real)
    ensures a * a >= 0.0
  {
    if a < 0.0 {
      assert a * a == (-a) * (-a);
    }
  }

  /** A product with a positive factor that is at least 0 has its other factor at least 0. */
  lemma NonnegativeFactor(k: real, r: real)
    requires k > 0.0 && k * r >= 0.0
    ensures r >= 0.0
  {
  }

  /** The variance of any nonempty sequence is at least 0. */
  lemma VarianceNonnegative(s: seq<real>)
    requires |s| > 0
    ensures Variance(s) >= 0.0
  {
    Spread(s);
    var n, t, q := |s| as real, Total(s), TotalSq(s);
    assert Variance(s) == (n * q - t * t) / (n * n);
  }

  /** Appending one value adds it to the sum and its square to the sum of squares. */
  lemma TotalsAppend(s: seq<real>, x: real)
    ensures Total(s + [x]) == Total(s) + x
    ensures TotalSq(s + [x]) == TotalSq(s) + x * x
  {
    assert (s + [x])[..|s|] == s;
  }

  /** The cells visited after cell (i, j) of a row-major scan. */
  lemma CellStep(rows: seq<seq<real>>, i: nat, j: nat)
    requires i < |rows| && j < |rows[i]|
    ensures Flatten(rows[..i]) + rows[i][..j + 1] == Flatten(rows[..i]) + rows[i][..j] + [rows[i][j]]
  {
    assert rows[i][..j + 1] == rows[i][..j] + [rows[i][j]];
  }

  /** The cells visited after the last cell of row i. */
  lemma RowStep(rows: seq<seq<real>>, i: nat)
    requires i < |rows|
    ensures Flatten(rows[..i]) + rows[i][..|rows[i]|] == Flatten(rows[..i + 1])
  {
    assert rows[..i + 1][..i] == rows[..i];
    assert rows[i][..|rows[i]|] == rows[i];
  }

  /**
   * `calculate_block_variance`: one row-major pass accumulating the sum
   * and the sum of squares of the n×n cells, then E[x²] − E[x]².
   */
  method CalculateBlockVariance(block: array2<real>, n: nat) returns (variance: real)
    requires block.Length0 == n && block.Length1 == n && n > 0
    ensures variance == Variance(Flatten(Rows(block)))
    ensures variance >= 0.0
  {
    ghost var rows := Rows(block);
    ghost var seen: seq<real> := [];
    var sum, sumSq := 0.0, 0.0;
    var count := n * n;
    for i := 0 to n
      invariant seen == Flatten(rows[..i])
      invariant sum == Total(seen) && sumSq == TotalSq(seen)
    {
      sum, sumSq, seen := AddRow(block, n, i, sum, sumSq, seen);
    }
    assert rows[..n] == rows;
    FlattenLength(rows, n);
    var mean := sum / count as real;
    variance := sumSq / count as real - mean * mean;
    VarianceNonnegative(seen);
  }

  /** The inner loop of `calculate_block_variance`: row i added to both sums. */
  method AddRow(block: array2<real>, n: nat, i: nat, sum0: real, sumSq0: real, ghost seen0: seq<real>)
    returns (sum: real, sumSq: real, ghost seen: seq<real>)
    requires block.Length0 == n && block.Length1 == n && i < n
    requires seen0 == Flatten(Rows(block)[..i]) && sum0 == Total(seen0) && sumSq0 == TotalSq(seen0)
    ensures seen == Flatten(Rows(block)[..i + 1]) && sum == Total(seen) && sumSq == TotalSq(seen)
  {
    ghost var rows := Rows(block);
    sum, sumSq, seen := sum0, sumSq0, seen0;
    for j := 0 to n
      invariant seen == Flatten(rows[..i]) + rows[i][..j]
      invariant sum == Total(seen) && sumSq == TotalSq(seen)
    {
      CellStep(rows, i, j);
      TotalsAppend(seen, block[i, j]);
      sum := sum + block[i, j];
      sumSq := sumSq + block[i, j] * block[i, j];
      seen := seen + [block[i, j]];
    }
    RowStep(rows, i);
  }

  // ---------------------------------------------------------------------
  // Reciprocals

  /** The reciprocal of a cell of at least 1 lies in (0, 1]. */
  lemma Reciprocal(q: real)
    requires q >= 1.0
    ensures 0.0 < 1.0 / q <= 1.0
    ensures (1.0 / q) * q == 1.0
    ensures 1.0 / (1.0 / q) == q
  {
    assert (1.0 / q) * q == 1.0;
    assert 1.0 / q <= 1.0 by {
      assert 1.0 == (1.0 / q) * q >= (1.0 / q) * 1.0;
    }
  }

  /** Undoing two scalings by reciprocals multiplies back. */
  lemma ReciprocalOfProduct(q: real, s: real)
    requires q >= 1.0 && s >= 1.0
    ensures (1.0 / q) * (1.0 / s) > 0.0
    ensures 1.0 / ((1.0 / q) * (1.0 / s)) == q * s
  {
    Reciprocal(q);
    Reciprocal(s);
    assert (1.0 / q) * (1.0 / s) * (q * s) == ((1.0 / q) * q) * ((1.0 / s) * s);
  }

  // ---------------------------------------------------------------------
  // The quantization context

  /** `QuantContext`: the block size, the clamped quality, the mode and the two matrices. */
  class QuantContext {
    const blockSize: nat
    const quality: int
    const adaptive: bool
    const quantMatrix: array2<real>
    const dequantMatrix: array2<real>

    /** Both matrices are n×n and distinct, every step lies in [1, 255], and the second holds their reciprocals. */
    ghost predicate Valid()
      reads quantMatrix, dequantMatrix
    {
      quantMatrix != dequantMatrix &&
      quantMatrix.Length0 == blockSize && quantMatrix.Length1 == blockSize &&
      dequantMatrix.Length0 == blockSize && dequantMatrix.Length1 == blockSize &&
      1 <= quality <= 100 &&
      forall i, j | 0 <= i < blockSize && 0 <= j < blockSize ::
        1.0 <= quantMatrix[i, j] <= 255.0 && dequantMatrix[i, j] == 1.0 / quantMatrix[i, j]
    }

    /** `quant_init`: clamp the quality, then build the matrix for it and its reciprocal. */
    constructor (blockSize: nat, quality: int, adaptive: bool, sqrt: real -> real)
      ensures Valid()
      ensures this.blockSize == blockSize && this.adaptive == adaptive
      ensures this.quality == ClampQuality(quality)
      ensures fresh(quantMatrix) && fresh(dequantMatrix)
      ensures forall i, j | 0 <= i < blockSize && 0 <= j < blockSize ::
        quantMatrix[i, j] == QuantCell(blockSize, this.quality, sqrt, i, j)
    {
      var q := quality;
      if q < 1 {
        q := 1;
      }
      if q > 100 {
        q := 100;
      }
      this.blockSize := blockSize;
      this.quality := q;
      this.adaptive := adaptive;
      var m := GenerateQuantMatrix(blockSize, q, sqrt);
      forall i, j | 0 <= i < blockSize && 0 <= j < blockSize
        ensures 1.0 <= m[i, j] <= 255.0
      {
        QuantCellRange(blockSize, q, sqrt, i, j);
      }
      var d := GenerateDequantMatrix(m, blockSize);
      quantMatrix := m;
      dequantMatrix := d;
    }

    /** The step `quantize` divides cell (i, j) by: the stored cell, or in adaptive mode the adjusted one. */
    ghost function QuantStep(i: nat, j: nat, variance: real): (step: real)
      requires Valid() && i < blockSize && j < blockSize
      reads quantMatrix, dequantMatrix
      ensures step >= 1.0
      ensures !adaptive ==> step == quantMatrix[i, j]
      ensures adaptive && i == 0 && j == 0 ==> step == quantMatrix[i, j]
    {
      if adaptive then AdjustedCell(quantMatrix[i, j], i, j, AdjustScale(variance, true), true)
      else quantMatrix[i, j]
    }

    /** The factor `dequantize` multiplies cell (i, j) by, as the source writes it. */
    ghost function DequantFactor(i: nat, j: nat, variance: real): (factor: real)
      requires Valid() && i < blockSize && j < blockSize
      reads quantMatrix, dequantMatrix
      ensures factor > 0.0
    {
      Reciprocal(quantMatrix[i, j]);
      AdjustScaleRange(variance, variance);
      if adaptive then
        ReciprocalOfProduct(quantMatrix[i, j], AdjustScale(variance, true));
        1.0 / AdjustedCell(dequantMatrix[i, j], i, j, AdjustScale(variance, false), false)
      else dequantMatrix[i, j]
    }

    /**
     * In adaptive mode dequantization multiplies by exactly the step
     * quantization divided by: q at the DC cell, q·(2 − nv) elsewhere.
     */
    lemma AdaptiveStepsAgree(i: nat, j: nat, variance: real)
      requires Valid() && adaptive && i < blockSize && j < blockSize
      ensures DequantFactor(i, j, variance) == QuantStep(i, j, variance)
    {
      AdjustedInverse(quantMatrix[i, j], i, j, variance);
    }

    /**
     * Without adaptation dequantization multiplies by the reciprocal of the
     * step quantization divided by, so it divides by the step a second time.
     */
    lemma NonAdaptiveStepsInverse(i: nat, j: nat, variance: real)
      requires Valid() && !adaptive && i < blockSize && j < blockSize
      ensures DequantFactor(i, j, variance) * QuantStep(i, j, variance) == 1.0
    {
      Reciprocal(quantMatrix[i, j]);
    }

    /**
     * `adjust_matrix_for_block`: a fresh matrix derived from the quantization
     * matrix (or, to dequantize, the reciprocal one) with every cell but the
     * DC one scaled by the variance-driven factor. The context's own matrices
     * are left as they are.
     */
    method AdjustMatrixForBlock(variance: real, isQuantize: bool) returns (m: array2<real>)
      requires Valid()
      ensures fresh(m) && m.Length0 == blockSize && m.Length1 == blockSize
      ensures forall i, j | 0 <= i < blockSize && 0 <= j < blockSize ::
        m[i, j] == AdjustedCell((if isQuantize then quantMatrix else dequantMatrix)[i, j], i, j, AdjustScale(variance, isQuantize), isQuantize)
    {
      m := new real[blockSize, blockSize];
      var source := if isQuantize then quantMatrix else dequantMatrix;
      var normVariance := if variance / 1000.0 > 0.1 then variance / 1000.0 else 0.1;
      if normVariance > 1.0 {
        normVariance := 1.0;
      }
      var scale: real;
      if isQuantize {
        scale := 2.0 - normVariance;
      } else {
        scale := 1.0 / (2.0 - normVariance);
      }
      assert scale == AdjustScale(variance, isQuantize);
      for i := 0 to blockSize
        invariant forall i', j | 0 <= i' < i && 0 <= j < blockSize ::
          m[i', j] == AdjustedCell(source[i', j], i', j, scale, isQuantize)
      {
        for j := 0 to blockSize
          invariant forall i', j' | 0 <= i' < i && 0 <= j' < blockSize ::
            m[i', j'] == AdjustedCell(source[i', j'], i', j', scale, isQuantize)
          invariant forall j' | 0 <= j' < j :: m[i, j'] == AdjustedCell(source[i, j'], i, j', scale, isQuantize)
        {
          if i == 0 && j == 0 {
            m[i, j] := source[i, j];
          } else {
            m[i, j] := source[i, j] * scale;
            if isQuantize && m[i, j] < 1.0 {
              m[i, j] := 1.0;
            }
          }
        }
      }
    }

    /** `quantize`: each output cell is the coefficient divided by its step, rounded. */
    method Quantize(dct: array2<real>, out: array2<int>, variance: real)
      requires Valid()
      requires dct.Length0 == blockSize && dct.Length1 == blockSize
      requires out.Length0 == blockSize && out.Length1 == blockSize
      modifies out
      ensures forall i, j | 0 <= i < blockSize && 0 <= j < blockSize ::
        out[i, j] == Round(dct[i, j] / QuantStep(i, j, variance))
    {
      var matrix := quantMatrix;
      if adaptive {
        matrix := AdjustMatrixForBlock(variance, true);
      }
      assert forall i, j | 0 <= i < blockSize && 0 <= j < blockSize :: matrix[i, j] == QuantStep(i, j, variance);
      DivideAndRound(dct, matrix, out, blockSize);
    }

    /**
     * `dequantize` as the source writes it: in adaptive mode each cell is
     * multiplied by the reciprocal of the adjusted reciprocal matrix, in
     * the other mode by the reciprocal matrix itself.
     */
    method Dequantize(quant: array2<int>, dct: array2<real>, variance: real)
      requires Valid()
      requires quant.Length0 == blockSize && quant.Length1 == blockSize
      requires dct.Length0 == blockSize && dct.Length1 == blockSize
      requires dct != quantMatrix && dct != dequantMatrix
      modifies dct
      ensures Valid()
      ensures forall i, j | 0 <= i < blockSize && 0 <= j < blockSize ::
        dct[i, j] == quant[i, j] as real * DequantFactor(i, j, variance)
    {
      var matrix := dequantMatrix;
      if adaptive {
        matrix := AdjustMatrixForBlock(variance, false);
      }
      forall i, j | 0 <= i < blockSize && 0 <= j < blockSize
        ensures matrix[i, j] != 0.0 && (if adaptive then 1.0 / matrix[i, j] else matrix[i, j]) == DequantFactor(i, j, variance)
      {
        var q := quantMatrix[i, j];
        Reciprocal(q);
        if adaptive {
          AdjustScaleRange(variance, variance);
          ReciprocalOfProduct(q, AdjustScale(variance, true));
        }
      }
      Multiply(quant, matrix, adaptive, dct, blockSize);
    }

    /**
     * `dequantize` corrected: every cell is multiplied by the reciprocal of
     * the matrix in hand in both modes, so by the quantization step itself.
     */
    method DequantizeIntended(quant: array2<int>, dct: array2<real>, variance: real)
      requires Valid()
      requires quant.Length0 == blockSize && quant.Length1 == blockSize
      requires dct.Length0 == blockSize && dct.Length1 == blockSize
      requires dct != quantMatrix && dct != dequantMatrix
      modifies dct
      ensures Valid()
      ensures forall i, j | 0 <= i < blockSize && 0 <= j < blockSize ::
        dct[i, j] == quant[i, j] as real * QuantStep(i, j, variance)
    {
      var matrix := dequantMatrix;
      if adaptive {
        matrix := AdjustMatrixForBlock(variance, false);
      }
      StepsOfMatrixInHand(matrix, variance);
      Multiply(quant, matrix, true, dct, blockSize);
    }

    /**
     * The matrix `dequantize` works with (the reciprocal matrix, adjusted in
     * adaptive mode) holds in each cell the reciprocal of that cell's step.
     */
    lemma StepsOfMatrixInHand(matrix: array2<real>, variance: real)
      requires Valid() && matrix.Length0 == blockSize && matrix.Length1 == blockSize
      requires !adaptive ==> matrix == dequantMatrix
      requires adaptive ==> forall i, j | 0 <= i < blockSize && 0 <= j < blockSize ::
        matrix[i, j] == AdjustedCell(dequantMatrix[i, j], i, j, AdjustScale(variance, false), false)
      ensures forall i, j | 0 <= i < blockSize && 0 <= j < blockSize ::
        matrix[i, j] != 0.0 && 1.0 / matrix[i, j] == QuantStep(i, j, variance)
    {
      forall i, j | 0 <= i < blockSize && 0 <= j < blockSize
        ensures matrix[i, j] != 0.0 && 1.0 / matrix[i, j] == QuantStep(i, j, variance)
      {
        if adaptive {
          AdjustedInverse(quantMatrix[i, j], i, j, variance);
        } else {
          Reciprocal(quantMatrix[i, j]);
        }
      }
    }

    /** Quantizing a coefficient and multiplying back by its step stays within half a step of it. */
    lemma QuantizeRoundTrip(x: real, i: nat, j: nat, variance: real)
      requires Valid() && i < blockSize && j < blockSize
      ensures var step := QuantStep(i, j, variance);
        x - step / 2.0 <= Round(x / step) as real * step <= x + step / 2.0
    {
      ReconstructWithinHalfStep(x, QuantStep(i, j, variance));
    }
  }

  /** The loops of `quantize`: every cell divided by the matching cell of `matrix`, rounded. */
  method DivideAndRound(dct: array2<real>, matrix: array2<real>, out: array2<int>, n: nat)
    requires dct.Length0 == n && dct.Length1 == n && matrix.Length0 == n && matrix.Length1 == n
    requires out.Length0 == n && out.Length1 == n
    requires forall i, j | 0 <= i < n && 0 <= j < n :: matrix[i, j] != 0.0
    modifies out
    ensures forall i, j | 0 <= i < n && 0 <= j < n :: out[i, j] == Round(dct[i, j] / matrix[i, j])
  {
    for i := 0 to n
      invariant forall i', j | 0 <= i' < i && 0 <= j < n :: out[i', j] == Round(dct[i', j] / matrix[i', j])
    {
      for j := 0 to n
        invariant forall i', j' | 0 <= i' < i && 0 <= j' < n :: out[i', j'] == Round(dct[i', j'] / matrix[i', j'])
        invariant forall j' | 0 <= j' < j :: out[i, j'] == Round(dct[i, j'] / matrix[i, j'])
      {
        out[i, j] := Round(dct[i, j] / matrix[i, j]);
      }
    }
  }

  /**
   * The loops of `dequantize`: every quantized cell multiplied by the
   * matching cell of `matrix`, or by its reciprocal when `invert` holds.
   */
  method Multiply(quant: array2<int>, matrix: array2<real>, invert: bool, dct: array2<real>, n: nat)
    requires quant.Length0 == n && quant.Length1 == n && matrix.Length0 == n && matrix.Length1 == n
    requires dct.Length0 == n && dct.Length1 == n && dct != matrix
    requires forall i, j | 0 <= i < n && 0 <= j < n :: matrix[i, j] != 0.0
    modifies dct
    ensures forall i, j | 0 <= i < n && 0 <= j < n ::
      dct[i, j] == quant[i, j] as real * Factor(matrix[i, j], invert)
  {
    for i := 0 to n
      invariant forall i', j | 0 <= i' < i && 0 <= j < n ::
        dct[i', j] == quant[i', j] as real * Factor(matrix[i', j], invert)
    {
      for j := 0 to n
        invariant forall i', j' | 0 <= i' < i && 0 <= j' < n ::
          dct[i', j'] == quant[i', j'] as real * Factor(matrix[i', j'], invert)
        invariant forall j' | 0 <= j' < j ::
          dct[i, j'] == quant[i, j'] as real * Factor(matrix[i, j'], invert)
      {
        dct[i, j] := quant[i, j] as real * (if invert then 1.0 / matrix[i, j] else matrix[i, j]);
      }
    }
  }

  /** The multiplier `Multiply` applies for a matrix cell m: m itself, or 1/m when inverting. */
  function Factor(m: real, invert: bool): real
    requires m != 0.0
  {
    if invert then 1.0 / m else m
  }

  /**
   * The adaptive steps agree: the reciprocal of the adjusted reciprocal of
   * a cell q is the adjusted cell itself, q at the DC position and q·(2 − nv)
   * elsewhere, since q·(2 − nv) never falls below 1.
   */
  lemma AdjustedInverse(q: real, i: nat, j: nat, variance: real)
    requires q >= 1.0
    ensures AdjustedCell(1.0 / q, i, j, AdjustScale(variance, false), false) > 0.0
    ensures 1.0 / AdjustedCell(1.0 / q, i, j, AdjustScale(variance, false), false)
      == AdjustedCell(q, i, j, AdjustScale(variance, true), true)
  {
    var s := AdjustScale(variance, true);
    AdjustScaleRange(variance, variance);
    Reciprocal(q);
    if !(i == 0 && j == 0) {
      ReciprocalOfProduct(q, s);
      assert q * s >= 1.0 * 1.0;
    }
  }

  /**
   * The non-adaptive discrepancy at quality 50 on 8×8 blocks: a DC
   * coefficient of 160 quantizes to 10 with step 16, and the source's
   * dequantization turns that 10 into 0.625 instead of 160.
   */
  lemma NonAdaptiveRoundTripShrinks(sqrt: real -> real)
    ensures QuantCell(8, 50, sqrt, 0, 0) == 16.0
    ensures Round(160.0 / QuantCell(8, 50, sqrt, 0, 0)) == 10
    ensures Round(160.0 / QuantCell(8, 50, sqrt, 0, 0)) as real * (1.0 / QuantCell(8, 50, sqrt, 0, 0)) == 0.625
    ensures Round(160.0 / QuantCell(8, 50, sqrt, 0, 0)) as real * QuantCell(8, 50, sqrt, 0, 0) == 160.0
  {
    QuantCellRange(8, 50, sqrt, 0, 0);
  }
}
