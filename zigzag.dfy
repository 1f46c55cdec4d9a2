/**
 * The zigzag scan of an n×n coefficient block (`block_to_zigzag` and
 * `zigzag_to_block` in src/entropy.c).
 *
 * The scan walks the anti-diagonals s = i + j = 0, 1, ..., 2(n-1) in turn.
 * On an even diagonal it goes up and to the right (row index falling), on an
 * odd one down and to the left (row index rising). Two independent
 * descriptions of that order are given here and proved to agree:
 *   - `Scan(n)`, the sequence of cells in visiting order, built diagonal by
 *     diagonal exactly as the source's loops walk them;
 *   - `Pos(n, i, j)`, a closed form for the index at which cell (i, j) is
 *     visited.
 * For n = 8 this is the zig-zag sequence of ITU-T T.81 (ISO/IEC 10918-1),
 * Annex A, section A.3.6, Figure A.6.
 */
module Zigzag {
  import opened Matrix

  datatype Cell = Cell(row: int, col: int)

  predicate InBlock(n: int, c: Cell) {
    0 <= c.row < n && 0 <= c.col < n
  }

  /** Number of anti-diagonals the scan walks (sum = 0 .. 2(n-1)). */
  function NumDiagonals(n: nat): nat {
    if n == 0 then 0 else 2 * n - 1
  }

  /** Row at which the scan enters (even s) or leaves (odd s) diagonal s. */
  function Hi(n: int, s: int): int {
    if s < n then s else n - 1
  }

  /** Row at which the scan leaves (even s) or enters (odd s) diagonal s. */
  function Lo(n: int, s: int): int {
    if s < n then 0 else s - n + 1
  }

  /** Number of cells of an n×n block on anti-diagonal s. */
  function DiagLen(n: nat, s: nat): nat {
    if s < n then s + 1 else if s < 2 * n then 2 * n - 1 - s else 0
  }

  /** The m-th cell the scan visits on diagonal s. */
  function DiagCell(n: nat, s: nat, m: int): Cell {
    if s % 2 == 0 then Cell(Hi(n, s) - m, s - Hi(n, s) + m) else Cell(Lo(n, s) + m, s - Lo(n, s) - m)
  }

  /** The cells of diagonal s, in the order the scan visits them. */
  function Diagonal(n: nat, s: nat): seq<Cell> {
    seq(DiagLen(n, s), m => DiagCell(n, s, m))
  }

  /** The cells of diagonals 0 .. s-1, in visiting order. */
  function ScanUpTo(n: nat, s: nat): (cells: seq<Cell>)
    ensures |cells| == Offset(n, s)
  {
    if s == 0 then [] else ScanUpTo(n, s - 1) + Diagonal(n, s - 1)
  }

  /** The whole scan order of an n×n block: n² cells. */
  function Scan(n: nat): (s: seq<Cell>)
    ensures |s| == n * n
  {
    OffsetTotal(n);
    ScanUpTo(n, NumDiagonals(n))
  }

  /** Number of cells on diagonals 0 .. s-1. */
  function Offset(n: nat, s: nat): nat {
    if s == 0 then 0 else Offset(n, s - 1) + DiagLen(n, s - 1)
  }

  /** How many cells of diagonal s the scan visits before the one in row r. */
  function DiagIndex(n: nat, s: nat, r: int): int {
    if s % 2 == 0 then Hi(n, s) - r else r - Lo(n, s)
  }

  /** Closed form of the index at which the scan visits cell (i, j). */
  function Pos(n: nat, i: nat, j: nat): int {
    Offset(n, i + j) + DiagIndex(n, i + j, i)
  }

  // ---------------------------------------------------------------------
  // Counting

  /** Up to the main anti-diagonal the diagonals form a triangle: Offset(n, s) = s(s+1)/2. */
  lemma {:induction false} OffsetTriangle(n: nat, s: nat)
    requires s <= n
    ensures 2 * Offset(n, s) == s * (s + 1)
  {
    if s > 0 {
      OffsetTriangle(n, s - 1);
      TriangleStep(s);
    }
  }

  lemma TriangleStep(s: int)
    ensures (s - 1) * s + 2 * s == s * (s + 1)
  {
    assert (s - 1) * s == s * s - s;
    assert s * (s + 1) == s * s + s;
  }

  /** Past the main anti-diagonal, the cells still to come form a triangle of side 2n-1-s. */
  lemma {:induction false} OffsetTail(n: nat, s: nat)
    requires n <= s <= 2 * n - 1
    ensures 2 * Offset(n, s) + (2 * n - 1 - s) * (2 * n - s) == 2 * (n * n)
  {
    if s == n {
      OffsetTriangle(n, n);
      TriangleStep(n);
      assert (n - 1) * n == n * n - n;
    } else {
      OffsetTail(n, s - 1);
      TailStep(2 * n - s);
    }
  }

  lemma TailStep(u: int)
    ensures u * (u + 1) == (u - 1) * u + 2 * u
  {
    assert u * (u + 1) == u * u + u;
    assert (u - 1) * u == u * u - u;
  }

  /** The diagonals of an n×n block hold n² cells between them. */
  lemma OffsetTotal(n: nat)
    ensures Offset(n, NumDiagonals(n)) == n * n
  {
    if n > 0 {
      OffsetTail(n, 2 * n - 1);
    }
  }

  lemma {:induction false} OffsetMonotone(n: nat, s: nat, t: nat)
    requires s <= t
    ensures Offset(n, s) <= Offset(n, t)
    decreases t - s
  {
    if s < t {
      OffsetMonotone(n, s, t - 1);
    }
  }

  /** Cell (i, j) is visited within the stretch of the scan that belongs to diagonal i + j. */
  lemma PosWithinDiagonal(n: nat, i: nat, j: nat)
    requires i < n && j < n
    ensures Hi(n, i + j) - Lo(n, i + j) + 1 == DiagLen(n, i + j)
    ensures Lo(n, i + j) <= i <= Hi(n, i + j)
    ensures Offset(n, i + j) <= Pos(n, i, j) < Offset(n, i + j + 1)
  {
  }

  /** The closed-form position of every cell is an index of the scan. */
  lemma PosInRange(n: nat)
    ensures forall i: nat, j: nat | i < n && j < n :: 0 <= Pos(n, i, j) < n * n
  {
    OffsetTotal(n);
    forall i: nat, j: nat | i < n && j < n
      ensures 0 <= Pos(n, i, j) < n * n
    {
      PosWithinDiagonal(n, i, j);
      OffsetMonotone(n, i + j + 1, NumDiagonals(n));
    }
  }

  /** Every cell of diagonals below s is visited before index Offset(n, s). */
  lemma PosBelowOffset(n: nat, s: nat)
    ensures forall i: nat, j: nat | i < n && j < n && i + j < s :: Pos(n, i, j) < Offset(n, s)
  {
    forall i: nat, j: nat | i < n && j < n && i + j < s
      ensures Pos(n, i, j) < Offset(n, s)
    {
      PosWithinDiagonal(n, i, j);
      OffsetMonotone(n, i + j + 1, s);
    }
  }

  // ---------------------------------------------------------------------
  // Scan and Pos are inverse to each other

  lemma {:induction false} ScanUpToPrefix(n: nat, s: nat, t: nat, k: nat)
    requires s <= t && k < Offset(n, s)
    ensures |ScanUpTo(n, s)| == Offset(n, s) <= Offset(n, t) == |ScanUpTo(n, t)|
    ensures ScanUpTo(n, t)[k] == ScanUpTo(n, s)[k]
    decreases t - s
  {
    OffsetMonotone(n, s, t);
    if s < t {
      ScanUpToPrefix(n, s, t - 1, k);
      OffsetMonotone(n, s, t - 1);
    }
  }

  /** Each entry of the scan is a cell of the block whose closed-form position is its index. */
  lemma {:induction false} ScanUpToAt(n: nat, s: nat, k: nat)
    requires s <= NumDiagonals(n) && k < Offset(n, s)
    ensures k < |ScanUpTo(n, s)|
    ensures InBlock(n, ScanUpTo(n, s)[k])
    ensures ScanUpTo(n, s)[k].row + ScanUpTo(n, s)[k].col < s
    ensures Pos(n, ScanUpTo(n, s)[k].row, ScanUpTo(n, s)[k].col) == k
  {
    var t := s - 1;
    if k < Offset(n, t) {
      ScanUpToAt(n, t, k);
    } else {
      var m := k - Offset(n, t);
      assert ScanUpTo(n, s)[k] == Diagonal(n, t)[m];
    }
  }

  /** Cell (i, j) sits at index Pos(n, i, j) of the scan. */
  lemma ScanAtPos(n: nat, i: nat, j: nat)
    requires i < n && j < n
    ensures 0 <= Pos(n, i, j) < n * n == |Scan(n)|
    ensures Scan(n)[Pos(n, i, j)] == Cell(i, j)
  {
    var s, p := i + j, Pos(n, i, j);
    OnItsDiagonal(n, i, j);
    OffsetTotal(n);
    OffsetMonotone(n, s + 1, NumDiagonals(n));
    ScanUpToPrefix(n, s + 1, NumDiagonals(n), p);
    assert Scan(n)[p] == ScanUpTo(n, s + 1)[p];
  }

  /** Cell (i, j) is entry Pos(n, i, j) of the scan of diagonals 0 .. i + j. */
  lemma OnItsDiagonal(n: nat, i: nat, j: nat)
    requires i < n && j < n
    ensures Offset(n, i + j) <= Pos(n, i, j) < Offset(n, i + j + 1)
    ensures ScanUpTo(n, i + j + 1)[Pos(n, i, j)] == Cell(i, j)
  {
    var s, d := i + j, DiagIndex(n, i + j, i);
    var p := Pos(n, i, j);
    assert p == Offset(n, s) + d;
    PosWithinDiagonal(n, i, j);
    ScanUpToLast(n, s, p);
    DiagCellAtIndex(n, i, j);
    assert ScanUpTo(n, s + 1)[p] == DiagCell(n, s, d) == Cell(i, j);
  }

  /** Cell (i, j) is entry DiagIndex of its diagonal. */
  lemma DiagCellAtIndex(n: nat, i: nat, j: nat)
    requires i < n && j < n
    ensures DiagCell(n, i + j, DiagIndex(n, i + j, i)) == Cell(i, j)
  {
  }

  /** The entries of ScanUpTo(n, s + 1) past Offset(n, s) are those of diagonal s. */
  lemma ScanUpToLast(n: nat, s: nat, p: nat)
    requires Offset(n, s) <= p < Offset(n, s + 1)
    ensures ScanUpTo(n, s + 1)[p] == DiagCell(n, s, p - Offset(n, s))
  {
    assert ScanUpTo(n, s + 1)[p] == Diagonal(n, s)[p - Offset(n, s)];
  }

  /**
   * The scan is a bijection between the indices 0 .. n²-1 and the cells of
   * the block, and Pos is its inverse: every cell is visited exactly once.
   */
  lemma ScanBijection(n: nat)
    ensures |Scan(n)| == n * n
    ensures forall k | 0 <= k < n * n :: InBlock(n, Scan(n)[k]) && Pos(n, Scan(n)[k].row, Scan(n)[k].col) == k
    ensures forall i: nat, j: nat | i < n && j < n :: 0 <= Pos(n, i, j) < n * n && Scan(n)[Pos(n, i, j)] == Cell(i, j)
  {
    OffsetTotal(n);
    forall k | 0 <= k < n * n
      ensures InBlock(n, Scan(n)[k]) && Pos(n, Scan(n)[k].row, Scan(n)[k].col) == k
    {
      ScanUpToAt(n, NumDiagonals(n), k);
    }
    forall i: nat, j: nat | i < n && j < n
      ensures 0 <= Pos(n, i, j) < n * n && Scan(n)[Pos(n, i, j)] == Cell(i, j)
    {
      ScanAtPos(n, i, j);
    }
  }

  /** Every entry of the scan is a cell of the block. */
  lemma ScanCells(n: nat)
    ensures forall k | 0 <= k < n * n :: InBlock(n, Scan(n)[k])
  {
    OffsetTotal(n);
    ScanUpToCells(n, NumDiagonals(n));
  }

  /** No cell is visited twice. */
  lemma ScanVisitsEachCellOnce(n: nat, k1: nat, k2: nat)
    requires k1 < n * n && k2 < n * n && Scan(n)[k1] == Scan(n)[k2]
    ensures k1 == k2
  {
    OffsetTotal(n);
    ScanUpToAt(n, NumDiagonals(n), k1);
    ScanUpToAt(n, NumDiagonals(n), k2);
  }

  /** The scan starts at the DC cell (0, 0). */
  lemma ScanStartsAtDC(n: nat)
    requires 1 <= n
    ensures Scan(n)[0] == Cell(0, 0)
  {
    ScanAtPos(n, 0, 0);
  }

  /** Diagonals are visited in nondecreasing order of i + j. */
  lemma ScanDiagonalsNondecreasing(n: nat, k1: nat, k2: nat)
    requires k1 <= k2 < n * n
    ensures Scan(n)[k1].row + Scan(n)[k1].col <= Scan(n)[k2].row + Scan(n)[k2].col
  {
    OffsetTotal(n);
    ScanUpToAt(n, NumDiagonals(n), k1);
    ScanUpToAt(n, NumDiagonals(n), k2);
    var c1, c2 := Scan(n)[k1], Scan(n)[k2];
    DiagonalOrder(n, c1.row, c1.col, c2.row, c2.col);
  }

  /** A cell visited no later than another lies on the same or an earlier diagonal. */
  lemma DiagonalOrder(n: nat, i1: nat, j1: nat, i2: nat, j2: nat)
    requires i1 < n && j1 < n && i2 < n && j2 < n
    requires Pos(n, i1, j1) <= Pos(n, i2, j2)
    ensures i1 + j1 <= i2 + j2
  {
    if i1 + j1 > i2 + j2 {
      PosWithinDiagonal(n, i1, j1);
      PosWithinDiagonal(n, i2, j2);
      OffsetMonotone(n, i2 + j2 + 1, i1 + j1);
      assert false;
    }
  }

  /**
   * Within one diagonal consecutive entries move one row up on an even
   * diagonal and one row down on an odd diagonal.
   */
  lemma ScanAlternatesDirection(n: nat, k: nat)
    requires k + 1 < n * n
    requires Scan(n)[k].row + Scan(n)[k].col == Scan(n)[k + 1].row + Scan(n)[k + 1].col
    ensures var s := Scan(n)[k].row + Scan(n)[k].col;
      Scan(n)[k + 1].row == Scan(n)[k].row + (if s % 2 == 0 then -1 else 1)
  {
    OffsetTotal(n);
    ScanUpToAt(n, NumDiagonals(n), k);
    ScanUpToAt(n, NumDiagonals(n), k + 1);
    var c1, c2 := Scan(n)[k], Scan(n)[k + 1];
    NextOnDiagonal(n, c1.row + c1.col, c1.row, c2.row);
  }

  /** Two cells of diagonal s visited one after the other lie one row apart, up or down by parity. */
  lemma NextOnDiagonal(n: nat, s: nat, r1: int, r2: int)
    requires Offset(n, s) + DiagIndex(n, s, r2) == Offset(n, s) + DiagIndex(n, s, r1) + 1
    ensures r2 == r1 + (if s % 2 == 0 then -1 else 1)
  {
  }

  // ---------------------------------------------------------------------
  // The scan as a map between blocks and sequences

  /** The block `b` read in scan order (the value `block_to_zigzag` writes). */
  function ToZigzag(b: seq<seq<int>>, n: nat): (z: seq<int>)
    requires IsSquare(b, n)
    ensures |z| == n * n
  {
    ScanCells(n);
    seq(n * n, k requires 0 <= k < n * n => b[Scan(n)[k].row][Scan(n)[k].col])
  }

  /** Scanning puts cell (i, j) of the block at index Pos(n, i, j). */
  lemma ToZigzagAtPos(b: seq<seq<int>>, n: nat)
    requires IsSquare(b, n)
    ensures forall i: nat, j: nat | i < n && j < n :: 0 <= Pos(n, i, j) < n * n && ToZigzag(b, n)[Pos(n, i, j)] == b[i][j]
  {
    forall i: nat, j: nat | i < n && j < n
      ensures 0 <= Pos(n, i, j) < n * n && ToZigzag(b, n)[Pos(n, i, j)] == b[i][j]
    {
      ScanAtPos(n, i, j);
    }
  }

  /** The block whose scan is `z` (the value `zigzag_to_block` writes). */
  function FromZigzag(z: seq<int>, n: nat): (b: seq<seq<int>>)
    requires |z| == n * n
    ensures IsSquare(b, n)
  {
    PosInRange(n);
    seq(n, i requires 0 <= i < n => seq(n, j requires 0 <= j < n => z[Pos(n, i, j)]))
  }

  /** Unscanning puts the k-th entry of `z` at the k-th cell of the scan. */
  lemma FromZigzagAtScan(z: seq<int>, n: nat)
    requires |z| == n * n
    ensures forall k | 0 <= k < n * n :: InBlock(n, Scan(n)[k]) && FromZigzag(z, n)[Scan(n)[k].row][Scan(n)[k].col] == z[k]
  {
    OffsetTotal(n);
    forall k | 0 <= k < n * n
      ensures InBlock(n, Scan(n)[k]) && FromZigzag(z, n)[Scan(n)[k].row][Scan(n)[k].col] == z[k]
    {
      ScanUpToAt(n, NumDiagonals(n), k);
    }
  }

  /** Unscanning a scanned block gives the block back. */
  lemma FromZigzagToZigzag(b: seq<seq<int>>, n: nat)
    requires IsSquare(b, n)
    ensures FromZigzag(ToZigzag(b, n), n) == b
  {
    var r := FromZigzag(ToZigzag(b, n), n);
    forall i | 0 <= i < n
      ensures r[i] == b[i]
    {
      forall j | 0 <= j < n
        ensures r[i][j] == b[i][j]
      {
        ScanAtPos(n, i, j);
      }
    }
  }

  /** Scanning an unscanned sequence gives the sequence back. */
  lemma ToZigzagFromZigzag(z: seq<int>, n: nat)
    requires |z| == n * n
    ensures ToZigzag(FromZigzag(z, n), n) == z
  {
    var r := ToZigzag(FromZigzag(z, n), n);
    OffsetTotal(n);
    forall k | 0 <= k < n * n
      ensures r[k] == z[k]
    {
      ScanUpToAt(n, NumDiagonals(n), k);
    }
  }

  /** A block holding, at each cell the scan visits, the entry of `z` for that visit is the unscan of `z`. */
  lemma FromZigzagByScan(z: seq<int>, b: seq<seq<int>>, n: nat)
    requires IsSquare(b, n) && |z| == n * n
    requires forall k | 0 <= k < n * n :: InBlock(n, Scan(n)[k]) && b[Scan(n)[k].row][Scan(n)[k].col] == z[k]
    ensures b == FromZigzag(z, n)
  {
    var f := FromZigzag(z, n);
    forall i | 0 <= i < n
      ensures b[i] == f[i]
    {
      forall j | 0 <= j < n
        ensures b[i][j] == f[i][j]
      {
        ScanAtPos(n, i, j);
      }
    }
  }

  /** Every cell of diagonals 0 .. s-1 lies in the block and below diagonal s. */
  lemma ScanUpToCells(n: nat, s: nat)
    requires s <= NumDiagonals(n)
    ensures forall k | 0 <= k < Offset(n, s) :: InBlock(n, ScanUpTo(n, s)[k]) && ScanUpTo(n, s)[k].row + ScanUpTo(n, s)[k].col < s
  {
    forall k | 0 <= k < Offset(n, s)
      ensures InBlock(n, ScanUpTo(n, s)[k]) && ScanUpTo(n, s)[k].row + ScanUpTo(n, s)[k].col < s
    {
      ScanUpToAt(n, s, k);
    }
  }

  // ---------------------------------------------------------------------
  // The source's two loops

  /** The first Offset(n, s) entries of `zigzag` are the cells of diagonals 0 .. s-1 in scan order. */
  ghost predicate ZigzagFilled(block: array2<int>, zigzag: array<int>, n: nat, s: nat)
    reads block, zigzag
    requires block.Length0 == n && block.Length1 == n
  {
    var cells := ScanUpTo(n, s);
    Offset(n, s) <= zigzag.Length &&
    forall k | 0 <= k < Offset(n, s) ::
      InBlock(n, cells[k]) && zigzag[k] == block[cells[k].row, cells[k].col]
  }

  /** `block_to_zigzag`: write the n×n block into `zigzag` in scan order. */
  method BlockToZigzag(block: array2<int>, zigzag: array<int>, blockSize: nat)
    requires block.Length0 == blockSize && block.Length1 == blockSize
    requires zigzag.Length == blockSize * blockSize
    modifies zigzag
    ensures zigzag[..] == ToZigzag(Rows(block), blockSize)
  {
    var n := blockSize;
    OffsetTotal(n);
    var index := 0;
    var sum := 0;
    while sum <= 2 * (n - 1)
      invariant 0 <= sum <= NumDiagonals(n)
      invariant index == Offset(n, sum)
      invariant ZigzagFilled(block, zigzag, n, sum)
    {
      OffsetMonotone(n, sum + 1, NumDiagonals(n));
      if sum % 2 == 0 {
        index := ReadUpRight(block, zigzag, n, sum, index);
      } else {
        index := ReadDownLeft(block, zigzag, n, sum, index);
      }
      ZigzagFilledNext(block, zigzag, n, sum);
      sum := sum + 1;
    }
  }

  /** Diagonal s of the block, stored after the first Offset(n, s) entries, extends a filled prefix by one diagonal. */
  lemma ZigzagFilledNext(block: array2<int>, zigzag: array<int>, n: nat, s: nat)
    requires block.Length0 == n && block.Length1 == n
    requires s < NumDiagonals(n) && Offset(n, s + 1) <= zigzag.Length
    requires ZigzagFilled(block, zigzag, n, s)
    requires forall m | 0 <= m < DiagLen(n, s) ::
      InBlock(n, DiagCell(n, s, m)) && zigzag[Offset(n, s) + m] == block[DiagCell(n, s, m).row, DiagCell(n, s, m).col]
    ensures ZigzagFilled(block, zigzag, n, s + 1)
  {
    var cells := ScanUpTo(n, s + 1);
    forall k | Offset(n, s) <= k < Offset(n, s + 1)
      ensures InBlock(n, cells[k]) && zigzag[k] == block[cells[k].row, cells[k].col]
    {
      assert cells[k] == DiagCell(n, s, k - Offset(n, s));
    }
  }

  /** The up-right walk of an even diagonal in `block_to_zigzag`. */
  method ReadUpRight(block: array2<int>, zigzag: array<int>, n: nat, sum: nat, base: nat) returns (index: nat)
    requires block.Length0 == n && block.Length1 == n && base + DiagLen(n, sum) <= zigzag.Length
    requires sum < NumDiagonals(n) && sum % 2 == 0
    modifies zigzag
    ensures index == base + DiagLen(n, sum)
    ensures forall k | 0 <= k < base :: zigzag[k] == old(zigzag[k])
    ensures forall m | 0 <= m < DiagLen(n, sum) ::
      InBlock(n, DiagCell(n, sum, m)) && zigzag[base + m] == block[DiagCell(n, sum, m).row, DiagCell(n, sum, m).col]
  {
    index := base;
    var i := if sum < n then sum else n - 1;
    while i >= 0 && sum - i < n
      invariant Lo(n, sum) - 1 <= i <= Hi(n, sum)
      invariant index == base + Hi(n, sum) - i
      invariant forall k | 0 <= k < base :: zigzag[k] == old(zigzag[k])
      invariant forall m | 0 <= m < index - base ::
        InBlock(n, DiagCell(n, sum, m)) && zigzag[base + m] == block[DiagCell(n, sum, m).row, DiagCell(n, sum, m).col]
    {
      zigzag[index] := block[i, sum - i];
      index := index + 1;
      i := i - 1;
    }
  }

  /** The down-left walk of an odd diagonal in `block_to_zigzag`. */
  method ReadDownLeft(block: array2<int>, zigzag: array<int>, n: nat, sum: nat, base: nat) returns (index: nat)
    requires block.Length0 == n && block.Length1 == n && base + DiagLen(n, sum) <= zigzag.Length
    requires sum < NumDiagonals(n) && sum % 2 == 1
    modifies zigzag
    ensures index == base + DiagLen(n, sum)
    ensures forall k | 0 <= k < base :: zigzag[k] == old(zigzag[k])
    ensures forall m | 0 <= m < DiagLen(n, sum) ::
      InBlock(n, DiagCell(n, sum, m)) && zigzag[base + m] == block[DiagCell(n, sum, m).row, DiagCell(n, sum, m).col]
  {
    index := base;
    var i := if sum < n then 0 else sum - n + 1;
    while i < n && sum - i >= 0
      invariant Lo(n, sum) <= i <= Hi(n, sum) + 1
      invariant index == base + i - Lo(n, sum)
      invariant forall k | 0 <= k < base :: zigzag[k] == old(zigzag[k])
      invariant forall m | 0 <= m < index - base ::
        InBlock(n, DiagCell(n, sum, m)) && zigzag[base + m] == block[DiagCell(n, sum, m).row, DiagCell(n, sum, m).col]
    {
      zigzag[index] := block[i, sum - i];
      index := index + 1;
      i := i + 1;
    }
  }

  /**
   * The cells of diagonals 0 .. s-1 hold the entries of `zigzag` visited
   * there, and every cell on or beyond diagonal s is still zero.
   */
  ghost predicate BlockFilled(zigzag: array<int>, block: array2<int>, n: nat, s: nat)
    reads zigzag, block
    requires block.Length0 == n && block.Length1 == n
  {
    var cells := ScanUpTo(n, s);
    Offset(n, s) <= zigzag.Length &&
    (forall k | 0 <= k < Offset(n, s) ::
      InBlock(n, cells[k]) && block[cells[k].row, cells[k].col] == zigzag[k]) &&
    (forall r, c | 0 <= r < n && 0 <= c < n && s <= r + c :: block[r, c] == 0)
  }

  /** `zigzag_to_block`: clear the block, then scatter `zigzag` back along the scan. */
  method ZigzagToBlock(zigzag: array<int>, block: array2<int>, blockSize: nat)
    requires block.Length0 == blockSize && block.Length1 == blockSize
    requires zigzag.Length == blockSize * blockSize
    modifies block
    ensures Rows(block) == FromZigzag(zigzag[..], blockSize)
  {
    var n := blockSize;
    ClearBlock(block, n);
    OffsetTotal(n);
    var index := 0;
    var sum := 0;
    while sum <= 2 * (n - 1)
      invariant 0 <= sum <= NumDiagonals(n)
      invariant index == Offset(n, sum)
      invariant BlockFilled(zigzag, block, n, sum)
    {
      index := WriteDiagonal(zigzag, block, n, sum, index);
      sum := sum + 1;
    }
    FromZigzagByScan(zigzag[..], Rows(block), n);
  }

  /** One pass of `zigzag_to_block`'s diagonal loop: diagonal `sum`, walked in its direction. */
  method WriteDiagonal(zigzag: array<int>, block: array2<int>, n: nat, sum: nat, index: nat) returns (next: nat)
    requires block.Length0 == n && block.Length1 == n && zigzag.Length == n * n
    requires sum < NumDiagonals(n) && index == Offset(n, sum) && Offset(n, NumDiagonals(n)) == n * n
    requires BlockFilled(zigzag, block, n, sum)
    modifies block
    ensures next == Offset(n, sum + 1)
    ensures BlockFilled(zigzag, block, n, sum + 1)
  {
    OffsetMonotone(n, sum + 1, NumDiagonals(n));
    ScanUpToCells(n, sum);
    if sum % 2 == 0 {
      next := WriteUpRight(zigzag, block, n, sum, index);
    } else {
      next := WriteDownLeft(zigzag, block, n, sum, index);
    }
    BlockFilledNext(zigzag, block, n, sum);
  }

  /** The first loop of `zigzag_to_block`: every cell set to 0. */
  method ClearBlock(block: array2<int>, n: nat)
    requires block.Length0 == n && block.Length1 == n
    modifies block
    ensures forall r, c | 0 <= r < n && 0 <= c < n :: block[r, c] == 0
  {
    for i := 0 to n
      invariant forall r, c | 0 <= r < i && 0 <= c < n :: block[r, c] == 0
    {
      for j := 0 to n
        invariant forall r, c | 0 <= r < i && 0 <= c < n :: block[r, c] == 0
        invariant forall c | 0 <= c < j :: block[i, c] == 0
      {
        block[i, j] := 0;
      }
    }
  }

  /** Diagonal s written from entries Offset(n, s) onwards extends a filled block by one diagonal. */
  lemma BlockFilledNext(zigzag: array<int>, block: array2<int>, n: nat, s: nat)
    requires block.Length0 == n && block.Length1 == n
    requires s < NumDiagonals(n) && Offset(n, s + 1) <= zigzag.Length
    requires forall k | 0 <= k < Offset(n, s) ::
      InBlock(n, ScanUpTo(n, s)[k]) && block[ScanUpTo(n, s)[k].row, ScanUpTo(n, s)[k].col] == zigzag[k]
    requires forall m | 0 <= m < DiagLen(n, s) ::
      InBlock(n, DiagCell(n, s, m)) && block[DiagCell(n, s, m).row, DiagCell(n, s, m).col] == zigzag[Offset(n, s) + m]
    requires forall r, c | 0 <= r < n && 0 <= c < n && s < r + c :: block[r, c] == 0
    ensures BlockFilled(zigzag, block, n, s + 1)
  {
    var cells := ScanUpTo(n, s + 1);
    forall k | Offset(n, s) <= k < Offset(n, s + 1)
      ensures InBlock(n, cells[k]) && block[cells[k].row, cells[k].col] == zigzag[k]
    {
      assert cells[k] == DiagCell(n, s, k - Offset(n, s));
    }
  }

  /** The up-right walk of an even diagonal in `zigzag_to_block`. */
  method WriteUpRight(zigzag: array<int>, block: array2<int>, n: nat, sum: nat, base: nat) returns (index: nat)
    requires block.Length0 == n && block.Length1 == n && base + DiagLen(n, sum) <= zigzag.Length
    requires sum < NumDiagonals(n) && sum % 2 == 0
    modifies block
    ensures index == base + DiagLen(n, sum)
    ensures forall r, c | 0 <= r < n && 0 <= c < n && r + c != sum :: block[r, c] == old(block[r, c])
    ensures forall m | 0 <= m < DiagLen(n, sum) ::
      InBlock(n, DiagCell(n, sum, m)) && block[DiagCell(n, sum, m).row, DiagCell(n, sum, m).col] == zigzag[base + m]
  {
    index := base;
    var i := if sum < n then sum else n - 1;
    while i >= 0 && sum - i < n
      invariant Lo(n, sum) - 1 <= i <= Hi(n, sum)
      invariant index == base + Hi(n, sum) - i
      invariant forall r, c | 0 <= r < n && 0 <= c < n && r + c != sum :: block[r, c] == old(block[r, c])
      invariant forall m | 0 <= m < index - base ::
        InBlock(n, DiagCell(n, sum, m)) && block[DiagCell(n, sum, m).row, DiagCell(n, sum, m).col] == zigzag[base + m]
    {
      block[i, sum - i] := zigzag[index];
      index := index + 1;
      i := i - 1;
    }
  }

  /** The down-left walk of an odd diagonal in `zigzag_to_block`. */
  method WriteDownLeft(zigzag: array<int>, block: array2<int>, n: nat, sum: nat, base: nat) returns (index: nat)
    requires block.Length0 == n && block.Length1 == n && base + DiagLen(n, sum) <= zigzag.Length
    requires sum < NumDiagonals(n) && sum % 2 == 1
    modifies block
    ensures index == base + DiagLen(n, sum)
    ensures forall r, c | 0 <= r < n && 0 <= c < n && r + c != sum :: block[r, c] == old(block[r, c])
    ensures forall m | 0 <= m < DiagLen(n, sum) ::
      InBlock(n, DiagCell(n, sum, m)) && block[DiagCell(n, sum, m).row, DiagCell(n, sum, m).col] == zigzag[base + m]
  {
    index := base;
    var i := if sum < n then 0 else sum - n + 1;
    while i < n && sum - i >= 0
      invariant Lo(n, sum) <= i <= Hi(n, sum) + 1
      invariant index == base + i - Lo(n, sum)
      invariant forall r, c | 0 <= r < n && 0 <= c < n && r + c != sum :: block[r, c] == old(block[r, c])
      invariant forall m | 0 <= m < index - base ::
        InBlock(n, DiagCell(n, sum, m)) && block[DiagCell(n, sum, m).row, DiagCell(n, sum, m).col] == zigzag[base + m]
    {
      block[i, sum - i] := zigzag[index];
      index := index + 1;
      i := i + 1;
    }
  }

  /**
   * Round trip through the source's two methods: scanning a block into a
   * fresh buffer and scattering it into a fresh block reproduces the block.
   */
  method ScanRoundTrip(block: array2<int>, blockSize: nat) returns (result: array2<int>)
    requires block.Length0 == blockSize && block.Length1 == blockSize
    ensures Rows(result) == Rows(block)
  {
    var zigzag := new int[blockSize * blockSize];
    BlockToZigzag(block, zigzag, blockSize);
    result := new int[blockSize, blockSize];
    ZigzagToBlock(zigzag, result, blockSize);
    FromZigzagToZigzag(Rows(block), blockSize);
  }

  // ---------------------------------------------------------------------
  // The JPEG scan order

  /**
   * The step at which the scan visits each cell of a 4×4 block, row by
   * row: cell (i, j) lands at index Pos(4, i, j) of the zigzag sequence.
   */
  lemma ScanPositions4()
    ensures [Pos(4, 0, 0), Pos(4, 0, 1), Pos(4, 0, 2), Pos(4, 0, 3),
             Pos(4, 1, 0), Pos(4, 1, 1), Pos(4, 1, 2), Pos(4, 1, 3),
             Pos(4, 2, 0), Pos(4, 2, 1), Pos(4, 2, 2), Pos(4, 2, 3),
             Pos(4, 3, 0), Pos(4, 3, 1), Pos(4, 3, 2), Pos(4, 3, 3)] ==
            [0, 1, 5, 6, 2, 4, 7, 12, 3, 8, 11, 13, 9, 10, 14, 15]
  {
    assert Offset(4, 1) == 1 && Offset(4, 2) == 3 && Offset(4, 3) == 6;
    assert Offset(4, 4) == 10 && Offset(4, 5) == 13 && Offset(4, 6) == 15;
  }

  /** The first row of the 8×8 scan positions is that of the JPEG zigzag order of ITU-T T.81, Figure A.6. */
  lemma ScanPositions8FirstRow()
    ensures [Pos(8, 0, 0), Pos(8, 0, 1), Pos(8, 0, 2), Pos(8, 0, 3),
             Pos(8, 0, 4), Pos(8, 0, 5), Pos(8, 0, 6), Pos(8, 0, 7)] ==
            [0, 1, 5, 6, 14, 15, 27, 28]
  {
    assert Offset(8, 1) == 1 && Offset(8, 2) == 3 && Offset(8, 3) == 6 && Offset(8, 4) == 10;
    assert Offset(8, 5) == 15 && Offset(8, 6) == 21 && Offset(8, 7) == 28;
  }
}
