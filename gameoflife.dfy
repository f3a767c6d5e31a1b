/**
  The stand-alone game: a grid of 0/1 integers that is rescanned in full every
  generation.  The neighbour count of a cell is numpy's sum of a 3 x 3 slice of
  the grid minus the cell itself, and the slice bounds follow Python's rules:
  a negative start counts from the end.  That makes the first row and the
  first column behave differently from the rest (SliceNeighbours below).
*/
module GameOfLife {
  import opened LifeRules

  /** A grid of integer cells as numpy holds them: 0 is dead, 1 is alive. */
  type IntGrid = seq<seq<int>>

  /** Every cell of g is 0 or 1. */
  predicate ZeroOne(g: IntGrid, rows: int, cols: int) {
    IsGrid(g, rows, cols) && forall i, j :: 0 <= i < rows && 0 <= j < cols ==> g[i][j] == 0 || g[i][j] == 1
  }

  /** The alive/dead grid that an integer grid stands for: a cell is alive when it holds 1. */
  function AsBools(g: IntGrid): (b: Grid)
    ensures |b| == |g| && forall i :: 0 <= i < |g| ==> |b[i]| == |g[i]|
    ensures forall i, j :: 0 <= i < |g| && 0 <= j < |g[i]| ==> b[i][j] == (g[i][j] == 1)
  {
    seq(|g|, i requires 0 <= i < |g| => seq(|g[i]|, j requires 0 <= j < |g[i]| => g[i][j] == 1))
  }

  /**
    A bound of a Python slice with step 1 over a sequence of length len: a
    negative bound counts from the end, and the result is clamped to [0, len].
  */
  function SliceBound(i: int, len: nat): (b: nat)
    ensures b <= len
  {
    if i < 0 then Max(i + len, 0) else Min(i, len)
  }

  /** The sum of row[lo..hi]; zero when the range is empty. */
  function RowSum(row: seq<int>, lo: int, hi: int): int
    requires 0 <= lo && hi <= |row|
    decreases hi - lo
  {
    if hi <= lo then 0 else RowSum(row, lo, hi - 1) + row[hi - 1]
  }

  /** The sum of the block of rows r0..r1 and columns c0..c1 of g; zero when either range is empty. */
  function BlockSum(g: IntGrid, r0: int, r1: int, c0: int, c1: int): int
    requires 0 <= r0 && r1 <= |g| && 0 <= c0 && forall i :: 0 <= i < |g| ==> c1 <= |g[i]|
    decreases r1 - r0
  {
    if r1 <= r0 then 0 else BlockSum(g, r0, r1 - 1, c0, c1) + RowSum(g[r1 - 1], c0, c1)
  }

  /**
    The neighbour count as the game computes it: the sum of the slice
    [row - 1 : row + 2, col - 1 : col + 2] minus the cell itself.  Away from
    the first row and the first column (or on a grid one cell high or wide)
    the slice bounds are the clipped ones, so it is the clipped count there.
  */
  function SliceNeighbours(g: IntGrid, rows: nat, cols: nat, row: int, col: int): (r: int)
    requires IsGrid(g, rows, cols) && 0 <= row < rows && 0 <= col < cols
    ensures (row >= 1 || rows == 1) && (col >= 1 || cols == 1) ==> r == ClippedNeighbours(g, rows, cols, row, col)
  {
    BlockSum(g, SliceBound(row - 1, rows), SliceBound(row + 2, rows), SliceBound(col - 1, cols), SliceBound(col + 2, cols))
      - g[row][col]
  }

  /** The neighbour count with the 3 x 3 block clipped at every edge, minus the cell itself. */
  function ClippedNeighbours(g: IntGrid, rows: nat, cols: nat, row: int, col: int): int
    requires IsGrid(g, rows, cols) && 0 <= row < rows && 0 <= col < cols
  {
    BlockSum(g, Max(0, row - 1), Min(row + 2, rows), Max(0, col - 1), Min(col + 2, cols)) - g[row][col]
  }

  /** The value a cell holding v gets in the next generation, given its neighbour count n. */
  function NextValue(v: int, n: int): (r: int)
    ensures r == 0 || r == 1
  {
    if v == 1 then
      if n == 2 || n == 3 then 1 else 0
    else
      if n == 3 then 1 else 0
  }

  /**
    The colour a cell holding v is drawn in, given its neighbour count n:
    while the game runs, the class of the cell's change; while it is paused,
    Background for a 0 and New otherwise.
  */
  function CellColour(v: int, n: int, running: bool): (k: CellClass)
    ensures !running ==> k == (if v == 0 then Background else New)
    ensures running && (v == 0 || v == 1) ==>
      ((k == New || k == Survivor) <==> NextValue(v, n) == 1) && ((k == Survivor || k == DeadMarked) <==> v == 1)
  {
    var colour := if v == 0 then Background else New;
    if v == 1 then
      if n == 2 || n == 3 then (if running then Survivor else colour)
      else (if running then DeadMarked else colour)
    else
      if n == 3 then (if running then New else colour) else colour
  }

  /** On a 0/1 cell the next value is the B3/S23 rule. */
  lemma NextValueIsRule(v: int, n: int)
    requires v == 0 || v == 1
    ensures NextValue(v, n) == Bit(NextAlive(v == 1, n))
    ensures NextValue(v, n) == 1 <==> NextAlive(v == 1, n)
  {
  }

  /**
    While running, a 0/1 cell is drawn in the class of its change (Survivor,
    DeadMarked, New or Background); while paused, in Background or New.
  */
  lemma ColourIsClass(v: int, n: int)
    requires v == 0 || v == 1
    ensures CellColour(v, n, true) == Classify(v == 1, n)
    ensures CellColour(v, n, false) == if v == 0 then Background else New
  {
  }

  /** On a 0/1 grid, the sum of row i over the columns around col counts the live cells there. */
  lemma RowSumIsTriple(g: IntGrid, rows: nat, cols: nat, i: int, col: int)
    requires ZeroOne(g, rows, cols) && 0 <= i < rows && 0 <= col < cols
    ensures RowSum(g[i], Max(0, col - 1), Min(col + 2, cols)) == Triple(AsBools(g), i, col)
  {
    var b, row := AsBools(g), g[i];
    var lo, hi := Max(0, col - 1), Min(col + 2, cols);
    assert forall c :: 0 <= c < cols ==> Bit(Alive(b, i, c)) == row[c];
    assert RowSum(row, lo, hi) == RowSum(row, lo, hi - 1) + row[hi - 1];
    if hi - 1 > lo {
      assert RowSum(row, lo, hi - 1) == RowSum(row, lo, hi - 2) + row[hi - 2];
      if hi - 2 > lo {
        assert RowSum(row, lo, hi - 2) == RowSum(row, lo, hi - 3) + row[hi - 3];
      }
    }
  }

  /** Row i contributes nothing to a count when it lies off the grid. */
  lemma TripleOffGrid(g: IntGrid, rows: nat, cols: nat, i: int, col: int)
    requires IsGrid(g, rows, cols) && (i < 0 || i >= rows)
    ensures Triple(AsBools(g), i, col) == 0
  {
  }

  /** The sum of row i over columns c0..c1, or zero when row i lies off the grid. */
  function RowSumOrZero(g: IntGrid, i: int, c0: int, c1: int): int
    requires 0 <= c0 && forall k :: 0 <= k < |g| ==> c1 <= |g[k]|
  {
    if 0 <= i < |g| then RowSum(g[i], c0, c1) else 0
  }

  /** The clipped block around row `row` is the sum of the (up to) three rows around it. */
  lemma BlockSumThreeRows(g: IntGrid, row: int, c0: int, c1: int)
    requires 0 <= row < |g| && 0 <= c0 && forall k :: 0 <= k < |g| ==> c1 <= |g[k]|
    ensures BlockSum(g, Max(0, row - 1), Min(row + 2, |g|), c0, c1) ==
      RowSumOrZero(g, row - 1, c0, c1) + RowSumOrZero(g, row, c0, c1) + RowSumOrZero(g, row + 1, c0, c1)
  {
    var r0, r1 := Max(0, row - 1), Min(row + 2, |g|);
    assert BlockSum(g, r0, r1, c0, c1) == BlockSum(g, r0, r1 - 1, c0, c1) + RowSum(g[r1 - 1], c0, c1);
    if r1 - 1 > r0 {
      assert BlockSum(g, r0, r1 - 1, c0, c1) == BlockSum(g, r0, r1 - 2, c0, c1) + RowSum(g[r1 - 2], c0, c1);
      if r1 - 2 > r0 {
        assert BlockSum(g, r0, r1 - 2, c0, c1) == BlockSum(g, r0, r1 - 3, c0, c1) + RowSum(g[r1 - 3], c0, c1);
      }
    }
  }

  /** On a 0/1 grid, each row's clipped sum counts the live cells of that row around column col. */
  lemma RowSumOrZeroIsTriple(g: IntGrid, rows: nat, cols: nat, i: int, col: int)
    requires ZeroOne(g, rows, cols) && 0 <= col < cols
    ensures RowSumOrZero(g, i, Max(0, col - 1), Min(col + 2, cols)) == Triple(AsBools(g), i, col)
  {
    if 0 <= i < rows {
      RowSumIsTriple(g, rows, cols, i, col);
    } else {
      TripleOffGrid(g, rows, cols, i, col);
    }
  }

  /** On a 0/1 grid the clipped count is the Moore-neighbourhood count of the reference rule. */
  lemma ClippedIsMoore(g: IntGrid, rows: nat, cols: nat, row: int, col: int)
    requires ZeroOne(g, rows, cols) && 0 <= row < rows && 0 <= col < cols
    ensures ClippedNeighbours(g, rows, cols, row, col) == Neighbours(AsBools(g), row, col)
  {
    var b := AsBools(g);
    BlockSumThreeRows(g, row, Max(0, col - 1), Min(col + 2, cols));
    RowSumOrZeroIsTriple(g, rows, cols, row - 1, col);
    RowSumOrZeroIsTriple(g, rows, cols, row, col);
    RowSumOrZeroIsTriple(g, rows, cols, row + 1, col);
    NeighboursByRows(b, row, col);
    assert Bit(Alive(b, row, col)) == g[row][col];
  }

  /** A block whose column range is empty sums to zero. */
  lemma {:induction false} EmptyColumnsSumToZero(g: IntGrid, r0: int, r1: int, c0: int, c1: int)
    requires 0 <= r0 && r1 <= |g| && 0 <= c0 && c1 <= c0 && forall i :: 0 <= i < |g| ==> c1 <= |g[i]|
    ensures BlockSum(g, r0, r1, c0, c1) == 0
    decreases r1 - r0
  {
    if r1 > r0 {
      EmptyColumnsSumToZero(g, r0, r1 - 1, c0, c1);
    }
  }

  /**
    The border quirk: at row 0 of a grid of three or more rows the slice start
    -1 means the last row, so the row range is empty; likewise at column 0 of
    a grid three or more columns wide.  The count is then minus the cell
    itself, and a 0/1 cell there is always 0 in the next generation.
  */
  lemma EdgeCellsDie(g: IntGrid, rows: nat, cols: nat, row: int, col: int)
    requires ZeroOne(g, rows, cols) && 0 <= row < rows && 0 <= col < cols
    requires (row == 0 && rows >= 3) || (col == 0 && cols >= 3)
    ensures SliceNeighbours(g, rows, cols, row, col) == -g[row][col]
    ensures NextValue(g[row][col], SliceNeighbours(g, rows, cols, row, col)) == 0
  {
    if !(row == 0 && rows >= 3) {
      EmptyColumnsSumToZero(g, SliceBound(row - 1, rows), SliceBound(row + 2, rows), cols - 1, 2);
    }
  }

  /**
    Away from the first row and column, one generation of the game is one
    generation of the reference rule.
  */
  lemma UpdateAgreesWithStep(g: IntGrid, rows: nat, cols: nat, row: int, col: int)
    requires ZeroOne(g, rows, cols) && 0 <= row < rows && 0 <= col < cols
    requires (row >= 1 || rows == 1) && (col >= 1 || cols == 1)
    ensures NextValue(g[row][col], SliceNeighbours(g, rows, cols, row, col)) == Bit(Step(AsBools(g))[row][col])
  {
    ClippedIsMoore(g, rows, cols, row, col);
    NextValueIsRule(g[row][col], SliceNeighbours(g, rows, cols, row, col));
  }

  /** With the clipped count, every cell of the grid follows the reference rule. */
  lemma ClippedStepIsReference(g: IntGrid, rows: nat, cols: nat, row: int, col: int)
    requires ZeroOne(g, rows, cols) && 0 <= row < rows && 0 <= col < cols
    ensures NextValue(g[row][col], ClippedNeighbours(g, rows, cols, row, col)) == Bit(Step(AsBools(g))[row][col])
  {
    ClippedIsMoore(g, rows, cols, row, col);
    NextValueIsRule(g[row][col], ClippedNeighbours(g, rows, cols, row, col));
  }

  /**
    A cell of the first row with three live neighbours that is not born: in
    the grid 101 / 010 / 000 the cell (0, 1) should come alive, but the slice
    count sees no neighbour at all.
  */
  lemma TopEdgeBirthMissed(g: IntGrid)
    requires g == [[1, 0, 1], [0, 1, 0], [0, 0, 0]]
    ensures Step(AsBools(g))[0][1]
    ensures ClippedNeighbours(g, 3, 3, 0, 1) == 3
    ensures SliceNeighbours(g, 3, 3, 0, 1) == 0 && NextValue(g[0][1], SliceNeighbours(g, 3, 3, 0, 1)) == 0
  {
    assert ZeroOne(g, 3, 3);
    ClippedStepIsReference(g, 3, 3, 0, 1);
    EdgeCellsDie(g, 3, 3, 0, 1);
    assert BlockSum(g, 0, 2, 0, 3) == RowSum(g[0], 0, 3) + RowSum(g[1], 0, 3);
  }

  /** The cell under pixel (x, y): row from y, column from x, by floor division. */
  function CellAt(x: int, y: int, cellSize: int): (p: Coord)
    requires cellSize > 0
    ensures 0 <= x && 0 <= y ==> 0 <= p.0 && 0 <= p.1
  {
    (y / cellSize, x / cellSize)
  }

  /** The pixel lies inside the square that the cell under it is drawn in. */
  lemma CellAtCovers(x: int, y: int, cellSize: int)
    requires cellSize > 0
    ensures var p := CellAt(x, y, cellSize);
      p.0 * cellSize <= y < p.0 * cellSize + cellSize && p.1 * cellSize <= x < p.1 * cellSize + cellSize
  {
  }

  /** A pixel of a window whose sides are whole multiples of the cell size falls on a cell of the grid. */
  lemma CellAtInBounds(x: int, y: int, width: int, height: int, cellSize: int)
    requires cellSize > 0 && width % cellSize == 0 && height % cellSize == 0
    requires 0 <= x < width && 0 <= y < height
    ensures InBounds(CellAt(x, y, cellSize), height / cellSize, width / cellSize)
  {
    QuotientBelow(y, height, cellSize);
    QuotientBelow(x, width, cellSize);
  }

  /** Below a whole multiple m of d, the quotient by d stays below m / d. */
  lemma QuotientBelow(v: int, m: int, d: int)
    requires d > 0 && m % d == 0 && 0 <= v < m
    ensures v / d < m / d
  {
    var q, k := v / d, m / d;
    assert q * d <= v;
    assert m == k * d;
    FactorLess(q, k, d);
  }

  /** Dividing both sides of a strict inequality by a positive factor. */
  lemma FactorLess(a: int, b: int, c: int)
    requires c > 0 && a * c < b * c
    ensures a < b
  {
    assert (b - a) * c == b * c - a * c;
  }

  /**
    An all-dead grid of height / cellSize rows and width / cellSize columns:
    as many whole cells as fit in the window.
  */
  method Initialize(width: int, height: int, cellSize: int) returns (cells: array2<int>)
    requires cellSize > 0 && width >= 0 && height >= 0
    ensures fresh(cells)
    ensures cells.Length0 * cellSize <= height < (cells.Length0 + 1) * cellSize
    ensures cells.Length1 * cellSize <= width < (cells.Length1 + 1) * cellSize
    ensures forall i, j :: 0 <= i < cells.Length0 && 0 <= j < cells.Length1 ==> cells[i, j] == 0
  {
    var columns, rows := width / cellSize, height / cellSize;
    cells := ZeroCounts(rows, columns);
  }

  /**
    A click at pixel (x, y): the cell under it becomes 1 for the left button
    and 0 otherwise.  A pixel below or right of the last whole cell has no
    cell, where numpy raises an index error; then ok is false and nothing
    changes.
  */
  method PaintCell(cells: array2<int>, x: int, y: int, cellSize: int, left: bool) returns (ok: bool)
    requires cellSize > 0 && x >= 0 && y >= 0
    modifies cells
    ensures ok <==> InBounds(CellAt(x, y, cellSize), cells.Length0, cells.Length1)
    ensures forall i, j :: 0 <= i < cells.Length0 && 0 <= j < cells.Length1 ==>
      cells[i, j] == if ok && (i, j) == CellAt(x, y, cellSize) then (if left then 1 else 0) else old(cells[i, j])
  {
    var coordinates := CellAt(x, y, cellSize);
    ok := coordinates.0 < cells.Length0 && coordinates.1 < cells.Length1;
    if ok {
      cells[coordinates.0, coordinates.1] := if left then 1 else 0;
    }
  }

  /**
    One generation: a fresh grid holds the next value of every cell, computed
    from the slice count, and every cell's rectangle on the screen is painted
    in its colour.  The input grid is left as it was.
  */
  method Update(cells: array2<int>, screen: array2<CellClass>, running: bool) returns (updated: array2<int>)
    requires screen.Length0 == cells.Length0 && screen.Length1 == cells.Length1
    modifies screen
    ensures fresh(updated) && updated.Length0 == cells.Length0 && updated.Length1 == cells.Length1
    ensures forall i, j :: 0 <= i < cells.Length0 && 0 <= j < cells.Length1 ==>
      && updated[i, j] == NextValue(cells[i, j], SliceNeighbours(GridOf(cells), cells.Length0, cells.Length1, i, j))
      && screen[i, j] == CellColour(cells[i, j], SliceNeighbours(GridOf(cells), cells.Length0, cells.Length1, i, j), running)
  {
    var rows, columns := cells.Length0, cells.Length1;
    var g := GridOf(cells);
    updated := ZeroCounts(rows, columns);
    var row := 0;
    while row < rows
      invariant 0 <= row <= rows
      invariant forall i, j :: 0 <= i < rows && 0 <= j < columns ==>
        if i < row then
          && updated[i, j] == NextValue(g[i][j], SliceNeighbours(g, rows, columns, i, j))
          && screen[i, j] == CellColour(g[i][j], SliceNeighbours(g, rows, columns, i, j), running)
        else updated[i, j] == 0
    {
      UpdateRow(g, updated, screen, running, row);
      row := row + 1;
    }
  }

  /** Fills in row `row` of updated and of the screen; every other row keeps its entries. */
  method UpdateRow(g: IntGrid, updated: array2<int>, screen: array2<CellClass>, running: bool, row: int)
    requires IsGrid(g, updated.Length0, updated.Length1) && 0 <= row < updated.Length0
    requires screen.Length0 == updated.Length0 && screen.Length1 == updated.Length1
    requires forall j :: 0 <= j < updated.Length1 ==> updated[row, j] == 0
    modifies updated, screen
    ensures forall i, j :: 0 <= i < updated.Length0 && 0 <= j < updated.Length1 ==>
      if i == row then
        && updated[i, j] == NextValue(g[i][j], SliceNeighbours(g, updated.Length0, updated.Length1, i, j))
        && screen[i, j] == CellColour(g[i][j], SliceNeighbours(g, updated.Length0, updated.Length1, i, j), running)
      else updated[i, j] == old(updated[i, j]) && screen[i, j] == old(screen[i, j])
  {
    var rows, columns := updated.Length0, updated.Length1;
    var col := 0;
    while col < columns
      invariant 0 <= col <= columns
      invariant forall i, j :: 0 <= i < rows && 0 <= j < columns ==>
        if i == row && j < col then
          && updated[i, j] == NextValue(g[i][j], SliceNeighbours(g, rows, columns, i, j))
          && screen[i, j] == CellColour(g[i][j], SliceNeighbours(g, rows, columns, i, j), running)
        else updated[i, j] == old(updated[i, j]) && screen[i, j] == old(screen[i, j])
    {
      var aliveNeighbours := SliceNeighbours(g, rows, columns, row, col);
      var colour := if g[row][col] == 0 then Background else New;
      if g[row][col] == 1 {
        if aliveNeighbours == 2 || aliveNeighbours == 3 {
          updated[row, col] := 1;
          if running {
            colour := Survivor;
          }
        } else {
          if running {
            colour := DeadMarked;
          }
        }
      } else {
        if aliveNeighbours == 3 {
          updated[row, col] := 1;
          if running {
            colour := New;
          }
        }
      }
      screen[row, col] := colour;
      col := col + 1;
    }
  }
}
