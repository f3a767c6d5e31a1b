/**
  Conway's Game of Life rule B3/S23 on a fixed rectangular grid whose Moore
  neighbourhood is clipped at the edges (no wraparound).  This is the reference
  semantics of one generation: the incremental engine of the ConwayGoL module
  is proved to compute it, and the full-grid rescan of the GameOfLife module is
  compared with it.
*/
module LifeRules {

  /** A cell position: (row, column). */
  type Coord = (int, int)

  /** A dense alive/dead grid, row by row. */
  type Grid = seq<seq<bool>>

  predicate IsGrid<T>(g: seq<seq<T>>, rows: int, cols: int) {
    |g| == rows && forall i :: 0 <= i < |g| ==> |g[i]| == cols
  }

  predicate InBounds(p: Coord, rows: int, cols: int) {
    0 <= p.0 < rows && 0 <= p.1 < cols
  }

  function Max(a: int, b: int): int { if a < b then b else a }
  function Min(a: int, b: int): int { if a < b then a else b }

  /** Whether (r, c) is a live cell; positions off the grid are dead. */
  predicate Alive(g: Grid, r: int, c: int) {
    0 <= r < |g| && 0 <= c < |g[r]| && g[r][c]
  }

  function Bit(b: bool): int {
    if b then 1 else 0
  }

  /** The number of live cells among the (up to) eight Moore neighbours of (r, c). */
  function Neighbours(g: Grid, r: int, c: int): (n: nat)
    ensures n <= 8
  {
    Bit(Alive(g, r - 1, c - 1)) + Bit(Alive(g, r - 1, c)) + Bit(Alive(g, r - 1, c + 1)) +
    Bit(Alive(g, r, c - 1)) + Bit(Alive(g, r, c + 1)) +
    Bit(Alive(g, r + 1, c - 1)) + Bit(Alive(g, r + 1, c)) + Bit(Alive(g, r + 1, c + 1))
  }

  /** q is one of the eight Moore neighbours of p. */
  predicate Adjacent(p: Coord, q: Coord) {
    !(p.0 == q.0 && p.1 == q.1) && -1 <= p.0 - q.0 <= 1 && -1 <= p.1 - q.1 <= 1
  }

  /** B3/S23: a live cell survives on 2 or 3 live neighbours, a dead cell is born on exactly 3. */
  predicate NextAlive(alive: bool, n: int) {
    if alive then n == 2 || n == 3 else n == 3
  }

  /** The visual class of a cell after a generation. */
  datatype CellClass = New | Survivor | DeadMarked | Background

  /**
    The class a generation gives a cell: a surviving live cell is a Survivor, a
    dying one is DeadMarked, a birth is New, and a cell that stays dead is
    Background.
  */
  function Classify(alive: bool, n: int): (k: CellClass)
    ensures (k == New || k == Survivor) <==> NextAlive(alive, n)
    ensures (k == Survivor || k == DeadMarked) <==> alive
  {
    if alive then
      if n == 2 || n == 3 then Survivor else DeadMarked
    else
      if n == 3 then New else Background
  }

  /** The class the next generation gives cell (r, c) of g. */
  function Class(g: Grid, r: int, c: int): CellClass {
    Classify(Alive(g, r, c), Neighbours(g, r, c))
  }

  /** One generation of the whole grid, every cell rescanned. */
  function Step(g: Grid): (h: Grid)
    ensures |h| == |g|
    ensures forall r :: 0 <= r < |g| ==> |h[r]| == |g[r]|
    ensures forall r, c {:trigger h[r][c]} :: 0 <= r < |g| && 0 <= c < |g[r]| ==>
      h[r][c] == NextAlive(g[r][c], Neighbours(g, r, c))
  {
    seq(|g|, r requires 0 <= r < |g| =>
      seq(|g[r]|, c requires 0 <= c < |g[r]| => NextAlive(g[r][c], Neighbours(g, r, c))))
  }

  /** n holds the exact neighbour count of cell (i, j) of g. */
  ghost predicate CountAt(g: Grid, n: seq<seq<int>>, i: int, j: int) {
    0 <= i < |n| && 0 <= j < |n[i]| && n[i][j] == Neighbours(g, i, j)
  }

  /**
    n holds the exact neighbour count of every cell of g.  The quantifier is
    instantiated only where a proof names CountAt for a cell.
  */
  ghost predicate CountsExact(g: Grid, n: seq<seq<int>>, rows: int, cols: int) {
    IsGrid(g, rows, cols) && IsGrid(n, rows, cols) &&
    forall i, j {:trigger CountAt(g, n, i, j)} :: 0 <= i < rows && 0 <= j < cols ==> CountAt(g, n, i, j)
  }

  /** The contents of a two-dimensional array as a grid of rows. */
  function GridOf<T>(a: array2<T>): (g: seq<seq<T>>)
    reads a
    ensures IsGrid(g, a.Length0, a.Length1)
    ensures forall i, j :: 0 <= i < a.Length0 && 0 <= j < a.Length1 ==> g[i][j] == a[i, j]
  {
    RowsOf(a, a.Length0)
  }

  /** The first m rows of a. */
  function RowsOf<T>(a: array2<T>, m: int): (g: seq<seq<T>>)
    reads a
    requires 0 <= m <= a.Length0
    ensures |g| == m && forall i :: 0 <= i < m ==> |g[i]| == a.Length1
    ensures forall i, j :: 0 <= i < m && 0 <= j < a.Length1 ==> g[i][j] == a[i, j]
  {
    if m == 0 then [] else RowsOf(a, m - 1) + [seq(a.Length1, j requires 0 <= j < a.Length1 reads a => a[m - 1, j])]
  }

  /** Two grids of the same shape that agree cell by cell are equal. */
  lemma GridsEqual<T>(g: seq<seq<T>>, h: seq<seq<T>>, rows: int, cols: int)
    requires IsGrid(g, rows, cols) && IsGrid(h, rows, cols)
    requires forall i, j :: 0 <= i < rows && 0 <= j < cols ==> g[i][j] == h[i][j]
    ensures g == h
  {
    forall i | 0 <= i < rows
      ensures g[i] == h[i]
    {
      assert forall j :: 0 <= j < cols ==> g[i][j] == h[i][j];
    }
  }

  /** Away from p, a grid with one flipped cell reads the same; at p it reads the flipped value. */
  lemma AliveAfterFlip(g: Grid, h: Grid, p: Coord, rows: int, cols: int, r: int, c: int)
    requires IsGrid(g, rows, cols) && IsGrid(h, rows, cols) && InBounds(p, rows, cols)
    requires forall i, j :: 0 <= i < rows && 0 <= j < cols && (i, j) != p ==> h[i][j] == g[i][j]
    ensures Bit(Alive(h, r, c)) ==
      Bit(Alive(g, r, c)) + if r == p.0 && c == p.1 then Bit(h[p.0][p.1]) - Bit(g[p.0][p.1]) else 0
  {
  }

  /** The live cells among (r, c - 1), (r, c) and (r, c + 1): one row of a Moore neighbourhood. */
  function Triple(g: Grid, r: int, c: int): int {
    Bit(Alive(g, r, c - 1)) + Bit(Alive(g, r, c)) + Bit(Alive(g, r, c + 1))
  }

  /** A flip at p changes a row of three by the flip's delta exactly when p lies in it. */
  lemma TripleAfterFlip(g: Grid, h: Grid, p: Coord, rows: int, cols: int, r: int, c: int)
    requires IsGrid(g, rows, cols) && IsGrid(h, rows, cols) && InBounds(p, rows, cols)
    requires forall i, j :: 0 <= i < rows && 0 <= j < cols && (i, j) != p ==> h[i][j] == g[i][j]
    ensures Triple(h, r, c) ==
      Triple(g, r, c) + if r == p.0 && -1 <= c - p.1 <= 1 then Bit(h[p.0][p.1]) - Bit(g[p.0][p.1]) else 0
  {
    AliveAfterFlip(g, h, p, rows, cols, r, c - 1);
    AliveAfterFlip(g, h, p, rows, cols, r, c);
    AliveAfterFlip(g, h, p, rows, cols, r, c + 1);
  }

  /**
    Flipping one cell p changes the neighbour count of exactly its eight
    neighbours, by +1 for a birth and by -1 for a death.
  */
  lemma NeighboursAfterFlip(g: Grid, h: Grid, p: Coord, rows: int, cols: int, r: int, c: int)
    requires IsGrid(g, rows, cols) && IsGrid(h, rows, cols) && InBounds(p, rows, cols)
    requires forall i, j :: 0 <= i < rows && 0 <= j < cols && (i, j) != p ==> h[i][j] == g[i][j]
    ensures Neighbours(h, r, c) ==
      Neighbours(g, r, c) + if Adjacent((r, c), p) then Bit(h[p.0][p.1]) - Bit(g[p.0][p.1]) else 0
  {
    TripleAfterFlip(g, h, p, rows, cols, r - 1, c);
    AliveAfterFlip(g, h, p, rows, cols, r, c - 1);
    AliveAfterFlip(g, h, p, rows, cols, r, c + 1);
    TripleAfterFlip(g, h, p, rows, cols, r + 1, c);
    NeighboursByRows(g, r, c);
    NeighboursByRows(h, r, c);
    if r == p.0 {
      assert Triple(h, r - 1, c) == Triple(g, r - 1, c) && Triple(h, r + 1, c) == Triple(g, r + 1, c);
    } else {
      assert Bit(Alive(h, r, c - 1)) == Bit(Alive(g, r, c - 1)) && Bit(Alive(h, r, c + 1)) == Bit(Alive(g, r, c + 1));
    }
  }

  /** The Moore neighbourhood of (r, c) as the row above, the two side cells and the row below. */
  lemma NeighboursByRows(g: Grid, r: int, c: int)
    ensures Neighbours(g, r, c) ==
      Triple(g, r - 1, c) + Bit(Alive(g, r, c - 1)) + Bit(Alive(g, r, c + 1)) + Triple(g, r + 1, c)
  {
  }

  /** n with delta added to the count of every cell adjacent to p. */
  function AddAround(n: seq<seq<int>>, p: Coord, delta: int): (m: seq<seq<int>>)
    ensures |m| == |n| && forall i :: 0 <= i < |n| ==> |m[i]| == |n[i]|
    ensures forall i, j :: 0 <= i < |n| && 0 <= j < |n[i]| ==>
      m[i][j] == n[i][j] + if Adjacent((i, j), p) then delta else 0
  {
    AddAroundRows(n, p, delta, |n|)
  }

  /** The first k rows of AddAround(n, p, delta). */
  function AddAroundRows(n: seq<seq<int>>, p: Coord, delta: int, k: int): (m: seq<seq<int>>)
    requires 0 <= k <= |n|
    ensures |m| == k && forall i :: 0 <= i < k ==> m[i] == AddAroundRow(n[i], i, p, delta)
  {
    if k == 0 then [] else AddAroundRows(n, p, delta, k - 1) + [AddAroundRow(n[k - 1], k - 1, p, delta)]
  }

  /** Row i of AddAround(n, p, delta), from row i of n. */
  function AddAroundRow(row: seq<int>, i: int, p: Coord, delta: int): (r: seq<int>)
    ensures |r| == |row| && forall j :: 0 <= j < |row| ==> r[j] == row[j] + if Adjacent((i, j), p) then delta else 0
  {
    seq(|row|, j requires 0 <= j < |row| => row[j] + if Adjacent((i, j), p) then delta else 0)
  }

  /**
    If n was exact for g and one cell p flipped to give h, then adding the
    matching +1/-1 to the eight neighbours of p gives counts exact for h.
  */
  lemma FlipKeepsCountsExact(g: Grid, h: Grid, n: seq<seq<int>>, m: seq<seq<int>>, p: Coord, rows: int, cols: int)
    requires CountsExact(g, n, rows, cols) && IsGrid(h, rows, cols) && IsGrid(m, rows, cols)
    requires InBounds(p, rows, cols) && h[p.0][p.1] != g[p.0][p.1]
    requires forall i, j :: 0 <= i < rows && 0 <= j < cols && (i, j) != p ==> h[i][j] == g[i][j]
    requires m == AddAround(n, p, if h[p.0][p.1] then 1 else -1)
    ensures CountsExact(h, m, rows, cols)
  {
    forall i, j | 0 <= i < rows && 0 <= j < cols
      ensures CountAt(h, m, i, j)
    {
      assert CountAt(g, n, i, j);
      NeighboursAfterFlip(g, h, p, rows, cols, i, j);
    }
  }

  /** The period-2 oscillator on a 3x3 board: a vertical bar of three turns horizontal ... */
  lemma BlinkerTurnsHorizontal(v: Grid, h: Grid)
    requires v == [[false, true, false], [false, true, false], [false, true, false]]
    requires h == [[false, false, false], [true, true, true], [false, false, false]]
    ensures Step(v) == h
  {
    assert Neighbours(v, 0, 0) == 2 && Neighbours(v, 0, 1) == 1 && Neighbours(v, 0, 2) == 2;
    assert Neighbours(v, 1, 0) == 3 && Neighbours(v, 1, 1) == 2 && Neighbours(v, 1, 2) == 3;
    assert Neighbours(v, 2, 0) == 2 && Neighbours(v, 2, 1) == 1 && Neighbours(v, 2, 2) == 2;
    GridsEqual(Step(v), h, 3, 3);
  }

  /** ... and the horizontal bar turns vertical again. */
  lemma BlinkerTurnsVertical(h: Grid, v: Grid)
    requires h == [[false, false, false], [true, true, true], [false, false, false]]
    requires v == [[false, true, false], [false, true, false], [false, true, false]]
    ensures Step(h) == v
  {
    assert Neighbours(h, 0, 0) == 2 && Neighbours(h, 0, 1) == 3 && Neighbours(h, 0, 2) == 2;
    assert Neighbours(h, 1, 0) == 1 && Neighbours(h, 1, 1) == 2 && Neighbours(h, 1, 2) == 1;
    assert Neighbours(h, 2, 0) == 2 && Neighbours(h, 2, 1) == 3 && Neighbours(h, 2, 2) == 2;
    GridsEqual(Step(h), v, 3, 3);
  }

  /** After two generations the blinker is back on its original cells. */
  lemma BlinkerOscillates(v: Grid)
    requires v == [[false, true, false], [false, true, false], [false, true, false]]
    ensures Step(v) != v && Step(Step(v)) == v
  {
    var h := [[false, false, false], [true, true, true], [false, false, false]];
    BlinkerTurnsHorizontal(v, h);
    BlinkerTurnsVertical(h, v);
    assert h[0] != v[0];
  }

  /** Every cell of an all-dead grid has no live neighbour. */
  lemma DeadGridIsQuiet(g: Grid, r: int, c: int)
    requires forall i, j :: 0 <= i < |g| && 0 <= j < |g[i]| ==> !g[i][j]
    ensures Neighbours(g, r, c) == 0
  {
  }

  /** A live cell with no live neighbour dies, a dead cell with none stays dead. */
  lemma IsolatedCellDies(g: Grid, r: int, c: int)
    requires 0 <= r < |g| && 0 <= c < |g[r]|
    requires Neighbours(g, r, c) == 0
    ensures !Step(g)[r][c]
    ensures Class(g, r, c) == (if g[r][c] then DeadMarked else Background)
  {
  }

  /**
    A fresh rows x columns array of zeros, the numpy zero-filled grid both the
    engine's counts and the simple game's cells start from.
  */
  method ZeroCounts(rows: nat, columns: nat) returns (zeroCounts: array2<int>)
    ensures fresh(zeroCounts)
    ensures zeroCounts.Length0 == rows && zeroCounts.Length1 == columns
    ensures forall i, j :: 0 <= i < rows && 0 <= j < columns ==> zeroCounts[i, j] == 0
  {
    zeroCounts := new int[rows, columns]((_, _) => 0);
  }
}
