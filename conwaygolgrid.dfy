/**
  The incremental Game of Life engine (the ConwayGoLGrid class).  The engine
  keeps a dense alive/dead grid and a parallel grid of neighbour counts, three
  sparse sets of coordinates (New, Survivor, DeadMarked), a duration per
  survivor, an iteration counter and a bounded history of full snapshots.  A
  step evaluates only the cells within one Moore ring of the three sets, records
  the +1/-1 count changes of every flip and applies them once classification is
  done.
*/
module ConwayGoL {
  import opened LifeRules

  /** p is q or one of its eight neighbours. */
  predicate Near(p: Coord, q: Coord) {
    -1 <= p.0 - q.0 <= 1 && -1 <= p.1 - q.1 <= 1
  }

  /** The cell sizes the grid offers, in pixels. */
  datatype CellSize = XS | S | M | L | XL {
    function Value(): (v: int)
      ensures v in {3, 6, 10, 20, 40}
      ensures this == XS ==> v == 3
      ensures this == S ==> v == 6
      ensures this == M ==> v == 10
      ensures this == L ==> v == 20
      ensures this == XL ==> v == 40
    {
      match this
      case XS => 3
      case S => 6
      case M => 10
      case L => 20
      case XL => 40
    }
  }

  /** One entry of the list of cells to redraw after a step. */
  datatype Redraw = Redraw(row: int, col: int, kind: CellClass)

  /** A full copy of the engine state, as kept in the undo history. */
  datatype Backup = Backup(cells: Grid, neighbourCount: seq<seq<int>>,
                           newCells: set<Coord>, survivorCells: set<Coord>,
                           survivorDuration: map<Coord, nat>, deadCells: set<Coord>,
                           iteration: nat)

  /**
    The invariant tying the grid, the counts and the three sets together: the
    counts are exact, every set lies on the grid, the sets are pairwise disjoint
    and a cell is alive exactly when it is New or a Survivor.
  */
  ghost predicate Consistent(g: Grid, n: seq<seq<int>>, newCells: set<Coord>, survivorCells: set<Coord>,
                             deadCells: set<Coord>, rows: int, cols: int)
  {
    && CountsExact(g, n, rows, cols)
    && (forall p {:trigger p in newCells} :: p in newCells ==> InBounds(p, rows, cols))
    && (forall p {:trigger p in survivorCells} :: p in survivorCells ==> InBounds(p, rows, cols))
    && (forall p {:trigger p in deadCells} :: p in deadCells ==> InBounds(p, rows, cols))
    && newCells !! survivorCells && newCells !! deadCells && survivorCells !! deadCells
    && forall i, j {:trigger g[i][j]} {:trigger (i, j) in newCells} {:trigger (i, j) in survivorCells} ::
         0 <= i < rows && 0 <= j < cols ==> (g[i][j] <==> (i, j) in newCells || (i, j) in survivorCells)
  }

  /** A consistent state whose duration map has an entry for exactly the survivors. */
  ghost predicate ValidState(s: Backup, rows: int, cols: int) {
    && Consistent(s.cells, s.neighbourCount, s.newCells, s.survivorCells, s.deadCells, rows, cols)
    && s.survivorDuration.Keys == s.survivorCells
  }

  /** The history is within its bound and holds valid states of the given shape. */
  ghost predicate HistoryValid(backups: seq<Backup>, maxBackups: nat, rows: int, cols: int) {
    && |backups| <= maxBackups
    && forall b :: b in backups ==> ValidState(b, rows, cols)
  }

  /** An all-dead grid with zero counts and empty sets is a valid state. */
  lemma EmptyStateValid(g: Grid, n: seq<seq<int>>, rows: int, cols: int)
    requires IsGrid(g, rows, cols) && IsGrid(n, rows, cols)
    requires forall i, j :: 0 <= i < rows && 0 <= j < cols ==> !g[i][j]
    requires forall i, j :: 0 <= i < rows && 0 <= j < cols ==> n[i][j] == 0
    ensures ValidState(Backup(g, n, {}, {}, map[], {}, 0), rows, cols)
  {
    forall i, j | 0 <= i < rows && 0 <= j < cols
      ensures n[i][j] == Neighbours(g, i, j)
    {
      DeadGridIsQuiet(g, i, j);
    }
  }

  /** New cells and survivors are alive and on the grid. */
  lemma LiveSetsAlive(s: Backup, rows: int, cols: int, p: Coord)
    requires ValidState(s, rows, cols) && (p in s.newCells || p in s.survivorCells)
    ensures InBounds(p, rows, cols) && s.cells[p.0][p.1]
  {
  }

  /** Cells in the DeadMarked set are dead. */
  lemma DeadMarkedAreDead(s: Backup, rows: int, cols: int, p: Coord)
    requires ValidState(s, rows, cols) && p in s.deadCells
    ensures InBounds(p, rows, cols) && !s.cells[p.0][p.1]
  {
  }

  /**
    Appending to the history, a deque bounded by maxBackups: on overflow the
    oldest entry is evicted.
  */
  function PushBackup(backups: seq<Backup>, b: Backup, maxBackups: nat): (r: seq<Backup>)
    ensures |backups| <= maxBackups ==> |r| <= maxBackups
    ensures forall x :: x in r ==> x in backups || x == b
    ensures maxBackups > 0 ==> |r| > 0 && r[|r| - 1] == b
  {
    if |backups| + 1 > maxBackups then (backups + [b])[1..] else backups + [b]
  }

  /**
    Popping right after pushing gives back the pushed entry and the history as
    it was, less its oldest entry when the push had to evict it.
  */
  lemma PopAfterPush(backups: seq<Backup>, b: Backup, maxBackups: nat)
    requires |backups| <= maxBackups && maxBackups > 0
    ensures var r := PushBackup(backups, b, maxBackups);
      |r| > 0 && r[|r| - 1] == b &&
      r[..|r| - 1] == if |backups| == maxBackups then backups[1..] else backups
  {
    var r := PushBackup(backups, b, maxBackups);
    if |backups| == maxBackups {
      assert r == backups[1..] + [b];
    } else {
      assert r == backups + [b];
    }
  }

  /** g with every cell of s set to v. */
  ghost function Painted(g: Grid, s: set<Coord>, v: bool, rows: int, cols: int): (h: Grid)
    requires IsGrid(g, rows, cols) && cols >= 0
    ensures IsGrid(h, rows, cols)
    ensures forall i, j :: 0 <= i < rows && 0 <= j < cols ==> h[i][j] == if (i, j) in s then v else g[i][j]
  {
    PaintedRows(g, s, v, rows, cols)
  }

  /** The first m rows of Painted(g, s, v, ..). */
  ghost function PaintedRows(g: Grid, s: set<Coord>, v: bool, m: int, cols: int): (h: Grid)
    requires 0 <= m <= |g| && cols >= 0 && forall i :: 0 <= i < |g| ==> |g[i]| == cols
    ensures IsGrid(h, m, cols)
    ensures forall i, j :: 0 <= i < m && 0 <= j < cols ==> h[i][j] == if (i, j) in s then v else g[i][j]
  {
    if m == 0 then []
    else PaintedRows(g, s, v, m - 1, cols) + [seq(cols, j requires 0 <= j < cols => if (m - 1, j) in s then v else g[m - 1][j])]
  }

  /** The coordinates of the live cells of g. */
  function AliveCells(g: Grid, rows: nat, cols: nat): (s: set<Coord>)
    requires IsGrid(g, rows, cols)
    ensures forall p {:trigger p in s} :: p in s <==> 0 <= p.0 < rows && 0 <= p.1 < cols && g[p.0][p.1]
  {
    set i, j | 0 <= i < rows && 0 <= j < cols && g[i][j] :: (i, j)
  }

  /** The duration map after a step: survivors age by one, newcomers start at 0, the rest are dropped. */
  function Aged(d: map<Coord, nat>, survivors: set<Coord>): (r: map<Coord, nat>)
    ensures r.Keys == survivors
    ensures forall p :: p in survivors && p in d ==> r[p] == d[p] + 1
    ensures forall p :: p in survivors && p !in d ==> r[p] == 0
  {
    map p | p in survivors :: if p in d then d[p] + 1 else 0
  }

  /**
    The cells to evaluate in a step: every cell of the grid within one Moore
    ring of an active cell.
  */
  method Frontier(active: set<Coord>, rows: int, cols: int) returns (f: set<Coord>)
    ensures forall q {:trigger q in f} :: q in f ==> InBounds(q, rows, cols)
    ensures forall p, q :: p in active && InBounds(q, rows, cols) && Near(p, q) ==> q in f
    ensures forall q {:trigger q in f} :: q in f ==> exists p :: p in active && Near(p, q)
  {
    f := set p, i, j | p in active && Max(0, p.0 - 1) <= i < Min(p.0 + 2, rows)
                                   && Max(0, p.1 - 1) <= j < Min(p.1 + 2, cols) :: (i, j);
  }

  /** The class the next generation gives every cell of g. */
  ghost function ClassGrid(g: Grid, rows: nat, cols: nat): (k: seq<seq<CellClass>>)
    requires IsGrid(g, rows, cols)
    ensures IsGrid(k, rows, cols)
    ensures forall i, j {:trigger k[i][j]} :: 0 <= i < rows && 0 <= j < cols ==> k[i][j] == Class(g, i, j)
  {
    seq(rows, i requires 0 <= i < rows => seq(cols, j requires 0 <= j < cols => Class(g, i, j)))
  }

  /** A class that changes the aliveness of its cell. */
  predicate Flips(k: CellClass) {
    k == New || k == DeadMarked
  }

  /** g with only the cells before (row, col) in row-major order kept alive. */
  ghost function Prefix(g: Grid, rows: int, cols: int, row: int, col: int): (h: Grid)
    requires IsGrid(g, rows, cols) && cols >= 0
    ensures IsGrid(h, rows, cols)
    ensures forall i, j :: 0 <= i < rows && 0 <= j < cols ==>
      h[i][j] == (g[i][j] && (i < row || (i == row && j < col)))
  {
    PrefixRows(g, row, col, rows, cols)
  }

  /** The first m rows of Prefix(g, .., row, col). */
  ghost function PrefixRows(g: Grid, row: int, col: int, m: int, cols: int): (h: Grid)
    requires 0 <= m <= |g| && cols >= 0 && forall i :: 0 <= i < |g| ==> |g[i]| == cols
    ensures IsGrid(h, m, cols)
    ensures forall i, j :: 0 <= i < m && 0 <= j < cols ==> h[i][j] == (g[i][j] && (i < row || (i == row && j < col)))
  {
    if m == 0 then []
    else
      var last := seq(cols, j requires 0 <= j < cols => g[m - 1][j] && (m - 1 < row || (m - 1 == row && j < col)));
      PrefixRows(g, row, col, m - 1, cols) + [last]
  }

  /** With no cell visited yet, all-zero counts are exact. */
  lemma PrefixStart(g: Grid, n: seq<seq<int>>, rows: int, cols: int)
    requires IsGrid(g, rows, cols) && IsGrid(n, rows, cols) && cols >= 0
    requires forall i, j :: 0 <= i < rows && 0 <= j < cols ==> n[i][j] == 0
    ensures CountsExact(Prefix(g, rows, cols, 0, 0), n, rows, cols)
  {
    var h := Prefix(g, rows, cols, 0, 0);
    forall i, j | 0 <= i < rows && 0 <= j < cols
      ensures n[i][j] == Neighbours(h, i, j)
    {
      DeadGridIsQuiet(h, i, j);
    }
  }

  /**
    Visiting cell (row, col): when it is alive, adding +1 around it makes the
    counts exact for the prefix that now includes it; when it is dead the
    counts stay as they are.
  */
  lemma PrefixGrows(g: Grid, n: seq<seq<int>>, m: seq<seq<int>>, rows: int, cols: int, row: int, col: int)
    requires IsGrid(g, rows, cols) && cols >= 0 && 0 <= row < rows && 0 <= col < cols
    requires CountsExact(Prefix(g, rows, cols, row, col), n, rows, cols) && IsGrid(m, rows, cols)
    requires m == if g[row][col] then AddAround(n, (row, col), 1) else n
    ensures CountsExact(Prefix(g, rows, cols, row, col + 1), m, rows, cols)
  {
    var h, h' := Prefix(g, rows, cols, row, col), Prefix(g, rows, cols, row, col + 1);
    if g[row][col] {
      FlipKeepsCountsExact(h, h', n, m, (row, col), rows, cols);
    } else {
      GridsEqual(h, h', rows, cols);
    }
  }

  /** The prefix ending a row is the prefix starting the next one. */
  lemma PrefixNextRow(g: Grid, n: seq<seq<int>>, rows: int, cols: int, row: int)
    requires IsGrid(g, rows, cols) && cols >= 0
    requires CountsExact(Prefix(g, rows, cols, row, cols), n, rows, cols)
    ensures CountsExact(Prefix(g, rows, cols, row + 1, 0), n, rows, cols)
  {
    GridsEqual(Prefix(g, rows, cols, row, cols), Prefix(g, rows, cols, row + 1, 0), rows, cols);
  }

  /** Once every row is visited the prefix is the whole grid. */
  lemma PrefixEnd(g: Grid, n: seq<seq<int>>, rows: int, cols: int)
    requires IsGrid(g, rows, cols) && cols >= 0
    requires CountsExact(Prefix(g, rows, cols, rows, 0), n, rows, cols)
    ensures CountsExact(g, n, rows, cols)
  {
    GridsEqual(Prefix(g, rows, cols, rows, 0), g, rows, cols);
  }

  /** The cells a list of recorded count changes is about. */
  function CoordsOf(deltas: seq<(Coord, int)>): set<Coord> {
    set l | 0 <= l < |deltas| :: deltas[l].0
  }

  lemma CoordsOfSnoc(deltas: seq<(Coord, int)>, x: (Coord, int))
    ensures CoordsOf(deltas + [x]) == CoordsOf(deltas) + {x.0}
  {
    var d := deltas + [x];
    assert d[|deltas|] == x;
    forall q | q in CoordsOf(deltas) ensures q in CoordsOf(d) {
      var l :| 0 <= l < |deltas| && deltas[l].0 == q;
      assert d[l] == deltas[l];
    }
  }

  /** The cells of a non-empty list: those of all but its last entry, and the last entry's. */
  lemma CoordsOfInit(deltas: seq<(Coord, int)>)
    requires deltas != []
    ensures CoordsOf(deltas) == CoordsOf(deltas[..|deltas| - 1]) + {deltas[|deltas| - 1].0}
  {
    assert deltas[..|deltas| - 1] + [deltas[|deltas| - 1]] == deltas;
    CoordsOfSnoc(deltas[..|deltas| - 1], deltas[|deltas| - 1]);
  }

  /** n after adding each recorded change around its cell, first to last. */
  function ApplyAll(n: seq<seq<int>>, deltas: seq<(Coord, int)>): (m: seq<seq<int>>)
    ensures |m| == |n| && forall i :: 0 <= i < |n| ==> |m[i]| == |n[i]|
    decreases |deltas|
  {
    if deltas == [] then n
    else
      var last := deltas[|deltas| - 1];
      AddAround(ApplyAll(n, deltas[..|deltas| - 1]), last.0, last.1)
  }

  /** g with the cells of s taken from h. */
  ghost function Mix(g: Grid, h: Grid, s: set<Coord>, rows: int, cols: int): (r: Grid)
    requires IsGrid(g, rows, cols) && IsGrid(h, rows, cols) && cols >= 0
    ensures IsGrid(r, rows, cols)
    ensures forall i, j :: 0 <= i < rows && 0 <= j < cols ==> r[i][j] == if (i, j) in s then h[i][j] else g[i][j]
  {
    MixRows(g, h, s, rows, cols)
  }

  /** The first m rows of Mix(g, h, s, ..). */
  ghost function MixRows(g: Grid, h: Grid, s: set<Coord>, m: int, cols: int): (r: Grid)
    requires 0 <= m <= |g| == |h| && cols >= 0
    requires forall i :: 0 <= i < |g| ==> |g[i]| == cols && |h[i]| == cols
    ensures IsGrid(r, m, cols)
    ensures forall i, j :: 0 <= i < m && 0 <= j < cols ==> r[i][j] == if (i, j) in s then h[i][j] else g[i][j]
  {
    if m == 0 then []
    else
      var last := seq(cols, j requires 0 <= j < cols => if (m - 1, j) in s then h[m - 1][j] else g[m - 1][j]);
      MixRows(g, h, s, m - 1, cols) + [last]
  }

  /** x records the +1/-1 change of a cell that differs between g and h. */
  predicate FlipDelta(g: Grid, h: Grid, x: (Coord, int), rows: int, cols: int)
    requires IsGrid(g, rows, cols) && IsGrid(h, rows, cols)
  {
    && InBounds(x.0, rows, cols)
    && h[x.0.0][x.0.1] != g[x.0.0][x.0.1]
    && x.1 == if g[x.0.0][x.0.1] then -1 else 1
  }

  /** Taking one more flipped cell p from h, with its change, keeps the counts exact. */
  lemma MixOneMore(g: Grid, h: Grid, s: set<Coord>, n: seq<seq<int>>, x: (Coord, int), rows: int, cols: int)
    requires IsGrid(g, rows, cols) && IsGrid(h, rows, cols) && cols >= 0
    requires CountsExact(Mix(g, h, s, rows, cols), n, rows, cols)
    requires FlipDelta(g, h, x, rows, cols) && x.0 !in s
    ensures CountsExact(Mix(g, h, s + {x.0}, rows, cols), AddAround(n, x.0, x.1), rows, cols)
  {
    var p := x.0;
    var before, after := Mix(g, h, s, rows, cols), Mix(g, h, s + {p}, rows, cols);
    assert before[p.0][p.1] == g[p.0][p.1] && after[p.0][p.1] == h[p.0][p.1];
    forall i, j | 0 <= i < rows && 0 <= j < cols && (i, j) != p
      ensures after[i][j] == before[i][j]
    {
      assert (i, j) in s + {p} <==> (i, j) in s;
    }
    FlipKeepsCountsExact(before, after, n, AddAround(n, p, x.1), p, rows, cols);
  }

  /**
    Applying, one after the other, a +1/-1 change for each of a list of
    distinct cells that flip between g and h keeps the counts exact for g with
    those cells flipped.
  */
  lemma {:induction false} ApplyFlipsKeepsCountsExact(g: Grid, h: Grid, n: seq<seq<int>>, deltas: seq<(Coord, int)>,
                                                      rows: int, cols: int)
    requires CountsExact(g, n, rows, cols) && IsGrid(h, rows, cols) && cols >= 0
    requires forall l :: 0 <= l < |deltas| ==> FlipDelta(g, h, deltas[l], rows, cols)
    requires forall l, m :: 0 <= l < m < |deltas| ==> deltas[l].0 != deltas[m].0
    ensures CountsExact(Mix(g, h, CoordsOf(deltas), rows, cols), ApplyAll(n, deltas), rows, cols)
    decreases |deltas|
  {
    if deltas == [] {
      GridsEqual(Mix(g, h, CoordsOf(deltas), rows, cols), g, rows, cols);
    } else {
      var init, last := deltas[..|deltas| - 1], deltas[|deltas| - 1];
      assert forall l :: 0 <= l < |init| ==> init[l] == deltas[l];
      ApplyFlipsKeepsCountsExact(g, h, n, init, rows, cols);
      CoordsOfInit(deltas);
      assert last.0 !in CoordsOf(init);
      MixOneMore(g, h, CoordsOf(init), ApplyAll(n, init), last, rows, cols);
    }
  }

  /** Every cell of s has a class in kinds. */
  ghost predicate Classifiable(s: set<Coord>, kinds: seq<seq<CellClass>>) {
    forall p :: p in s ==> 0 <= p.0 < |kinds| && 0 <= p.1 < |kinds[p.0]|
  }

  /**
    After evaluating the cells of done, out holds the evaluated cells whose
    class is k and, of the others, those it held before.
  */
  ghost predicate ClassifiedAs(out: set<Coord>, before: set<Coord>, done: set<Coord>,
                               kinds: seq<seq<CellClass>>, k: CellClass)
    requires Classifiable(done, kinds)
  {
    forall p {:trigger p in out} :: p in out <==> if p in done then kinds[p.0][p.1] == k else p in before
  }

  lemma ClassifiedAsStep(out: set<Coord>, out': set<Coord>, before: set<Coord>, done: set<Coord>,
                         kinds: seq<seq<CellClass>>, k: CellClass, cell: Coord)
    requires Classifiable(done + {cell}, kinds) && cell !in done
    requires ClassifiedAs(out, before, done, kinds, k)
    requires out' == if kinds[cell.0][cell.1] == k then out + {cell} else out - {cell}
    ensures ClassifiedAs(out', before, done + {cell}, kinds, k)
  {
  }

  /**
    The redraw list for the cells of done: each entry is an evaluated cell with
    its class, a background entry only for a cell leaving DeadMarked, and every
    evaluated cell that is not plain background is listed.
  */
  ghost predicate RedrawListed(redraw: set<Redraw>, done: set<Coord>, kinds: seq<seq<CellClass>>,
                               deadCells: set<Coord>)
    requires Classifiable(done, kinds)
  {
    && (forall d {:trigger d in redraw} :: d in redraw ==>
          && (d.row, d.col) in done
          && d.kind == kinds[d.row][d.col]
          && (d.kind == Background ==> (d.row, d.col) in deadCells))
    && (forall p {:trigger p in done} ::
          p in done && (kinds[p.0][p.1] != Background || p in deadCells) ==>
          Redraw(p.0, p.1, kinds[p.0][p.1]) in redraw)
  }

  lemma RedrawStep(redraw: set<Redraw>, redraw': set<Redraw>, done: set<Coord>, kinds: seq<seq<CellClass>>,
                   deadCells: set<Coord>, cell: Coord)
    requires Classifiable(done + {cell}, kinds) && cell !in done
    requires RedrawListed(redraw, done, kinds, deadCells)
    requires redraw' == if kinds[cell.0][cell.1] != Background || cell in deadCells
                        then redraw + {Redraw(cell.0, cell.1, kinds[cell.0][cell.1])} else redraw
    ensures RedrawListed(redraw', done + {cell}, kinds, deadCells)
  {
  }

  /**
    The count changes for the cells of done: one per evaluated cell that flips,
    -1 for a death and +1 for a birth, no cell twice.
  */
  ghost predicate DeltasRecorded(deltas: seq<(Coord, int)>, done: set<Coord>, kinds: seq<seq<CellClass>>)
    requires Classifiable(done, kinds)
  {
    && (forall q {:trigger q in CoordsOf(deltas)} :: q in CoordsOf(deltas) <==> q in done && Flips(kinds[q.0][q.1]))
    && (forall l :: 0 <= l < |deltas| ==>
          deltas[l].0 in done && deltas[l].1 == (if kinds[deltas[l].0.0][deltas[l].0.1] == DeadMarked then -1 else 1))
    && (forall l, m :: 0 <= l < m < |deltas| ==> deltas[l].0 != deltas[m].0)
  }

  lemma DeltasStep(deltas: seq<(Coord, int)>, deltas': seq<(Coord, int)>, done: set<Coord>,
                   kinds: seq<seq<CellClass>>, cell: Coord)
    requires Classifiable(done + {cell}, kinds) && cell !in done
    requires DeltasRecorded(deltas, done, kinds)
    requires deltas' == if Flips(kinds[cell.0][cell.1])
                        then deltas + [(cell, if kinds[cell.0][cell.1] == DeadMarked then -1 else 1)] else deltas
    ensures DeltasRecorded(deltas', done + {cell}, kinds)
  {
    if Flips(kinds[cell.0][cell.1]) {
      CoordsOfSnoc(deltas, deltas'[|deltas|]);
      assert cell !in CoordsOf(deltas);
      forall l | 0 <= l < |deltas|
        ensures deltas'[l] == deltas[l] && deltas[l].0 != cell
      {
        assert deltas[l].0 in CoordsOf(deltas);
      }
    }
  }

  /**
    A grid cell outside the frontier of a consistent state is dead and has no
    live neighbour, so the generation leaves it in the background.
  */
  lemma OutsideFrontierIsQuiet(g: Grid, n: seq<seq<int>>, newCells: set<Coord>, survivorCells: set<Coord>,
                               deadCells: set<Coord>, rows: int, cols: int, q: Coord)
    requires Consistent(g, n, newCells, survivorCells, deadCells, rows, cols)
    requires InBounds(q, rows, cols)
    requires forall p :: p in newCells + survivorCells + deadCells ==> !Near(p, q)
    ensures !g[q.0][q.1] && Neighbours(g, q.0, q.1) == 0 && Class(g, q.0, q.1) == Background
  {
    forall x | x in {(q.0 - 1, q.1 - 1), (q.0 - 1, q.1), (q.0 - 1, q.1 + 1), (q.0, q.1 - 1), (q.0, q.1),
                     (q.0, q.1 + 1), (q.0 + 1, q.1 - 1), (q.0 + 1, q.1), (q.0 + 1, q.1 + 1)}
      ensures !Alive(g, x.0, x.1)
    {
      if Alive(g, x.0, x.1) {
        assert x in newCells + survivorCells + deadCells && Near(x, q);
      }
    }
  }

  /**
    toEvaluate is the frontier of active: the cells of the grid within one
    Moore ring of an active cell.
  */
  ghost predicate CoversRing(active: set<Coord>, toEvaluate: set<Coord>, rows: int, cols: int) {
    && (forall q {:trigger q in toEvaluate} :: q in toEvaluate ==> InBounds(q, rows, cols))
    && (forall p, q :: p in active && InBounds(q, rows, cols) && Near(p, q) ==> q in toEvaluate)
  }

  /** The hypotheses shared by the lemmas about the outcome of one frontier pass. */
  ghost predicate FrontierPass(g: Grid, n: seq<seq<int>>, newCells: set<Coord>, survivorCells: set<Coord>,
                               deadCells: set<Coord>, rows: nat, cols: nat, toEvaluate: set<Coord>,
                               kinds: seq<seq<CellClass>>)
  {
    && Consistent(g, n, newCells, survivorCells, deadCells, rows, cols)
    && CoversRing(newCells + survivorCells + deadCells, toEvaluate, rows, cols)
    && kinds == ClassGrid(g, rows, cols)
  }

  /**
    A set updated for the frontier cells ends up holding exactly the cells of
    the grid whose class is k: cells off the frontier are in no set and stay
    in the background.
  */
  lemma SetOutcome(g: Grid, n: seq<seq<int>>, newCells: set<Coord>, survivorCells: set<Coord>,
                   deadCells: set<Coord>, rows: nat, cols: nat, toEvaluate: set<Coord>,
                   kinds: seq<seq<CellClass>>, out: set<Coord>, before: set<Coord>, k: CellClass)
    requires FrontierPass(g, n, newCells, survivorCells, deadCells, rows, cols, toEvaluate, kinds)
    requires Classifiable(toEvaluate, kinds) && ClassifiedAs(out, before, toEvaluate, kinds, k)
    requires before <= newCells + survivorCells + deadCells && k != Background
    ensures forall p {:trigger p in out} :: p in out <==> InBounds(p, rows, cols) && Class(g, p.0, p.1) == k
  {
    var active := newCells + survivorCells + deadCells;
    forall p | p !in toEvaluate
      ensures p !in before && (InBounds(p, rows, cols) ==> Class(g, p.0, p.1) == Background)
    {
      if p in active {
        assert InBounds(p, rows, cols) && Near(p, p);
      }
      if InBounds(p, rows, cols) {
        OutsideFrontierIsQuiet(g, n, newCells, survivorCells, deadCells, rows, cols, p);
      }
    }
  }

  /**
    The redraw list of a frontier pass names every cell of the grid whose
    class is not background or that leaves DeadMarked, each with its class,
    and nothing else.
  */
  lemma RedrawOutcome(g: Grid, n: seq<seq<int>>, newCells: set<Coord>, survivorCells: set<Coord>,
                      deadCells: set<Coord>, rows: nat, cols: nat, toEvaluate: set<Coord>,
                      kinds: seq<seq<CellClass>>, redraw: set<Redraw>)
    requires FrontierPass(g, n, newCells, survivorCells, deadCells, rows, cols, toEvaluate, kinds)
    requires Classifiable(toEvaluate, kinds) && RedrawListed(redraw, toEvaluate, kinds, deadCells)
    ensures forall d {:trigger d in redraw} :: d in redraw ==>
      && InBounds((d.row, d.col), rows, cols)
      && d.kind == Class(g, d.row, d.col)
      && (d.kind == Background ==> (d.row, d.col) in deadCells)
    ensures forall r, c {:trigger Class(g, r, c)} ::
      0 <= r < rows && 0 <= c < cols && (Class(g, r, c) != Background || (r, c) in deadCells) ==>
      Redraw(r, c, Class(g, r, c)) in redraw
  {
    var active := newCells + survivorCells + deadCells;
    forall r, c | 0 <= r < rows && 0 <= c < cols && (Class(g, r, c) != Background || (r, c) in deadCells)
      ensures (r, c) in toEvaluate
    {
      if (r, c) !in toEvaluate {
        OutsideFrontierIsQuiet(g, n, newCells, survivorCells, deadCells, rows, cols, (r, c));
        assert (r, c) in active && Near((r, c), (r, c));
      }
    }
  }

  /**
    The grid a frontier pass builds, the New and Survivor cells of the
    frontier, is the full-rescan step.
  */
  lemma GridOutcome(g: Grid, n: seq<seq<int>>, newCells: set<Coord>, survivorCells: set<Coord>,
                    deadCells: set<Coord>, rows: nat, cols: nat, toEvaluate: set<Coord>,
                    kinds: seq<seq<CellClass>>, h: Grid)
    requires FrontierPass(g, n, newCells, survivorCells, deadCells, rows, cols, toEvaluate, kinds)
    requires IsGrid(h, rows, cols)
    requires forall i, j {:trigger h[i][j]} :: 0 <= i < rows && 0 <= j < cols ==>
      h[i][j] == ((i, j) in toEvaluate && (kinds[i][j] == New || kinds[i][j] == Survivor))
    ensures h == Step(g)
  {
    forall i, j | 0 <= i < rows && 0 <= j < cols
      ensures h[i][j] == Step(g)[i][j]
    {
      if (i, j) !in toEvaluate {
        OutsideFrontierIsQuiet(g, n, newCells, survivorCells, deadCells, rows, cols, (i, j));
      } else {
        assert kinds[i][j] == Class(g, i, j);
      }
    }
    GridsEqual(h, Step(g), rows, cols);
  }

  /**
    The grid a frontier pass builds differs from the current one exactly at
    the cells whose count changes were recorded, each with the sign of its flip.
  */
  lemma FlipsOutcome(g: Grid, n: seq<seq<int>>, newCells: set<Coord>, survivorCells: set<Coord>,
                     deadCells: set<Coord>, rows: nat, cols: nat, toEvaluate: set<Coord>,
                     kinds: seq<seq<CellClass>>, h: Grid, deltas: seq<(Coord, int)>)
    requires FrontierPass(g, n, newCells, survivorCells, deadCells, rows, cols, toEvaluate, kinds)
    requires IsGrid(h, rows, cols)
    requires forall i, j {:trigger h[i][j]} :: 0 <= i < rows && 0 <= j < cols ==>
      h[i][j] == ((i, j) in toEvaluate && (kinds[i][j] == New || kinds[i][j] == Survivor))
    requires Classifiable(toEvaluate, kinds) && DeltasRecorded(deltas, toEvaluate, kinds)
    ensures Mix(g, h, CoordsOf(deltas), rows, cols) == h
    ensures forall l :: 0 <= l < |deltas| ==> FlipDelta(g, h, deltas[l], rows, cols)
  {
    forall i, j | 0 <= i < rows && 0 <= j < cols && (i, j) !in CoordsOf(deltas)
      ensures h[i][j] == g[i][j]
    {
      if (i, j) !in toEvaluate {
        OutsideFrontierIsQuiet(g, n, newCells, survivorCells, deadCells, rows, cols, (i, j));
      } else {
        assert kinds[i][j] == Class(g, i, j);
      }
    }
    GridsEqual(Mix(g, h, CoordsOf(deltas), rows, cols), h, rows, cols);
    forall l | 0 <= l < |deltas|
      ensures FlipDelta(g, h, deltas[l], rows, cols)
    {
      var q := deltas[l].0;
      assert q in CoordsOf(deltas);
      assert kinds[q.0][q.1] == Class(g, q.0, q.1);
    }
  }

  /** The state a frontier pass leaves behind is consistent again. */
  lemma NextStateConsistent(g: Grid, h: Grid, m: seq<seq<int>>, newOut: set<Coord>, survivorOut: set<Coord>,
                            deadOut: set<Coord>, rows: nat, cols: nat)
    requires IsGrid(g, rows, cols) && h == Step(g) && CountsExact(h, m, rows, cols)
    requires forall p {:trigger p in newOut} :: p in newOut <==> InBounds(p, rows, cols) && Class(g, p.0, p.1) == New
    requires forall p {:trigger p in survivorOut} :: p in survivorOut <==>
      InBounds(p, rows, cols) && Class(g, p.0, p.1) == Survivor
    requires forall p {:trigger p in deadOut} :: p in deadOut <==>
      InBounds(p, rows, cols) && Class(g, p.0, p.1) == DeadMarked
    ensures Consistent(h, m, newOut, survivorOut, deadOut, rows, cols)
  {
    forall i, j | 0 <= i < rows && 0 <= j < cols
      ensures h[i][j] <==> (i, j) in newOut || (i, j) in survivorOut
    {
    }
  }

  /** Painting one more cell with the same value extends the painted set. */
  lemma PaintOneMore(g: Grid, s: set<Coord>, p: Coord, v: bool, rows: nat, cols: nat)
    requires IsGrid(g, rows, cols)
    ensures Painted(Painted(g, s, v, rows, cols), {p}, v, rows, cols) == Painted(g, s + {p}, v, rows, cols)
  {
    GridsEqual(Painted(Painted(g, s, v, rows, cols), {p}, v, rows, cols), Painted(g, s + {p}, v, rows, cols),
               rows, cols);
  }

  /** Painting one cell with the value it does not hold, and moving its neighbours' counts to match, keeps them exact. */
  lemma PaintOneKeepsCountsExact(g: Grid, n: seq<seq<int>>, m: seq<seq<int>>, p: Coord, v: bool, rows: nat, cols: nat)
    requires CountsExact(g, n, rows, cols) && InBounds(p, rows, cols) && g[p.0][p.1] != v
    requires m == AddAround(n, p, if v then 1 else -1)
    ensures CountsExact(Painted(g, {p}, v, rows, cols), m, rows, cols)
  {
    FlipKeepsCountsExact(g, Painted(g, {p}, v, rows, cols), n, m, p, rows, cols);
  }

  /** Painting no cell leaves the grid as it is. */
  lemma PaintNothing(g: Grid, v: bool, rows: nat, cols: nat)
    requires IsGrid(g, rows, cols)
    ensures Painted(g, {}, v, rows, cols) == g
  {
    GridsEqual(Painted(g, {}, v, rows, cols), g, rows, cols);
  }

  /** The survivors whose duration has reached the purge trigger. */
  function Purged(d: map<Coord, nat>, trigger: int): (s: set<Coord>)
    ensures forall p {:trigger p in s} :: p in s <==> p in d && d[p] >= trigger
  {
    set p | p in d && d[p] >= trigger
  }

  /** Loop invariant of the purge: `gone` holds exactly the expired entries already visited. */
  ghost predicate PurgedSoFar(gone: set<Coord>, d: map<Coord, nat>, keys: set<Coord>, trigger: int)
  {
    forall q {:trigger q in gone} :: q in gone <==> q in d && q !in keys && d[q] >= trigger
  }

  lemma PurgedSoFarStep(gone: set<Coord>, d: map<Coord, nat>, keys: set<Coord>, trigger: int, cell: Coord)
    requires PurgedSoFar(gone, d, keys, trigger) && cell in keys && keys <= d.Keys
    ensures cell !in gone
    ensures d[cell] >= trigger ==> PurgedSoFar(gone + {cell}, d, keys - {cell}, trigger)
    ensures d[cell] < trigger ==> PurgedSoFar(gone, d, keys - {cell}, trigger)
  {
  }

  /** Removing one more cell from a ledger that already lost `gone`. */
  lemma LedgerMinusOne(d: map<Coord, nat>, c: set<Coord>, gone: set<Coord>, cell: Coord)
    ensures (d - gone) - {cell} == d - (gone + {cell})
    ensures (c - gone) - {cell} == c - (gone + {cell})
  {
  }

  lemma PurgedSoFarEnd(gone: set<Coord>, d: map<Coord, nat>, trigger: int)
    requires PurgedSoFar(gone, d, {}, trigger)
    ensures gone == Purged(d, trigger)
  {
  }

  /** Bringing a cell that is neither New nor a Survivor to life makes it New and keeps the state valid. */
  lemma ResurrectKeepsValid(s: Backup, h: Grid, m: seq<seq<int>>, p: Coord, rows: nat, cols: nat)
    requires ValidState(s, rows, cols) && InBounds(p, rows, cols)
    requires p !in s.newCells && p !in s.survivorCells
    requires h == Painted(s.cells, {p}, true, rows, cols) && CountsExact(h, m, rows, cols)
    ensures ValidState(Backup(h, m, s.newCells + {p}, s.survivorCells, s.survivorDuration, s.deadCells - {p},
                              s.iteration), rows, cols)
  {
  }

  /** Clearing a cell and forgetting it in every set and in the duration map keeps the state valid. */
  lemma ClearKeepsValid(s: Backup, h: Grid, m: seq<seq<int>>, p: Coord, rows: nat, cols: nat)
    requires ValidState(s, rows, cols)
    requires h == Painted(s.cells, {p}, false, rows, cols) && CountsExact(h, m, rows, cols)
    ensures ValidState(Backup(h, m, s.newCells - {p}, s.survivorCells - {p}, s.survivorDuration - {p},
                              s.deadCells - {p}, s.iteration), rows, cols)
  {
  }

  /** Killing every survivor and dropping all durations keeps the state valid. */
  lemma WipeKeepsValid(s: Backup, h: Grid, m: seq<seq<int>>, rows: nat, cols: nat)
    requires ValidState(s, rows, cols)
    requires h == Painted(s.cells, s.survivorCells, false, rows, cols) && CountsExact(h, m, rows, cols)
    ensures ValidState(Backup(h, m, s.newCells, {}, map[], s.deadCells, s.iteration), rows, cols)
  {
  }

  /** Killing the survivors whose duration reached the trigger, and forgetting them, keeps the state valid. */
  lemma PurgeKeepsValid(s: Backup, h: Grid, m: seq<seq<int>>, trigger: int, rows: nat, cols: nat)
    requires ValidState(s, rows, cols)
    requires h == Painted(s.cells, Purged(s.survivorDuration, trigger), false, rows, cols)
    requires CountsExact(h, m, rows, cols)
    ensures var gone := Purged(s.survivorDuration, trigger);
      ValidState(Backup(h, m, s.newCells, s.survivorCells - gone, s.survivorDuration - gone, s.deadCells,
                        s.iteration), rows, cols)
  {
  }

  /**
    Swapping New and DeadMarked, bringing the formerly dead-marked cells to
    life and killing the formerly new ones, keeps the state valid.
  */
  lemma InvertKeepsValid(s: Backup, h: Grid, m: seq<seq<int>>, rows: nat, cols: nat)
    requires ValidState(s, rows, cols)
    requires h == Painted(Painted(s.cells, s.deadCells, true, rows, cols), s.newCells, false, rows, cols)
    requires CountsExact(h, m, rows, cols)
    ensures ValidState(Backup(h, m, s.deadCells, s.survivorCells, s.survivorDuration, s.newCells, s.iteration),
                       rows, cols)
  {
  }

  /** A layout with exact counts, all its live cells New and nothing else recorded, is a valid state. */
  lemma LayoutValid(g: Grid, m: seq<seq<int>>, rows: nat, cols: nat)
    requires CountsExact(g, m, rows, cols)
    ensures ValidState(Backup(g, m, AliveCells(g, rows, cols), {}, map[], {}, 0), rows, cols)
  {
  }

  /**
    Overlaying live cells onto a valid state and marking every live cell New
    leaves no Survivor and no duration behind, and the result is valid.
  */
  lemma OverlayKeepsValid(s: Backup, h: Grid, m: seq<seq<int>>, rows: nat, cols: nat)
    requires ValidState(s, rows, cols) && IsGrid(h, rows, cols)
    requires forall i, j :: 0 <= i < rows && 0 <= j < cols && s.cells[i][j] ==> h[i][j]
    requires CountsExact(h, m, rows, cols)
    ensures var alive := AliveCells(h, rows, cols);
      && s.survivorCells - alive == {} && s.survivorDuration - alive == map[]
      && ValidState(Backup(h, m, alive, s.survivorCells - alive, s.survivorDuration - alive, s.deadCells - alive,
                           s.iteration), rows, cols)
  {
  }

  class ConwayGoLGrid {
    var cellSize: CellSize
    const width: int
    const height: int
    const maxBackups: nat

    var cells: array2<bool>
    var neighbourCount: array2<int>
    var newCells: set<Coord>
    var survivorCells: set<Coord>
    var survivorDuration: map<Coord, nat>
    var deadCells: set<Coord>
    var iteration: nat
    var backups: seq<Backup>

    /** The grid dimensions the window and the cell size call for. */
    function Rows(): int reads this { height / cellSize.Value() }
    function Columns(): int reads this { width / cellSize.Value() }

    /** The current state, copied out of the arrays. */
    function State(): (s: Backup)
      reads this, cells, neighbourCount
      ensures IsGrid(s.cells, cells.Length0, cells.Length1)
      ensures IsGrid(s.neighbourCount, neighbourCount.Length0, neighbourCount.Length1)
      ensures forall i, j :: 0 <= i < cells.Length0 && 0 <= j < cells.Length1 ==> s.cells[i][j] == cells[i, j]
      ensures forall i, j :: 0 <= i < neighbourCount.Length0 && 0 <= j < neighbourCount.Length1 ==>
        s.neighbourCount[i][j] == neighbourCount[i, j]
    {
      Backup(GridOf(cells), GridOf(neighbourCount), newCells, survivorCells, survivorDuration, deadCells, iteration)
    }

    /** The arrays have the shape the window and the cell size call for. */
    ghost predicate Shaped()
      reads this
    {
      && width >= 0 && height >= 0
      && cells.Length0 == Rows() && cells.Length1 == Columns()
      && neighbourCount.Length0 == Rows() && neighbourCount.Length1 == Columns()
    }

    /** The class invariant: the current state and every stored one are valid. */
    ghost predicate Valid()
      reads this, cells, neighbourCount
    {
      Shaped() && ValidState(State(), Rows(), Columns()) && HistoryValid(backups, maxBackups, Rows(), Columns())
    }

    constructor (cellSize: CellSize, width: int, height: int, maxBackups: nat)
      requires width >= 0 && height >= 0
      ensures Valid()
      ensures this.cellSize == cellSize && this.width == width && this.height == height
      ensures this.maxBackups == maxBackups
      ensures cells.Length0 == height / cellSize.Value() && cells.Length1 == width / cellSize.Value()
      ensures forall i, j :: 0 <= i < cells.Length0 && 0 <= j < cells.Length1 ==> !cells[i, j]
      ensures forall i, j :: 0 <= i < cells.Length0 && 0 <= j < cells.Length1 ==> neighbourCount[i, j] == 0
      ensures newCells == {} && survivorCells == {} && deadCells == {} && survivorDuration == map[]
      ensures iteration == 0 && backups == []
    {
      this.cellSize := cellSize;
      this.width := width;
      this.height := height;
      this.maxBackups := maxBackups;
      cells := new bool[0, 0];
      neighbourCount := new int[0, 0];
      newCells, survivorCells, deadCells := {}, {}, {};
      survivorDuration := map[];
      iteration := 0;
      backups := [];
      new;
      Reset();
    }

    /** The shape of the grid. */
    function Shape(): (shape: (int, int))
      reads this, cells, neighbourCount
      requires Valid()
      ensures shape == (height / cellSize.Value(), width / cellSize.Value())
    {
      (cells.Length0, cells.Length1)
    }

    /** The number of live cells: those that are New or Survivors. */
    function AliveCount(): (count: nat)
      reads this, cells, neighbourCount
      requires Valid()
      ensures count == |newCells| + |survivorCells|
    {
      var alive := AliveCells(GridOf(cells), cells.Length0, cells.Length1);
      assert alive == newCells + survivorCells;
      |alive|
    }

    /**
      Adds delta to the count of each of the (up to) eight neighbours of p that
      lie on the grid; p itself and every other cell keep their count.
    */
    static method PerformUpdateNeighbourCount(neighbourCount: array2<int>, p: Coord, delta: int)
      modifies neighbourCount
      ensures GridOf(neighbourCount) == AddAround(old(GridOf(neighbourCount)), p, delta)
    {
      ghost var n0 := GridOf(neighbourCount);
      var rows, columns := neighbourCount.Length0, neighbourCount.Length1;
      var (row, col) := p;
      var i := Max(0, row - 1);
      while i < Min(row + 2, rows)
        invariant Max(0, row - 1) <= i <= Max(Max(0, row - 1), Min(row + 2, rows))
        invariant forall x, y :: 0 <= x < rows && 0 <= y < columns ==>
          neighbourCount[x, y] == old(neighbourCount[x, y]) + if Adjacent((x, y), p) && x < i then delta else 0
      {
        var j := Max(0, col - 1);
        while j < Min(col + 2, columns)
          invariant Max(0, col - 1) <= j <= Max(Max(0, col - 1), Min(col + 2, columns))
          invariant forall x, y :: 0 <= x < rows && 0 <= y < columns ==>
            neighbourCount[x, y] == old(neighbourCount[x, y]) +
              if Adjacent((x, y), p) && (x < i || (x == i && y < j)) then delta else 0
        {
          if (i, j) != p {
            neighbourCount[i, j] := neighbourCount[i, j] + delta;
          }
          j := j + 1;
        }
        i := i + 1;
      }
      forall x, y | 0 <= x < rows && 0 <= y < columns
        ensures GridOf(neighbourCount)[x][y] == AddAround(n0, p, delta)[x][y]
      {
        assert Adjacent((x, y), p) ==> x < i;
      }
      GridsEqual(GridOf(neighbourCount), AddAround(n0, p, delta), rows, columns);
    }

    /** Builds the neighbour counts of a whole grid, one live cell at a time. */
    static method CreateNeighbourCount(cells: array2<bool>) returns (neighbourCount: array2<int>)
      ensures fresh(neighbourCount)
      ensures neighbourCount.Length0 == cells.Length0 && neighbourCount.Length1 == cells.Length1
      ensures CountsExact(GridOf(cells), GridOf(neighbourCount), cells.Length0, cells.Length1)
    {
      var rows, columns := cells.Length0, cells.Length1;
      neighbourCount := ZeroCounts(rows, columns);
      ghost var g := GridOf(cells);
      PrefixStart(g, GridOf(neighbourCount), rows, columns);
      var row := 0;
      while row < rows
        invariant 0 <= row <= rows
        invariant CountsExact(Prefix(g, rows, columns, row, 0), GridOf(neighbourCount), rows, columns)
      {
        CountRow(cells, neighbourCount, row);
        row := row + 1;
      }
      assert row == rows;
      PrefixEnd(g, GridOf(neighbourCount), rows, columns);
    }

    /** Adds the contributions of the live cells of one row to the counts. */
    static method CountRow(cells: array2<bool>, neighbourCount: array2<int>, row: int)
      requires neighbourCount.Length0 == cells.Length0 && neighbourCount.Length1 == cells.Length1
      requires 0 <= row < cells.Length0
      requires CountsExact(Prefix(GridOf(cells), cells.Length0, cells.Length1, row, 0), GridOf(neighbourCount),
                           cells.Length0, cells.Length1)
      modifies neighbourCount
      ensures CountsExact(Prefix(GridOf(cells), cells.Length0, cells.Length1, row + 1, 0), GridOf(neighbourCount),
                          cells.Length0, cells.Length1)
    {
      var rows, columns := cells.Length0, cells.Length1;
      ghost var g := GridOf(cells);
      var col := 0;
      while col < columns
        invariant 0 <= col <= columns
        invariant CountsExact(Prefix(g, rows, columns, row, col), GridOf(neighbourCount), rows, columns)
      {
        CountCell(cells, neighbourCount, row, col);
        col := col + 1;
      }
      PrefixNextRow(g, GridOf(neighbourCount), rows, columns, row);
    }

    /** Adds the contribution of one cell, when it is alive, to the counts. */
    static method CountCell(cells: array2<bool>, neighbourCount: array2<int>, row: int, col: int)
      requires neighbourCount.Length0 == cells.Length0 && neighbourCount.Length1 == cells.Length1
      requires 0 <= row < cells.Length0 && 0 <= col < cells.Length1
      requires CountsExact(Prefix(GridOf(cells), cells.Length0, cells.Length1, row, col), GridOf(neighbourCount),
                           cells.Length0, cells.Length1)
      modifies neighbourCount
      ensures CountsExact(Prefix(GridOf(cells), cells.Length0, cells.Length1, row, col + 1), GridOf(neighbourCount),
                          cells.Length0, cells.Length1)
    {
      ghost var n0 := GridOf(neighbourCount);
      if cells[row, col] {
        // The source picks the sign by the cell's value inside this branch too,
        // so the -1 case can never be taken; the test is kept as written.
        var delta := if cells[row, col] then 1 else -1;
        PerformUpdateNeighbourCount(neighbourCount, (row, col), delta);
      }
      PrefixGrows(GridOf(cells), n0, GridOf(neighbourCount), cells.Length0, cells.Length1, row, col);
    }

    /**
      Classifies one cell from its live-neighbour count: a live cell survives
      on 2 or 3 and is otherwise marked dead, a dead cell is born on exactly 3
      and otherwise stays dead (leaving the dead set, and being redrawn, if it
      was marked dead).  The cell joins the set of its new class and leaves the
      other two; a cell that flips records its +1/-1 count change.
    */
    static method EvaluateCell(cells: array2<bool>, aliveNeighbours: int, updated: array2<bool>, cell: Coord,
                               newCells: set<Coord>, survivorCells: set<Coord>, deadCells: set<Coord>,
                               redraw: set<Redraw>, deltas: seq<(Coord, int)>)
      returns (newOut: set<Coord>, survivorOut: set<Coord>, deadOut: set<Coord>,
               redrawOut: set<Redraw>, deltasOut: seq<(Coord, int)>)
      requires updated != cells && updated.Length0 == cells.Length0 && updated.Length1 == cells.Length1
      requires 0 <= cell.0 < cells.Length0 && 0 <= cell.1 < cells.Length1 && !updated[cell.0, cell.1]
      requires !cells[cell.0, cell.1] ==> cell !in newCells && cell !in survivorCells
      modifies updated
      ensures var kind := Classify(cells[cell.0, cell.1], aliveNeighbours);
        forall i, j :: 0 <= i < updated.Length0 && 0 <= j < updated.Length1 ==>
          updated[i, j] == if i == cell.0 && j == cell.1 then kind == New || kind == Survivor else old(updated[i, j])
      ensures var kind := Classify(cells[cell.0, cell.1], aliveNeighbours);
        newOut == if kind == New then newCells + {cell} else newCells - {cell}
      ensures var kind := Classify(cells[cell.0, cell.1], aliveNeighbours);
        survivorOut == if kind == Survivor then survivorCells + {cell} else survivorCells - {cell}
      ensures var kind := Classify(cells[cell.0, cell.1], aliveNeighbours);
        deadOut == if kind == DeadMarked then deadCells + {cell} else deadCells - {cell}
      ensures var kind := Classify(cells[cell.0, cell.1], aliveNeighbours);
        redrawOut == if kind != Background || cell in deadCells then redraw + {Redraw(cell.0, cell.1, kind)} else redraw
      ensures var kind := Classify(cells[cell.0, cell.1], aliveNeighbours);
        deltasOut == if Flips(kind) then deltas + [(cell, if cells[cell.0, cell.1] then -1 else 1)] else deltas
    {
      var (row, col) := cell;
      newOut, survivorOut, deadOut, redrawOut, deltasOut := newCells, survivorCells, deadCells, redraw, deltas;
      if cells[row, col] {
        if aliveNeighbours == 2 || aliveNeighbours == 3 {
          updated[row, col] := true;
          redrawOut := redrawOut + {Redraw(row, col, Survivor)};
          survivorOut := survivorOut + {cell};
          newOut := newOut - {cell};
          deadOut := deadOut - {cell};
        } else {
          redrawOut := redrawOut + {Redraw(row, col, DeadMarked)};
          deltasOut := deltasOut + [(cell, -1)];
          deadOut := deadOut + {cell};
          newOut := newOut - {cell};
          survivorOut := survivorOut - {cell};
        }
      } else {
        if aliveNeighbours == 3 {
          updated[row, col] := true;
          redrawOut := redrawOut + {Redraw(row, col, New)};
          deltasOut := deltasOut + [(cell, 1)];
          newOut := newOut + {cell};
          survivorOut := survivorOut - {cell};
          deadOut := deadOut - {cell};
        } else if cell in deadOut {
          redrawOut := redrawOut + {Redraw(row, col, Background)};
          deadOut := deadOut - {cell};
        }
      }
    }

    /**
      The classification pass of a step.  Each cell to evaluate is classified
      from its current count (kinds holds those classes): the next grid holds
      exactly the New and Survivor cells among them, the three sets are updated
      for them, the cells to redraw are listed, and one +1/-1 change is
      recorded per cell that flips.
    */
    static method EvaluateFrontier(cells: array2<bool>, neighbourCount: array2<int>, toEvaluate: set<Coord>,
                                   newCells: set<Coord>, survivorCells: set<Coord>, deadCells: set<Coord>,
                                   ghost kinds: seq<seq<CellClass>>)
      returns (updated: array2<bool>, newOut: set<Coord>, survivorOut: set<Coord>, deadOut: set<Coord>,
               redraw: set<Redraw>, deltas: seq<(Coord, int)>)
      requires neighbourCount.Length0 == cells.Length0 && neighbourCount.Length1 == cells.Length1
      requires forall q :: q in toEvaluate ==> 0 <= q.0 < cells.Length0 && 0 <= q.1 < cells.Length1
      requires forall q :: q in newCells + survivorCells ==>
        0 <= q.0 < cells.Length0 && 0 <= q.1 < cells.Length1 && cells[q.0, q.1]
      requires |kinds| == cells.Length0 && forall i :: 0 <= i < |kinds| ==> |kinds[i]| == cells.Length1
      requires forall q :: q in toEvaluate ==>
        kinds[q.0][q.1] == Classify(cells[q.0, q.1], neighbourCount[q.0, q.1])
      ensures fresh(updated) && updated.Length0 == cells.Length0 && updated.Length1 == cells.Length1
      ensures forall i, j {:trigger updated[i, j]} :: 0 <= i < cells.Length0 && 0 <= j < cells.Length1 ==>
        updated[i, j] == ((i, j) in toEvaluate && (kinds[i][j] == New || kinds[i][j] == Survivor))
      ensures Classifiable(toEvaluate, kinds)
      ensures ClassifiedAs(newOut, newCells, toEvaluate, kinds, New)
      ensures ClassifiedAs(survivorOut, survivorCells, toEvaluate, kinds, Survivor)
      ensures ClassifiedAs(deadOut, deadCells, toEvaluate, kinds, DeadMarked)
      ensures RedrawListed(redraw, toEvaluate, kinds, deadCells)
      ensures DeltasRecorded(deltas, toEvaluate, kinds)
    {
      var rows, columns := cells.Length0, cells.Length1;
      updated := AllDead(rows, columns);
      deltas := [];
      redraw := {};
      newOut, survivorOut, deadOut := newCells, survivorCells, deadCells;
      var todo := toEvaluate;
      ghost var done: set<Coord> := {};
      while todo != {}
        invariant todo !! done && todo + done == toEvaluate
        invariant Classifiable(done, kinds)
        invariant forall i, j {:trigger updated[i, j]} :: 0 <= i < rows && 0 <= j < columns ==>
          updated[i, j] == ((i, j) in done && (kinds[i][j] == New || kinds[i][j] == Survivor))
        invariant ClassifiedAs(newOut, newCells, done, kinds, New)
        invariant ClassifiedAs(survivorOut, survivorCells, done, kinds, Survivor)
        invariant ClassifiedAs(deadOut, deadCells, done, kinds, DeadMarked)
        invariant RedrawListed(redraw, done, kinds, deadCells)
        invariant DeltasRecorded(deltas, done, kinds)
        decreases todo
      {
        var cell :| cell in todo;
        var (row, col) := cell;
        var aliveNeighbours := neighbourCount[row, col];
        ghost var kind := kinds[row][col];
        assert kind == Classify(cells[row, col], aliveNeighbours);
        assert Classifiable(done + {cell}, kinds);
        assert cell !in newOut <==> cell !in newCells;
        assert cell !in survivorOut <==> cell !in survivorCells;
        assert cell in deadOut <==> cell in deadCells;
        ghost var before := (newOut, survivorOut, deadOut, redraw, deltas);
        newOut, survivorOut, deadOut, redraw, deltas :=
          EvaluateCell(cells, aliveNeighbours, updated, cell, newOut, survivorOut, deadOut, redraw, deltas);
        ClassifiedAsStep(before.0, newOut, newCells, done, kinds, New, cell);
        ClassifiedAsStep(before.1, survivorOut, survivorCells, done, kinds, Survivor, cell);
        ClassifiedAsStep(before.2, deadOut, deadCells, done, kinds, DeadMarked, cell);
        RedrawStep(before.3, redraw, done, kinds, deadCells, cell);
        DeltasStep(before.4, deltas, done, kinds, cell);
        todo := todo - {cell};
        done := done + {cell};
      }
    }

    /** Applies the recorded count changes, in order. */
    static method ApplyDeltas(neighbourCount: array2<int>, deltas: seq<(Coord, int)>)
      modifies neighbourCount
      ensures GridOf(neighbourCount) == ApplyAll(old(GridOf(neighbourCount)), deltas)
    {
      ghost var n0 := GridOf(neighbourCount);
      var k := 0;
      while k < |deltas|
        invariant 0 <= k <= |deltas|
        invariant GridOf(neighbourCount) == ApplyAll(n0, deltas[..k])
      {
        var (coordinates, delta) := deltas[k];
        PerformUpdateNeighbourCount(neighbourCount, coordinates, delta);
        assert deltas[..k + 1][..k] == deltas[..k];
        k := k + 1;
      }
      assert deltas[..k] == deltas;
    }

    /**
      One generation, evaluating only the cells within one ring of the New,
      Survivor and DeadMarked sets.  The next grid is the full-rescan step of
      the current one; the counts, brought up to date in place once every cell
      has been classified, are exact for it; the sets hold the new classes; and
      the cells to redraw are those whose class is not background, plus those
      leaving DeadMarked.
    */
    static method PerformUpdate(cells: array2<bool>, neighbourCount: array2<int>,
                                newCells: set<Coord>, survivorCells: set<Coord>, deadCells: set<Coord>)
      returns (updated: array2<bool>, newOut: set<Coord>, survivorOut: set<Coord>, deadOut: set<Coord>,
               redraw: set<Redraw>)
      requires neighbourCount.Length0 == cells.Length0 && neighbourCount.Length1 == cells.Length1
      requires Consistent(GridOf(cells), GridOf(neighbourCount), newCells, survivorCells, deadCells,
                          cells.Length0, cells.Length1)
      modifies neighbourCount
      ensures fresh(updated) && updated.Length0 == cells.Length0 && updated.Length1 == cells.Length1
      ensures GridOf(updated) == Step(old(GridOf(cells)))
      ensures Consistent(GridOf(updated), GridOf(neighbourCount), newOut, survivorOut, deadOut,
                         cells.Length0, cells.Length1)
      ensures forall p {:trigger p in newOut} :: p in newOut <==>
        InBounds(p, cells.Length0, cells.Length1) && Class(old(GridOf(cells)), p.0, p.1) == New
      ensures forall p {:trigger p in survivorOut} :: p in survivorOut <==>
        InBounds(p, cells.Length0, cells.Length1) && Class(old(GridOf(cells)), p.0, p.1) == Survivor
      ensures forall p {:trigger p in deadOut} :: p in deadOut <==>
        InBounds(p, cells.Length0, cells.Length1) && Class(old(GridOf(cells)), p.0, p.1) == DeadMarked
      ensures forall d {:trigger d in redraw} :: d in redraw ==>
        && InBounds((d.row, d.col), cells.Length0, cells.Length1)
        && d.kind == Class(old(GridOf(cells)), d.row, d.col)
        && (d.kind == Background ==> (d.row, d.col) in deadCells)
      ensures forall r, c {:trigger Class(old(GridOf(cells)), r, c)} ::
        0 <= r < cells.Length0 && 0 <= c < cells.Length1 &&
        (Class(old(GridOf(cells)), r, c) != Background || (r, c) in deadCells) ==>
        Redraw(r, c, Class(old(GridOf(cells)), r, c)) in redraw
    {
      var rows, columns := cells.Length0, cells.Length1;
      ghost var g, n0 := GridOf(cells), GridOf(neighbourCount);
      ghost var kinds := ClassGrid(g, rows, columns);
      var toEvaluate := Frontier(newCells + survivorCells + deadCells, rows, columns);
      forall q | q in toEvaluate
        ensures 0 <= q.0 < rows && 0 <= q.1 < columns
        ensures kinds[q.0][q.1] == Classify(cells[q.0, q.1], neighbourCount[q.0, q.1])
      {
        assert CountAt(g, n0, q.0, q.1);
      }
      var deltas: seq<(Coord, int)>;
      updated, newOut, survivorOut, deadOut, redraw, deltas :=
        EvaluateFrontier(cells, neighbourCount, toEvaluate, newCells, survivorCells, deadCells, kinds);
      ghost var h := GridOf(updated);
      assert FrontierPass(g, n0, newCells, survivorCells, deadCells, rows, columns, toEvaluate, kinds);
      GridOutcome(g, n0, newCells, survivorCells, deadCells, rows, columns, toEvaluate, kinds, h);
      FlipsOutcome(g, n0, newCells, survivorCells, deadCells, rows, columns, toEvaluate, kinds, h, deltas);
      ApplyFlipsKeepsCountsExact(g, h, n0, deltas, rows, columns);
      ApplyDeltas(neighbourCount, deltas);
      SetOutcome(g, n0, newCells, survivorCells, deadCells, rows, columns, toEvaluate, kinds, newOut, newCells, New);
      SetOutcome(g, n0, newCells, survivorCells, deadCells, rows, columns, toEvaluate, kinds,
                 survivorOut, survivorCells, Survivor);
      SetOutcome(g, n0, newCells, survivorCells, deadCells, rows, columns, toEvaluate, kinds,
                 deadOut, deadCells, DeadMarked);
      RedrawOutcome(g, n0, newCells, survivorCells, deadCells, rows, columns, toEvaluate, kinds, redraw);
      NextStateConsistent(g, h, GridOf(neighbourCount), newOut, survivorOut, deadOut, rows, columns);
    }

    /** A fresh rows x columns array of dead cells. */
    static method AllDead(rows: nat, columns: nat) returns (emptyCells: array2<bool>)
      ensures fresh(emptyCells)
      ensures emptyCells.Length0 == rows && emptyCells.Length1 == columns
      ensures forall i, j :: 0 <= i < rows && 0 <= j < columns ==> !emptyCells[i, j]
    {
      emptyCells := new bool[rows, columns]((_, _) => false);
    }

    /** A dead grid with zero counts, which with empty sets is a valid state. */
    static method EmptyArrays(rows: nat, columns: nat) returns (emptyCells: array2<bool>, zeroCounts: array2<int>)
      ensures fresh(emptyCells) && fresh(zeroCounts)
      ensures emptyCells.Length0 == rows && emptyCells.Length1 == columns
      ensures zeroCounts.Length0 == rows && zeroCounts.Length1 == columns
      ensures forall i, j :: 0 <= i < rows && 0 <= j < columns ==> !emptyCells[i, j]
      ensures forall i, j :: 0 <= i < rows && 0 <= j < columns ==> zeroCounts[i, j] == 0
      ensures ValidState(Backup(GridOf(emptyCells), GridOf(zeroCounts), {}, {}, map[], {}, 0), rows, columns)
    {
      emptyCells := AllDead(rows, columns);
      zeroCounts := ZeroCounts(rows, columns);
      EmptyStateValid(GridOf(emptyCells), GridOf(zeroCounts), rows, columns);
    }

    /** Brings every cell back to dead, with zero counts, empty sets and an empty history. */
    method Reset()
      requires width >= 0 && height >= 0
      modifies this
      ensures Valid() && fresh(cells) && fresh(neighbourCount)
      ensures cellSize == old(cellSize)
      ensures forall i, j :: 0 <= i < cells.Length0 && 0 <= j < cells.Length1 ==> !cells[i, j]
      ensures forall i, j :: 0 <= i < cells.Length0 && 0 <= j < cells.Length1 ==> neighbourCount[i, j] == 0
      ensures newCells == {} && survivorCells == {} && deadCells == {} && survivorDuration == map[]
      ensures iteration == 0 && backups == []
    {
      var rows, columns := Rows(), Columns();
      cells, neighbourCount := EmptyArrays(rows, columns);
      newCells := {};
      survivorCells := {};
      survivorDuration := map[];
      deadCells := {};
      iteration := 0;
      backups := [];
      assert Rows() == rows && Columns() == columns;
      assert State() == Backup(GridOf(cells), GridOf(neighbourCount), {}, {}, map[], {}, 0);
    }

    /** Pushes a copy of the current state onto the history. */
    method StoreState()
      requires Valid()
      modifies this`backups
      ensures Valid()
      ensures backups == PushBackup(old(backups), State(), maxBackups)
    {
      backups := PushBackup(backups, State(), maxBackups);
    }

    /** Adds 1 around p when p is alive and takes 1 off when it is dead. */
    method UpdateNeighbourCount(p: Coord)
      requires 0 <= p.0 < cells.Length0 && 0 <= p.1 < cells.Length1
      modifies neighbourCount
      ensures GridOf(neighbourCount) == AddAround(old(GridOf(neighbourCount)), p, if cells[p.0, p.1] then 1 else -1)
    {
      var delta := if cells[p.0, p.1] then 1 else -1;
      PerformUpdateNeighbourCount(neighbourCount, p, delta);
    }

    /**
      Ages the survivors: entries of cells that are no longer survivors are
      dropped, each survivor already present gains one, new survivors start at 0.
    */
    method UpdateSurvivorDuration()
      modifies this`survivorDuration
      ensures survivorDuration == Aged(old(survivorDuration), survivorCells)
    {
      ghost var d0 := survivorDuration;
      survivorDuration := map p | p in survivorDuration && p in survivorCells :: survivorDuration[p];
      var todo := survivorCells;
      while todo != {}
        invariant todo <= survivorCells
        invariant survivorDuration.Keys == (d0.Keys * survivorCells) + (survivorCells - todo)
        invariant forall p :: p in survivorDuration ==>
          survivorDuration[p] == if p in todo then d0[p] else Aged(d0, survivorCells)[p]
        decreases todo
      {
        var survivor :| survivor in todo;
        if survivor in survivorDuration {
          survivorDuration := survivorDuration[survivor := survivorDuration[survivor] + 1];
        } else {
          survivorDuration := survivorDuration[survivor := 0];
        }
        todo := todo - {survivor};
      }
    }

    /**
      Advances the game one generation: stores the current state in the
      history, computes the next grid with the incremental step, ages the
      survivors and counts the iteration.  The cells to redraw are returned.
    */
    method Update() returns (redraw: set<Redraw>)
      requires Valid()
      modifies this, neighbourCount
      ensures Valid() && fresh(cells) && neighbourCount == old(neighbourCount)
      ensures cellSize == old(cellSize)
      ensures GridOf(cells) == Step(old(GridOf(cells)))
      ensures forall p {:trigger p in newCells} :: p in newCells <==>
        InBounds(p, Rows(), Columns()) && Class(old(GridOf(cells)), p.0, p.1) == New
      ensures forall p {:trigger p in survivorCells} :: p in survivorCells <==>
        InBounds(p, Rows(), Columns()) && Class(old(GridOf(cells)), p.0, p.1) == Survivor
      ensures forall p {:trigger p in deadCells} :: p in deadCells <==>
        InBounds(p, Rows(), Columns()) && Class(old(GridOf(cells)), p.0, p.1) == DeadMarked
      ensures survivorDuration == Aged(old(survivorDuration), survivorCells)
      ensures iteration == old(iteration) + 1
      ensures backups == PushBackup(old(backups), old(State()), maxBackups)
      ensures forall d {:trigger d in redraw} :: d in redraw ==>
        && InBounds((d.row, d.col), Rows(), Columns())
        && d.kind == Class(old(GridOf(cells)), d.row, d.col)
        && (d.kind == Background ==> (d.row, d.col) in old(deadCells))
      ensures forall r, c {:trigger Class(old(GridOf(cells)), r, c)} ::
        0 <= r < Rows() && 0 <= c < Columns() &&
        (Class(old(GridOf(cells)), r, c) != Background || (r, c) in old(deadCells)) ==>
        Redraw(r, c, Class(old(GridOf(cells)), r, c)) in redraw
    {
      StoreState();
      redraw := Advance();
    }

    /** The part of Update after the state is stored. */
    method Advance() returns (redraw: set<Redraw>)
      requires Valid()
      modifies this, neighbourCount
      ensures Valid() && fresh(cells) && neighbourCount == old(neighbourCount)
      ensures cellSize == old(cellSize)
      ensures GridOf(cells) == Step(old(GridOf(cells)))
      ensures forall p {:trigger p in newCells} :: p in newCells <==>
        InBounds(p, Rows(), Columns()) && Class(old(GridOf(cells)), p.0, p.1) == New
      ensures forall p {:trigger p in survivorCells} :: p in survivorCells <==>
        InBounds(p, Rows(), Columns()) && Class(old(GridOf(cells)), p.0, p.1) == Survivor
      ensures forall p {:trigger p in deadCells} :: p in deadCells <==>
        InBounds(p, Rows(), Columns()) && Class(old(GridOf(cells)), p.0, p.1) == DeadMarked
      ensures survivorDuration == Aged(old(survivorDuration), survivorCells)
      ensures iteration == old(iteration) + 1
      ensures backups == old(backups)
      ensures forall d {:trigger d in redraw} :: d in redraw ==>
        && InBounds((d.row, d.col), Rows(), Columns())
        && d.kind == Class(old(GridOf(cells)), d.row, d.col)
        && (d.kind == Background ==> (d.row, d.col) in old(deadCells))
      ensures forall r, c {:trigger Class(old(GridOf(cells)), r, c)} ::
        0 <= r < Rows() && 0 <= c < Columns() &&
        (Class(old(GridOf(cells)), r, c) != Background || (r, c) in old(deadCells)) ==>
        Redraw(r, c, Class(old(GridOf(cells)), r, c)) in redraw
    {
      var updated, newOut, survivorOut, deadOut;
      updated, newOut, survivorOut, deadOut, redraw :=
        PerformUpdate(cells, neighbourCount, newCells, survivorCells, deadCells);
      cells := updated;
      newCells, survivorCells, deadCells := newOut, survivorOut, deadOut;
      UpdateSurvivorDuration();
      iteration := iteration + 1;
    }

    /**
      Writes v into cell p, which holds the other value, and moves the counts
      of its neighbours by the matching +1/-1; the counts stay exact.
    */
    method SetCell(p: Coord, v: bool)
      requires neighbourCount.Length0 == cells.Length0 && neighbourCount.Length1 == cells.Length1
      requires 0 <= p.0 < cells.Length0 && 0 <= p.1 < cells.Length1 && cells[p.0, p.1] != v
      requires CountsExact(GridOf(cells), GridOf(neighbourCount), cells.Length0, cells.Length1)
      modifies cells, neighbourCount
      ensures GridOf(cells) == Painted(old(GridOf(cells)), {p}, v, cells.Length0, cells.Length1)
      ensures CountsExact(GridOf(cells), GridOf(neighbourCount), cells.Length0, cells.Length1)
    {
      var rows, columns := cells.Length0, cells.Length1;
      ghost var g0, n0 := GridOf(cells), GridOf(neighbourCount);
      cells[p.0, p.1] := v;
      ghost var h := Painted(g0, {p}, v, rows, columns);
      forall i, j | 0 <= i < rows && 0 <= j < columns
        ensures GridOf(cells)[i][j] == h[i][j]
      {
      }
      GridsEqual(GridOf(cells), h, rows, columns);
      UpdateNeighbourCount(p);
      PaintOneKeepsCountsExact(g0, n0, GridOf(neighbourCount), p, v, rows, columns);
    }

    /** Kills cell p if it is alive; a dead cell is left as it is. */
    method KillCell(p: Coord)
      requires neighbourCount.Length0 == cells.Length0 && neighbourCount.Length1 == cells.Length1
      requires 0 <= p.0 < cells.Length0 && 0 <= p.1 < cells.Length1
      requires CountsExact(GridOf(cells), GridOf(neighbourCount), cells.Length0, cells.Length1)
      modifies cells, neighbourCount
      ensures GridOf(cells) == Painted(old(GridOf(cells)), {p}, false, cells.Length0, cells.Length1)
      ensures CountsExact(GridOf(cells), GridOf(neighbourCount), cells.Length0, cells.Length1)
    {
      if cells[p.0, p.1] {
        SetCell(p, false);
      } else {
        GridsEqual(GridOf(cells), Painted(GridOf(cells), {p}, false, cells.Length0, cells.Length1),
                   cells.Length0, cells.Length1);
      }
    }

    /**
      Brings cell p to life as a New cell (and out of the dead set), after
      storing the state; a cell that is already alive is left alone.
    */
    method ResurrectCell(p: Coord)
      requires Valid() && 0 <= p.0 < cells.Length0 && 0 <= p.1 < cells.Length1
      modifies this`newCells, this`deadCells, this`backups, cells, neighbourCount
      ensures Valid()
      ensures old(p in newCells || p in survivorCells) ==> State() == old(State()) && backups == old(backups)
      ensures !old(p in newCells || p in survivorCells) ==>
        && GridOf(cells) == Painted(old(GridOf(cells)), {p}, true, cells.Length0, cells.Length1)
        && newCells == old(newCells) + {p} && deadCells == old(deadCells) - {p}
        && backups == PushBackup(old(backups), old(State()), maxBackups)
    {
      if p in newCells || p in survivorCells {
        return;
      }
      StoreState();
      ghost var s := State();
      SetCell(p, true);
      newCells := newCells + {p};
      deadCells := deadCells - {p};
      ResurrectKeepsValid(s, GridOf(cells), GridOf(neighbourCount), p, cells.Length0, cells.Length1);
    }

    /**
      Kills cell p (if it is alive) and removes it from every set and from the
      duration map, after storing the state.
    */
    method ClearCell(p: Coord)
      requires Valid() && 0 <= p.0 < cells.Length0 && 0 <= p.1 < cells.Length1
      modifies this`newCells, this`survivorCells, this`survivorDuration, this`deadCells, this`backups
      modifies cells, neighbourCount
      ensures Valid()
      ensures GridOf(cells) == Painted(old(GridOf(cells)), {p}, false, cells.Length0, cells.Length1)
      ensures newCells == old(newCells) - {p} && survivorCells == old(survivorCells) - {p}
      ensures deadCells == old(deadCells) - {p} && survivorDuration == old(survivorDuration) - {p}
      ensures backups == PushBackup(old(backups), old(State()), maxBackups)
    {
      StoreState();
      EraseCell(p);
    }

    /** The part of ClearCell after the state is stored. */
    method EraseCell(p: Coord)
      requires Valid() && 0 <= p.0 < cells.Length0 && 0 <= p.1 < cells.Length1
      modifies this`newCells, this`survivorCells, this`survivorDuration, this`deadCells
      modifies cells, neighbourCount
      ensures Valid()
      ensures GridOf(cells) == Painted(old(GridOf(cells)), {p}, false, cells.Length0, cells.Length1)
      ensures newCells == old(newCells) - {p} && survivorCells == old(survivorCells) - {p}
      ensures deadCells == old(deadCells) - {p} && survivorDuration == old(survivorDuration) - {p}
    {
      ghost var s := State();
      KillCell(p);
      newCells := newCells - {p};
      survivorCells := survivorCells - {p};
      survivorDuration := survivorDuration - {p};
      deadCells := deadCells - {p};
      ClearKeepsValid(s, GridOf(cells), GridOf(neighbourCount), p, cells.Length0, cells.Length1);
    }

    /**
      Writes v into every cell of targets, each of which holds the other
      value, updating the neighbour counts after each write.
    */
    method SetCells(targets: set<Coord>, v: bool)
      requires neighbourCount.Length0 == cells.Length0 && neighbourCount.Length1 == cells.Length1
      requires forall q :: q in targets ==> 0 <= q.0 < cells.Length0 && 0 <= q.1 < cells.Length1 && cells[q.0, q.1] != v
      requires CountsExact(GridOf(cells), GridOf(neighbourCount), cells.Length0, cells.Length1)
      modifies cells, neighbourCount
      ensures GridOf(cells) == Painted(old(GridOf(cells)), targets, v, cells.Length0, cells.Length1)
      ensures CountsExact(GridOf(cells), GridOf(neighbourCount), cells.Length0, cells.Length1)
    {
      var rows, columns := cells.Length0, cells.Length1;
      ghost var g0 := GridOf(cells);
      var todo := targets;
      PaintNothing(g0, v, rows, columns);
      assert targets - todo == {};
      while todo != {}
        invariant todo <= targets
        invariant GridOf(cells) == Painted(g0, targets - todo, v, rows, columns)
        invariant CountsExact(GridOf(cells), GridOf(neighbourCount), rows, columns)
        decreases todo
      {
        var cell :| cell in todo;
        PaintOneMore(g0, targets - todo, cell, v, rows, columns);
        SetCell(cell, v);
        assert targets - (todo - {cell}) == (targets - todo) + {cell};
        todo := todo - {cell};
      }
      assert targets - todo == targets;
    }

    /** Kills every survivor and forgets all durations, after storing the state. */
    method WipeSurvivors()
      requires Valid()
      modifies this`survivorCells, this`survivorDuration, this`backups, cells, neighbourCount
      ensures Valid()
      ensures GridOf(cells) == Painted(old(GridOf(cells)), old(survivorCells), false, cells.Length0, cells.Length1)
      ensures survivorCells == {} && survivorDuration == map[]
      ensures backups == PushBackup(old(backups), old(State()), maxBackups)
    {
      StoreState();
      ghost var s := State();
      var rows, columns := cells.Length0, cells.Length1;
      forall q | q in survivorCells
        ensures 0 <= q.0 < rows && 0 <= q.1 < columns && cells[q.0, q.1]
      {
        LiveSetsAlive(s, rows, columns, q);
      }
      SetCells(survivorCells, false);
      survivorCells, survivorDuration := {}, map[];
      WipeKeepsValid(s, GridOf(cells), GridOf(neighbourCount), rows, columns);
    }

    /**
      Kills the survivors whose duration has reached purgeTrigger and forgets
      them, after storing the state; younger survivors are kept.
    */
    method PurgeSurvivors(purgeTrigger: int)
      requires Valid()
      modifies this`survivorCells, this`survivorDuration, this`backups, cells, neighbourCount
      ensures Valid()
      ensures var gone := Purged(old(survivorDuration), purgeTrigger);
        && GridOf(cells) == Painted(old(GridOf(cells)), gone, false, cells.Length0, cells.Length1)
        && survivorCells == old(survivorCells) - gone && survivorDuration == old(survivorDuration) - gone
      ensures backups == PushBackup(old(backups), old(State()), maxBackups)
    {
      StoreState();
      ghost var s := State();
      var rows, columns := cells.Length0, cells.Length1;
      forall q | q in survivorDuration
        ensures 0 <= q.0 < rows && 0 <= q.1 < columns && cells[q.0, q.1]
      {
        LiveSetsAlive(s, rows, columns, q);
      }
      PurgeExpired(purgeTrigger);
      PurgeKeepsValid(s, GridOf(cells), GridOf(neighbourCount), purgeTrigger, rows, columns);
    }

    /**
      The loop of PurgeSurvivors: every ledger entry whose duration has reached
      purgeTrigger is removed from the ledger and from the survivors, then the
      cells of the removed entries die.
    */
    method PurgeExpired(purgeTrigger: int)
      requires Shaped()
      requires forall q :: q in survivorDuration ==> 0 <= q.0 < cells.Length0 && 0 <= q.1 < cells.Length1 && cells[q.0, q.1]
      requires CountsExact(GridOf(cells), GridOf(neighbourCount), cells.Length0, cells.Length1)
      modifies this`survivorCells, this`survivorDuration, cells, neighbourCount
      ensures var gone := Purged(old(survivorDuration), purgeTrigger);
        && GridOf(cells) == Painted(old(GridOf(cells)), gone, false, cells.Length0, cells.Length1)
        && survivorCells == old(survivorCells) - gone && survivorDuration == old(survivorDuration) - gone
      ensures CountsExact(GridOf(cells), GridOf(neighbourCount), cells.Length0, cells.Length1)
    {
      ghost var d0, s0 := survivorDuration, survivorCells;
      var expired: set<Coord> := {};
      var keys := survivorDuration.Keys;
      while keys != {}
        modifies this`survivorCells, this`survivorDuration
        invariant keys <= d0.Keys
        invariant PurgedSoFar(expired, d0, keys, purgeTrigger)
        invariant survivorDuration == d0 - expired && survivorCells == s0 - expired
        decreases keys
      {
        var cell :| cell in keys;
        PurgedSoFarStep(expired, d0, keys, purgeTrigger, cell);
        if survivorDuration[cell] >= purgeTrigger {
          survivorDuration := survivorDuration - {cell};
          survivorCells := survivorCells - {cell};
          LedgerMinusOne(d0, s0, expired, cell);
          expired := expired + {cell};
        }
        keys := keys - {cell};
      }
      PurgedSoFarEnd(expired, d0, purgeTrigger);
      SetCells(expired, false);
    }

    /**
      Swaps the New and DeadMarked sets, after storing the state: the formerly
      dead-marked cells come to life and the formerly new cells die.
    */
    method Invert()
      requires Valid()
      modifies this`newCells, this`deadCells, this`backups, cells, neighbourCount
      ensures Valid()
      ensures GridOf(cells) == Painted(Painted(old(GridOf(cells)), old(deadCells), true, cells.Length0, cells.Length1),
                                       old(newCells), false, cells.Length0, cells.Length1)
      ensures newCells == old(deadCells) && deadCells == old(newCells)
      ensures backups == PushBackup(old(backups), old(State()), maxBackups)
    {
      StoreState();
      SwapNewAndDead();
    }

    /** The part of Invert after the state is stored. */
    method SwapNewAndDead()
      requires Valid()
      modifies this`newCells, this`deadCells, cells, neighbourCount
      ensures Valid()
      ensures GridOf(cells) == Painted(Painted(old(GridOf(cells)), old(deadCells), true, cells.Length0, cells.Length1),
                                       old(newCells), false, cells.Length0, cells.Length1)
      ensures newCells == old(deadCells) && deadCells == old(newCells)
    {
      ghost var s := State();
      var rows, columns := cells.Length0, cells.Length1;
      newCells, deadCells := deadCells, newCells;
      forall q | q in newCells
        ensures 0 <= q.0 < rows && 0 <= q.1 < columns && !cells[q.0, q.1]
      {
        DeadMarkedAreDead(s, rows, columns, q);
      }
      SetCells(newCells, true);
      forall q | q in deadCells
        ensures 0 <= q.0 < rows && 0 <= q.1 < columns && cells[q.0, q.1]
      {
        LiveSetsAlive(s, rows, columns, q);
        assert q !in s.deadCells;
      }
      SetCells(deadCells, false);
      InvertKeepsValid(s, GridOf(cells), GridOf(neighbourCount), rows, columns);
    }

    /**
      Continues the game from the given layout, which becomes the grid itself
      (not a copy), after storing the state: counts are rebuilt, every live
      cell is New, nothing else is recorded and the iteration restarts at 0.
      A layout of another shape is ignored.
    */
    method CreateCellLayout(layout: array2<bool>)
      requires Valid()
      modifies this`cells, this`neighbourCount, this`newCells, this`survivorCells, this`survivorDuration,
               this`deadCells, this`iteration, this`backups
      ensures Valid()
      ensures layout.Length0 != old(cells.Length0) || layout.Length1 != old(cells.Length1) ==>
        cells == old(cells) && State() == old(State()) && backups == old(backups)
      ensures layout.Length0 == old(cells.Length0) && layout.Length1 == old(cells.Length1) ==>
        && cells == layout && fresh(neighbourCount)
        && newCells == AliveCells(GridOf(layout), layout.Length0, layout.Length1)
        && survivorCells == {} && survivorDuration == map[] && deadCells == {} && iteration == 0
        && backups == PushBackup(old(backups), old(State()), maxBackups)
    {
      if layout.Length0 != cells.Length0 || layout.Length1 != cells.Length1 {
        return;
      }
      StoreState();
      InstallLayout(layout);
    }

    /** The part of CreateCellLayout after the state is stored. */
    method InstallLayout(layout: array2<bool>)
      requires Shaped() && HistoryValid(backups, maxBackups, Rows(), Columns())
      requires layout.Length0 == cells.Length0 && layout.Length1 == cells.Length1
      modifies this`cells, this`neighbourCount, this`newCells, this`survivorCells, this`survivorDuration,
               this`deadCells, this`iteration
      ensures Valid()
      ensures cells == layout && fresh(neighbourCount)
      ensures newCells == AliveCells(GridOf(layout), layout.Length0, layout.Length1)
      ensures survivorCells == {} && survivorDuration == map[] && deadCells == {} && iteration == 0
    {
      var rows, columns := cells.Length0, cells.Length1;
      cells := layout;
      neighbourCount := CreateNeighbourCount(cells);
      newCells := AliveCells(GridOf(cells), rows, columns);
      survivorCells, survivorDuration, deadCells := {}, map[], {};
      iteration := 0;
      LayoutValid(GridOf(cells), GridOf(neighbourCount), rows, columns);
      assert State() == Backup(GridOf(cells), GridOf(neighbourCount), AliveCells(GridOf(cells), rows, columns),
                               {}, map[], {}, 0);
    }

    /** A fresh array holding the cell-wise "or" of two grids of the same shape. */
    static method LogicalOr(a: array2<bool>, b: array2<bool>) returns (c: array2<bool>)
      requires a.Length0 == b.Length0 && a.Length1 == b.Length1
      ensures fresh(c) && c.Length0 == a.Length0 && c.Length1 == a.Length1
      ensures forall i, j :: 0 <= i < a.Length0 && 0 <= j < a.Length1 ==> (c[i, j] <==> a[i, j] || b[i, j])
    {
      c := new bool[a.Length0, a.Length1]((i, j) reads a, b =>
        if 0 <= i < a.Length0 && 0 <= j < a.Length1 then a[i, j] || b[i, j] else false);
    }

    /**
      Lays the live cells of `other` over the grid, after storing the state:
      every live cell becomes New, so no Survivor and no duration remain, the
      DeadMarked set loses the revived cells and the counts are rebuilt. A grid
      of another shape is ignored.
    */
    method OverlayNewCells(other: array2<bool>)
      requires Valid()
      modifies this`cells, this`neighbourCount, this`newCells, this`survivorCells, this`survivorDuration,
               this`deadCells, this`backups
      ensures Valid()
      ensures other.Length0 != old(cells.Length0) || other.Length1 != old(cells.Length1) ==>
        cells == old(cells) && State() == old(State()) && backups == old(backups)
      ensures other.Length0 == old(cells.Length0) && other.Length1 == old(cells.Length1) ==>
        && fresh(cells) && fresh(neighbourCount)
        && (forall i, j :: 0 <= i < cells.Length0 && 0 <= j < cells.Length1 ==>
              (cells[i, j] <==> old(cells[i, j]) || other[i, j]))
        && newCells == AliveCells(GridOf(cells), cells.Length0, cells.Length1)
        && survivorCells == {} && survivorDuration == map[] && deadCells == old(deadCells) - newCells
        && backups == PushBackup(old(backups), old(State()), maxBackups)
    {
      if other.Length0 != cells.Length0 || other.Length1 != cells.Length1 {
        return;
      }
      StoreState();
      InstallOverlay(other);
    }

    /** The part of OverlayNewCells after the state is stored. */
    method InstallOverlay(other: array2<bool>)
      requires Valid() && other.Length0 == cells.Length0 && other.Length1 == cells.Length1
      modifies this`cells, this`neighbourCount, this`newCells, this`survivorCells, this`survivorDuration,
               this`deadCells
      ensures Valid()
      ensures fresh(cells) && fresh(neighbourCount)
      ensures forall i, j :: 0 <= i < cells.Length0 && 0 <= j < cells.Length1 ==>
        (cells[i, j] <==> old(cells[i, j]) || other[i, j])
      ensures newCells == AliveCells(GridOf(cells), cells.Length0, cells.Length1)
      ensures survivorCells == {} && survivorDuration == map[] && deadCells == old(deadCells) - newCells
    {
      ghost var s := State();
      var rows, columns := cells.Length0, cells.Length1;
      cells := LogicalOr(cells, other);
      newCells := AliveCells(GridOf(cells), rows, columns);
      survivorCells := survivorCells - newCells;
      deadCells := deadCells - newCells;
      survivorDuration := survivorDuration - newCells;
      neighbourCount := CreateNeighbourCount(cells);
      OverlayKeepsValid(s, GridOf(cells), GridOf(neighbourCount), rows, columns);
      assert State() == Backup(GridOf(cells), GridOf(neighbourCount), newCells, s.survivorCells - newCells,
                               s.survivorDuration - newCells, s.deadCells - newCells, s.iteration);
    }

    /** A new cell size empties the grid and its history; the same size changes nothing. */
    method ChangeCellSize(value: CellSize)
      requires Valid()
      modifies this
      ensures Valid() && cellSize == value
      ensures value == old(cellSize) ==> unchanged(this)
      ensures value != old(cellSize) ==>
        && fresh(cells) && fresh(neighbourCount)
        && Shape() == (height / value.Value(), width / value.Value())
        && (forall i, j :: 0 <= i < cells.Length0 && 0 <= j < cells.Length1 ==> !cells[i, j])
        && newCells == {} && survivorCells == {} && deadCells == {} && survivorDuration == map[]
        && iteration == 0 && backups == []
    {
      if cellSize != value {
        cellSize := value;
        Reset();
      }
    }

    /** A fresh rows x columns array holding the grid g. */
    static method ArrayOf<T>(g: seq<seq<T>>, rows: nat, columns: nat) returns (a: array2<T>)
      requires IsGrid(g, rows, columns)
      ensures fresh(a) && a.Length0 == rows && a.Length1 == columns
      ensures GridOf(a) == g
    {
      a := new T[rows, columns]((i, j) requires 0 <= i < rows && 0 <= j < columns => g[i][j]);
      GridsEqual(GridOf(a), g, rows, columns);
    }

    /** Fresh copies of the grid and the counts of a stored state. */
    static method ArraysOf(backup: Backup, rows: nat, columns: nat) returns (c: array2<bool>, n: array2<int>)
      requires IsGrid(backup.cells, rows, columns) && IsGrid(backup.neighbourCount, rows, columns)
      ensures fresh(c) && fresh(n)
      ensures c.Length0 == rows && c.Length1 == columns && n.Length0 == rows && n.Length1 == columns
      ensures GridOf(c) == backup.cells && GridOf(n) == backup.neighbourCount
    {
      c := ArrayOf(backup.cells, rows, columns);
      n := ArrayOf(backup.neighbourCount, rows, columns);
    }

    /**
      Goes back to the most recent stored state, which leaves the history;
      with an empty history nothing changes.
    */
    method Reverse()
      requires Valid()
      modifies this`cells, this`neighbourCount, this`newCells, this`survivorCells, this`survivorDuration,
               this`deadCells, this`iteration, this`backups
      ensures Valid()
      ensures old(backups) == [] ==> cells == old(cells) && State() == old(State()) && backups == []
      ensures old(backups) != [] ==>
        && fresh(cells) && fresh(neighbourCount)
        && State() == old(backups[|backups| - 1]) && backups == old(backups[..|backups| - 1])
    {
      if |backups| == 0 {
        return;
      }
      var backup := backups[|backups| - 1];
      backups := backups[..|backups| - 1];
      assert backup in old(backups);
      Restore(backup);
    }

    /**
      Undo after a step: Update followed by Reverse gives back the exact state
      before the step, and the history as it was (less its oldest entry when
      the step's backup evicted it).
    */
    method UpdateThenReverse()
      requires Valid() && maxBackups > 0
      modifies this, neighbourCount
      ensures Valid() && State() == old(State())
      ensures cellSize == old(cellSize)
      ensures backups == if |old(backups)| == maxBackups then old(backups)[1..] else old(backups)
    {
      var _ := Update();
      PopAfterPush(old(backups), old(State()), maxBackups);
      Reverse();
    }

    /** Undo after a clear: ClearCell followed by Reverse gives back the exact state before it. */
    method ClearThenReverse(p: Coord)
      requires Valid() && maxBackups > 0 && 0 <= p.0 < cells.Length0 && 0 <= p.1 < cells.Length1
      modifies this`cells, this`neighbourCount, this`newCells, this`survivorCells, this`survivorDuration,
               this`deadCells, this`iteration, this`backups, cells, neighbourCount
      ensures Valid() && State() == old(State())
      ensures cellSize == old(cellSize)
      ensures backups == if |old(backups)| == maxBackups then old(backups)[1..] else old(backups)
    {
      ClearCell(p);
      PopAfterPush(old(backups), old(State()), maxBackups);
      Reverse();
    }

    /** Copies a stored state back into the grid. */
    method Restore(backup: Backup)
      requires Shaped() && HistoryValid(backups, maxBackups, Rows(), Columns())
      requires ValidState(backup, Rows(), Columns())
      modifies this`cells, this`neighbourCount, this`newCells, this`survivorCells, this`survivorDuration,
               this`deadCells, this`iteration
      ensures Valid() && State() == backup && fresh(cells) && fresh(neighbourCount)
    {
      var rows, columns := Rows(), Columns();
      cells, neighbourCount := ArraysOf(backup, rows, columns);
      newCells, survivorCells, survivorDuration := backup.newCells, backup.survivorCells, backup.survivorDuration;
      deadCells, iteration := backup.deadCells, backup.iteration;
      assert State() == backup;
    }
  }
}
