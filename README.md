# Conway's Game of Life: the incremental grid engine and the full-grid game

This project models the game logic of a Python/pygame implementation of
Conway's Game of Life (rule B3/S23: a dead cell with exactly three live
neighbours is born, and a live cell with two or three survives). It has two parts.

- **The incremental engine** (`ConwayGoLGrid`, conwaygolgrid.py). It keeps the following state:
  - a dense boolean grid;
  - a parallel grid of neighbour counts;
  - three sparse sets of coordinates: New (just born), Survivor and DeadMarked (just died);
  - a duration per survivor;
  - an iteration counter;
  - a bounded history of full snapshots for undo.

  A step evaluates only the cells within one Moore ring of the three sets. It records a +1/-1
  count change for every cell that flips and applies the changes once every cell has been classified.
  The model is a Dafny class `ConwayGoL.ConwayGoLGrid` over `array2` fields and `set`/`map`/`seq` fields.
  Its class invariant `Valid()` has these parts:
  - the counts are the exact clipped Moore counts;
  - a cell is alive exactly when it is New or a Survivor;
  - DeadMarked cells are dead;
  - the three sets are pairwise disjoint and lie on the grid;
  - the duration map has an entry for exactly the survivors;
  - every stored snapshot satisfies the same.

  Every operation is proved to keep `Valid()` and to produce the state its contract names.
  The step (`Update`) is proved to compute the full-rescan generation `LifeRules.Step`.
- **The stand-alone game** (gameoflife.py). It holds a grid of 0/1 integers and rescans it every generation.
  It counts neighbours as the sum of a 3 x 3 numpy slice minus the cell. Python's slice rules make the
  first row and the first column behave differently from the rest, and the model keeps that behaviour
  exactly (see Findings). The model also includes the grid sizing in `initialize` and the
  pixel-to-cell mapping of a mouse click.

`LifeRules` (life_rules.dfy) holds the reference semantics shared by both parts:
- the clipped Moore count;
- the B3/S23 rule;
- the four visual classes of a cell after a generation (New, Survivor, DeadMarked, Background);
- one generation of a whole grid;
- the effect of a single flip on the counts.

## Model

| member | source | states |
|---|---|---|
| LifeRules.Classify | conwaygolgrid.py:153-177 | a cell is classed New or Survivor exactly when B3/S23 makes it alive next, and Survivor or DeadMarked exactly when it is alive now |
| LifeRules.NeighboursAfterFlip | conwaygolgrid.py:412-415 | flipping one cell changes the count of exactly its (up to) eight neighbours, by +1 for a birth and -1 for a death |
| LifeRules.FlipKeepsCountsExact | conwaygolgrid.py:395-415 | if the counts were exact, flipping one cell and adding the matching +1/-1 around it leaves them exact |
| LifeRules.BlinkerOscillates | conwaygolgrid.py:153-173 | under the rule the 3-cell blinker changes in one generation and is back after two |
| LifeRules.IsolatedCellDies | conwaygolgrid.py:153-177 | a cell with no live neighbour is dead next generation: DeadMarked if it was alive, Background otherwise |
| ConwayGoL.CellSize.Value | conwaygolgrid.py:19-25 | the cell sizes are 3, 6, 10, 20 and 40 pixels |
| ConwayGoL.EmptyStateValid | conwaygolgrid.py:190-199 | an all-dead grid with zero counts, empty sets, no durations and iteration 0 satisfies the invariant |
| ConwayGoL.LiveSetsAlive | conwaygolgrid.py:153-173 | in a valid state every New cell and every Survivor is on the grid and alive |
| ConwayGoL.DeadMarkedAreDead | conwaygolgrid.py:160-165 | in a valid state every DeadMarked cell is on the grid and dead |
| ConwayGoL.PushBackup | conwaygolgrid.py:417-424 | appending to the bounded history keeps it within max_backups, adds nothing but the new snapshot, and the snapshot is the newest entry |
| ConwayGoL.PopAfterPush | conwaygolgrid.py:321-326 | popping right after a push returns the pushed snapshot and the earlier history, less its oldest entry if the push evicted it |
| ConwayGoL.Frontier | conwaygolgrid.py:138-144 | the cells to evaluate are exactly the grid cells within one Moore ring of a New, Survivor or DeadMarked cell: all lie on the grid, every such cell is included, and each is near an active cell |
| ConwayGoL.AliveCells | conwaygolgrid.py:245 | the coordinate set of a grid's `nonzero()` cells holds exactly the on-grid live cells |
| ConwayGoL.Aged | conwaygolgrid.py:426-439 | after a step the ledger has exactly the survivors as keys; a survivor already in it ages by one and a newcomer starts at 0 |
| ConwayGoL.ApplyFlipsKeepsCountsExact | conwaygolgrid.py:179-184 | applying one recorded +1/-1 change per flipped cell, for distinct cells, gives counts exact for the grid with those cells flipped |
| ConwayGoL.OutsideFrontierIsQuiet | conwaygolgrid.py:138-146 | a grid cell outside the frontier of a valid state is dead with no live neighbour, so skipping it loses nothing |
| ConwayGoL.SetOutcome | conwaygolgrid.py:149-177 | after the classification pass each set holds exactly the grid cells of its class |
| ConwayGoL.RedrawOutcome | conwaygolgrid.py:149-177 | the redraw list names every cell whose class is not Background or that leaves DeadMarked, with its class, and nothing else |
| ConwayGoL.GridOutcome | conwaygolgrid.py:146-177 | the grid built from the frontier (all dead, then New and Survivor cells set) is the full-rescan generation |
| ConwayGoL.FlipsOutcome | conwaygolgrid.py:160-171 | the new grid differs from the old one exactly at the cells whose changes were recorded, each with the sign of its flip |
| ConwayGoL.NextStateConsistent | conwaygolgrid.py:149-177 | the grid, the counts and the three sets left by a step satisfy the state invariant again |
| ConwayGoL.PaintOneKeepsCountsExact | conwaygolgrid.py:395-415 | writing the other value into one cell and moving its neighbours' counts by the matching +1/-1 keeps the counts exact |
| ConwayGoL.ResurrectKeepsValid | conwaygolgrid.py:205-215 | reviving a cell that is neither New nor a Survivor and making it New (and not DeadMarked) keeps the state valid |
| ConwayGoL.ClearKeepsValid | conwaygolgrid.py:219-232 | killing a cell and removing it from every set and from the duration map keeps the state valid |
| ConwayGoL.WipeKeepsValid | conwaygolgrid.py:275-283 | killing every survivor and emptying the survivor set and duration map keeps the state valid |
| ConwayGoL.PurgeKeepsValid | conwaygolgrid.py:286-298 | killing and forgetting exactly the survivors whose duration reached the trigger keeps the state valid |
| ConwayGoL.InvertKeepsValid | conwaygolgrid.py:301-312 | swapping New and DeadMarked, reviving the former and killing the latter, keeps the state valid |
| ConwayGoL.LayoutValid | conwaygolgrid.py:243-250 | a layout with exact counts, every live cell New and nothing else recorded, is a valid state |
| ConwayGoL.OverlayKeepsValid | conwaygolgrid.py:259-270 | after an overlay that marks every live cell New, no Survivor and no duration entry remain, and the state is valid |
| ConwayGoL.ConwayGoLGrid.constructor | conwaygolgrid.py:41-66 | a new grid is valid, sized height // size by width // size, all dead, with zero counts, empty sets and history, iteration 0 |
| ConwayGoL.ConwayGoLGrid.Shape | conwaygolgrid.py:73-76 | the shape is (height // size, width // size) |
| ConwayGoL.ConwayGoLGrid.AliveCount | conwaygolgrid.py:83-86 | the number of non-zero cells equals the number of New cells plus the number of Survivors |
| ConwayGoL.ConwayGoLGrid.PerformUpdateNeighbourCount | conwaygolgrid.py:405-415 | delta is added to the count of every on-grid neighbour of the cell; the cell itself and every other count are unchanged |
| ConwayGoL.ConwayGoLGrid.UpdateNeighbourCount | conwaygolgrid.py:395-403 | the neighbours move by +1 when the cell is now alive and by -1 when it is dead |
| ConwayGoL.ConwayGoLGrid.CreateNeighbourCount | conwaygolgrid.py:379-393 | the rebuilt counts are the exact clipped Moore counts of the grid |
| ConwayGoL.ConwayGoLGrid.CountRow | conwaygolgrid.py:385-392 | after a row is visited the counts are exact for the live cells up to the end of that row |
| ConwayGoL.ConwayGoLGrid.CountCell | conwaygolgrid.py:386-392 | visiting one cell extends the exactly counted prefix by that cell |
| ConwayGoL.ConwayGoLGrid.EvaluateCell | conwaygolgrid.py:149-177 | per cell: survive on 2 or 3 (Survivor only), otherwise die (DeadMarked only, -1 recorded); birth on exactly 3 (New only, +1 recorded); otherwise stay dead, leaving DeadMarked with a Background redraw |
| ConwayGoL.ConwayGoLGrid.EvaluateFrontier | conwaygolgrid.py:146-177 | the next grid holds exactly the New and Survivor cells of the frontier; the sets, the redraw list and the recorded changes are those of every frontier cell |
| ConwayGoL.ConwayGoLGrid.ApplyDeltas | conwaygolgrid.py:179-184 | the counts end up with every recorded change applied in order |
| ConwayGoL.ConwayGoLGrid.PerformUpdate | conwaygolgrid.py:125-186 | the new grid is the full-rescan generation; the counts are exact for it; each set holds exactly the cells of its class; the redraw list holds every cell whose new class is not Background, with that class (so a cell that stays a Survivor is listed every step), plus every cell that leaves DeadMarked for Background, and nothing else |
| ConwayGoL.ConwayGoLGrid.Reset | conwaygolgrid.py:188-203 | the grid is all dead at height // size by width // size, with zero counts, empty sets and history, iteration 0 |
| ConwayGoL.ConwayGoLGrid.State | conwaygolgrid.py:419-423 | the snapshot holds value copies of the cell and count arrays: same shape and the same value at every cell |
| ConwayGoL.ConwayGoLGrid.StoreState | conwaygolgrid.py:417-424 | the current state is pushed onto the bounded history and the invariant holds |
| ConwayGoL.ConwayGoLGrid.UpdateSurvivorDuration | conwaygolgrid.py:426-439 | the duration map has exactly the survivors as keys; an existing survivor gains one and a new one starts at 0 |
| ConwayGoL.ConwayGoLGrid.Update | conwaygolgrid.py:110-123 | the old state is stored; the grid becomes the full-rescan generation with exact counts; the sets hold the new classes; survivors age; the iteration grows by one; the redraw list holds every cell whose new class is not Background plus every cell that leaves DeadMarked for Background, each with its class, and nothing else |
| ConwayGoL.ConwayGoLGrid.Advance | conwaygolgrid.py:114-122 | the step after the state is stored, with the same outcome as Update and the history untouched |
| ConwayGoL.ConwayGoLGrid.SetCell | conwaygolgrid.py:225-227 | writing the other value into one cell changes only that cell, and the counts stay exact |
| ConwayGoL.ConwayGoLGrid.KillCell | conwaygolgrid.py:225-227 | a live cell dies with exact counts; a dead cell is left as it is |
| ConwayGoL.ConwayGoLGrid.SetCells | conwaygolgrid.py:278-281 | writing the other value into each cell of a set changes exactly those cells, and the counts stay exact |
| ConwayGoL.ConwayGoLGrid.ResurrectCell | conwaygolgrid.py:205-217 | a cell already New or a Survivor is left alone with no backup; otherwise the state is stored and the cell comes alive, joins New and leaves DeadMarked |
| ConwayGoL.ConwayGoLGrid.ClearCell | conwaygolgrid.py:219-235 | the state is stored, the cell is dead, and it is gone from every set and from the duration map |
| ConwayGoL.ConwayGoLGrid.EraseCell | conwaygolgrid.py:225-232 | the cell is dead and gone from every set and from the duration map, with the invariant kept |
| ConwayGoL.ConwayGoLGrid.WipeSurvivors | conwaygolgrid.py:275-284 | the state is stored, every former survivor is dead, and the survivor set and duration map are empty |
| ConwayGoL.ConwayGoLGrid.PurgeSurvivors | conwaygolgrid.py:286-299 | the state is stored; exactly the survivors with duration at least the trigger die and leave the survivor set and duration map; the others are kept |
| ConwayGoL.ConwayGoLGrid.PurgeExpired | conwaygolgrid.py:290-298 | the expired ledger entries are removed from the ledger and the survivors, and their cells die with exact counts |
| ConwayGoL.ConwayGoLGrid.Invert | conwaygolgrid.py:301-313 | the state is stored; New and DeadMarked swap; the former DeadMarked cells come alive and the former New cells die; survivors are untouched |
| ConwayGoL.ConwayGoLGrid.SwapNewAndDead | conwaygolgrid.py:304-312 | the swap and the cell writes of Invert, with the invariant kept |
| ConwayGoL.ConwayGoLGrid.CreateCellLayout | conwaygolgrid.py:237-251 | a layout of another shape changes nothing and stores nothing; otherwise the state is stored, the layout becomes the grid, every live cell is New, the other sets and durations are empty, and the iteration is 0 |
| ConwayGoL.ConwayGoLGrid.InstallLayout | conwaygolgrid.py:243-250 | the layout replaces the grid with rebuilt counts, every live cell New and nothing else recorded |
| ConwayGoL.ConwayGoLGrid.LogicalOr | conwaygolgrid.py:259 | a fresh grid that is alive exactly where either input is |
| ConwayGoL.ConwayGoLGrid.OverlayNewCells | conwaygolgrid.py:253-273 | a grid of another shape changes nothing and stores nothing; otherwise the state is stored, the grid becomes the cell-wise OR, every live cell is New, no survivor or duration remains, DeadMarked loses the live cells, and the iteration is unchanged |
| ConwayGoL.ConwayGoLGrid.InstallOverlay | conwaygolgrid.py:259-270 | the OR, the set updates and the rebuilt counts of an overlay, with the invariant kept |
| ConwayGoL.ConwayGoLGrid.ChangeCellSize | conwaygolgrid.py:315-319 | the same size changes nothing; a new size resets to an empty grid of the new shape with empty history |
| ConwayGoL.ConwayGoLGrid.ArrayOf | conwaygolgrid.py:332-333 | a fresh array holding a copy of a stored grid |
| ConwayGoL.ConwayGoLGrid.ArraysOf | conwaygolgrid.py:332-333 | fresh copies of the stored grid and counts |
| ConwayGoL.ConwayGoLGrid.Reverse | conwaygolgrid.py:321-340 | with an empty history nothing changes; otherwise the newest snapshot leaves the history and becomes the state, with no new backup pushed |
| ConwayGoL.ConwayGoLGrid.Restore | conwaygolgrid.py:332-338 | the state equals the snapshot, in fresh arrays |
| ConwayGoL.ConwayGoLGrid.UpdateThenReverse | conwaygolgrid.py:321-340 | a step followed by reverse gives back the exact earlier state and history (less an entry evicted by the step's backup) |
| ConwayGoL.ConwayGoLGrid.ClearThenReverse | conwaygolgrid.py:321-340 | clearing a cell followed by reverse gives back the exact earlier state and history (less an entry evicted by the clear's backup) |
| GameOfLife.NextValue | gameoflife.py:40-50 | the next value of a cell is always 0 or 1 |
| GameOfLife.NextValueIsRule | gameoflife.py:40-50 | on a 0/1 cell the next value is 1 exactly when B3/S23 makes the cell alive |
| GameOfLife.ColourIsClass | gameoflife.py:38-52 | while running the colour is the class of the cell's change (Survivor, DeadMarked, New, Background); while paused it is Background for 0 and New otherwise |
| GameOfLife.ClippedIsMoore | gameoflife.py:37 | on a 0/1 grid the 3 x 3 block sum clipped at every edge, minus the cell, is the Moore count of the reference rule |
| GameOfLife.SliceNeighbours | gameoflife.py:37 | the count of the slice minus the cell; away from row 0 and column 0 (or on a grid one cell high or wide) it equals the clipped count |
| GameOfLife.CellColour | gameoflife.py:38-52 | while paused the colour is Background for 0 and New otherwise; while running, on a 0/1 cell, the colour is New or Survivor exactly when the next value is 1, and Survivor or DeadMarked exactly when the cell is 1 now |
| GameOfLife.EdgeCellsDie | gameoflife.py:37 | at row 0 of a grid of 3 or more rows, or column 0 of a grid of 3 or more columns, the count is minus the cell and the next value is 0 |
| GameOfLife.UpdateAgreesWithStep | gameoflife.py:36-50 | away from row 0 and column 0 the next value of a cell is the reference generation |
| GameOfLife.ClippedStepIsReference | gameoflife.py:37-50 | with the clipped count every cell follows the reference generation |
| GameOfLife.TopEdgeBirthMissed | gameoflife.py:37 | on 101 / 010 / 000 cell (0, 1) has three live neighbours and should be born, but its slice count is 0 and it stays 0 |
| GameOfLife.CellAt | gameoflife.py:75 | a pixel at non-negative coordinates maps to a cell at non-negative row and column (the row from y, the column from x) |
| GameOfLife.CellAtCovers | gameoflife.py:75 | the clicked pixel lies inside the square of the cell it maps to |
| GameOfLife.CellAtInBounds | gameoflife.py:75-76 | when the window is a whole number of cells, every pixel maps to a cell of the grid |
| GameOfLife.Initialize | gameoflife.py:26-27 | the grid is all zeros with height // size rows and width // size columns: as many whole cells as fit |
| GameOfLife.PaintCell | gameoflife.py:72-76 | the cell under the pixel becomes 1 for the left button and 0 otherwise; no other cell changes; a pixel with no cell under it changes nothing |
| GameOfLife.Update | gameoflife.py:32-57 | a fresh grid of the same shape holds each cell's next value from its slice count; each cell is drawn in its colour; the input is not modified |
| GameOfLife.UpdateRow | gameoflife.py:36-55 | one row of next values and colours is filled in and every other row is kept |

## Left out

- Rendering is left out because it is presentation through pygame and OpenCV. This covers colours, bloom, prepared cell images, gridlines, the surface and the per-size pixel table. A redraw entry carries the cell's class (`CellClass`) instead of an RGB colour, and the screen of gameoflife.py is a grid of classes, one per cell rectangle.
- The colour setters (`change_*_color`) and `toggle_grid_lines` are left out because they only serve the renderer. Snapshots therefore hold no colours and no prepared images.
- `alive_percentage` is left out because it is a floating-point division.
- The `(-99, -99)` placeholder is left out. It is a workaround for the Numba compiler, so the sets are ordinary sets and the placeholder guards are no-ops. As a result the model also drops the placeholder's own survivor-duration entry, which the source creates because the placeholder sits in the survivor set.
- numpy's negative-index wraparound is not modelled. `ResurrectCell` and `ClearCell` require the coordinates to be on the grid, and `PaintCell` requires a non-negative pixel, as a position inside the window is.
- The redraw list is a set of (row, column, class) entries, because its order comes from iterating a Python set and is not observable.
- `OverlayNewCells` does not model the `redraw` flag because it only controls drawing.
- `PurgeSurvivors` first removes the expired entries from the ledger and the survivor set, then kills their cells. The source kills each cell as it goes. The final state is the same because the cells are distinct and each write changes only its own cell and its neighbours' counts.
- `CreateCellLayout` installs the caller's array itself, as the source does. Later writes by the caller to that array would change the grid, and the model does not follow them.
- Numba's `njit` in-place mutation of the caller's sets inside `__perform_update` is modelled as the method returning the new sets, which the caller stores.
- The pygame event loop, `main`, the clock and the space-bar toggle are left out because they are I/O. The same goes for the `update` calls that `handle_events` makes only to redraw, ignoring the result.
- profiling.py is not part of this model. It is a benchmarking harness.
- Initialize: requires a positive cell size and a non-negative window. The source raises for a zero cell size, for a negative window, and for a negative cell size with a non-empty window. One input it accepts is not covered: a (0, 0) window with a negative cell size gives an empty 0 x 0 grid there.
- ConwayGoL.ConwayGoLGrid.constructor: requires a non-negative width and height, so the model does not cover the exception `np.full` raises for a negative dimension (conwaygolgrid.py:190-192). Its `maxBackups` is a `nat`, so the model does not cover the ValueError that `deque(maxlen=max_backups)` raises for a negative bound (conwaygolgrid.py:63).
- The redraw list is not limited to cells whose drawn colour changes. As the source does (conwaygolgrid.py:154-156), a cell that stays a Survivor is listed again every step in the same colour.
- ConwayGoL.ConwayGoLGrid.Reset: requires a non-negative width and height for the same reason; the model does not cover the exception raised for a negative dimension.
- The `iteration` property (conwaygolgrid.py:78-81) is read as the `iteration` field itself. Each operation's contract states how it changes that field.
- `OverlayNewCells` makes every live cell New, including cells that were already alive, as conwaygolgrid.py:260 does with `nonzero()` of the whole OR-ed grid.

## Findings

| source | as written | input that shows it | evidently intended | confidence | as-written member | corrected member |
|---|---|---|---|---|---|---|
| gameoflife.py:37 | the slice `cells[row-1:row+2, col-1:col+2]` starts at -1 on row 0 and column 0, which Python reads as the last row or column, so the slice is empty on a grid of 3 or more rows (columns) and the count is minus the cell: row 0 and column 0 are always 0 in the next generation. On a grid exactly 2 rows (columns) wide, row (column) 0's slice becomes [1:2], which drops the cell's own row (column) as well as the missing one above it | grid 101 / 010 / 000, cell (0, 1): three live neighbours, slice count 0, not born | the 3 x 3 block clipped at the top and left edges, so every cell follows B3/S23 | not executed; the count and the missed birth are proved | GameOfLife.SliceNeighbours (counterexample GameOfLife.TopEdgeBirthMissed, general case GameOfLife.EdgeCellsDie) | GameOfLife.ClippedNeighbours (proved equal to the Moore count by GameOfLife.ClippedIsMoore and to the reference generation by GameOfLife.ClippedStepIsReference); the incremental engine uses the same clipped count |
