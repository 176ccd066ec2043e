# liquid-conway, modelled in Dafny

liquid-conway holds two browser cellular automata that run on a rectangular
grid of cells, indexed `grid[x][y]` with x across and y downwards:

- a liquid simulation (`src/liquid.js`). Each cell holds a volume, a pending
  change (`diff`) and a wall flag. A tick has two passes. The evaluate pass
  visits every cell in a fixed order and books transfers into the pending
  changes: free fall into a cell below that is not full, an upward push out
  of an over-full cell, a downward push, and a horizontal spread to lower
  neighbours. The commit pass adds each pending change to its volume and
  clears it. Mouse painting adds a full cell's worth of liquid or turns a
  cell into a wall.
- Conway's Game of Life (`src/app.js`). The neighbourhood offsets are built
  from a stepped range. Neighbour lists are filtered by the grid bounds and
  memoised per coordinate. The B3/S23 rule writes the next generation into a
  second buffer, and the two buffers are then swapped.

Both share the helpers of `src/helpers.js`: an inclusive stepped range, array
initialisation, and a key-based memoiser.

The project has five modules:

- `Helpers` (`helpers.dfy`): `Stepped`/`Range`, `InitArray`, and the class
  `Memo`, whose store is a `map` updated in place.
- `Grid` (`grid.dfy`): the bounds test, grid initialisation and the
  coordinate list shared by both simulations.
- `LiquidRules` (`liquid_rules.dfy`): the liquid rules as pure functions of
  a grid snapshot.
  - `CellMoves` gives the list of transfers a cell originates.
  - `ApplyMoves` books a list of transfers.
  - `EvalSeq` is the evaluate pass over a list of coordinates.
  - `Committed` is the commit pass, and `Tick` is both passes together.
  - Alongside them are the conservation and per-rule lemmas.
- `Liquid` (`liquid.dfy`): the class `LiquidGrid`, whose methods update its
  cell grid step by step as the source does. Each method is proved equal to
  the matching function of `LiquidRules`. The module also holds painting.
- `Life` (`life.dfy`): the neighbourhood, the counting and the rule as
  functions and lemmas, plus the class `LifeSim`. `LifeSim` holds both
  buffers and the neighbour cache, fills the buffer in a loop, and swaps.

Volumes are exact reals and `Math.floor` is `Floor`. The evaluate pass never
changes a volume or a wall flag (`Frozen`). So every cell's transfers are
read from the pre-tick volumes, whichever cells were visited before it. The
total volume after a tick is the total before it plus the pending changes,
which are zero between ticks.

## Model

| member | source | states |
|---|---|---|
| Helpers.Stepped | src/helpers.js:7-13 | the range is empty exactly when low > high, and otherwise starts at low |
| Helpers.Range | src/helpers.js:7-13 | the loop that pushes low, low+step, … while the value is ≤ high returns exactly `Stepped(low, high, step)` |
| Helpers.SteppedAt | src/helpers.js:9-11 | the k-th element pushed is low + k·step |
| Helpers.SteppedWithin | src/helpers.js:9 | every element lies between low and high |
| Helpers.SteppedIncreasing | src/helpers.js:9 | with a positive step the elements strictly increase |
| Helpers.SteppedMaximal | src/helpers.js:9 | the loop stops at the first value above high: last element + step > high |
| Helpers.UnitRangeLength | src/helpers.js:7-13 | with step 1 the range has high − low + 1 elements, or none |
| Helpers.InitArray | src/helpers.js:3-5 | num elements, each equal to init |
| Helpers.Memo.constructor | src/helpers.js:15-16 | the wrapper keeps the function, the key function and the given cache object |
| Helpers.Memo.Call | src/helpers.js:16-31 | a key already cached returns the cached value and leaves the cache alone; a new key returns fn(args) and caches it under the key; no existing entry changes |
| Helpers.CallTwice | src/helpers.js:24-30 | two calls whose arguments share a key return the same value, which stays cached |
| Grid.WithinBoundsIndexable | src/liquid.js:38-40 | on a w × h grid the bounds test admits exactly 0 ≤ x < w and 0 ≤ y < h, and every admitted cell can be indexed |
| Grid.WithinBounds | src/liquid.js:38-40 | the bounds test of both simulations (also src/app.js:79-81): x within the columns, y within the length of the first column |
| Grid.InitGrid | src/liquid.js:28-30 | x columns of y cells, every cell equal to init |
| Grid.GridCoords | src/liquid.js:34-36 | the coordinate list built column by column (also src/app.js:70-73); every listed coordinate can be indexed |
| Grid.GridCoordsMembers | src/liquid.js:34-36 | the coordinate list holds exactly the indexable cells |
| Grid.GridCoordsOrdered | src/liquid.js:34-36 | the coordinate list is strictly increasing, column by column and top to bottom, so no cell is listed twice |
| Grid.GridCoordsLength | src/app.js:70-73 | a w × h grid lists w·h coordinates |
| Grid.WithinBoundsListed | src/app.js:70-81 | on a non-empty grid, the bounds test holds exactly for the listed coordinates |
| LiquidRules.UpMove | src/liquid.js:111-116 | at most one push, made exactly when the cell above is in bounds and holds less and this cell holds more than 100; it goes to (x, y − 1) and carries the tenth of the difference rounded down (≥ 0, within 1 of the exact tenth) |
| LiquidRules.DownMove | src/liquid.js:118-123 | at most one push, made exactly when the cell below is in bounds and holds less; it goes to (x, y + 1) and carries the fifth of the difference rounded down (≥ 0, within 1 of the exact fifth) |
| LiquidRules.FlowCoors | src/liquid.js:129-133 | (1, 0) is listed exactly when the right neighbour is in bounds and holds strictly less, (−1, 0) likewise for the left; right comes before left; nothing else is listed |
| LiquidRules.FlowDiffs | src/liquid.js:135-139 | one gap per flow offset, in order: the cell's volume minus the neighbour's |
| LiquidRules.Weighted | src/liquid.js:148-150 | one transfer per flow neighbour, in flow order, the k-th going to the k-th neighbour |
| LiquidRules.SpreadDivisorPositive | src/liquid.js:135-144 | every gap is positive, and their sum `totalDiff` is positive when any flow neighbour exists, so the division on line 150 is defined |
| LiquidRules.SpreadMoves | src/liquid.js:129-154 | one spread transfer per flow neighbour, so at most two; their amounts and destinations are given by SpreadEach, SpreadDestinations and SpreadTotal |
| LiquidRules.WeightedShares | src/liquid.js:150 | the k-th transfer carries floor(finalDiff · diff_k / totalDiff) / 2, which is ≥ 0 |
| LiquidRules.WeightedTotal | src/liquid.js:148-154 | the weighted shares add up to at most finalDiff · (Σ diffs / totalDiff) / 2 |
| LiquidRules.WeightedHalf | src/liquid.js:146-154 | when totalDiff is the sum of the gaps, the shares add up to between 0 and finalDiff / 2 |
| LiquidRules.SpreadEach | src/liquid.js:129-150 | the spread transfers are the weighted shares of min(volume, totalDiff), one per flow neighbour, all in bounds |
| LiquidRules.SpreadDestinations | src/liquid.js:129-154 | each spread transfer goes to the left or right neighbour in the same row, which is in bounds and holds less |
| LiquidRules.SpreadAmounts | src/liquid.js:146-150 | no spread transfer is negative |
| LiquidRules.SpreadTargets | src/liquid.js:129-154 | each spread transfer is non-negative and goes sideways to an in-bounds lower neighbour |
| LiquidRules.SpreadTotal | src/liquid.js:146-154 | the spread moves between 0 and min(volume, totalDiff) / 2 ≤ volume / 2 in total |
| LiquidRules.PressureMoves | src/liquid.js:111-123 | the upward and downward pushes go to the adjacent in-bounds cell and are non-negative |
| LiquidRules.CellMoves | src/liquid.js:95-155 | a wall or a negative cell books nothing; with room below (not full), the whole volume falls one cell; every transfer is non-negative and goes to an adjacent in-bounds cell |
| LiquidRules.CellMovesSpread | src/liquid.js:109-154 | when the pushes leave a non-negative budget, the transfers are up push, down push, then the spread of that budget |
| LiquidRules.CellMovesOverdrawn | src/liquid.js:125-127 | when the pushes overdraw the budget, the cell books only the two pushes |
| LiquidRules.SpreadKeepsHalf | src/liquid.js:109-154 | after all its transfers the cell keeps at least half of the budget the pushes left: volume − total moved ≥ budget / 2 |
| LiquidRules.ApplyMovesAppend | src/liquid.js:95-155 | booking two lists of transfers one after the other is booking their concatenation |
| LiquidRules.ApplyMovesFrozen | src/liquid.js:104-105 | booking transfers changes only pending diffs, never a volume or a wall flag |
| LiquidRules.AddDiffCommute | src/liquid.js:113-114 | the two halves of a transfer can be booked in either order |
| LiquidRules.FrozenRules | src/liquid.js:95-155 | grids that agree on volumes and walls give every cell the same transfers, so the pass reads pre-tick volumes whatever was booked before |
| LiquidRules.EvalSeq | src/liquid.js:95-155 | the evaluate pass as a fold over the coordinates, booking each cell's transfers computed from the pre-tick grid; the grid keeps its shape |
| LiquidRules.EvalSeqStep | src/liquid.js:95-155 | one more coordinate of the pass books that cell's transfers, computed from the pre-tick grid |
| LiquidRules.EvalSeqFrozen | src/liquid.js:95-155 | the whole evaluate pass leaves every volume and wall flag as it was |
| LiquidRules.ApplyMovesBalanced | src/liquid.js:104-105 | every transfer takes from one cell what it gives another: the sum of pending diffs is unchanged |
| LiquidRules.EvalSeqBalanced | src/liquid.js:95-155 | the evaluate pass keeps the sum of pending diffs and the total volume |
| LiquidRules.CommittedTotals | src/liquid.js:157-161 | the commit pass adds the diff total to the volume total and leaves every diff zero |
| LiquidRules.Committed | src/liquid.js:157-161 | every cell's volume becomes volume + diff, its wall flag is kept and every diff is zero |
| LiquidRules.Tick | src/liquid.js:92-162 | evaluate then commit: the grid keeps its shape and every diff is zero afterwards |
| LiquidRules.TickConserves | src/liquid.js:92-162 | a tick's total volume is the old total plus the pending diffs, so a settled grid keeps its volume exactly |
| LiquidRules.EvaluateBalanced | src/liquid.js:95-155 | from a settled grid, the booked diffs sum to zero |
| LiquidRules.TickCell | src/liquid.js:157-161 | after a tick, a cell's volume is its old volume plus what the evaluate pass booked for it; its diff is zero and its wall flag is kept |
| Liquid.IsEmptyCellMeans | src/liquid.js:42-44 | a cell is empty exactly when it is in bounds and not a wall |
| Liquid.IsEmptyCell | src/liquid.js:42-44 | in bounds and not a wall |
| Liquid.Painted | src/liquid.js:79-89 | only the painted cell changes, and never a diff. The right button makes it a wall with volume 0, the left clears the wall and adds 100, and anything out of bounds or any other button changes nothing |
| Liquid.PaintedVolume | src/liquid.js:79-89 | painting changes the total volume by +100, by minus the wiped volume, or not at all, and keeps diffs settled |
| Liquid.WallReceivesVolume | src/liquid.js:103-106 | the gravity rule pours a cell's whole volume into a wall below it, since the destination's wall flag is never tested |
| Liquid.LiquidGrid.constructor | src/liquid.js:32-36 | a grid of empty cells, with every diff zero, and the list of all its coordinates |
| Liquid.LiquidGrid.AddToDiff | src/liquid.js:104-105 | one `+=`/`-=` on a cell's pending diff (also lines 113-114, 120-121 and 152-153) |
| Liquid.LiquidGrid.Transfer | src/liquid.js:152-153 | the source's diff drops by the amount and the destination's rises by it |
| Liquid.LiquidGrid.PushUp | src/liquid.js:111-116 | books the upward push, returns its amount, and changes no volume |
| Liquid.LiquidGrid.PushDown | src/liquid.js:118-123 | books the downward push, returns its amount, and changes no volume |
| Liquid.LiquidGrid.Pressure | src/liquid.js:109-123 | books both pushes and returns the volume minus both |
| Liquid.LiquidGrid.ShareWith | src/liquid.js:149-153 | books the i-th weighted share on top of the first i |
| Liquid.LiquidGrid.ShareOut | src/liquid.js:148-154 | books every weighted share, in flow order |
| Liquid.LiquidGrid.Spread | src/liquid.js:129-154 | books exactly the spread transfers for the given budget |
| Liquid.LiquidGrid.EvaluateCell | src/liquid.js:96-154 | books exactly `CellMoves` of the cell |
| Liquid.LiquidGrid.Evaluate | src/liquid.js:95-155 | the in-place pass over all coordinates equals `EvalSeq` of the pre-tick grid |
| Liquid.LiquidGrid.Commit | src/liquid.js:157-161 | the in-place commit equals `Committed` |
| Liquid.LiquidGrid.CommitAll | src/liquid.js:157-161 | once every coordinate is settled, the grid is the committed grid |
| Liquid.LiquidGrid.NextState | src/liquid.js:92-162 | one tick in place equals `Tick`, so every diff is zero afterwards and, by `TickConserves`, the total volume is kept |
| Liquid.LiquidGrid.Paint | src/liquid.js:79-89 | the in-place paint equals `Painted`, and a grid with zero diffs keeps them zero |
| Life.Dir | src/app.js:24-26 | the pairs of range(−1, 1) with range(−1, 1), x-major, without (0, 0); DirOffsets evaluates it |
| Life.DirOffsets | src/app.js:24-26 | the offsets built from range(−1, 1) without (0, 0) are the eight Moore offsets, in x-major order |
| Life.DirMembers | src/app.js:24-26 | an offset is listed exactly when both parts are in −1..1 and it is not (0, 0); the list is strictly increasing |
| Life.NeighborsFromMembers | src/app.js:84-90 | the filtered list holds only in-bounds shifted offsets, and every in-bounds shifted offset |
| Life.NeighborsFrom | src/app.js:84-90 | the reduce over the offsets, keeping each shifted offset that is in bounds: at most one entry per offset, every entry in bounds |
| Life.NeighborCoors | src/app.js:83-91 | the neighbour list over the eight offsets: at most 8 entries, all in bounds |
| Life.NeighborsFromBlock | src/app.js:83-91 | with exactly the Moore offsets, the list is the in-bounds part of the 3 × 3 block around the cell, without the cell |
| Life.NeighborCoorsMembers | src/app.js:83-91 | the neighbour list holds exactly the in-bounds cells of the 3 × 3 block around (x, y), other than (x, y) |
| Life.NeighborsFromOrdered | src/app.js:84-90 | filtering keeps offsets in increasing order |
| Life.NeighborCoorsOrdered | src/app.js:83-91 | the neighbour list is strictly increasing, so no neighbour is listed twice |
| Life.NeighborCoorsShape | src/app.js:93-97 | the neighbour list depends only on the grid's dimensions, which is why a cache keyed by x and y alone stays correct |
| Life.NeighborCount | src/app.js:83-91 | the list has (columns spanned) · (rows spanned) − 1 entries |
| Life.NeighborCountCases | src/app.js:83-91 | 8 neighbours inside, 5 on an edge (left, right, top or bottom), 3 in a corner |
| Life.AliveCountsSet | src/app.js:102-107 | counting the 1s along a repeat-free list gives the size of the set of live listed cells |
| Life.CountNeighborsAlive | src/app.js:99-108 | the number of listed neighbours holding 1, at most the number of neighbours and at most 8 |
| Life.CountIsLiveNeighbours | src/app.js:99-108 | the count is the number of live cells around (x, y), at most the number of neighbours, at most 8 |
| Life.ComputeNextState | src/app.js:110-112 | returns 0 or 1: 1 with three neighbours, 1 for a live cell with two, 0 otherwise |
| Life.LifeStep | src/app.js:114-120 | the next generation: same shape, every cell 0 or 1 |
| Life.LifeStepAt | src/app.js:115-118 | cell (x, y) of the next generation is the rule applied to the cell and its live-neighbour count |
| Life.LifeRule | src/app.js:114-120 | a next-generation cell is 1 exactly when three cells around it are live, or it is live and two are |
| Life.StepBinary | src/app.js:110-120 | the next generation is a 0/1 grid of the same shape |
| Life.LifeSim.constructor | src/app.js:62-73 | grid set to the seed, a zero buffer, the coordinate list and an empty neighbour cache |
| Life.LifeSim.CountNeighborsAliveAt | src/app.js:99-108 | the count through the cached neighbour list equals `CountNeighborsAlive`, and the cache stays correct |
| Life.LifeSim.NextState | src/app.js:114-120 | after the loop the buffer is the next generation of the grid and the grid is unchanged |
| Life.LifeSim.Tick | src/app.js:162-165 | after next state and swap, the grid is the next generation of the old grid and the buffer holds the old grid |

## Left out

- Rendering (`render` in both simulations), the animation loop, `setInterval`, `requestAnimationFrame` and the canvas: output and timing, not state rules. The body of each timer callback is modelled (`LiquidGrid.NextState`, `LifeSim.Tick`).
- The rxjs mouse streams and the conversion from pixel to cell coordinates: `LiquidGrid.Paint` takes the cell coordinates and the button number directly.
- Painting in the Life simulation (src/app.js:54-56): it writes 1 at an unchecked index. A column index outside the grid throws. An in-range column with y at or past the height lengthens that column, and for column 0 this changes the height the bounds test reads (src/app.js:80). Dafny sequences cannot grow by an out-of-range write, so this is not modelled.
- The random seeding of the Life grid (src/app.js:75-77) and `randInt`: randomness is a parameter. `LifeSim`'s constructor takes the initial grid.
- `lodash.clone` in `initArray`: Dafny values are immutable, so independent copies are the only possibility. The aliasing the clone prevents cannot arise.
- Floating point: volumes are exact reals, and the rounding of JavaScript doubles is not modelled. `Math.floor` is `Floor`, and `Math.min` is `Min`.
- Helpers.Memo.Call: it treats any stored entry as a hit. The source tests `!== undefined`, so a stored `undefined` would be recomputed. The neighbour lookup never returns `undefined`.
- Helpers.Memo: the default key `JSON.stringify(args)`, used when no key function is given, is not modelled. A key function is always supplied, as in the one use of `cacheFn`.
- The neighbour-cache key `${x}:${y}` is the pair (x, y). For integer coordinates the two are equal exactly when the pairs are.
- Helpers.InitArray: `num` is a natural number. `Array(num)` throws for a negative length.
- Helpers.Range: requires a positive step or an empty interval. Otherwise the source loop never ends.
- The fixed grid sizes (60 × 60 for the liquid, 150 × 75 for Life) are not modelled: the classes take any positive width and height.
- Walls: the intended design is that a wall never holds or receives volume. The code never tests a destination's wall flag, in either the gravity rule or the pushes and spread. The model follows the code, and `Liquid.WallReceivesVolume` exhibits a wall receiving volume. So no "walls stay empty" invariant is claimed.
