/** The liquid simulation's mutable state: a grid of cells updated in place
    by the tick and by painting. The tick is proved equal to the rule model in
    LiquidRules, whose lemmas carry conservation and the per-rule facts. */
module Liquid {
  import opened Grid
  import opened LiquidRules

  /** Mouse buttons, as reported by the event's `which`. */
  const LEFT_BUTTON: int := 1
  const RIGHT_BUTTON: int := 3

  /** The volume one left-button paint event pours into a cell. */
  const PAINT_VOLUME: real := 100.0

  /** A cell that is in bounds and is not a wall. */
  predicate IsEmptyCell(g: seq<seq<Cell>>, x: int, y: int)
    requires Rect(g)
  {
    WithinBounds(g, x, y) && !g[x][y].wall
  }

  /** A free cell is exactly an in-bounds cell whose wall flag is clear. */
  lemma IsEmptyCellMeans(g: seq<seq<Cell>>, x: int, y: int)
    requires Rect(g)
    ensures IsEmptyCell(g, x, y) <==> 0 <= x < |g| && 0 <= y < |g[x]| && !g[x][y].wall
  {
  }

  /** The grid after one paint event at (cx, cy): nothing outside the grid;
      the right button turns the cell into an empty wall; the left button
      clears the wall and pours in a full cell's worth; any other button
      does nothing. */
  function Painted(g: seq<seq<Cell>>, cx: int, cy: int, which: int): (r: seq<seq<Cell>>)
    requires Rect(g)
    ensures Rect(r) && |r| == |g| && |r[0]| == |g[0]|
    ensures forall x, y :: 0 <= x < |g| && 0 <= y < |g[0]| ==>
      r[x][y].diff == g[x][y].diff && (x != cx || y != cy ==> r[x][y] == g[x][y])
    ensures WithinBounds(g, cx, cy) && which == RIGHT_BUTTON ==> r[cx][cy].wall && r[cx][cy].val == 0.0
    ensures WithinBounds(g, cx, cy) && which == LEFT_BUTTON ==>
      !r[cx][cy].wall && r[cx][cy].val == g[cx][cy].val + PAINT_VOLUME
    ensures !WithinBounds(g, cx, cy) || (which != LEFT_BUTTON && which != RIGHT_BUTTON) ==> r == g
  {
    if !WithinBounds(g, cx, cy) then g
    else
      assert |g[cx]| == |g[0]|;
      var c := g[cx][cy];
      if which == RIGHT_BUTTON then g[cx := g[cx][cy := c.(wall := true, val := 0.0)]]
      else if which == LEFT_BUTTON then g[cx := g[cx][cy := c.(wall := false, val := c.val + PAINT_VOLUME)]]
      else g
  }

  /** Painting changes the total volume by exactly what it pours in or wipes
      out, and keeps a settled grid settled. */
  lemma {:induction false} PaintedVolume(g: seq<seq<Cell>>, cx: int, cy: int, which: int)
    requires Rect(g)
    ensures var r := Painted(g, cx, cy, which);
      GridSum(r, ValOf) == GridSum(g, ValOf) +
        (if !WithinBounds(g, cx, cy) then 0.0
         else if which == RIGHT_BUTTON then -g[cx][cy].val
         else if which == LEFT_BUTTON then PAINT_VOLUME
         else 0.0)
    ensures Settled(g) ==> Settled(Painted(g, cx, cy, which))
  {
    if WithinBounds(g, cx, cy) && (which == LEFT_BUTTON || which == RIGHT_BUTTON) {
      assert |g[cx]| == |g[0]|;
      var c := g[cx][cy];
      var c' := if which == RIGHT_BUTTON then c.(wall := true, val := 0.0) else c.(wall := false, val := c.val + PAINT_VOLUME);
      RowSumUpdate(g[cx], cy, c', ValOf);
      GridSumUpdate(g, cx, g[cx][cy := c'], ValOf);
    }
  }

  /** The rules never test a destination's wall flag: with room below, a cell
      pours its whole volume into a wall. */
  lemma WallReceivesVolume()
    ensures var g := [[Cell(50.0, 0.0, false), Cell(0.0, 0.0, true)]];
      CellMoves(g, 0, 0) == [Move((0, 1), 50.0)]
  {
    var g: seq<seq<Cell>> := [[Cell(50.0, 0.0, false), Cell(0.0, 0.0, true)]];
    assert WithinBounds(g, 0, 1) && g[0][1].val < FULL;
  }

  class LiquidGrid {
    const width: nat
    const height: nat
    /** Every coordinate, in the fixed order both passes visit them. */
    const coords: seq<(int, int)>
    var cells: seq<seq<Cell>>

    ghost predicate Valid()
      reads this
    {
      width > 0 && height > 0 && Shaped(cells, width, height)
      && (forall p :: p in coords <==> 0 <= p.0 < width && 0 <= p.1 < height)
    }

    /** A grid of empty cells and the list of its coordinates. */
    constructor (w: nat, h: nat)
      requires w > 0 && h > 0
      ensures Valid() && width == w && height == h
      ensures cells == InitGrid(w, h, EMPTY_CELL) && coords == GridCoords(cells)
      ensures Settled(cells)
    {
      width, height := w, h;
      var g := InitGrid(w, h, EMPTY_CELL);
      cells := g;
      coords := GridCoords(g);
      new;
      GridCoordsMembers(cells);
      assert |cells[0]| == h;
    }

    /** The `+=` on one cell's pending diff. */
    method AddToDiff(p: (int, int), a: real)
      requires Valid() && InGrid(cells, p)
      modifies this
      ensures Valid() && cells == AddDiff(old(cells), p, a)
    {
      var c := cells[p.0][p.1];
      cells := cells[p.0 := cells[p.0][p.1 := c.(diff := c.diff + a)]];
    }

    /** One transfer booked in the diffs: the source gives `amount`, the
        destination receives it. */
    method Transfer(src: (int, int), dst: (int, int), amount: real)
      requires Valid() && InGrid(cells, src) && InGrid(cells, dst)
      modifies this
      ensures Valid() && cells == ApplyMove(old(cells), src, Move(dst, amount))
    {
      AddToDiff(src, -amount);
      AddToDiff(dst, amount);
    }

    /** The evaluate step of one cell: books, in the diffs, exactly the
        transfers the rules give for it. */
    method EvaluateCell(x: int, y: int)
      requires Valid() && InGrid(cells, (x, y))
      modifies this
      ensures Valid() && cells == ApplyMoves(old(cells), (x, y), CellMoves(old(cells), x, y))
    {
      ghost var g := cells;
      var cell := cells[x][y];
      var val := cell.val;

      if cell.wall || val < 0.0 {
        return;
      }

      if WithinBounds(cells, x, y + 1) && cells[x][y + 1].val < FULL {
        AddToDiff((x, y), -val);
        AddToDiff((x, y + 1), val);
        assert CellMoves(g, x, y) == [] + [Move((x, y + 1), val)];
        ApplyMovesSnoc(g, (x, y), [], Move((x, y + 1), val));
        return;
      }

      var volume := Pressure(x, y);
      if volume < 0.0 {
        CellMovesOverdrawn(g, x, y);
        return;
      }
      ghost var g1 := cells;
      FrozenFlow(g1, g, x, y);
      Spread(x, y, volume);
      CellMovesSpread(g, x, y, volume);
      PressureMoves(g, x, y);
      SpreadDestinations(g, x, y, volume);
      ApplyMovesAppend(g, (x, y), UpMove(g, x, y) + DownMove(g, x, y), SpreadMoves(g, x, y, volume));
    }

    /** The upward and downward pressure rules of one cell that neither is a
        wall nor has room below; the result is the budget they leave. */
    method Pressure(x: int, y: int) returns (volume: real)
      requires Valid() && InGrid(cells, (x, y))
      modifies this
      ensures Valid() && Frozen(cells, old(cells))
      ensures MovesInGrid(old(cells), UpMove(old(cells), x, y) + DownMove(old(cells), x, y))
      ensures cells == ApplyMoves(old(cells), (x, y), UpMove(old(cells), x, y) + DownMove(old(cells), x, y))
      ensures volume == old(cells)[x][y].val - Total(UpMove(old(cells), x, y)) - Total(DownMove(old(cells), x, y))
    {
      ghost var g := cells;
      PressureMoves(g, x, y);
      volume := cells[x][y].val;
      var up := PushUp(x, y);
      volume := volume - up;
      ghost var g1 := cells;
      FrozenPressure(g1, g, x, y);
      var down := PushDown(x, y);
      volume := volume - down;
      FrozenTrans(cells, g1, g);
      ApplyMovesAppend(g, (x, y), UpMove(g, x, y), DownMove(g, x, y));
    }

    /** Upward pressure: an over-full cell pushes a tenth of the difference,
        rounded down, into a lower cell above it. Returns the amount moved. */
    method PushUp(x: int, y: int) returns (moved: real)
      requires Valid() && InGrid(cells, (x, y))
      modifies this
      ensures Valid() && Frozen(cells, old(cells))
      ensures cells == ApplyMoves(old(cells), (x, y), UpMove(old(cells), x, y))
      ensures moved == Total(UpMove(old(cells), x, y))
    {
      ghost var g := cells;
      PressureMoves(g, x, y);
      var cell := cells[x][y];
      var val := cell.val;
      moved := 0.0;
      if WithinBounds(cells, x, y - 1) && cells[x][y - 1].val < cell.val && cell.val > FULL {
        var diff := Floor((val - cells[x][y - 1].val) / 10.0);
        AddToDiff((x, y - 1), diff);
        AddToDiff((x, y), -diff);
        moved := diff;
        AddDiffCommute(g, (x, y - 1), (x, y), diff, -diff);
        ApplyMovesSnoc(g, (x, y), [], Move((x, y - 1), diff));
        assert UpMove(g, x, y) == [] + [Move((x, y - 1), diff)];
      }
      ApplyMovesFrozen(g, (x, y), UpMove(g, x, y));
    }

    /** Downward pressure: a cell pushes a fifth of the difference, rounded
        down, into a lower cell below it. Returns the amount moved. */
    method PushDown(x: int, y: int) returns (moved: real)
      requires Valid() && InGrid(cells, (x, y))
      modifies this
      ensures Valid() && Frozen(cells, old(cells))
      ensures cells == ApplyMoves(old(cells), (x, y), DownMove(old(cells), x, y))
      ensures moved == Total(DownMove(old(cells), x, y))
    {
      ghost var g := cells;
      PressureMoves(g, x, y);
      var cell := cells[x][y];
      var val := cell.val;
      moved := 0.0;
      if WithinBounds(cells, x, y + 1) && cells[x][y + 1].val < cell.val {
        var diff := Floor((val - cells[x][y + 1].val) / 5.0);
        AddToDiff((x, y + 1), diff);
        AddToDiff((x, y), -diff);
        moved := diff;
        AddDiffCommute(g, (x, y + 1), (x, y), diff, -diff);
        ApplyMovesSnoc(g, (x, y), [], Move((x, y + 1), diff));
        assert DownMove(g, x, y) == [] + [Move((x, y + 1), diff)];
      }
      ApplyMovesFrozen(g, (x, y), DownMove(g, x, y));
    }

    /** Horizontal spreading of the budget `volume` to the lower left and
        right neighbours. */
    method Spread(x: int, y: int, volume: real)
      requires Valid() && InGrid(cells, (x, y)) && volume >= 0.0
      modifies this
      ensures Valid()
      ensures cells == ApplyMoves(old(cells), (x, y), SpreadMoves(old(cells), x, y, volume))
    {
      var flowCoors := FlowCoors(cells, x, y);
      var diffs := FlowDiffs(cells, x, y, flowCoors);
      var totalDiff := Sum(diffs);
      var finalDiff := Min(volume, totalDiff);
      SpreadEach(cells, x, y, volume);
      ShareOut(x, y, flowCoors, diffs, finalDiff, totalDiff);
    }

    /** Books the i-th flow neighbour's share of finalDiff: the i-th of the
        weighted transfers, applied after the first i. */
    method ShareWith(x: int, y: int, flowCoors: seq<(int, int)>, diffs: seq<real>, finalDiff: real, totalDiff: real,
                     i: nat, ghost g: seq<seq<Cell>>)
      requires Valid() && InGrid(g, (x, y))
      requires |flowCoors| == |diffs| && (|diffs| > 0 ==> totalDiff > 0.0) && i < |diffs|
      requires MovesInGrid(g, Weighted(x, y, flowCoors, diffs, finalDiff, totalDiff))
      requires MovesInGrid(g, Weighted(x, y, flowCoors, diffs, finalDiff, totalDiff)[..i])
      requires cells == ApplyMoves(g, (x, y), Weighted(x, y, flowCoors, diffs, finalDiff, totalDiff)[..i])
      modifies this
      ensures Valid() && MovesInGrid(g, Weighted(x, y, flowCoors, diffs, finalDiff, totalDiff)[..i + 1])
      ensures cells == ApplyMoves(g, (x, y), Weighted(x, y, flowCoors, diffs, finalDiff, totalDiff)[..i + 1])
    {
      ghost var spread := Weighted(x, y, flowCoors, diffs, finalDiff, totalDiff);
      var (dx, dy) := flowCoors[i];
      var weightedDiff := Share(finalDiff, diffs[i], totalDiff);
      WeightedEntry(x, y, flowCoors, diffs, finalDiff, totalDiff, i);
      ApplyMovesNext(g, (x, y), spread, i, cells, (x + dx, y + dy), weightedDiff);
      Transfer((x, y), (x + dx, y + dy), weightedDiff);
    }

    /** Books the share of finalDiff of each flow neighbour, in flow order. */
    method ShareOut(x: int, y: int, flowCoors: seq<(int, int)>, diffs: seq<real>, finalDiff: real, totalDiff: real)
      requires Valid() && InGrid(cells, (x, y))
      requires |flowCoors| == |diffs| && (|diffs| > 0 ==> totalDiff > 0.0)
      requires MovesInGrid(cells, Weighted(x, y, flowCoors, diffs, finalDiff, totalDiff))
      modifies this
      ensures Valid()
      ensures cells == ApplyMoves(old(cells), (x, y), Weighted(x, y, flowCoors, diffs, finalDiff, totalDiff))
    {
      ghost var g := cells;
      ghost var spread := Weighted(x, y, flowCoors, diffs, finalDiff, totalDiff);
      PrefixMovesInGrid(g, spread, 0);
      assert spread[..0] == [];

      var i := 0;
      while i < |diffs|
        invariant 0 <= i <= |diffs|
        invariant Valid()
        invariant MovesInGrid(g, spread[..i])
        invariant cells == ApplyMoves(g, (x, y), spread[..i])
      {
        ShareWith(x, y, flowCoors, diffs, finalDiff, totalDiff, i, g);
        i := i + 1;
      }
      assert spread[..i] == spread;
    }

    /** One tick: the evaluate pass, then the commit pass. The result is the
        rule model's tick. */
    method NextState()
      requires Valid()
      modifies this
      ensures Valid() && cells == Tick(old(cells), coords)
      ensures Settled(cells)
    {
      Evaluate();
      Commit();
    }

    /** The evaluate pass: every cell's transfers are booked from the pre-tick
        volumes, in coordinate order. */
    method Evaluate()
      requires Valid()
      modifies this
      ensures Valid() && (forall p :: p in coords ==> InGrid(old(cells), p))
      ensures cells == EvalSeq(old(cells), coords)
    {
      ghost var g0 := cells;
      assert forall p :: p in coords ==> InGrid(g0, p);
      var i := 0;
      while i < |coords|
        invariant 0 <= i <= |coords|
        invariant Valid()
        invariant cells == EvalSeq(g0, coords[..i])
      {
        var p := coords[i];
        EvalSeqStep(g0, coords, i);
        EvaluateCell(p.0, p.1);
        i := i + 1;
      }
      assert coords[..i] == coords;
    }

    /** The commit pass: every cell's diff joins its volume and is reset. */
    method Commit()
      requires Valid()
      modifies this
      ensures Valid() && cells == Committed(old(cells))
    {
      ghost var g1 := cells;
      var i := 0;
      while i < |coords|
        invariant 0 <= i <= |coords|
        invariant Valid()
        invariant forall a, b :: 0 <= a < width && 0 <= b < height ==>
          cells[a][b] == if (a, b) in coords[..i] then Settle(g1[a][b]) else g1[a][b]
      {
        var (x, y) := coords[i];
        assert coords[i] in coords;
        var cell := cells[x][y];
        cell := cell.(val := cell.val + cell.diff);
        cell := cell.(diff := 0.0);
        cells := cells[x := cells[x][y := cell]];
        assert coords[..i + 1] == coords[..i] + [coords[i]];
        i := i + 1;
      }
      assert coords[..i] == coords;
      CommitAll(g1);
    }

    /** Every coordinate has been committed: the grid is the commit pass's
        result. */
    lemma CommitAll(g1: seq<seq<Cell>>)
      requires Valid() && Shaped(g1, width, height)
      requires forall a, b :: 0 <= a < width && 0 <= b < height ==>
        cells[a][b] == if (a, b) in coords then Settle(g1[a][b]) else g1[a][b]
      ensures cells == Committed(g1)
    {
      var r := Committed(g1);
      forall a | 0 <= a < width
        ensures cells[a] == r[a]
      {
        forall b | 0 <= b < height
          ensures cells[a][b] == r[a][b]
        {
          assert InGrid(cells, (a, b));
        }
      }
    }

    /** A paint event at (cx, cy) with mouse button `which`. */
    method Paint(cx: int, cy: int, which: int)
      requires Valid()
      modifies this
      ensures Valid() && cells == Painted(old(cells), cx, cy, which)
      ensures Settled(old(cells)) ==> Settled(cells)
    {
      PaintedVolume(cells, cx, cy, which);
      if !WithinBounds(cells, cx, cy) {
        return;
      }
      var c := cells[cx][cy];
      if which == RIGHT_BUTTON {
        c := c.(wall := true);
        c := c.(val := 0.0);
        cells := cells[cx := cells[cx][cy := c]];
      } else if which == LEFT_BUTTON {
        c := c.(wall := false);
        c := c.(val := c.val + PAINT_VOLUME);
        cells := cells[cx := cells[cx][cy := c]];
      }
    }
  }
}
