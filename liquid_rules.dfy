/** The flow rules of the liquid simulation as functions of a grid snapshot.
    A tick has an evaluate pass, which only accumulates paired transfers into
    each cell's pending `diff`, and a commit pass, which folds `diff` into
    `val`. Volumes are exact reals; Math.floor is Real.Floor. */
module LiquidRules {
  import opened Grid

  /** A cell holding this much or more no longer takes a free fall from above;
      a cell holding more than this pushes liquid upwards. */
  const FULL: real := 100.0

  /** Volume, pending change for the current tick, and the obstacle flag (an
      absent `wall` property reads as false). */
  datatype Cell = Cell(val: real, diff: real, wall: bool)

  /** The cell every grid starts with. */
  const EMPTY_CELL := Cell(0.0, 0.0, false)

  function ValOf(c: Cell): real { c.val }

  function DiffOf(c: Cell): real { c.diff }

  function Floor(r: real): real { r.Floor as real }

  function Min(a: real, b: real): real { if a < b then a else b }

  /** One transfer out of a cell: `amount` leaves the source and arrives at `to`. */
  datatype Move = Move(to: (int, int), amount: real)

  predicate Adjacent(p: (int, int), q: (int, int)) {
    (p.0 == q.0 && (p.1 - q.1 == 1 || q.1 - p.1 == 1)) ||
    (p.1 == q.1 && (p.0 - q.0 == 1 || q.0 - p.0 == 1))
  }

  predicate InGrid(g: seq<seq<Cell>>, p: (int, int)) {
    Rect(g) && WithinBounds(g, p.0, p.1)
  }

  predicate MovesInGrid(g: seq<seq<Cell>>, ms: seq<Move>) {
    forall m :: m in ms ==> InGrid(g, m.to)
  }

  /** a and b have the same shape and agree on every volume and wall flag:
      they differ at most in pending diffs. */
  predicate Frozen(a: seq<seq<Cell>>, b: seq<seq<Cell>>) {
    |a| == |b| &&
    forall x :: 0 <= x < |a| ==>
      |a[x]| == |b[x]| &&
      forall y :: 0 <= y < |a[x]| ==> a[x][y].val == b[x][y].val && a[x][y].wall == b[x][y].wall
  }

  /** Every pending diff is zero: the state between ticks. */
  predicate Settled(g: seq<seq<Cell>>) {
    forall x, y :: 0 <= x < |g| && 0 <= y < |g[x]| ==> g[x][y].diff == 0.0
  }

  // ---------------------------------------------------------------------
  // The evaluate pass: the transfers one cell originates

  /** Pressure pushes liquid upwards when the cell above holds less and this
      cell is over full: a tenth of the difference, rounded down. */
  function UpMove(g: seq<seq<Cell>>, x: int, y: int): (ms: seq<Move>)
    requires InGrid(g, (x, y))
    ensures |ms| <= 1
    ensures ms != [] <==> WithinBounds(g, x, y - 1) && g[x][y - 1].val < g[x][y].val && g[x][y].val > FULL
    ensures ms != [] ==>
      ms[0].to == (x, y - 1) &&
      0.0 <= ms[0].amount <= (g[x][y].val - g[x][y - 1].val) / 10.0 < ms[0].amount + 1.0
  {
    var val := g[x][y].val;
    if WithinBounds(g, x, y - 1) && g[x][y - 1].val < val && val > FULL
    then [Move((x, y - 1), Floor((val - g[x][y - 1].val) / 10.0))]
    else []
  }

  /** Pressure pushes liquid downwards when the cell below holds less: a fifth
      of the difference, rounded down. */
  function DownMove(g: seq<seq<Cell>>, x: int, y: int): (ms: seq<Move>)
    requires InGrid(g, (x, y))
    ensures |ms| <= 1
    ensures ms != [] <==> WithinBounds(g, x, y + 1) && g[x][y + 1].val < g[x][y].val
    ensures ms != [] ==>
      ms[0].to == (x, y + 1) &&
      0.0 <= ms[0].amount <= (g[x][y].val - g[x][y + 1].val) / 5.0 < ms[0].amount + 1.0
  {
    var val := g[x][y].val;
    if WithinBounds(g, x, y + 1) && g[x][y + 1].val < val
    then [Move((x, y + 1), Floor((val - g[x][y + 1].val) / 5.0))]
    else []
  }

  /** The offsets, among right (1, 0) then left (-1, 0), of in-bounds
      neighbours holding strictly less than the cell. */
  function FlowCoors(g: seq<seq<Cell>>, x: int, y: int): (fs: seq<(int, int)>)
    requires InGrid(g, (x, y))
    ensures |fs| <= 2
    ensures (1, 0) in fs <==> WithinBounds(g, x + 1, y) && g[x][y].val > g[x + 1][y].val
    ensures (-1, 0) in fs <==> WithinBounds(g, x - 1, y) && g[x][y].val > g[x - 1][y].val
    ensures |fs| == 2 ==> fs == [(1, 0), (-1, 0)]
    ensures forall f :: f in fs ==>
      ((f == (1, 0) || f == (-1, 0)) && InGrid(g, (x + f.0, y + f.1)) && g[x][y].val > g[x + f.0][y + f.1].val)
  {
    var val := g[x][y].val;
    (if WithinBounds(g, x + 1, y) && val > g[x + 1][y].val then [(1, 0)] else []) +
    (if WithinBounds(g, x - 1, y) && val > g[x - 1][y].val then [(-1, 0)] else [])
  }

  /** How much less the neighbour at offset f holds than the cell. */
  function Gap(g: seq<seq<Cell>>, x: int, y: int, f: (int, int)): real
    requires InGrid(g, (x, y)) && InGrid(g, (x + f.0, y + f.1))
  {
    assert |g[x + f.0]| == |g[0]|;
    g[x][y].val - g[x + f.0][y + f.1].val
  }

  /** The gaps to each flow neighbour, in flow order. */
  function FlowDiffs(g: seq<seq<Cell>>, x: int, y: int, fs: seq<(int, int)>): (ds: seq<real>)
    requires InGrid(g, (x, y))
    requires forall i :: 0 <= i < |fs| ==> InGrid(g, (x + fs[i].0, y + fs[i].1))
    ensures |ds| == |fs|
    ensures forall i :: 0 <= i < |fs| ==> ds[i] == Gap(g, x, y, fs[i])
  {
    if fs == [] then [] else [Gap(g, x, y, fs[0])] + FlowDiffs(g, x, y, fs[1..])
  }

  function Sum(s: seq<real>): real {
    if s == [] then 0.0 else s[0] + Sum(s[1..])
  }

  /** Amounts moved by a list of transfers. */
  function Total(ms: seq<Move>): real {
    if ms == [] then 0.0 else ms[0].amount + Total(ms[1..])
  }

  /** A neighbour's share of finalDiff: in proportion to its difference,
      rounded down, then halved. */
  function Share(finalDiff: real, diff: real, totalDiff: real): real
    requires totalDiff > 0.0
  {
    Floor(finalDiff * (diff / totalDiff)) / 2.0
  }

  /** The horizontal transfers, one per flow neighbour, in flow order: the
      k-th goes to the k-th neighbour and carries its share. */
  function Weighted(x: int, y: int, fs: seq<(int, int)>, ds: seq<real>, finalDiff: real, totalDiff: real): (ms: seq<Move>)
    requires |fs| == |ds|
    requires |ds| > 0 ==> totalDiff > 0.0
    ensures |ms| == |fs|
    ensures forall i :: 0 <= i < |ms| ==> ms[i].to == (x + fs[i].0, y + fs[i].1)
  {
    seq(|fs|, k requires 0 <= k < |fs| => Move((x + fs[k].0, y + fs[k].1), Share(finalDiff, ds[k], totalDiff)))
  }

  /** The k-th horizontal transfer goes to the k-th flow neighbour with
      that neighbour's share. */
  lemma WeightedEntry(x: int, y: int, fs: seq<(int, int)>, ds: seq<real>, finalDiff: real, totalDiff: real, k: int)
    requires |fs| == |ds| && (|ds| > 0 ==> totalDiff > 0.0) && 0 <= k < |fs|
    ensures Weighted(x, y, fs, ds, finalDiff, totalDiff)[k] == Move((x + fs[k].0, y + fs[k].1), Share(finalDiff, ds[k], totalDiff))
  {
  }

  /** The transfers after the first are those of the remaining neighbours. */
  lemma WeightedTail(x: int, y: int, fs: seq<(int, int)>, ds: seq<real>, finalDiff: real, totalDiff: real)
    requires |fs| == |ds| && |ds| > 0 && totalDiff > 0.0
    ensures var ms := Weighted(x, y, fs, ds, finalDiff, totalDiff);
      ms[0] == Move((x + fs[0].0, y + fs[0].1), Share(finalDiff, ds[0], totalDiff)) &&
      ms[1..] == Weighted(x, y, fs[1..], ds[1..], finalDiff, totalDiff)
  {
    var ms := Weighted(x, y, fs, ds, finalDiff, totalDiff);
    var rest := Weighted(x, y, fs[1..], ds[1..], finalDiff, totalDiff);
    assert |ms[1..]| == |rest|;
    forall k | 0 <= k < |rest|
      ensures ms[1..][k] == rest[k]
    {
      assert fs[1..][k] == fs[k + 1] && ds[1..][k] == ds[k + 1];
    }
  }

  /** The difference to every flow neighbour is positive, so their sum is
      positive whenever there is a flow neighbour: the proportional division
      never divides by zero. */
  lemma SpreadDivisorPositive(g: seq<seq<Cell>>, x: int, y: int)
    requires InGrid(g, (x, y))
    ensures var fs := FlowCoors(g, x, y);
      var ds := FlowDiffs(g, x, y, fs);
      (forall i :: 0 <= i < |ds| ==> ds[i] > 0.0) && (fs != [] ==> Sum(ds) > 0.0) && Sum(ds) >= 0.0
  {
    var fs := FlowCoors(g, x, y);
    var ds := FlowDiffs(g, x, y, fs);
    forall i | 0 <= i < |ds|
      ensures ds[i] > 0.0
    {
      assert fs[i] in fs;
    }
    SumPositive(ds);
  }

  lemma {:induction false} SumPositive(ds: seq<real>)
    requires forall i :: 0 <= i < |ds| ==> ds[i] > 0.0
    ensures Sum(ds) >= 0.0 && (ds != [] ==> Sum(ds) > 0.0)
  {
    if ds != [] {
      assert forall i :: 0 <= i < |ds[1..]| ==> ds[1..][i] == ds[i + 1];
      SumPositive(ds[1..]);
    }
  }

  /** Horizontal spreading with the budget `volume` left after the pressure
      rules. */
  function SpreadMoves(g: seq<seq<Cell>>, x: int, y: int, volume: real): (ms: seq<Move>)
    requires InGrid(g, (x, y)) && volume >= 0.0
    ensures |ms| == |FlowCoors(g, x, y)| <= 2
  {
    var fs := FlowCoors(g, x, y);
    var ds := FlowDiffs(g, x, y, fs);
    SpreadDivisorPositive(g, x, y);
    var totalDiff := Sum(ds);
    Weighted(x, y, fs, ds, Min(volume, totalDiff), totalDiff)
  }

  lemma FloorNonneg(r: real)
    requires r >= 0.0
    ensures 0.0 <= Floor(r) <= r
  {
  }

  /** A share is non-negative and at most half of the exact proportional
      amount: rounding down only ever loses liquid. */
  lemma ShareBounds(finalDiff: real, diff: real, totalDiff: real)
    requires finalDiff >= 0.0 && diff > 0.0 && totalDiff > 0.0
    ensures 0.0 <= Share(finalDiff, diff, totalDiff) <= finalDiff * (diff / totalDiff) / 2.0
  {
    var q := diff / totalDiff;
    assert q > 0.0;
    assert finalDiff * q >= 0.0;
    FloorNonneg(finalDiff * q);
  }

  /** Every horizontal transfer is the neighbour's share, hence non-negative. */
  lemma WeightedShares(x: int, y: int, fs: seq<(int, int)>, ds: seq<real>, fd: real, totalDiff: real)
    requires |fs| == |ds| && totalDiff > 0.0 && fd >= 0.0
    requires forall i :: 0 <= i < |ds| ==> ds[i] > 0.0
    ensures var ms := Weighted(x, y, fs, ds, fd, totalDiff);
      forall i :: 0 <= i < |ms| ==> ms[i].amount == Share(fd, ds[i], totalDiff) && ms[i].amount >= 0.0
  {
    var ms := Weighted(x, y, fs, ds, fd, totalDiff);
    forall i | 0 <= i < |ms|
      ensures ms[i].amount == Share(fd, ds[i], totalDiff) && ms[i].amount >= 0.0
    {
      ShareBounds(fd, ds[i], totalDiff);
    }
  }

  lemma SplitQuotient(a: real, b: real, t: real)
    requires t > 0.0
    ensures a / t + b / t == (a + b) / t
  {
  }

  lemma Distribute(f: real, p: real, q: real)
    ensures f * p + f * q == f * (p + q)
  {
  }

  /** The horizontal transfers add up to at most half of fd times the fraction
      Sum(ds) / totalDiff of the total difference they cover. */
  lemma {:induction false} WeightedTotal(x: int, y: int, fs: seq<(int, int)>, ds: seq<real>, fd: real, totalDiff: real)
    requires |fs| == |ds| && totalDiff > 0.0 && fd >= 0.0
    requires forall i :: 0 <= i < |ds| ==> ds[i] > 0.0
    ensures 0.0 <= Total(Weighted(x, y, fs, ds, fd, totalDiff)) <= fd * (Sum(ds) / totalDiff) / 2.0
  {
    if fs != [] {
      var ms := Weighted(x, y, fs, ds, fd, totalDiff);
      var rest := Weighted(x, y, fs[1..], ds[1..], fd, totalDiff);
      WeightedTail(x, y, fs, ds, fd, totalDiff);
      WeightedTotal(x, y, fs[1..], ds[1..], fd, totalDiff);
      ShareBounds(fd, ds[0], totalDiff);
      assert Total(ms) == Share(fd, ds[0], totalDiff) + Total(rest);
      SplitQuotient(ds[0], Sum(ds[1..]), totalDiff);
      Distribute(fd, ds[0] / totalDiff, Sum(ds[1..]) / totalDiff);
    }
  }

  /** Each flow offset points at an in-bounds left or right neighbour holding
      less. */
  lemma FlowTargets(g: seq<seq<Cell>>, x: int, y: int)
    requires InGrid(g, (x, y))
    ensures var fs := FlowCoors(g, x, y);
      forall i :: 0 <= i < |fs| ==>
        fs[i].1 == 0 && (fs[i].0 == 1 || fs[i].0 == -1)
        && InGrid(g, (x + fs[i].0, y + fs[i].1)) && g[x + fs[i].0][y + fs[i].1].val < g[x][y].val
  {
    var fs := FlowCoors(g, x, y);
    forall i | 0 <= i < |fs|
      ensures fs[i].1 == 0 && (fs[i].0 == 1 || fs[i].0 == -1)
      ensures InGrid(g, (x + fs[i].0, y + fs[i].1)) && g[x + fs[i].0][y + fs[i].1].val < g[x][y].val
    {
      assert fs[i] in fs;
    }
  }

  /** Each horizontal transfer goes to an in-bounds left or right neighbour
      holding less. */
  lemma SpreadDestinations(g: seq<seq<Cell>>, x: int, y: int, volume: real)
    requires InGrid(g, (x, y)) && volume >= 0.0
    ensures var ms := SpreadMoves(g, x, y, volume);
      forall i :: 0 <= i < |ms| ==>
        ms[i].to.1 == y && (ms[i].to.0 == x + 1 || ms[i].to.0 == x - 1)
        && InGrid(g, ms[i].to) && g[ms[i].to.0][ms[i].to.1].val < g[x][y].val
  {
    var fs := FlowCoors(g, x, y);
    var ds := FlowDiffs(g, x, y, fs);
    SpreadDivisorPositive(g, x, y);
    var totalDiff := Sum(ds);
    assert Weighted(x, y, fs, ds, Min(volume, totalDiff), totalDiff) == SpreadMoves(g, x, y, volume);
    FlowTargets(g, x, y);
    WeightedDestinations(g, x, y, fs, ds, Min(volume, totalDiff), totalDiff);
  }

  /** Transfers along offsets that each point at an in-bounds left or right
      neighbour holding less go to such neighbours. */
  lemma WeightedDestinations(g: seq<seq<Cell>>, x: int, y: int, fs: seq<(int, int)>, ds: seq<real>, fd: real, totalDiff: real)
    requires InGrid(g, (x, y)) && |fs| == |ds| && (|ds| > 0 ==> totalDiff > 0.0)
    requires forall i :: 0 <= i < |fs| ==>
      fs[i].1 == 0 && (fs[i].0 == 1 || fs[i].0 == -1)
      && InGrid(g, (x + fs[i].0, y + fs[i].1)) && g[x + fs[i].0][y + fs[i].1].val < g[x][y].val
    ensures var ms := Weighted(x, y, fs, ds, fd, totalDiff);
      forall i :: 0 <= i < |ms| ==>
        ms[i].to.1 == y && (ms[i].to.0 == x + 1 || ms[i].to.0 == x - 1)
        && InGrid(g, ms[i].to) && g[ms[i].to.0][ms[i].to.1].val < g[x][y].val
  {
    var ms := Weighted(x, y, fs, ds, fd, totalDiff);
    forall i | 0 <= i < |ms|
      ensures ms[i].to.1 == y && (ms[i].to.0 == x + 1 || ms[i].to.0 == x - 1)
      ensures InGrid(g, ms[i].to) && g[ms[i].to.0][ms[i].to.1].val < g[x][y].val
    {
      assert ms[i].to == (x + fs[i].0, y + fs[i].1);
    }
  }

  /** Each horizontal transfer is the neighbour's share, hence non-negative. */
  lemma SpreadAmounts(g: seq<seq<Cell>>, x: int, y: int, volume: real)
    requires InGrid(g, (x, y)) && volume >= 0.0
    ensures var ms := SpreadMoves(g, x, y, volume);
      forall i :: 0 <= i < |ms| ==> ms[i].amount >= 0.0
  {
    var fs := FlowCoors(g, x, y);
    var ds := FlowDiffs(g, x, y, fs);
    SpreadDivisorPositive(g, x, y);
    var totalDiff := Sum(ds);
    var fd := Min(volume, totalDiff);
    assert Weighted(x, y, fs, ds, fd, totalDiff) == SpreadMoves(g, x, y, volume);
    if fs != [] {
      WeightedShares(x, y, fs, ds, fd, totalDiff);
    }
  }

  /** Each horizontal transfer is non-negative and goes to an in-bounds left
      or right neighbour holding less. */
  lemma SpreadTargets(g: seq<seq<Cell>>, x: int, y: int, volume: real)
    requires InGrid(g, (x, y)) && volume >= 0.0
    ensures var ms := SpreadMoves(g, x, y, volume);
      forall i :: 0 <= i < |ms| ==>
        ms[i].amount >= 0.0 && ms[i].to.1 == y && (ms[i].to.0 == x + 1 || ms[i].to.0 == x - 1)
        && InGrid(g, ms[i].to) && g[ms[i].to.0][ms[i].to.1].val < g[x][y].val
  {
    SpreadDestinations(g, x, y, volume);
    SpreadAmounts(g, x, y, volume);
  }

  /** The horizontal transfers are the weighted shares over the flow
      neighbours, one per neighbour, all to cells in the grid, with a positive
      divisor whenever there is a neighbour. */
  lemma SpreadEach(g: seq<seq<Cell>>, x: int, y: int, volume: real)
    requires InGrid(g, (x, y)) && volume >= 0.0
    ensures var fs := FlowCoors(g, x, y);
      var ds := FlowDiffs(g, x, y, fs);
      var ms := SpreadMoves(g, x, y, volume);
      && MovesInGrid(g, ms) && |ms| == |fs| == |ds|
      && (fs != [] ==> Sum(ds) > 0.0)
      && ms == Weighted(x, y, fs, ds, Min(volume, Sum(ds)), Sum(ds))
  {
    var fs := FlowCoors(g, x, y);
    var ds := FlowDiffs(g, x, y, fs);
    var ms := SpreadMoves(g, x, y, volume);
    SpreadDivisorPositive(g, x, y);
    assert ms == Weighted(x, y, fs, ds, Min(volume, Sum(ds)), Sum(ds));
    SpreadInGrid(g, x, y, volume);
  }

  lemma SpreadInGrid(g: seq<seq<Cell>>, x: int, y: int, volume: real)
    requires InGrid(g, (x, y)) && volume >= 0.0
    ensures MovesInGrid(g, SpreadMoves(g, x, y, volume))
  {
    var ms := SpreadMoves(g, x, y, volume);
    SpreadDestinations(g, x, y, volume);
    forall m | m in ms
      ensures InGrid(g, m.to)
    {
      var i :| 0 <= i < |ms| && ms[i] == m;
    }
  }

  /** All horizontal shares together are at most half of the smaller of the
      budget and the total difference: the cell keeps at least half. */
  lemma SpreadTotal(g: seq<seq<Cell>>, x: int, y: int, volume: real)
    requires InGrid(g, (x, y)) && volume >= 0.0
    ensures var totalDiff := Sum(FlowDiffs(g, x, y, FlowCoors(g, x, y)));
      0.0 <= Total(SpreadMoves(g, x, y, volume)) <= Min(volume, totalDiff) / 2.0 <= volume / 2.0
  {
    var fs := FlowCoors(g, x, y);
    var ds := FlowDiffs(g, x, y, fs);
    SpreadDivisorPositive(g, x, y);
    var totalDiff := Sum(ds);
    var fd := Min(volume, totalDiff);
    assert SpreadMoves(g, x, y, volume) == Weighted(x, y, fs, ds, fd, totalDiff);
    WeightedHalf(x, y, fs, ds, fd);
  }

  /** Shares taken in proportion to the differences ds out of their sum add
      up to at most half of fd. */
  lemma WeightedHalf(x: int, y: int, fs: seq<(int, int)>, ds: seq<real>, fd: real)
    requires |fs| == |ds| && fd >= 0.0
    requires forall i :: 0 <= i < |ds| ==> ds[i] > 0.0
    requires ds != [] ==> Sum(ds) > 0.0
    ensures 0.0 <= Total(Weighted(x, y, fs, ds, fd, Sum(ds))) <= fd / 2.0
  {
    if ds != [] {
      WeightedTotal(x, y, fs, ds, fd, Sum(ds));
      WholeFraction(fd, Sum(ds));
    } else {
      assert Weighted(x, y, fs, ds, fd, Sum(ds)) == [];
    }
  }

  lemma WholeFraction(f: real, t: real)
    requires t > 0.0
    ensures f * (t / t) / 2.0 == f / 2.0
  {
    assert t / t == 1.0;
  }

  /** The pressure transfers go to the in-bounds cell above or below and are
      never negative. */
  lemma PressureMoves(g: seq<seq<Cell>>, x: int, y: int)
    requires InGrid(g, (x, y))
    ensures forall m :: m in UpMove(g, x, y) + DownMove(g, x, y) ==>
      (InGrid(g, m.to) && Adjacent((x, y), m.to) && m.amount >= 0.0)
  {
    var val := g[x][y].val;
    if WithinBounds(g, x, y - 1) && g[x][y - 1].val < val && val > FULL {
      FloorNonneg((val - g[x][y - 1].val) / 10.0);
    }
    if WithinBounds(g, x, y + 1) && g[x][y + 1].val < val {
      FloorNonneg((val - g[x][y + 1].val) / 5.0);
    }
  }

  /** All transfers originated by cell (x, y) in one tick, in the order the
      rules apply: nothing from a wall or a negative volume; the whole volume
      falls into a non-full cell below; otherwise upward and downward pressure
      equalisation, then, unless those overdrew the budget, horizontal
      spreading. */
  function CellMoves(g: seq<seq<Cell>>, x: int, y: int): (ms: seq<Move>)
    requires InGrid(g, (x, y))
    ensures g[x][y].wall || g[x][y].val < 0.0 ==> ms == []
    ensures !g[x][y].wall && g[x][y].val >= 0.0 && WithinBounds(g, x, y + 1) && g[x][y + 1].val < FULL ==>
      ms == [Move((x, y + 1), g[x][y].val)]
    ensures forall m :: m in ms ==> InGrid(g, m.to) && Adjacent((x, y), m.to) && m.amount >= 0.0
  {
    var cell := g[x][y];
    var val := cell.val;
    if cell.wall || val < 0.0 then []
    else if WithinBounds(g, x, y + 1) && g[x][y + 1].val < FULL then [Move((x, y + 1), val)]
    else
      var up := UpMove(g, x, y);
      var down := DownMove(g, x, y);
      var volume := val - Total(up) - Total(down);
      PressureMoves(g, x, y);
      if volume < 0.0 then up + down
      else
        SpreadTargets(g, x, y, volume);
        up + down + SpreadMoves(g, x, y, volume)
  }

  /** Past the gravity rule, a cell's transfers are its pressure transfers
      followed, when they leave a budget, by its horizontal ones. */
  lemma CellMovesSpread(g: seq<seq<Cell>>, x: int, y: int, volume: real)
    requires InGrid(g, (x, y))
    requires !g[x][y].wall && g[x][y].val >= 0.0
    requires !(WithinBounds(g, x, y + 1) && g[x][y + 1].val < FULL)
    requires volume == g[x][y].val - Total(UpMove(g, x, y)) - Total(DownMove(g, x, y)) >= 0.0
    ensures CellMoves(g, x, y) == UpMove(g, x, y) + DownMove(g, x, y) + SpreadMoves(g, x, y, volume)
  {
    var ms := CellMoves(g, x, y);
    assert !(g[x][y].wall || g[x][y].val < 0.0);
    assert !(volume < 0.0);
  }

  /** When the pressure transfers overdraw the cell, they are all it
      originates. */
  lemma CellMovesOverdrawn(g: seq<seq<Cell>>, x: int, y: int)
    requires InGrid(g, (x, y))
    requires !g[x][y].wall && g[x][y].val >= 0.0
    requires !(WithinBounds(g, x, y + 1) && g[x][y + 1].val < FULL)
    requires g[x][y].val - Total(UpMove(g, x, y)) - Total(DownMove(g, x, y)) < 0.0
    ensures CellMoves(g, x, y) == UpMove(g, x, y) + DownMove(g, x, y)
  {
    var ms := CellMoves(g, x, y);
    assert !(g[x][y].wall || g[x][y].val < 0.0);
  }

  /** A cell that spreads sideways keeps at least half of what the pressure
      rules left it: its horizontal outflow is at most half that budget. */
  lemma SpreadKeepsHalf(g: seq<seq<Cell>>, x: int, y: int, volume: real)
    requires InGrid(g, (x, y))
    requires !g[x][y].wall && g[x][y].val >= 0.0
    requires !(WithinBounds(g, x, y + 1) && g[x][y + 1].val < FULL)
    requires volume == g[x][y].val - Total(UpMove(g, x, y)) - Total(DownMove(g, x, y)) >= 0.0
    ensures g[x][y].val - Total(CellMoves(g, x, y)) >= volume / 2.0
  {
    var up, down := UpMove(g, x, y), DownMove(g, x, y);
    CellMovesSpread(g, x, y, volume);
    SpreadTotal(g, x, y, volume);
    TotalAppend(up + down, SpreadMoves(g, x, y, volume));
    TotalAppend(up, down);
  }

  lemma {:induction false} TotalAppend(a: seq<Move>, b: seq<Move>)
    ensures Total(a + b) == Total(a) + Total(b)
  {
    if a == [] {
      assert a + b == b;
    } else {
      assert (a + b)[1..] == a[1..] + b;
      TotalAppend(a[1..], b);
    }
  }

  // ---------------------------------------------------------------------
  // Applying transfers to the pending diffs

  /** cell p's diff increased by a. */
  function AddDiff(g: seq<seq<Cell>>, p: (int, int), a: real): (r: seq<seq<Cell>>)
    requires InGrid(g, p)
    ensures Rect(r) && |r| == |g| && |r[0]| == |g[0]|
  {
    g[p.0 := g[p.0][p.1 := g[p.0][p.1].(diff := g[p.0][p.1].diff + a)]]
  }

  /** A transfer: the source's diff goes down by the amount, the destination's
      goes up by it. */
  function ApplyMove(g: seq<seq<Cell>>, src: (int, int), m: Move): (r: seq<seq<Cell>>)
    requires InGrid(g, src) && InGrid(g, m.to)
    ensures Rect(r) && |r| == |g| && |r[0]| == |g[0]|
  {
    AddDiff(AddDiff(g, src, -m.amount), m.to, m.amount)
  }

  /** The transfers ms out of src, applied first to last. */
  function ApplyMoves(g: seq<seq<Cell>>, src: (int, int), ms: seq<Move>): (r: seq<seq<Cell>>)
    requires InGrid(g, src) && MovesInGrid(g, ms)
    ensures Rect(r) && |r| == |g| && |r[0]| == |g[0]|
  {
    if ms == [] then g
    else
      var front := ApplyMoves(g, src, ms[..|ms| - 1]);
      ApplyMove(front, src, ms[|ms| - 1])
  }

  lemma {:induction false} ApplyMovesAppend(g: seq<seq<Cell>>, src: (int, int), a: seq<Move>, b: seq<Move>)
    requires InGrid(g, src) && MovesInGrid(g, a) && MovesInGrid(g, b)
    ensures MovesInGrid(g, a + b)
    ensures ApplyMoves(g, src, a + b) == ApplyMoves(ApplyMoves(g, src, a), src, b)
    decreases |b|
  {
    if b != [] {
      var b' := b[..|b| - 1];
      assert (a + b)[..|a + b| - 1] == a + b';
      ApplyMovesAppend(g, src, a, b');
    } else {
      assert a + b == a;
    }
  }

  lemma PrefixMovesInGrid(g: seq<seq<Cell>>, ms: seq<Move>, i: nat)
    requires MovesInGrid(g, ms) && i <= |ms|
    ensures MovesInGrid(g, ms[..i])
  {
    forall m | m in ms[..i]
      ensures m in ms
    {
    }
  }

  lemma FrozenTrans(a: seq<seq<Cell>>, b: seq<seq<Cell>>, c: seq<seq<Cell>>)
    requires Frozen(a, b) && Frozen(b, c)
    ensures Frozen(a, c)
  {
  }

  /** Transfers only touch pending diffs. */
  lemma {:induction false} ApplyMovesFrozen(g: seq<seq<Cell>>, src: (int, int), ms: seq<Move>)
    requires InGrid(g, src) && MovesInGrid(g, ms)
    ensures Frozen(ApplyMoves(g, src, ms), g)
  {
    if ms != [] {
      var n := |ms| - 1;
      PrefixMovesInGrid(g, ms, n);
      var front := ApplyMoves(g, src, ms[..n]);
      ApplyMovesFrozen(g, src, ms[..n]);
      var m := ms[n];
      assert m in ms;
      ApplyMoveFrozen(front, src, m);
      FrozenTrans(ApplyMove(front, src, m), front, g);
    }
  }

  /** One transfer only touches pending diffs. */
  lemma ApplyMoveFrozen(g: seq<seq<Cell>>, src: (int, int), m: Move)
    requires InGrid(g, src) && InGrid(g, m.to)
    ensures Frozen(ApplyMove(g, src, m), g)
  {
    var h := AddDiff(g, src, -m.amount);
    AddDiffFrozen(g, src, -m.amount);
    AddDiffFrozen(h, m.to, m.amount);
    FrozenTrans(AddDiff(h, m.to, m.amount), h, g);
  }

  lemma AddDiffFrozen(g: seq<seq<Cell>>, p: (int, int), a: real)
    requires InGrid(g, p)
    ensures Frozen(AddDiff(g, p, a), g)
  {
  }

  /** Applying one more transfer after a list of them. */
  lemma ApplyMovesSnoc(g: seq<seq<Cell>>, src: (int, int), ms: seq<Move>, m: Move)
    requires InGrid(g, src) && MovesInGrid(g, ms) && InGrid(g, m.to)
    ensures MovesInGrid(g, ms + [m])
    ensures ApplyMoves(g, src, ms + [m]) == ApplyMove(ApplyMoves(g, src, ms), src, m)
  {
    assert (ms + [m])[..|ms|] == ms;
  }

  /** Applying the i-th transfer, given by its destination and amount, to
      the state after the first i extends that state by one transfer. */
  lemma ApplyMovesNext(g: seq<seq<Cell>>, src: (int, int), ms: seq<Move>, i: nat, cur: seq<seq<Cell>>, dst: (int, int), amount: real)
    requires InGrid(g, src) && MovesInGrid(g, ms) && i < |ms| && ms[i] == Move(dst, amount)
    requires MovesInGrid(g, ms[..i]) && cur == ApplyMoves(g, src, ms[..i])
    ensures InGrid(cur, src) && InGrid(cur, dst) && MovesInGrid(g, ms[..i + 1])
    ensures ApplyMove(cur, src, Move(dst, amount)) == ApplyMoves(g, src, ms[..i + 1])
  {
    ApplyMovesPrefix(g, src, ms, i);
  }

  lemma ApplyMovesPrefix(g: seq<seq<Cell>>, src: (int, int), ms: seq<Move>, i: nat)
    requires InGrid(g, src) && MovesInGrid(g, ms) && i < |ms|
    ensures MovesInGrid(g, ms[..i]) && MovesInGrid(g, ms[..i + 1]) && InGrid(g, ms[i].to)
    ensures ApplyMoves(g, src, ms[..i + 1]) == ApplyMove(ApplyMoves(g, src, ms[..i]), src, ms[i])
  {
    PrefixMovesInGrid(g, ms, i);
    PrefixMovesInGrid(g, ms, i + 1);
    assert ms[i] in ms;
    assert ms[..i + 1][..i] == ms[..i];
  }

  /** Diff updates commute, so the order in which the two sides of a transfer
      are booked does not matter. */
  lemma AddDiffCommute(g: seq<seq<Cell>>, p: (int, int), q: (int, int), a: real, b: real)
    requires InGrid(g, p) && InGrid(g, q)
    ensures AddDiff(AddDiff(g, p, a), q, b) == AddDiff(AddDiff(g, q, b), p, a)
  {
    var l := AddDiff(AddDiff(g, p, a), q, b);
    var r := AddDiff(AddDiff(g, q, b), p, a);
    assert |l| == |r|;
    forall i | 0 <= i < |l|
      ensures l[i] == r[i]
    {
      assert |l[i]| == |r[i]|;
      forall j | 0 <= j < |l[i]|
        ensures l[i][j] == r[i][j]
      {
      }
    }
  }

  /** The transfers a cell originates depend only on volumes and wall flags,
      so they are the same on every grid frozen with respect to another: the
      diffs booked earlier in the evaluate pass never influence them. */
  lemma FrozenPressure(a: seq<seq<Cell>>, b: seq<seq<Cell>>, x: int, y: int)
    requires Frozen(a, b) && InGrid(b, (x, y))
    ensures Rect(a) && InGrid(a, (x, y))
    ensures UpMove(a, x, y) == UpMove(b, x, y) && DownMove(a, x, y) == DownMove(b, x, y)
  {
    assert |a[0]| == |b[0]|;
  }

  lemma FrozenFlow(a: seq<seq<Cell>>, b: seq<seq<Cell>>, x: int, y: int)
    requires Frozen(a, b) && InGrid(b, (x, y))
    ensures Rect(a) && InGrid(a, (x, y))
    ensures FlowCoors(a, x, y) == FlowCoors(b, x, y)
    ensures FlowDiffs(a, x, y, FlowCoors(a, x, y)) == FlowDiffs(b, x, y, FlowCoors(b, x, y))
  {
    FrozenFlowCoors(a, b, x, y);
    var fs := FlowCoors(b, x, y);
    var da := FlowDiffs(a, x, y, fs);
    var db := FlowDiffs(b, x, y, fs);
    forall i | 0 <= i < |fs|
      ensures da[i] == db[i]
    {
      assert fs[i] in fs;
    }
  }

  lemma FrozenFlowCoors(a: seq<seq<Cell>>, b: seq<seq<Cell>>, x: int, y: int)
    requires Frozen(a, b) && InGrid(b, (x, y))
    ensures Rect(a) && InGrid(a, (x, y))
    ensures FlowCoors(a, x, y) == FlowCoors(b, x, y)
  {
    assert |a[0]| == |b[0]|;
  }

  lemma FrozenRules(a: seq<seq<Cell>>, b: seq<seq<Cell>>, x: int, y: int)
    requires Frozen(a, b) && InGrid(b, (x, y))
    ensures Rect(a) && InGrid(a, (x, y))
    ensures CellMoves(a, x, y) == CellMoves(b, x, y)
  {
    FrozenPressure(a, b, x, y);
    assert |a[x]| == |b[x]|;
    assert a[x][y].val == b[x][y].val && a[x][y].wall == b[x][y].wall;
    if b[x][y].wall || b[x][y].val < 0.0 {
    } else if WithinBounds(b, x, y + 1) && b[x][y + 1].val < FULL {
      assert a[x][y + 1].val == b[x][y + 1].val;
    } else {
      assert WithinBounds(b, x, y + 1) ==> a[x][y + 1].val == b[x][y + 1].val;
      var volume := b[x][y].val - Total(UpMove(b, x, y)) - Total(DownMove(b, x, y));
      if volume >= 0.0 {
        FrozenFlow(a, b, x, y);
        CellMovesSpread(a, x, y, volume);
        CellMovesSpread(b, x, y, volume);
      } else {
        CellMovesOverdrawn(a, x, y);
        CellMovesOverdrawn(b, x, y);
      }
    }
  }

  // ---------------------------------------------------------------------
  // The tick

  /** The evaluate pass over the coordinates cs, in order: every cell's
      transfers are computed from the pre-tick snapshot g0. */
  function EvalSeq(g0: seq<seq<Cell>>, cs: seq<(int, int)>): (g: seq<seq<Cell>>)
    requires Rect(g0) && forall p :: p in cs ==> InGrid(g0, p)
    ensures Rect(g) && |g| == |g0| && |g[0]| == |g0[0]|
  {
    if cs == [] then g0
    else
      var front := EvalSeq(g0, cs[..|cs| - 1]);
      var p := cs[|cs| - 1];
      ApplyMoves(front, p, CellMoves(g0, p.0, p.1))
  }

  /** The i-th step of the evaluate pass: cell cs[i] is in the grid built so
      far, its transfers there are those computed on the snapshot, and
      applying them extends the pass by one cell. */
  lemma EvalSeqStep(g0: seq<seq<Cell>>, cs: seq<(int, int)>, i: int)
    requires Rect(g0) && (forall p :: p in cs ==> InGrid(g0, p)) && 0 <= i < |cs|
    ensures forall q :: q in cs[..i] ==> InGrid(g0, q)
    ensures forall q :: q in cs[..i + 1] ==> InGrid(g0, q)
    ensures var e := EvalSeq(g0, cs[..i]);
      var p := cs[i];
      InGrid(e, p) && CellMoves(e, p.0, p.1) == CellMoves(g0, p.0, p.1) &&
      EvalSeq(g0, cs[..i + 1]) == ApplyMoves(e, p, CellMoves(e, p.0, p.1))
  {
    var p := cs[i];
    assert p in cs;
    assert cs[..i + 1] == cs[..i] + [p];
    EvalSeqFrozen(g0, cs[..i]);
    FrozenRules(EvalSeq(g0, cs[..i]), g0, p.0, p.1);
    EvalSeqSnoc(g0, cs[..i], p);
  }

  lemma EvalSeqSnoc(g0: seq<seq<Cell>>, cs: seq<(int, int)>, p: (int, int))
    requires Rect(g0) && (forall q :: q in cs ==> InGrid(g0, q)) && InGrid(g0, p)
    ensures forall q :: q in cs + [p] ==> InGrid(g0, q)
    ensures EvalSeq(g0, cs + [p]) == ApplyMoves(EvalSeq(g0, cs), p, CellMoves(g0, p.0, p.1))
  {
    assert (cs + [p])[..|cs|] == cs;
  }

  /** The evaluate pass leaves every volume and wall flag as it was. */
  lemma {:induction false} EvalSeqFrozen(g0: seq<seq<Cell>>, cs: seq<(int, int)>)
    requires Rect(g0) && forall p :: p in cs ==> InGrid(g0, p)
    ensures Frozen(EvalSeq(g0, cs), g0)
  {
    if cs != [] {
      var front := EvalSeq(g0, cs[..|cs| - 1]);
      EvalSeqFrozen(g0, cs[..|cs| - 1]);
      var p := cs[|cs| - 1];
      assert p in cs;
      assert InGrid(front, p);
      ApplyMovesFrozen(front, p, CellMoves(g0, p.0, p.1));
      FrozenTrans(EvalSeq(g0, cs), front, g0);
    }
  }

  /** The commit of one cell: the pending diff joins the volume. */
  function Settle(c: Cell): Cell {
    c.(val := c.val + c.diff, diff := 0.0)
  }

  /** The commit pass applied to every cell. */
  function Committed(g: seq<seq<Cell>>): (r: seq<seq<Cell>>)
    ensures |r| == |g| && forall x :: 0 <= x < |g| ==> |r[x]| == |g[x]|
    ensures Settled(r)
    ensures forall x, y :: 0 <= x < |g| && 0 <= y < |g[x]| ==>
      r[x][y].val == g[x][y].val + g[x][y].diff && r[x][y].wall == g[x][y].wall
  {
    seq(|g|, x requires 0 <= x < |g| => seq(|g[x]|, y requires 0 <= y < |g[x]| => Settle(g[x][y])))
  }

  /** One tick over the coordinate list cs: evaluate, then commit. */
  function Tick(g: seq<seq<Cell>>, cs: seq<(int, int)>): (r: seq<seq<Cell>>)
    requires Rect(g) && forall p :: p in cs ==> InGrid(g, p)
    ensures Rect(r) && |r| == |g| && |r[0]| == |g[0]|
    ensures Settled(r)
  {
    Committed(EvalSeq(g, cs))
  }

  // ---------------------------------------------------------------------
  // Totals

  function RowSum(r: seq<Cell>, f: Cell -> real): real {
    if r == [] then 0.0 else RowSum(r[..|r| - 1], f) + f(r[|r| - 1])
  }

  function GridSum(g: seq<seq<Cell>>, f: Cell -> real): real {
    if g == [] then 0.0 else GridSum(g[..|g| - 1], f) + RowSum(g[|g| - 1], f)
  }

  lemma {:induction false} RowSumUpdate(r: seq<Cell>, y: nat, c: Cell, f: Cell -> real)
    requires y < |r|
    ensures RowSum(r[y := c], f) == RowSum(r, f) - f(r[y]) + f(c)
  {
    var n := |r| - 1;
    if y < n {
      assert r[y := c][..n] == r[..n][y := c];
      RowSumUpdate(r[..n], y, c, f);
    } else {
      assert r[y := c][..n] == r[..n];
    }
  }

  lemma {:induction false} GridSumUpdate(g: seq<seq<Cell>>, x: nat, row: seq<Cell>, f: Cell -> real)
    requires x < |g|
    ensures GridSum(g[x := row], f) == GridSum(g, f) - RowSum(g[x], f) + RowSum(row, f)
  {
    var n := |g| - 1;
    if x < n {
      assert g[x := row][..n] == g[..n][x := row];
      GridSumUpdate(g[..n], x, row, f);
    } else {
      assert g[x := row][..n] == g[..n];
    }
  }

  /** Rows that agree pointwise under f have the same sum. */
  lemma {:induction false} RowSumPointwise(a: seq<Cell>, b: seq<Cell>, f: Cell -> real)
    requires |a| == |b| && forall i :: 0 <= i < |a| ==> f(a[i]) == f(b[i])
    ensures RowSum(a, f) == RowSum(b, f)
  {
    if a != [] {
      RowSumPointwise(a[..|a| - 1], b[..|b| - 1], f);
    }
  }

  /** Frozen grids hold the same total volume. */
  lemma {:induction false} FrozenVolume(a: seq<seq<Cell>>, b: seq<seq<Cell>>)
    requires Frozen(a, b)
    ensures GridSum(a, ValOf) == GridSum(b, ValOf)
  {
    if a != [] {
      var n := |a| - 1;
      assert Frozen(a[..n], b[..n]);
      FrozenVolume(a[..n], b[..n]);
      RowSumPointwise(a[n], b[n], ValOf);
    }
  }

  /** Raising one diff by a raises the total of diffs by a. */
  lemma AddDiffTotals(g: seq<seq<Cell>>, p: (int, int), a: real)
    requires InGrid(g, p)
    ensures GridSum(AddDiff(g, p, a), DiffOf) == GridSum(g, DiffOf) + a
  {
    var c := g[p.0][p.1];
    RowSumUpdate(g[p.0], p.1, c.(diff := c.diff + a), DiffOf);
    GridSumUpdate(g, p.0, g[p.0][p.1 := c.(diff := c.diff + a)], DiffOf);
  }

  /** A list of transfers leaves the total of diffs unchanged: every amount is
      taken from the source and given to an in-bounds destination. */
  lemma {:induction false} ApplyMovesBalanced(g: seq<seq<Cell>>, src: (int, int), ms: seq<Move>)
    requires InGrid(g, src) && MovesInGrid(g, ms)
    ensures GridSum(ApplyMoves(g, src, ms), DiffOf) == GridSum(g, DiffOf)
  {
    if ms != [] {
      var n := |ms| - 1;
      assert MovesInGrid(g, ms[..n]) by {
        forall m | m in ms[..n] ensures m in ms { }
      }
      var front := ApplyMoves(g, src, ms[..n]);
      ApplyMovesBalanced(g, src, ms[..n]);
      var m := ms[n];
      assert m in ms;
      assert InGrid(front, src) && InGrid(front, m.to);
      assert ApplyMoves(g, src, ms) == ApplyMove(front, src, m);
      ApplyMoveBalanced(front, src, m);
    }
  }

  /** One transfer leaves the total of diffs unchanged. */
  lemma ApplyMoveBalanced(g: seq<seq<Cell>>, src: (int, int), m: Move)
    requires InGrid(g, src) && InGrid(g, m.to)
    ensures GridSum(ApplyMove(g, src, m), DiffOf) == GridSum(g, DiffOf)
  {
    var h := AddDiff(g, src, -m.amount);
    AddDiffTotals(g, src, -m.amount);
    AddDiffTotals(h, m.to, m.amount);
  }

  /** The evaluate pass leaves the total of diffs unchanged, and every volume
      and wall flag untouched. */
  lemma {:induction false} EvalSeqBalanced(g: seq<seq<Cell>>, cs: seq<(int, int)>)
    requires Rect(g) && forall p :: p in cs ==> InGrid(g, p)
    ensures GridSum(EvalSeq(g, cs), DiffOf) == GridSum(g, DiffOf)
    ensures Frozen(EvalSeq(g, cs), g) && GridSum(EvalSeq(g, cs), ValOf) == GridSum(g, ValOf)
  {
    if cs != [] {
      var front := EvalSeq(g, cs[..|cs| - 1]);
      EvalSeqBalanced(g, cs[..|cs| - 1]);
      var p := cs[|cs| - 1];
      ApplyMovesBalanced(front, p, CellMoves(g, p.0, p.1));
    }
    EvalSeqFrozen(g, cs);
    FrozenVolume(EvalSeq(g, cs), g);
  }

  /** Committing a row adds its diffs to its volumes. */
  lemma {:induction false} RowSettle(a: seq<Cell>, b: seq<Cell>)
    requires |a| == |b| && forall i :: 0 <= i < |a| ==> a[i] == Settle(b[i])
    ensures RowSum(a, ValOf) == RowSum(b, ValOf) + RowSum(b, DiffOf)
    ensures RowSum(a, DiffOf) == 0.0
  {
    if a != [] {
      RowSettle(a[..|a| - 1], b[..|b| - 1]);
    }
  }

  /** The commit pass: the new total volume is the old one plus the total of
      diffs, and no diff is left pending. */
  lemma {:induction false} CommittedTotals(g: seq<seq<Cell>>)
    ensures GridSum(Committed(g), ValOf) == GridSum(g, ValOf) + GridSum(g, DiffOf)
    ensures GridSum(Committed(g), DiffOf) == 0.0
    ensures Settled(Committed(g))
  {
    if g != [] {
      var n := |g| - 1;
      assert Committed(g)[..n] == Committed(g[..n]);
      CommittedTotals(g[..n]);
      RowSettle(Committed(g)[n], g[n]);
    }
  }

  /** Between ticks the total of diffs is zero. */
  lemma {:induction false} SettledTotal(g: seq<seq<Cell>>)
    requires Settled(g)
    ensures GridSum(g, DiffOf) == 0.0
  {
    if g != [] {
      var n := |g| - 1;
      assert Settled(g[..n]);
      SettledTotal(g[..n]);
      RowSumPointwise(g[n], seq(|g[n]|, _ => EMPTY_CELL), DiffOf);
      ZeroRow(|g[n]|);
    }
  }

  lemma {:induction false} ZeroRow(n: nat)
    ensures RowSum(seq(n, _ => EMPTY_CELL), DiffOf) == 0.0
  {
    if n > 0 {
      assert seq(n, _ => EMPTY_CELL)[..n - 1] == seq(n - 1, _ => EMPTY_CELL);
      ZeroRow(n - 1);
    }
  }

  /** Conservation: a tick changes the total volume by exactly the total of
      the diffs pending before it, so from a settled grid it keeps the total
      volume exactly; after the tick nothing is pending. */
  lemma TickConserves(g: seq<seq<Cell>>, cs: seq<(int, int)>)
    requires Rect(g) && forall p :: p in cs ==> InGrid(g, p)
    ensures GridSum(Tick(g, cs), ValOf) == GridSum(g, ValOf) + GridSum(g, DiffOf)
    ensures Settled(Tick(g, cs))
    ensures Settled(g) ==> GridSum(Tick(g, cs), ValOf) == GridSum(g, ValOf)
  {
    EvalSeqBalanced(g, cs);
    CommittedTotals(EvalSeq(g, cs));
    if Settled(g) {
      SettledTotal(g);
    }
  }

  /** Starting from a settled grid, the diffs accumulated by the evaluate pass
      sum to zero. */
  lemma EvaluateBalanced(g: seq<seq<Cell>>, cs: seq<(int, int)>)
    requires Rect(g) && Settled(g) && forall p :: p in cs ==> InGrid(g, p)
    ensures GridSum(EvalSeq(g, cs), DiffOf) == 0.0
  {
    EvalSeqBalanced(g, cs);
    SettledTotal(g);
  }

  /** After a tick every cell's volume is its pre-tick volume plus the diff
      the evaluate pass accumulated for it, its diff is zero and its wall flag
      is unchanged. */
  lemma TickCell(g: seq<seq<Cell>>, cs: seq<(int, int)>, x: int, y: int)
    requires Rect(g) && forall p :: p in cs ==> InGrid(g, p)
    requires InGrid(g, (x, y))
    ensures Tick(g, cs)[x][y] == Cell(g[x][y].val + EvalSeq(g, cs)[x][y].diff, 0.0, g[x][y].wall)
  {
    EvalSeqFrozen(g, cs);
    var e := EvalSeq(g, cs);
    assert |e[x]| == |g[x]|;
    assert Tick(g, cs)[x][y] == Settle(e[x][y]);
  }
}
