/** Conway's Game of Life on a bounded grid of 0/1 cells: the Moore
    neighbourhood offsets, the bounds-filtered and memoised neighbour lists,
    the live-neighbour count, the B3/S23 rule and the double-buffered tick. */
module Life {
  import opened Helpers
  import opened Grid

  // ---------------------------------------------------------------------
  // Neighbourhood offsets

  /** (x, y) for every y of ys, in order. */
  function Row(x: int, ys: seq<int>): (r: seq<(int, int)>)
    ensures |r| == |ys|
  {
    if ys == [] then [] else [(x, ys[0])] + Row(x, ys[1..])
  }

  /** All pairs, x-major: the concatenation of one Row per element of xs. */
  function Pairs(xs: seq<int>, ys: seq<int>): seq<(int, int)> {
    if xs == [] then [] else Row(xs[0], ys) + Pairs(xs[1..], ys)
  }

  /** The pairs other than (0, 0), in order. */
  function WithoutOrigin(ps: seq<(int, int)>): seq<(int, int)> {
    if ps == [] then []
    else (if ps[0] == (0, 0) then [] else [ps[0]]) + WithoutOrigin(ps[1..])
  }

  /** The eight neighbour offsets, built from the range -1..1 in both axes. */
  function Dir(): seq<(int, int)> {
    WithoutOrigin(Pairs(Stepped(-1, 1, 1), Stepped(-1, 1, 1)))
  }

  /** The offsets in Dir, written out. */
  const MOORE: seq<(int, int)> := [(-1, -1), (-1, 0), (-1, 1), (0, -1), (0, 1), (1, -1), (1, 0), (1, 1)]

  /** The offsets are exactly {-1, 0, 1}² without (0, 0), in x-major then y
      order. */
  lemma DirOffsets()
    ensures Dir() == MOORE
  {
    UnitSteps();
    UnitPairs();
    UnitPairsWithoutOrigin();
  }

  lemma UnitSteps()
    ensures Stepped(-1, 1, 1) == [-1, 0, 1]
  {
    assert Stepped(1, 1, 1) == [1];
    assert Stepped(0, 1, 1) == [0, 1];
  }

  /** The nine pairs of -1, 0, 1, x-major. */
  const BLOCK: seq<(int, int)> := [(-1, -1), (-1, 0), (-1, 1), (0, -1), (0, 0), (0, 1), (1, -1), (1, 0), (1, 1)]

  lemma UnitPairs()
    ensures Pairs([-1, 0, 1], [-1, 0, 1]) == BLOCK
  {
    assert Row(1, [-1, 0, 1]) == BLOCK[6..];
    assert Row(0, [-1, 0, 1]) == BLOCK[3..6];
    assert Row(-1, [-1, 0, 1]) == BLOCK[..3];
    assert Pairs([1], [-1, 0, 1]) == BLOCK[6..];
    assert Pairs([0, 1], [-1, 0, 1]) == BLOCK[3..];
  }

  lemma UnitPairsWithoutOrigin()
    ensures WithoutOrigin(BLOCK) == MOORE
  {
    var front, back := MOORE[..4], MOORE[4..];
    assert BLOCK == front + [(0, 0)] + back;
    assert MOORE == front + back;
    WithoutOriginKeeps(front);
    WithoutOriginKeeps(back);
    WithoutOriginAppend(front + [(0, 0)], back);
    WithoutOriginAppend(front, [(0, 0)]);
  }

  lemma {:induction false} WithoutOriginAppend(a: seq<(int, int)>, b: seq<(int, int)>)
    ensures WithoutOrigin(a + b) == WithoutOrigin(a) + WithoutOrigin(b)
  {
    if a != [] {
      assert (a + b)[1..] == a[1..] + b;
      WithoutOriginAppend(a[1..], b);
    } else {
      assert a + b == b;
    }
  }

  lemma {:induction false} WithoutOriginKeeps(a: seq<(int, int)>)
    requires (0, 0) !in a
    ensures WithoutOrigin(a) == a
  {
    if a != [] {
      assert a[0] in a;
      WithoutOriginKeeps(a[1..]);
    }
  }

  /** An offset is in Dir exactly when both components are in -1..1 and it
      is not (0, 0); the offsets are strictly increasing, so none repeats. */
  lemma DirMembers()
    ensures forall d :: d in MOORE <==> -1 <= d.0 <= 1 && -1 <= d.1 <= 1 && d != (0, 0)
    ensures Increasing(MOORE)
  {
    assert forall i :: 0 <= i < |MOORE| - 1 ==> Before(MOORE[i], MOORE[i + 1]);
    SortedFromAdjacent(MOORE);
    forall d: (int, int) | -1 <= d.0 <= 1 && -1 <= d.1 <= 1 && d != (0, 0)
      ensures d in MOORE
    {
      if d.0 == -1 {
        if d.1 == -1 { assert MOORE[0] == d; }
        else if d.1 == 0 { assert MOORE[1] == d; }
        else { assert MOORE[2] == d; }
      } else if d.0 == 0 {
        if d.1 == -1 { assert MOORE[3] == d; }
        else { assert MOORE[4] == d; }
      } else {
        if d.1 == -1 { assert MOORE[5] == d; }
        else if d.1 == 0 { assert MOORE[6] == d; }
        else { assert MOORE[7] == d; }
      }
    }
  }

  /** A list each of whose elements comes before the next is strictly
      increasing. */
  lemma SortedFromAdjacent(s: seq<(int, int)>)
    requires forall i :: 0 <= i < |s| - 1 ==> Before(s[i], s[i + 1])
    ensures forall i, j :: 0 <= i < j < |s| ==> Before(s[i], s[j])
  {
    forall i, j | 0 <= i < j < |s|
      ensures Before(s[i], s[j])
    {
      var k := i;
      while k < j - 1
        invariant i <= k < j && Before(s[i], s[k + 1])
      {
        k := k + 1;
      }
    }
  }

  // ---------------------------------------------------------------------
  // Neighbour lists

  /** (x, y) shifted by each offset of ds, keeping the in-bounds ones, in
      order. */
  function NeighborsFrom<T>(g: seq<seq<T>>, x: int, y: int, ds: seq<(int, int)>): (r: seq<(int, int)>)
    ensures |r| <= |ds|
    ensures forall p :: p in r ==> WithinBounds(g, p.0, p.1)
  {
    if ds == [] then []
    else
      var n := (ds[0].0 + x, ds[0].1 + y);
      (if WithinBounds(g, n.0, n.1) then [n] else []) + NeighborsFrom(g, x, y, ds[1..])
  }

  /** The in-bounds neighbours of (x, y), in offset order (MOORE is Dir(),
      by DirOffsets). */
  function NeighborCoors<T>(g: seq<seq<T>>, x: int, y: int): (r: seq<(int, int)>)
    ensures |r| <= 8
    ensures forall p :: p in r ==> WithinBounds(g, p.0, p.1)
  {
    NeighborsFrom(g, x, y, MOORE)
  }

  /** (x, y) shifted by the offset d. */
  function Shift(d: (int, int), x: int, y: int): (int, int) {
    (d.0 + x, d.1 + y)
  }

  lemma {:induction false} NeighborsFromMembers<T>(g: seq<seq<T>>, x: int, y: int, ds: seq<(int, int)>)
    ensures forall p :: p in NeighborsFrom(g, x, y, ds) ==>
      WithinBounds(g, p.0, p.1) && exists i :: 0 <= i < |ds| && p == Shift(ds[i], x, y)
    ensures forall i :: 0 <= i < |ds| && WithinBounds(g, ds[i].0 + x, ds[i].1 + y) ==>
      Shift(ds[i], x, y) in NeighborsFrom(g, x, y, ds)
  {
    if ds != [] {
      var rest := NeighborsFrom(g, x, y, ds[1..]);
      NeighborsFromMembers(g, x, y, ds[1..]);
      var n := Shift(ds[0], x, y);
      var head := if WithinBounds(g, n.0, n.1) then [n] else [];
      assert NeighborsFrom(g, x, y, ds) == head + rest;
      forall p | p in rest
        ensures exists i :: 0 <= i < |ds| && p == Shift(ds[i], x, y)
      {
        var i :| 0 <= i < |ds[1..]| && p == Shift(ds[1..][i], x, y);
        assert ds[1..][i] == ds[i + 1];
      }
      forall i | 1 <= i < |ds| && WithinBounds(g, ds[i].0 + x, ds[i].1 + y)
        ensures Shift(ds[i], x, y) in NeighborsFrom(g, x, y, ds)
      {
        assert ds[i] == ds[1..][i - 1];
      }
    }
  }

  /** Shifting by a set of offsets that is exactly the 3 by 3 block minus its
      centre picks out the in-bounds cells of the block around (x, y). */
  lemma NeighborsFromBlock<T>(g: seq<seq<T>>, x: int, y: int, ds: seq<(int, int)>)
    requires forall d :: d in ds <==> -1 <= d.0 <= 1 && -1 <= d.1 <= 1 && d != (0, 0)
    ensures forall p :: p in NeighborsFrom(g, x, y, ds) <==>
      WithinBounds(g, p.0, p.1) && x - 1 <= p.0 <= x + 1 && y - 1 <= p.1 <= y + 1 && p != (x, y)
  {
    forall p
      ensures p in NeighborsFrom(g, x, y, ds) <==>
        WithinBounds(g, p.0, p.1) && x - 1 <= p.0 <= x + 1 && y - 1 <= p.1 <= y + 1 && p != (x, y)
    {
      BlockSound(g, x, y, ds, p);
      BlockComplete(g, x, y, ds, p);
    }
  }

  lemma BlockSound<T>(g: seq<seq<T>>, x: int, y: int, ds: seq<(int, int)>, p: (int, int))
    requires forall d :: d in ds ==> -1 <= d.0 <= 1 && -1 <= d.1 <= 1 && d != (0, 0)
    ensures p in NeighborsFrom(g, x, y, ds) ==>
      WithinBounds(g, p.0, p.1) && x - 1 <= p.0 <= x + 1 && y - 1 <= p.1 <= y + 1 && p != (x, y)
  {
    if p in NeighborsFrom(g, x, y, ds) {
      NeighborsFromMembers(g, x, y, ds);
      var i :| 0 <= i < |ds| && p == Shift(ds[i], x, y);
      assert ds[i] in ds;
    }
  }

  lemma BlockComplete<T>(g: seq<seq<T>>, x: int, y: int, ds: seq<(int, int)>, p: (int, int))
    requires forall d: (int, int) :: -1 <= d.0 <= 1 && -1 <= d.1 <= 1 && d != (0, 0) ==> d in ds
    ensures WithinBounds(g, p.0, p.1) && x - 1 <= p.0 <= x + 1 && y - 1 <= p.1 <= y + 1 && p != (x, y) ==>
      p in NeighborsFrom(g, x, y, ds)
  {
    if WithinBounds(g, p.0, p.1) && x - 1 <= p.0 <= x + 1 && y - 1 <= p.1 <= y + 1 && p != (x, y) {
      NeighborsFromMembers(g, x, y, ds);
      var d := (p.0 - x, p.1 - y);
      assert d in ds;
      var i :| 0 <= i < |ds| && ds[i] == d;
      assert Shift(ds[i], x, y) == p;
    }
  }

  /** The neighbour list holds exactly the in-bounds cells of the 3 by 3
      block around (x, y), other than (x, y) itself. */
  lemma NeighborCoorsMembers<T>(g: seq<seq<T>>, x: int, y: int)
    ensures forall p :: p in NeighborCoors(g, x, y) <==>
      WithinBounds(g, p.0, p.1) && x - 1 <= p.0 <= x + 1 && y - 1 <= p.1 <= y + 1 && p != (x, y)
  {
    DirMembers();
    NeighborsFromBlock(g, x, y, MOORE);
  }

  /** Strictly increasing in x-major order, hence free of repeats. */
  predicate Increasing(s: seq<(int, int)>) {
    forall i, j :: 0 <= i < j < |s| ==> Before(s[i], s[j])
  }

  lemma {:induction false} NeighborsFromOrdered<T>(g: seq<seq<T>>, x: int, y: int, ds: seq<(int, int)>)
    requires Increasing(ds)
    ensures Increasing(NeighborsFrom(g, x, y, ds))
  {
    if ds != [] {
      var rest := NeighborsFrom(g, x, y, ds[1..]);
      assert Increasing(ds[1..]) by {
        forall i, j | 0 <= i < j < |ds[1..]|
          ensures Before(ds[1..][i], ds[1..][j])
        {
          assert Before(ds[i + 1], ds[j + 1]);
        }
      }
      NeighborsFromOrdered(g, x, y, ds[1..]);
      NeighborsFromMembers(g, x, y, ds[1..]);
      var n := Shift(ds[0], x, y);
      if WithinBounds(g, n.0, n.1) {
        var r := NeighborsFrom(g, x, y, ds);
        assert r == [n] + rest;
        forall i, j | 0 <= i < j < |r|
          ensures Before(r[i], r[j])
        {
          if i == 0 {
            assert r[j] == rest[j - 1] && rest[j - 1] in rest;
            var k :| 0 <= k < |ds[1..]| && r[j] == Shift(ds[1..][k], x, y);
            assert Before(ds[0], ds[k + 1]);
          } else {
            assert r[i] == rest[i - 1] && r[j] == rest[j - 1];
            assert Before(rest[i - 1], rest[j - 1]);
          }
        }
      } else {
        assert NeighborsFrom(g, x, y, ds) == rest;
      }
    }
  }

  /** Neighbours come in offset order, which is x-major order, so none is
      listed twice. */
  lemma NeighborCoorsOrdered<T>(g: seq<seq<T>>, x: int, y: int)
    ensures Increasing(NeighborCoors(g, x, y))
  {
    DirMembers();
    NeighborsFromOrdered(g, x, y, MOORE);
  }

  lemma {:induction false} NeighborsFromShape<T, U>(a: seq<seq<T>>, b: seq<seq<U>>, x: int, y: int, ds: seq<(int, int)>)
    requires |a| == |b| && (|a| > 0 ==> |a[0]| == |b[0]|)
    ensures NeighborsFrom(a, x, y, ds) == NeighborsFrom(b, x, y, ds)
  {
    if ds != [] {
      NeighborsFromShape(a, b, x, y, ds[1..]);
    }
  }

  /** The neighbour list depends only on the grid's dimensions, so a cache
      keyed by the coordinates alone serves every grid of the same shape. */
  lemma NeighborCoorsShape<T, U>(a: seq<seq<T>>, b: seq<seq<U>>, x: int, y: int)
    requires |a| == |b| && (|a| > 0 ==> |a[0]| == |b[0]|)
    ensures NeighborCoors(a, x, y) == NeighborCoors(b, x, y)
  {
    NeighborsFromShape(a, b, x, y, MOORE);
  }

  /** The number of positions of -1, 0, 1 around v that fall in 0..n-1. */
  function Span(v: int, n: int): nat {
    1 + (if v > 0 then 1 else 0) + (if v < n - 1 then 1 else 0)
  }

  function Inside<T>(g: seq<seq<T>>, p: (int, int)): nat {
    if WithinBounds(g, p.0, p.1) then 1 else 0
  }

  lemma NeighborsFromCons<T>(g: seq<seq<T>>, x: int, y: int, ds: seq<(int, int)>)
    requires ds != []
    ensures |NeighborsFrom(g, x, y, ds)| == Inside(g, Shift(ds[0], x, y)) + |NeighborsFrom(g, x, y, ds[1..])|
  {
  }

  /** A cell in the grid has Span(x) * Span(y) - 1 neighbours: 8 inside, 5 on
      an edge and 3 in a corner of a grid at least 2 wide and high. */
  lemma NeighborCount<T>(g: seq<seq<T>>, x: int, y: int)
    requires WithinBounds(g, x, y)
    ensures |NeighborCoors(g, x, y)| == Span(x, |g|) * Span(y, |g[0]|) - 1
  {
    EightInside(g, x, y, MOORE);
    var l, r := if x > 0 then 1 else 0, if x < |g| - 1 then 1 else 0;
    var u, d := if y > 0 then 1 else 0, if y < |g[0]| - 1 then 1 else 0;
    assert Inside(g, (x - 1, y - 1)) == l * u;
    assert Inside(g, (x - 1, y + 1)) == l * d;
    assert Inside(g, (x + 1, y - 1)) == r * u;
    assert Inside(g, (x + 1, y + 1)) == r * d;
    SpanProduct(l, r, u, d);
  }

  /** The length of the neighbour list for eight offsets is the number of
      them that land inside the grid. */
  lemma EightInside<T>(g: seq<seq<T>>, x: int, y: int, ds: seq<(int, int)>)
    requires |ds| == 8
    ensures |NeighborsFrom(g, x, y, ds)| ==
      Inside(g, Shift(ds[0], x, y)) + Inside(g, Shift(ds[1], x, y)) + Inside(g, Shift(ds[2], x, y)) +
      Inside(g, Shift(ds[3], x, y)) + Inside(g, Shift(ds[4], x, y)) + Inside(g, Shift(ds[5], x, y)) +
      Inside(g, Shift(ds[6], x, y)) + Inside(g, Shift(ds[7], x, y))
  {
    NeighborsFromCons(g, x, y, ds);
    NeighborsFromCons(g, x, y, ds[1..]);
    NeighborsFromCons(g, x, y, ds[2..]);
    NeighborsFromCons(g, x, y, ds[3..]);
    NeighborsFromCons(g, x, y, ds[4..]);
    NeighborsFromCons(g, x, y, ds[5..]);
    NeighborsFromCons(g, x, y, ds[6..]);
    NeighborsFromCons(g, x, y, ds[7..]);
    assert ds[8..] == [];
  }

  lemma SpanProduct(l: int, r: int, u: int, d: int)
    ensures (1 + l + r) * (1 + u + d) - 1 == l * u + l + l * d + u + d + r * u + r + r * d
  {
  }

  /** The counts 8, 5 and 3 for interior, edge and corner cells. */
  lemma NeighborCountCases<T>(g: seq<seq<T>>, x: int, y: int)
    requires WithinBounds(g, x, y) && |g| >= 2 && |g[0]| >= 2
    ensures 0 < x < |g| - 1 && 0 < y < |g[0]| - 1 ==> |NeighborCoors(g, x, y)| == 8
    ensures (x == 0 || x == |g| - 1) && 0 < y < |g[0]| - 1 ==> |NeighborCoors(g, x, y)| == 5
    ensures 0 < x < |g| - 1 && (y == 0 || y == |g[0]| - 1) ==> |NeighborCoors(g, x, y)| == 5
    ensures (x == 0 || x == |g| - 1) && (y == 0 || y == |g[0]| - 1) ==> |NeighborCoors(g, x, y)| == 3
  {
    NeighborCount(g, x, y);
  }

  // ---------------------------------------------------------------------
  // Counting and the rule

  /** Every listed coordinate can be looked up in g. */
  predicate Indexable<T>(g: seq<seq<T>>, ns: seq<(int, int)>) {
    forall p :: p in ns ==> 0 <= p.0 < |g| && 0 <= p.1 < |g[p.0]|
  }

  /** How many of the listed cells hold exactly 1. */
  function Alive(g: seq<seq<int>>, ns: seq<(int, int)>): nat
    requires Indexable(g, ns)
  {
    if ns == [] then 0
    else
      assert ns[0] in ns;
      (if g[ns[0].0][ns[0].1] == 1 then 1 else 0) + Alive(g, ns[1..])
  }

  lemma NeighborsIndexable(g: seq<seq<int>>, x: int, y: int)
    requires Rect(g)
    ensures Indexable(g, NeighborCoors(g, x, y))
  {
    NeighborCoorsMembers(g, x, y);
  }

  /** The live-neighbour count of (x, y). */
  function CountNeighborsAlive(g: seq<seq<int>>, x: int, y: int): (n: nat)
    requires Rect(g)
    ensures n <= |NeighborCoors(g, x, y)| <= 8
  {
    NeighborsIndexable(g, x, y);
    AliveAtMost(g, NeighborCoors(g, x, y));
    Alive(g, NeighborCoors(g, x, y))
  }

  /** The live cells of the 3 by 3 block around (x, y), other than (x, y). */
  function LiveNeighbours(g: seq<seq<int>>, x: int, y: int): set<(int, int)>
    requires Rect(g)
  {
    set a, b | x - 1 <= a <= x + 1 && y - 1 <= b <= y + 1 && (a, b) != (x, y)
      && 0 <= a < |g| && 0 <= b < |g[0]| && g[a][b] == 1 :: (a, b)
  }

  function AliveSet(g: seq<seq<int>>, ns: seq<(int, int)>): set<(int, int)>
    requires Indexable(g, ns)
  {
    set p | p in ns && g[p.0][p.1] == 1
  }

  lemma {:induction false} AliveCountsSet(g: seq<seq<int>>, ns: seq<(int, int)>)
    requires Indexable(g, ns)
    requires Increasing(ns)
    ensures Alive(g, ns) == |AliveSet(g, ns)|
  {
    if ns != [] {
      var rest := ns[1..];
      AliveCountsSet(g, rest);
      assert ns[0] !in rest by {
        forall k | 0 <= k < |rest|
          ensures rest[k] != ns[0]
        {
          assert Before(ns[0], ns[k + 1]);
        }
      }
      if g[ns[0].0][ns[0].1] == 1 {
        assert AliveSet(g, ns) == AliveSet(g, rest) + {ns[0]};
      } else {
        assert AliveSet(g, ns) == AliveSet(g, rest);
      }
    }
  }

  /** The count is the number of live cells around (x, y), between 0 and 8. */
  lemma CountIsLiveNeighbours(g: seq<seq<int>>, x: int, y: int)
    requires Rect(g)
    ensures CountNeighborsAlive(g, x, y) == |LiveNeighbours(g, x, y)|
    ensures CountNeighborsAlive(g, x, y) <= |NeighborCoors(g, x, y)| <= 8
  {
    var ns := NeighborCoors(g, x, y);
    NeighborsIndexable(g, x, y);
    NeighborCoorsOrdered(g, x, y);
    NeighborCoorsMembers(g, x, y);
    AliveCountsSet(g, ns);
    assert AliveSet(g, ns) == LiveNeighbours(g, x, y);
  }

  lemma {:induction false} AliveAtMost(g: seq<seq<int>>, ns: seq<(int, int)>)
    requires Indexable(g, ns)
    ensures Alive(g, ns) <= |ns|
  {
    if ns != [] {
      AliveAtMost(g, ns[1..]);
    }
  }

  /** The B3/S23 rule: a cell is alive next tick if it has three live
      neighbours, or if it is alive now and has two. */
  function ComputeNextState(curr: int, neighbors: int): (r: int)
    ensures r == 0 || r == 1
    ensures neighbors == 3 ==> r == 1
    ensures neighbors != 2 && neighbors != 3 ==> r == 0
    ensures curr != 1 && neighbors == 2 ==> r == 0
    ensures curr == 1 && neighbors == 2 ==> r == 1
  {
    if (curr == 1 && neighbors == 2) || neighbors == 3 then 1 else 0
  }

  /** The whole next generation of g. */
  function LifeStep(g: seq<seq<int>>): (r: seq<seq<int>>)
    requires Rect(g)
    ensures |r| == |g| && forall x :: 0 <= x < |g| ==> |r[x]| == |g[x]|
    ensures forall x, y :: 0 <= x < |g| && 0 <= y < |g[x]| ==> r[x][y] == 0 || r[x][y] == 1
  {
    seq(|g|, x requires 0 <= x < |g| =>
      seq(|g[x]|, y requires 0 <= y < |g[x]| => ComputeNextState(g[x][y], CountNeighborsAlive(g, x, y))))
  }

  /** A cell of the next generation is alive exactly when three cells around
      it are alive now, or it is alive now and two around it are; every cell
      is 0 or 1 and the grid keeps its shape. */
  lemma LifeRule(g: seq<seq<int>>, x: int, y: int)
    requires Rect(g) && 0 <= x < |g| && 0 <= y < |g[0]|
    ensures Rect(LifeStep(g)) && |LifeStep(g)[0]| == |g[0]|
    ensures LifeStep(g)[x][y] == 0 || LifeStep(g)[x][y] == 1
    ensures LifeStep(g)[x][y] == 1 <==>
      |LiveNeighbours(g, x, y)| == 3 || (g[x][y] == 1 && |LiveNeighbours(g, x, y)| == 2)
  {
    assert |g[x]| == |g[0]|;
    CountIsLiveNeighbours(g, x, y);
  }

  /** Cell (x, y) of the next generation is the rule applied to the cell and
      its live-neighbour count. */
  lemma LifeStepAt(g: seq<seq<int>>, x: int, y: int)
    requires Rect(g) && 0 <= x < |g| && 0 <= y < |g[0]|
    ensures |LifeStep(g)[x]| == |g[x]| && y < |g[x]|
    ensures LifeStep(g)[x][y] == ComputeNextState(g[x][y], CountNeighborsAlive(g, x, y))
  {
    assert |g[x]| == |g[0]|;
  }

  /** A 0/1 grid: what both buffers hold between ticks. */
  predicate Binary(g: seq<seq<int>>) {
    forall x, y :: 0 <= x < |g| && 0 <= y < |g[x]| ==> g[x][y] == 0 || g[x][y] == 1
  }

  lemma StepBinary(g: seq<seq<int>>)
    requires Rect(g)
    ensures Binary(LifeStep(g)) && Rect(LifeStep(g)) && |LifeStep(g)[0]| == |g[0]|
  {
  }

  // ---------------------------------------------------------------------
  // The simulation

  /** The neighbour lookup that is memoised: the grid argument and the
      coordinates. */
  function NeighborsOf(a: (seq<seq<int>>, int, int)): seq<(int, int)> {
    NeighborCoors(a.0, a.1, a.2)
  }

  /** The cache key: the coordinates only. */
  function KeyOf(a: (seq<seq<int>>, int, int)): (int, int) {
    (a.1, a.2)
  }

  class LifeSim {
    const width: nat
    const height: nat
    /** Every coordinate, column after column. */
    const coords: seq<(int, int)>
    /** The memoised neighbour lookup and its cache. */
    const cache: Memo<(seq<seq<int>>, int, int), (int, int), seq<(int, int)>>
    var grid: seq<seq<int>>
    var buffer: seq<seq<int>>

    ghost predicate Valid()
      reads this, cache
    {
      width > 0 && height > 0
      && Shaped(grid, width, height) && Shaped(buffer, width, height)
      && (forall p :: p in coords <==> 0 <= p.0 < width && 0 <= p.1 < height)
      && cache.fn == NeighborsOf && cache.key == KeyOf
      && (forall k :: k in cache.store ==> cache.store[k] == NeighborCoors(grid, k.0, k.1))
    }

    /** A simulation seeded with init; the buffer starts all 0 and the cache
        empty. */
    constructor (w: nat, h: nat, init: seq<seq<int>>)
      requires w > 0 && h > 0 && Shaped(init, w, h)
      ensures Valid() && width == w && height == h
      ensures grid == init && buffer == InitGrid(w, h, 0) && coords == GridCoords(init)
      ensures fresh(cache) && cache.store == map[]
    {
      width, height := w, h;
      grid := init;
      buffer := InitGrid(w, h, 0);
      coords := GridCoords(init);
      cache := new Memo(NeighborsOf, map[], KeyOf);
      new;
      GridCoordsMembers(init);
      assert |init[0]| == h;
    }

    /** The live-neighbour count of (x, y), with the neighbour list taken from
        the cache. */
    method CountNeighborsAliveAt(x: int, y: int) returns (count: nat)
      requires Valid() && 0 <= x < width && 0 <= y < height
      modifies cache
      ensures Valid() && count == CountNeighborsAlive(grid, x, y)
    {
      var neighbors := cache.Call((grid, x, y));
      assert neighbors == NeighborCoors(grid, x, y);
      NeighborsIndexable(grid, x, y);
      count := Alive(grid, neighbors);
    }

    /** Writes the next generation of grid into buffer, cell by cell; grid is
        only read. */
    method NextState()
      requires Valid()
      modifies this, cache
      ensures Valid() && grid == old(grid) && buffer == LifeStep(grid)
    {
      ghost var b0 := buffer;
      ghost var next := LifeStep(grid);
      var i := 0;
      while i < |coords|
        invariant 0 <= i <= |coords|
        invariant Valid() && grid == old(grid)
        invariant FilledFrom(buffer, b0, next, coords[..i], width, height)
      {
        var (x, y) := coords[i];
        assert coords[i] in coords;
        var cell := grid[x][y];
        var count := CountNeighborsAliveAt(x, y);
        LifeStepAt(grid, x, y);
        FilledSnoc(buffer, b0, next, coords[..i], width, height, x, y);
        buffer := buffer[x := buffer[x][y := ComputeNextState(cell, count)]];
        PrefixSnoc(coords, i);
        i := i + 1;
      }
      assert coords[..i] == coords;
      FilledAll(buffer, b0, next, coords, width, height);
    }

    /** One tick: compute the next generation into buffer, then swap the
        two. */
    method Tick()
      requires Valid()
      modifies this, cache
      ensures Valid() && grid == LifeStep(old(grid)) && buffer == old(grid)
      ensures Binary(grid)
    {
      NextState();
      grid, buffer := buffer, grid;
      StepBinary(buffer);
      forall k | k in cache.store
        ensures cache.store[k] == NeighborCoors(grid, k.0, k.1)
      {
        NeighborCoorsShape(grid, buffer, k.0, k.1);
      }
    }
  }
}
