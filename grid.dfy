/** The rectangular grid shared by both simulations: a grid is a sequence of
    columns, indexed g[x][y], with x across and y downwards. */
module Grid {
  import opened Helpers

  /** g has w columns of h cells each. */
  predicate Shaped<T>(g: seq<seq<T>>, w: nat, h: nat) {
    |g| == w && forall x :: 0 <= x < w ==> |g[x]| == h
  }

  /** A non-empty grid whose columns all have the length of the first. */
  predicate Rect<T>(g: seq<seq<T>>) {
    |g| > 0 && forall x :: 0 <= x < |g| ==> |g[x]| == |g[0]|
  }

  /** The bounds test of both simulations: the width is the number of columns
      and the height is the length of the first column. */
  predicate WithinBounds<T>(g: seq<seq<T>>, x: int, y: int) {
    0 <= x < |g| && 0 <= y < |g[0]|
  }

  /** On a shaped grid the bounds test admits exactly the cells that can be
      indexed. */
  lemma WithinBoundsIndexable<T>(g: seq<seq<T>>, w: nat, h: nat, x: int, y: int)
    requires Shaped(g, w, h)
    ensures WithinBounds(g, x, y) <==> 0 <= x < w && 0 <= y < h
    ensures WithinBounds(g, x, y) ==> y < |g[x]|
  {
  }

  /** A grid of x columns of y cells, every cell a separate copy of init. */
  function InitGrid<T>(x: nat, y: nat, init: T): (g: seq<seq<T>>)
    ensures Shaped(g, x, y)
    ensures forall i, j :: 0 <= i < x && 0 <= j < y ==> g[i][j] == init
  {
    var cols := InitArray(x, init);
    seq(|cols|, _ => InitArray(y, init))
  }

  /** The coordinates of one column, top to bottom. */
  function Column(x: int, n: nat): seq<(int, int)> {
    seq(n, y => (x, y))
  }

  /** Every coordinate of the grid, column after column and top to bottom
      within a column: the fixed iteration order of a tick. */
  function GridCoords<T>(g: seq<seq<T>>): (cs: seq<(int, int)>)
    ensures forall i :: 0 <= i < |cs| ==> 0 <= cs[i].0 < |g| && 0 <= cs[i].1 < |g[cs[i].0]|
  {
    if g == [] then [] else GridCoords(g[..|g| - 1]) + Column(|g| - 1, |g[|g| - 1]|)
  }

  /** The coordinate list holds exactly the indexable cells. */
  lemma {:induction false} GridCoordsMembers<T>(g: seq<seq<T>>)
    ensures forall p :: p in GridCoords(g) <==> 0 <= p.0 < |g| && 0 <= p.1 < |g[p.0]|
  {
    if g != [] {
      var front := g[..|g| - 1];
      GridCoordsMembers(front);
      var col := Column(|g| - 1, |g[|g| - 1]|);
      forall p
        ensures p in GridCoords(g) <==> 0 <= p.0 < |g| && 0 <= p.1 < |g[p.0]|
      {
        if 0 <= p.0 < |g| - 1 {
          assert g[p.0] == front[p.0];
        }
        if p.0 == |g| - 1 && 0 <= p.1 < |g[p.0]| {
          assert col[p.1] == p;
        }
      }
    }
  }

  /** Lexicographic order on coordinates: x first, then y. */
  predicate Before(p: (int, int), q: (int, int)) {
    p.0 < q.0 || (p.0 == q.0 && p.1 < q.1)
  }

  /** The coordinate list is strictly increasing in x-major order, so it holds
      each coordinate once and visits columns left to right. */
  lemma {:induction false} GridCoordsOrdered<T>(g: seq<seq<T>>)
    ensures forall i, j :: 0 <= i < j < |GridCoords(g)| ==> Before(GridCoords(g)[i], GridCoords(g)[j])
  {
    if g != [] {
      var front := g[..|g| - 1];
      GridCoordsOrdered(front);
      GridCoordsMembers(front);
      var a := GridCoords(front);
      var col := Column(|g| - 1, |g[|g| - 1]|);
      var cs := GridCoords(g);
      assert cs == a + col;
      forall i, j | 0 <= i < j < |cs|
        ensures Before(cs[i], cs[j])
      {
        if j < |a| {
          assert cs[i] == a[i] && cs[j] == a[j];
        } else if i < |a| {
          assert cs[i] == a[i] && a[i] in a;
          assert cs[j] == col[j - |a|];
        } else {
          assert cs[i] == col[i - |a|] && cs[j] == col[j - |a|];
        }
      }
    }
  }

  /** A w by h grid has w * h coordinates. */
  lemma {:induction false} GridCoordsLength<T>(g: seq<seq<T>>, w: nat, h: nat)
    requires Shaped(g, w, h)
    ensures |GridCoords(g)| == w * h
  {
    if g != [] {
      var front := g[..|g| - 1];
      assert Shaped(front, w - 1, h);
      GridCoordsLength(front, w - 1, h);
      assert |GridCoords(g)| == |GridCoords(front)| + h;
      MulSucc(w - 1, h);
    }
  }

  lemma MulSucc(a: int, b: int)
    ensures a * b + b == (a + 1) * b
  {
  }

  /** On a shaped, non-empty grid the bounds test and the coordinate list
      agree. */
  lemma WithinBoundsListed<T>(g: seq<seq<T>>, w: nat, h: nat)
    requires Shaped(g, w, h) && w > 0
    ensures forall x, y :: WithinBounds(g, x, y) <==> (x, y) in GridCoords(g)
  {
    GridCoordsMembers(g);
  }

  /** One more element of a prefix. */
  lemma PrefixSnoc<T>(s: seq<T>, i: nat)
    requires i < |s|
    ensures s[..i + 1] == s[..i] + [s[i]]
  {
  }

  // ---------------------------------------------------------------------
  // Filling a w by h grid cell by cell

  /** Every cell of cur listed in done holds target's value there; every
      other cell still holds start's. */
  ghost predicate FilledFrom<T>(cur: seq<seq<T>>, start: seq<seq<T>>, target: seq<seq<T>>, done: seq<(int, int)>, w: nat, h: nat)
    requires Shaped(cur, w, h) && Shaped(start, w, h) && Shaped(target, w, h)
  {
    forall a, b :: 0 <= a < w && 0 <= b < h ==>
      cur[a][b] == if (a, b) in done then target[a][b] else start[a][b]
  }

  /** Writing target's value at one more cell extends the filled part by it. */
  lemma FilledSnoc<T>(cur: seq<seq<T>>, start: seq<seq<T>>, target: seq<seq<T>>, done: seq<(int, int)>, w: nat, h: nat, x: int, y: int)
    requires Shaped(cur, w, h) && Shaped(start, w, h) && Shaped(target, w, h)
    requires 0 <= x < w && 0 <= y < h
    requires FilledFrom(cur, start, target, done, w, h)
    ensures Shaped(cur[x := cur[x][y := target[x][y]]], w, h)
    ensures FilledFrom(cur[x := cur[x][y := target[x][y]]], start, target, done + [(x, y)], w, h)
  {
    var next := cur[x := cur[x][y := target[x][y]]];
    forall a, b | 0 <= a < w && 0 <= b < h
      ensures next[a][b] == if (a, b) in done + [(x, y)] then target[a][b] else start[a][b]
    {
      assert (a, b) in done + [(x, y)] <==> (a, b) in done || (a, b) == (x, y);
    }
  }

  /** Once every cell is filled, the grid is the target. */
  lemma FilledAll<T>(cur: seq<seq<T>>, start: seq<seq<T>>, target: seq<seq<T>>, done: seq<(int, int)>, w: nat, h: nat)
    requires Shaped(cur, w, h) && Shaped(start, w, h) && Shaped(target, w, h)
    requires FilledFrom(cur, start, target, done, w, h)
    requires forall a, b :: 0 <= a < w && 0 <= b < h ==> (a, b) in done
    ensures cur == target
  {
    forall a | 0 <= a < w
      ensures cur[a] == target[a]
    {
      assert forall b :: 0 <= b < h ==> cur[a][b] == target[a][b];
    }
  }
}
