/** An optional value: the model's stand-in for a Java reference that may be null. */
module Options {
  datatype Option<T> = None | Some(value: T)
}

/** Board coordinates and the board as a value. */
module Geometry {

  /** A board position (java.awt.Point): `x` indexes the outer array, `y` the inner one. */
  datatype Pos = Pos(x: int, y: int)

  /** A board as a value: `g[x][y]` is 0 for an empty cell, otherwise a colour. */
  type Grid = seq<seq<int>>

  /** `g` can be read at every position of an `n`-by-`n` board. */
  predicate Covers(g: Grid, n: int)
  {
    0 <= n <= |g| && forall i :: 0 <= i < n ==> n <= |g[i]|
  }

  predicate InBounds(n: int, p: Pos)
  {
    0 <= p.x < n && 0 <= p.y < n
  }

  /** `g` is exactly an `n`-by-`n` board. */
  predicate IsSquare(g: Grid, n: int)
  {
    |g| == n && forall i :: 0 <= i < n ==> |g[i]| == n
  }

  /** The two positions are 4-neighbours: one step apart horizontally or vertically. */
  predicate Adjacent(p: Pos, q: Pos)
  {
    (p.x == q.x && (q.y == p.y + 1 || q.y == p.y - 1)) ||
    (p.y == q.y && (q.x == p.x + 1 || q.x == p.x - 1))
  }

  /** `p` translated by the offset `d` (Point.translate). */
  function Shift(p: Pos, d: Pos): Pos
  {
    Pos(p.x + d.x, p.y + d.y)
  }

  /** Row-major order, the order in which the source's nested loops visit the cells. */
  predicate LexLess(p: Pos, q: Pos)
  {
    p.x < q.x || (p.x == q.x && p.y < q.y)
  }

  /** Two boards agree on every cell of an `n`-by-`n` board are the same board. */
  lemma {:induction false} SameCells(a: Grid, b: Grid, n: int)
    requires IsSquare(a, n) && IsSquare(b, n)
    requires forall x, y :: 0 <= x < n && 0 <= y < n ==> a[x][y] == b[x][y]
    ensures a == b
  {
    forall x | 0 <= x < n
      ensures a[x] == b[x]
    {
      assert forall y :: 0 <= y < n ==> a[x][y] == b[x][y];
    }
  }
}
