/**
 * Single-source shortest paths over the empty cells of a board (PathFinder.java).
 * Dijkstra's algorithm with unit edge weights: the vertices are the source cell and every
 * empty cell, edges join 4-neighbours. Vertices live in one table and refer to their
 * predecessor by index instead of by object reference.
 */
module PathFinding {
  import opened Options
  import opened Geometry

  /** A vertex's distance in hops, or `Inf` for "not reached" (Integer.MAX_VALUE in the source). */
  datatype Dist = Fin(hops: nat) | Inf

  /** `a < b`, with `Inf` above every hop count and not below itself. */
  predicate Below(a: Dist, b: Dist)
  {
    a.Fin? && (b.Inf? || a.hops < b.hops)
  }

  /** `a <= b` in the same order. */
  predicate AtMost(a: Dist, b: Dist)
  {
    b.Inf? || (a.Fin? && a.hops <= b.hops)
  }

  /** PathFinder.Vertex: a position, its distance and the index of its predecessor. */
  datatype Vertex = Vertex(pos: Pos, dist: Dist, prev: Option<nat>)

  /** The four neighbour offsets, in the order the source relaxes them. */
  const Offsets: seq<Pos> := [Pos(0, 1), Pos(0, -1), Pos(1, 0), Pos(-1, 0)]

  // ---------------------------------------------------------------------------------------
  // What the search is about: walks from the source through empty cells
  // ---------------------------------------------------------------------------------------

  /** A cell a path may visit: the source itself, or an empty cell of the board. */
  predicate IsVertexCell(g: Grid, n: int, src: Pos, p: Pos)
    requires Covers(g, n)
  {
    p == src || (InBounds(n, p) && g[p.x][p.y] == 0)
  }

  /** An empty cell other than the source: the cells the reachability reports classify. */
  predicate IsFreeCell(g: Grid, n: int, src: Pos, p: Pos)
    requires Covers(g, n)
  {
    InBounds(n, p) && g[p.x][p.y] == 0 && p != src
  }

  /** `w` starts at `src` and moves one 4-neighbour step at a time through vertex cells. */
  predicate IsWalk(g: Grid, n: int, src: Pos, w: seq<Pos>)
    requires Covers(g, n)
  {
    |w| >= 1 && w[0] == src &&
    forall i :: 1 <= i < |w| ==> Adjacent(w[i - 1], w[i]) && IsVertexCell(g, n, src, w[i])
  }

  ghost predicate Reachable(g: Grid, n: int, src: Pos, dst: Pos)
    requires Covers(g, n)
  {
    exists w :: IsWalk(g, n, src, w) && w[|w| - 1] == dst
  }

  /** `w` is a walk and no walk from the source to the same end is shorter. */
  ghost predicate IsShortestWalk(g: Grid, n: int, src: Pos, w: seq<Pos>)
    requires Covers(g, n)
  {
    IsWalk(g, n, src, w) &&
    forall w' :: IsWalk(g, n, src, w') && w'[|w'| - 1] == w[|w| - 1] ==> |w| <= |w'|
  }

  // ---------------------------------------------------------------------------------------
  // The shape of a finished search
  // ---------------------------------------------------------------------------------------

  /**
   * The vertex table holds the source first and then every empty cell other than the source
   * exactly once (the vertex list calculateCosts builds).
   */
  ghost predicate VertexSet(g: Grid, n: int, src: Pos, vs: seq<Vertex>)
    requires Covers(g, n)
  {
    && |vs| >= 1 && vs[0].pos == src
    && (forall k :: 1 <= k < |vs| ==> IsFreeCell(g, n, src, vs[k].pos))
    && (forall x, y :: 0 <= x < n && 0 <= y < n && g[x][y] == 0 && Pos(x, y) != src ==>
          exists k :: 1 <= k < |vs| && vs[k].pos == Pos(x, y))
    && (forall a, b :: 0 <= a < b < |vs| ==> vs[a].pos != vs[b].pos)
  }

  /** Vertex `k` hangs off an earlier-settled neighbour one hop closer to the source. */
  ghost predicate LinkOk(vs: seq<Vertex>, k: int)
    requires 0 <= k < |vs| && vs[k].prev.Some?
  {
    var j := vs[k].prev.value;
    j < |vs| && vs[j].dist.Fin? && vs[k].dist == Fin(vs[j].dist.hops + 1) &&
    Adjacent(vs[j].pos, vs[k].pos)
  }

  /**
   * Distances and predecessors after the search: the source is at distance 0 with no
   * predecessor, every other vertex has a predecessor exactly when it was reached, links
   * are sound, and no edge can shorten any distance any more.
   */
  ghost predicate Settled(vs: seq<Vertex>)
  {
    && |vs| >= 1 && vs[0].dist == Fin(0) && vs[0].prev == None
    && (forall k :: 1 <= k < |vs| ==> (vs[k].prev.Some? <==> vs[k].dist.Fin?))
    && (forall k {:trigger LinkOk(vs, k)} :: 0 <= k < |vs| && vs[k].prev.Some? ==> LinkOk(vs, k))
    && (forall u, w ::
          (0 <= u < |vs| && 0 <= w < |vs| && vs[u].dist.Fin? && Adjacent(vs[u].pos, vs[w].pos)) ==>
          AtMost(vs[w].dist, Fin(vs[u].dist.hops + 1)))
  }

  /** The identity list 0, 1, ..., n-1: every vertex of a table of `n` vertices, in order. */
  function AllIds(n: nat): seq<nat>
  {
    seq(n, i => i)
  }

  // ---------------------------------------------------------------------------------------
  // Lemmas: a settled table answers reachability and shortest-path questions
  // ---------------------------------------------------------------------------------------

  /** Every vertex cell has its vertex in the table. */
  lemma VertexOf(g: Grid, n: int, src: Pos, vs: seq<Vertex>, p: Pos) returns (k: nat)
    requires Covers(g, n) && VertexSet(g, n, src, vs) && IsVertexCell(g, n, src, p)
    ensures k < |vs| && vs[k].pos == p
  {
    if p == src {
      k := 0;
    } else {
      assert Pos(p.x, p.y) == p;
      k :| 1 <= k < |vs| && vs[k].pos == p;
    }
  }

  /** No walk beats the computed distance: the vertex a walk ends on is at most |w|-1 hops away. */
  lemma {:induction false} WalkBound(g: Grid, n: int, src: Pos, vs: seq<Vertex>, w: seq<Pos>, k: nat)
    requires Covers(g, n) && VertexSet(g, n, src, vs) && Settled(vs)
    requires IsWalk(g, n, src, w) && k < |vs| && vs[k].pos == w[|w| - 1]
    ensures AtMost(vs[k].dist, Fin(|w| - 1))
    decreases |w|
  {
    if |w| == 1 {
      assert vs[k].pos == vs[0].pos;
      assert k == 0;
    } else {
      var w' := w[..|w| - 1];
      assert IsWalk(g, n, src, w') by {
        forall i | 1 <= i < |w'|
          ensures Adjacent(w'[i - 1], w'[i]) && IsVertexCell(g, n, src, w'[i])
        {
          assert w'[i - 1] == w[i - 1] && w'[i] == w[i];
        }
      }
      var last := w[|w| - 2];
      assert IsVertexCell(g, n, src, last) by {
        if |w| - 2 >= 1 {
          assert IsVertexCell(g, n, src, w[|w| - 2]);
        } else {
          assert last == src;
        }
      }
      var j := VertexOf(g, n, src, vs, last);
      WalkBound(g, n, src, vs, w', j);
      assert Adjacent(vs[j].pos, vs[k].pos);
    }
  }

  /** Following predecessor links from a reached vertex spells out a walk of dist+1 cells. */
  lemma {:induction false} ChainWalk(g: Grid, n: int, src: Pos, vs: seq<Vertex>, k: nat) returns (w: seq<Pos>)
    requires Covers(g, n) && VertexSet(g, n, src, vs) && Settled(vs)
    requires k < |vs| && vs[k].dist.Fin?
    ensures IsWalk(g, n, src, w) && w[|w| - 1] == vs[k].pos && |w| == vs[k].dist.hops + 1
    decreases vs[k].dist.hops
  {
    if k == 0 {
      w := [src];
    } else {
      assert LinkOk(vs, k);
      var j := vs[k].prev.value;
      var w' := ChainWalk(g, n, src, vs, j);
      w := w' + [vs[k].pos];
      assert IsFreeCell(g, n, src, vs[k].pos);
      forall i | 1 <= i < |w|
        ensures Adjacent(w[i - 1], w[i]) && IsVertexCell(g, n, src, w[i])
      {
        if i < |w'| {
          assert w[i - 1] == w'[i - 1] && w[i] == w'[i];
        }
      }
    }
  }

  /** A vertex was reached by the search exactly when a walk leads to its cell. */
  lemma ReachableIffFinite(g: Grid, n: int, src: Pos, vs: seq<Vertex>, k: nat)
    requires Covers(g, n) && VertexSet(g, n, src, vs) && Settled(vs) && k < |vs|
    ensures vs[k].dist.Fin? <==> Reachable(g, n, src, vs[k].pos)
  {
    if vs[k].dist.Fin? {
      var w := ChainWalk(g, n, src, vs, k);
    }
    if Reachable(g, n, src, vs[k].pos) {
      var w :| IsWalk(g, n, src, w) && w[|w| - 1] == vs[k].pos;
      WalkBound(g, n, src, vs, w, k);
    }
  }

  /** Only vertex cells can be reached: a walk ends on the source or on an empty cell. */
  lemma ReachableIsVertexCell(g: Grid, n: int, src: Pos, p: Pos)
    requires Covers(g, n) && Reachable(g, n, src, p)
    ensures IsVertexCell(g, n, src, p)
  {
    var w :| IsWalk(g, n, src, w) && w[|w| - 1] == p;
    if |w| > 1 {
      assert IsVertexCell(g, n, src, w[|w| - 1]);
    }
  }

  /** A reachable cell has its vertex in the table. */
  lemma ReachableHasVertex(g: Grid, n: int, src: Pos, vs: seq<Vertex>, p: Pos)
    requires Covers(g, n) && VertexSet(g, n, src, vs)
    ensures Reachable(g, n, src, p) ==> exists k :: 0 <= k < |vs| && vs[k].pos == p
  {
    if Reachable(g, n, src, p) {
      ReachableIsVertexCell(g, n, src, p);
      var k := VertexOf(g, n, src, vs, p);
    }
  }

  // ---------------------------------------------------------------------------------------
  // The search itself
  // ---------------------------------------------------------------------------------------

  /**
   * findNearestVertex: the position in `open` of a vertex of least distance, the first one
   * on ties.
   */
  method FindNearestVertex(vs: seq<Vertex>, open: seq<nat>) returns (k: nat)
    requires |open| > 0 && forall i :: 0 <= i < |open| ==> open[i] < |vs|
    ensures k < |open|
    ensures forall j :: 0 <= j < |open| ==> AtMost(vs[open[k]].dist, vs[open[j]].dist)
    ensures forall j :: 0 <= j < k ==> Below(vs[open[k]].dist, vs[open[j]].dist)
  {
    k := 0;
    for i := 1 to |open|
      invariant k < i
      invariant forall j :: 0 <= j < i ==> AtMost(vs[open[k]].dist, vs[open[j]].dist)
      invariant forall j :: 0 <= j < k ==> Below(vs[open[k]].dist, vs[open[j]].dist)
    {
      if Below(vs[open[i]].dist, vs[open[k]].dist) {
        k := i;
      }
    }
  }

  /**
   * findVertex: the position in `ids` of the first vertex standing at `p`, or None when no
   * vertex listed there stands at `p`.
   */
  method FindVertex(vs: seq<Vertex>, ids: seq<nat>, p: Pos) returns (r: Option<nat>)
    requires forall i :: 0 <= i < |ids| ==> ids[i] < |vs|
    ensures r.Some? ==> r.value < |ids| && vs[ids[r.value]].pos == p
    ensures r.Some? ==> forall j :: 0 <= j < r.value ==> vs[ids[j]].pos != p
    ensures r.None? ==> forall j :: 0 <= j < |ids| ==> vs[ids[j]].pos != p
  {
    for i := 0 to |ids|
      invariant forall j :: 0 <= j < i ==> vs[ids[j]].pos != p
    {
      if vs[ids[i]].pos == p {
        return Some(i);
      }
    }
    return None;
  }

  /** PathFinder: the table of the last search, the source and the board snapshot it ran on. */
  class PathFinder {
    var vertices: seq<Vertex>
    var lastSrc: Option<Pos>
    var lastField: Grid
    var lastSize: int

    /** Once a search has run, its table is the settled vertex table of its board and source. */
    ghost predicate Valid()
      reads this
    {
      lastSrc.Some? ==>
        Covers(lastField, lastSize) &&
        VertexSet(lastField, lastSize, lastSrc.value, vertices) && Settled(vertices)
    }

    constructor ()
      ensures Valid() && lastSrc == None
    {
      vertices := [];
      lastSrc := None;
      lastField := [];
      lastSize := 0;
    }

    /**
     * calculateCosts: runs the search from `src` over `field` and keeps its result.
     */
    method CalculateCosts(field: Grid, size: int, src: Pos)
      requires Covers(field, size)
      modifies this
      ensures Valid()
      ensures lastSrc == Some(src) && lastField == field && lastSize == size
    {
      var vs := BuildVertices(field, size, src);
      vs := Relax(field, size, src, vs);
      lastSrc := Some(src);
      vertices := vs;
      lastField := field;
      lastSize := size;
    }

    /**
     * getPath: the path from the last source to `dst` rebuilt from predecessor links; None
     * when no search has run, `dst` is no vertex, or the chain does not end at the source.
     */
    method GetPath(dst: Pos) returns (path: Option<seq<Pos>>)
      requires Valid()
      ensures lastSrc.None? ==> path.None?
      ensures lastSrc.Some? ==> (path.Some? <==> Reachable(lastField, lastSize, lastSrc.value, dst))
      ensures path.Some? ==>
        (lastSrc.Some? && IsShortestWalk(lastField, lastSize, lastSrc.value, path.value) &&
         path.value[|path.value| - 1] == dst)
      ensures path.Some? ==>
        exists k :: 0 <= k < |vertices| && vertices[k].pos == dst && vertices[k].dist == Fin(|path.value| - 1)
    {
      if lastSrc.None? {
        return None;
      }
      var src := lastSrc.value;
      var vs := vertices;
      var found := FindVertex(vs, AllIds(|vs|), dst);
      if found.None? {
        forall k | 0 <= k < |vs|
          ensures vs[k].pos != dst
        {
          assert AllIds(|vs|)[k] == k;
        }
        ReachableHasVertex(lastField, lastSize, src, vs, dst);
        return None;
      }
      var d := found.value;
      var u, p := TraceBack(src, d);
      var s := FindVertex(vs, AllIds(|vs|), src);
      assert AllIds(|vs|)[0] == 0;
      if s.None? || u != s.value {
        // the chain stopped at an unreached vertex other than the source
        assert u != 0;
        ReachableIffFinite(lastField, lastSize, src, vs, d);
        return None;
      }
      assert u == 0;
      assert vs[d].dist == Fin(|p| - 1);
      assert IsWalk(lastField, lastSize, src, p);
      forall w' | IsWalk(lastField, lastSize, src, w') && w'[|w'| - 1] == p[|p| - 1]
        ensures |p| <= |w'|
      {
        WalkBound(lastField, lastSize, src, vs, w', d);
      }
      return Some(p);
    }

    /** The while loop of getPath: follow the predecessor links from vertex `d` back to a vertex without one. */
    method TraceBack(src: Pos, d: nat) returns (u: nat, p: seq<Pos>)
      requires Valid() && lastSrc == Some(src) && d < |vertices|
      ensures u < |vertices| && vertices[u].prev.None?
      ensures |p| >= 1 && p[0] == vertices[u].pos && p[|p| - 1] == vertices[d].pos
      ensures forall i :: 1 <= i < |p| ==> Adjacent(p[i - 1], p[i]) && IsVertexCell(lastField, lastSize, src, p[i])
      ensures vertices[d].dist.Fin? ==> vertices[u].dist.Fin? && vertices[d].dist.hops == |p| - 1 + vertices[u].dist.hops
      ensures vertices[d].dist.Inf? ==> u == d
    {
      var vs := vertices;
      u := d;
      p := [vs[d].pos];
      while vs[u].prev.Some?
        invariant d < |vs| && u < |vs|
        invariant |p| >= 1 && p[0] == vs[u].pos && p[|p| - 1] == vs[d].pos
        invariant forall i :: 1 <= i < |p| ==> Adjacent(p[i - 1], p[i]) && IsVertexCell(lastField, lastSize, src, p[i])
        invariant vs[d].dist.Fin? ==> vs[u].dist.Fin? && vs[d].dist.hops == |p| - 1 + vs[u].dist.hops
        invariant vs[d].dist.Inf? ==> u == d
        decreases if vs[u].dist.Fin? then vs[u].dist.hops else 0
      {
        assert LinkOk(vs, u);
        var cur := vs[u].pos;
        assert IsVertexCell(lastField, lastSize, src, cur) by {
          if u > 0 { assert IsFreeCell(lastField, lastSize, src, vs[u].pos); }
        }
        u := vs[u].prev.value;
        p := [vs[u].pos] + p;
        assert p[1] == cur;
      }
    }

    /**
     * getReachablePoints: every empty cell other than the source that the search reached, in
     * row-major order; None when no search has run.
     */
    method GetReachablePoints() returns (res: Option<seq<Pos>>)
      requires Valid()
      ensures res.None? <==> lastSrc.None?
      ensures res.Some? ==> forall p :: p in res.value <==> Classified(lastField, lastSize, lastSrc.value, p, true)
      ensures res.Some? ==> forall a, b :: 0 <= a < b < |res.value| ==> LexLess(res.value[a], res.value[b])
    {
      if lastSrc.None? {
        return None;
      }
      var src := lastSrc.value;
      var g, n, vs := lastField, lastSize, vertices;
      var r: seq<Pos> := [];
      for x := 0 to n
        invariant forall p :: p in r <==> Classified(g, n, src, p, true) && LexLess(p, Pos(x, 0))
        invariant forall a, b :: 0 <= a < b < |r| ==> LexLess(r[a], r[b])
        invariant forall a :: 0 <= a < |r| ==> LexLess(r[a], Pos(x, 0))
      {
        for y := 0 to n
          invariant forall p :: p in r <==> Classified(g, n, src, p, true) && LexLess(p, Pos(x, y))
          invariant forall a, b :: 0 <= a < b < |r| ==> LexLess(r[a], r[b])
          invariant forall a :: 0 <= a < |r| ==> LexLess(r[a], Pos(x, y))
        {
          ghost var before := r;
          // the source's guard clauses (skip the source, skip a filled cell, skip a cell
          // without a vertex), written as nested conditions
          if (src.x != x || src.y != y) && g[x][y] == 0 {
            var found := FindVertex(vs, AllIds(|vs|), Pos(x, y));
            FreeCellListed(g, n, src, vs, Pos(x, y));
            if found.Some? {
              var u := vs[found.value];
              ReachableIffFinite(g, n, src, vs, found.value);
              if u.prev.Some? && u.dist.Fin? {
                r := r + [u.pos];
              }
            }
          }
          ScanStep(g, n, src, true, before, r, x, y);
        }
        RowDone(g, n, src, true, r, x);
      }
      ScanDone(g, n, src, true, r);
      return Some(r);
    }

    /**
     * getUnreachablePoints: every empty cell other than the source that the search did not
     * reach, in row-major order; None when no search has run.
     */
    method GetUnreachablePoints() returns (res: Option<seq<Pos>>)
      requires Valid()
      ensures res.None? <==> lastSrc.None?
      ensures res.Some? ==> forall p :: p in res.value <==> Classified(lastField, lastSize, lastSrc.value, p, false)
      ensures res.Some? ==> forall a, b :: 0 <= a < b < |res.value| ==> LexLess(res.value[a], res.value[b])
    {
      if lastSrc.None? {
        return None;
      }
      var src := lastSrc.value;
      var g, n, vs := lastField, lastSize, vertices;
      var r: seq<Pos> := [];
      for x := 0 to n
        invariant forall p :: p in r <==> Classified(g, n, src, p, false) && LexLess(p, Pos(x, 0))
        invariant forall a, b :: 0 <= a < b < |r| ==> LexLess(r[a], r[b])
        invariant forall a :: 0 <= a < |r| ==> LexLess(r[a], Pos(x, 0))
      {
        for y := 0 to n
          invariant forall p :: p in r <==> Classified(g, n, src, p, false) && LexLess(p, Pos(x, y))
          invariant forall a, b :: 0 <= a < b < |r| ==> LexLess(r[a], r[b])
          invariant forall a :: 0 <= a < |r| ==> LexLess(r[a], Pos(x, y))
        {
          ghost var before := r;
          if (src.x != x || src.y != y) && g[x][y] == 0 {
            // every empty cell other than the source has a vertex, so the lookup never
            // yields the null the source would dereference
            var k := VertexOf(g, n, src, vs, Pos(x, y));
            assert AllIds(|vs|)[k] == k;
            var found := FindVertex(vs, AllIds(|vs|), Pos(x, y));
            var u := vs[found.value];
            ReachableIffFinite(g, n, src, vs, found.value);
            if u.prev.None? || u.dist.Inf? {
              r := r + [u.pos];
            }
          }
          ScanStep(g, n, src, false, before, r, x, y);
        }
        RowDone(g, n, src, false, r, x);
      }
      ScanDone(g, n, src, false, r);
      return Some(r);
    }
  }

  /** `p` is an empty cell other than the source that the search reached (or, for `false`, did not). */
  ghost predicate Classified(g: Grid, n: int, src: Pos, p: Pos, reached: bool)
    requires Covers(g, n)
  {
    IsFreeCell(g, n, src, p) && Reachable(g, n, src, p) == reached
  }

  /** An empty cell other than the source is found by a lookup over the whole table. */
  lemma FreeCellListed(g: Grid, n: int, src: Pos, vs: seq<Vertex>, p: Pos)
    requires Covers(g, n) && VertexSet(g, n, src, vs)
    ensures IsFreeCell(g, n, src, p) ==> exists j :: 0 <= j < |vs| && vs[AllIds(|vs|)[j]].pos == p
  {
    if IsFreeCell(g, n, src, p) {
      var k := VertexOf(g, n, src, vs, p);
      assert AllIds(|vs|)[k] == k;
    }
  }

  /** Visiting cell (x, y) of the row-major scan extends the list by that cell exactly when it is classified. */
  lemma ScanStep(g: Grid, n: int, src: Pos, reached: bool, r: seq<Pos>, r': seq<Pos>, x: int, y: int)
    requires Covers(g, n)
    requires forall p :: p in r <==> Classified(g, n, src, p, reached) && LexLess(p, Pos(x, y))
    requires forall a, b :: 0 <= a < b < |r| ==> LexLess(r[a], r[b])
    requires forall a :: 0 <= a < |r| ==> LexLess(r[a], Pos(x, y))
    requires if Classified(g, n, src, Pos(x, y), reached) then r' == r + [Pos(x, y)] else r' == r
    ensures forall p :: p in r' <==> Classified(g, n, src, p, reached) && LexLess(p, Pos(x, y + 1))
    ensures forall a, b :: 0 <= a < b < |r'| ==> LexLess(r'[a], r'[b])
    ensures forall a :: 0 <= a < |r'| ==> LexLess(r'[a], Pos(x, y + 1))
  {
  }

  /** Finishing row x of an n-wide board is starting row x+1. */
  lemma RowDone(g: Grid, n: int, src: Pos, reached: bool, r: seq<Pos>, x: int)
    requires Covers(g, n)
    requires forall p :: p in r <==> Classified(g, n, src, p, reached) && LexLess(p, Pos(x, n))
    requires forall a :: 0 <= a < |r| ==> LexLess(r[a], Pos(x, n))
    ensures forall p :: p in r <==> Classified(g, n, src, p, reached) && LexLess(p, Pos(x + 1, 0))
    ensures forall a :: 0 <= a < |r| ==> LexLess(r[a], Pos(x + 1, 0))
  {
  }

  /** After the last row every classified cell has been visited. */
  lemma ScanDone(g: Grid, n: int, src: Pos, reached: bool, r: seq<Pos>)
    requires Covers(g, n)
    requires forall p :: p in r <==> Classified(g, n, src, p, reached) && LexLess(p, Pos(n, 0))
    ensures forall p :: p in r <==> Classified(g, n, src, p, reached)
  {
  }

  /**
   * First half of calculateCosts: the source at distance 0, then every empty cell other than
   * the source in row-major order, unreached and without predecessor.
   */
  method BuildVertices(field: Grid, size: int, src: Pos) returns (vs: seq<Vertex>)
    requires Covers(field, size)
    ensures VertexSet(field, size, src, vs)
    ensures vs[0] == Vertex(src, Fin(0), None)
    ensures forall k :: 1 <= k < |vs| ==> vs[k].dist == Inf && vs[k].prev == None
    ensures forall a, b :: 1 <= a < b < |vs| ==> LexLess(vs[a].pos, vs[b].pos)
  {
    vs := [Vertex(src, Fin(0), None)];
    for i := 0 to size
      invariant |vs| >= 1 && vs[0] == Vertex(src, Fin(0), None)
      invariant forall k :: 1 <= k < |vs| ==>
        (IsFreeCell(field, size, src, vs[k].pos) && vs[k].pos.x < i && vs[k].dist == Inf && vs[k].prev == None)
      invariant forall x, y :: 0 <= x < i && 0 <= y < size && field[x][y] == 0 && Pos(x, y) != src ==>
        exists k :: 1 <= k < |vs| && vs[k].pos == Pos(x, y)
      invariant forall a, b :: 1 <= a < b < |vs| ==> LexLess(vs[a].pos, vs[b].pos)
    {
      for j := 0 to size
        invariant |vs| >= 1 && vs[0] == Vertex(src, Fin(0), None)
        invariant forall k :: 1 <= k < |vs| ==>
          (IsFreeCell(field, size, src, vs[k].pos) && LexLess(vs[k].pos, Pos(i, j)) &&
           vs[k].dist == Inf && vs[k].prev == None)
        invariant forall x, y ::
          (((0 <= x < i && 0 <= y < size) || (x == i && 0 <= y < j)) && field[x][y] == 0 && Pos(x, y) != src) ==>
          exists k :: 1 <= k < |vs| && vs[k].pos == Pos(x, y)
        invariant forall a, b :: 1 <= a < b < |vs| ==> LexLess(vs[a].pos, vs[b].pos)
      {
        if field[i][j] == 0 && (src.x != i || src.y != j) {
          ghost var prev := vs;
          vs := vs + [Vertex(Pos(i, j), Inf, None)];
          forall x, y | ((0 <= x < i && 0 <= y < size) || (x == i && 0 <= y <= j)) &&
                        field[x][y] == 0 && Pos(x, y) != src
            ensures exists k :: 1 <= k < |vs| && vs[k].pos == Pos(x, y)
          {
            if x == i && y == j {
              assert vs[|vs| - 1].pos == Pos(x, y);
            } else {
              var k :| 1 <= k < |prev| && prev[k].pos == Pos(x, y);
              assert vs[k] == prev[k];
            }
          }
        }
      }
    }
  }

  /**
   * The search's bookkeeping between steps: positions never move, the source keeps distance
   * 0 and no predecessor, a vertex other than the source has a predecessor exactly when it
   * has a distance, and every link is sound and points at a vertex already settled (`done`,
   * the vertices taken out of the open list).
   */
  ghost predicate Partial(vs0: seq<Vertex>, vs: seq<Vertex>, done: set<nat>)
  {
    && |vs| == |vs0| && |vs| >= 1
    && (forall k :: 0 <= k < |vs0| ==> vs[k].pos == vs0[k].pos)
    && vs[0].dist == Fin(0) && vs[0].prev == None
    && (forall k :: 1 <= k < |vs| ==> (vs[k].prev.Some? <==> vs[k].dist.Fin?))
    && (forall k {:trigger LinkOk(vs, k)} :: 0 <= k < |vs| && vs[k].prev.Some? ==>
          LinkOk(vs, k) && vs[k].prev.value in done)
  }

  /** The open list holds, once each, exactly the vertices of a table of `n` that are not settled. */
  ghost predicate OpenList(open: seq<nat>, done: set<nat>, n: nat)
  {
    && (forall i :: 0 <= i < |open| ==> open[i] < n && open[i] !in done)
    && (forall i, j :: 0 <= i < j < |open| ==> open[i] != open[j])
    && (forall c :: 0 <= c < n && c !in done ==> c in open)
    && (forall c :: c in done ==> c < n)
  }

  /** No edge out of a settled, reached vertex can shorten any distance. */
  ghost predicate Closure(vs: seq<Vertex>, done: set<nat>)
  {
    forall u, w {:trigger EdgeOk(vs, u, w)} :: u in done ==> EdgeOk(vs, u, w)
  }

  /** The edge from `u` to `w`, if there is one and `u` was reached, cannot shorten `w`'s distance. */
  ghost predicate EdgeOk(vs: seq<Vertex>, u: int, w: int)
  {
    (0 <= u < |vs| && 0 <= w < |vs| && vs[u].dist.Fin? && Adjacent(vs[u].pos, vs[w].pos)) ==>
    AtMost(vs[w].dist, Fin(vs[u].dist.hops + 1))
  }

  /** Settled vertices are no farther than unsettled ones. */
  ghost predicate Layered(vs: seq<Vertex>, done: set<nat>)
  {
    forall c, o {:trigger NoFarther(vs, c, o)} :: c in done && o !in done ==> NoFarther(vs, c, o)
  }

  /** Vertex `c` is no farther from the source than vertex `o`. */
  ghost predicate NoFarther(vs: seq<Vertex>, c: int, o: int)
  {
    0 <= c < |vs| && 0 <= o < |vs| ==> AtMost(vs[c].dist, vs[o].dist)
  }

  /** Taking the `k`-th entry out of the open list settles exactly that vertex. */
  lemma RemoveOpen(open: seq<nat>, done: set<nat>, n: nat, k: nat)
    requires OpenList(open, done, n) && k < |open|
    ensures OpenList(open[..k] + open[k + 1..], done + {open[k]}, n)
  {
    var rest := open[..k] + open[k + 1..];
    var u := open[k];
    forall i | 0 <= i < |rest|
      ensures rest[i] < n && rest[i] !in done + {u}
    {
      if i < k { assert rest[i] == open[i]; } else { assert rest[i] == open[i + 1]; }
    }
    forall i, j | 0 <= i < j < |rest|
      ensures rest[i] != rest[j]
    {
      var i' := if i < k then i else i + 1;
      var j' := if j < k then j else j + 1;
      assert rest[i] == open[i'] && rest[j] == open[j'];
    }
    forall c | 0 <= c < n && c !in done + {u}
      ensures c in rest
    {
      var i :| 0 <= i < |open| && open[i] == c;
      if i < k { assert rest[i] == c; } else { assert rest[i - 1] == c; }
    }
  }

  /**
   * Second half of calculateCosts: repeatedly take the nearest open vertex out of the open
   * list and, when it was reached, relax its in-bounds neighbours that are still open.
   */
  method Relax(field: Grid, size: int, src: Pos, vs0: seq<Vertex>) returns (vs: seq<Vertex>)
    requires Covers(field, size) && VertexSet(field, size, src, vs0)
    requires vs0[0] == Vertex(src, Fin(0), None)
    requires forall k :: 1 <= k < |vs0| ==> vs0[k].dist == Inf && vs0[k].prev == None
    ensures VertexSet(field, size, src, vs) && Settled(vs)
    ensures |vs| == |vs0| && forall k :: 0 <= k < |vs| ==> vs[k].pos == vs0[k].pos
  {
    vs := vs0;
    var N := |vs0|;
    var open: seq<nat> := AllIds(N);
    ghost var done: set<nat> := {};
    forall c | 0 <= c < N
      ensures c in open
    {
      assert open[c] == c;
    }
    while open != []
      invariant Partial(vs0, vs, done) && OpenList(open, done, N)
      invariant Closure(vs, done) && Layered(vs, done)
      decreases |open|
    {
      vs, open, done := SettleNearest(field, size, src, vs0, vs, open, done);
    }
    forall u, w | 0 <= u < N && 0 <= w < N && vs[u].dist.Fin? && Adjacent(vs[u].pos, vs[w].pos)
      ensures AtMost(vs[w].dist, Fin(vs[u].dist.hops + 1))
    {
      assert u in done && EdgeOk(vs, u, w);
    }
  }

  /**
   * One turn of the search loop: take the nearest open vertex out of the open list and, when
   * it was reached, relax its neighbours.
   */
  method SettleNearest(field: Grid, size: int, src: Pos, vs0: seq<Vertex>, vsIn: seq<Vertex>,
                       openIn: seq<nat>, ghost doneIn: set<nat>)
    returns (vs: seq<Vertex>, open: seq<nat>, ghost done: set<nat>)
    requires Covers(field, size) && VertexSet(field, size, src, vs0)
    requires Partial(vs0, vsIn, doneIn) && OpenList(openIn, doneIn, |vs0|)
    requires Closure(vsIn, doneIn) && Layered(vsIn, doneIn) && openIn != []
    ensures Partial(vs0, vs, done) && OpenList(open, done, |vs0|)
    ensures Closure(vs, done) && Layered(vs, done) && |open| < |openIn|
  {
    var N := |vs0|;
    vs := vsIn;
    var k := FindNearestVertex(vs, openIn);
    var u := openIn[k];
    NearestOpen(vs, openIn, doneIn, k);
    RemoveOpen(openIn, doneIn, N, k);
    open := openIn[..k] + openIn[k + 1..];
    done := doneIn + {u};
    if vs[u].dist.Inf? {
      SettleUnreached(vs, doneIn, u);
      return;
    }
    assert done - {u} == doneIn;
    vs := SettleReached(field, size, src, vs0, vsIn, open, done, u);
  }

  /** Settle the reached vertex `u`, just moved to `done`: relax its neighbours, keeping both orders. */
  method SettleReached(field: Grid, size: int, src: Pos, vs0: seq<Vertex>, vsIn: seq<Vertex>,
                       open: seq<nat>, ghost done: set<nat>, u: nat) returns (vs: seq<Vertex>)
    requires Covers(field, size) && VertexSet(field, size, src, vs0)
    requires Partial(vs0, vsIn, done) && OpenList(open, done, |vs0|)
    requires u < |vs0| && u in done && vsIn[u].dist.Fin? && Closure(vsIn, done - {u})
    requires forall c :: c in done && c < |vs0| ==> AtMost(vsIn[c].dist, vsIn[u].dist)
    requires forall o :: 0 <= o < |vs0| && o !in done ==> AtMost(vsIn[u].dist, vsIn[o].dist)
    ensures Partial(vs0, vs, done) && Closure(vs, done) && Layered(vs, done)
  {
    vs := RelaxNeighbours(field, size, src, vs0, vsIn, open, done, u);
    SettleStep(vsIn, vs, done, u);
  }

  /** The open vertex FindNearestVertex picks is no farther than any unsettled vertex, nor nearer than a settled one. */
  lemma NearestOpen(vs: seq<Vertex>, open: seq<nat>, done: set<nat>, k: nat)
    requires OpenList(open, done, |vs|) && Layered(vs, done) && k < |open|
    requires forall j :: 0 <= j < |open| ==> AtMost(vs[open[k]].dist, vs[open[j]].dist)
    ensures forall o :: 0 <= o < |vs| && o !in done ==> AtMost(vs[open[k]].dist, vs[o].dist)
    ensures forall c :: c in done + {open[k]} && c < |vs| ==> AtMost(vs[c].dist, vs[open[k]].dist)
  {
    forall c | c in done && c < |vs|
      ensures AtMost(vs[c].dist, vs[open[k]].dist)
    {
      assert NoFarther(vs, c, open[k]);
    }
    forall o | 0 <= o < |vs| && o !in done
      ensures AtMost(vs[open[k]].dist, vs[o].dist)
    {
      var j :| 0 <= j < |open| && open[j] == o;
    }
  }

  /** Settling an unreached vertex: every open vertex is unreached too, so both orders still hold. */
  lemma SettleUnreached(vs: seq<Vertex>, done: set<nat>, u: nat)
    requires u < |vs| && u !in done && vs[u].dist.Inf? && Closure(vs, done) && Layered(vs, done)
    requires forall o :: 0 <= o < |vs| && o !in done ==> AtMost(vs[u].dist, vs[o].dist)
    ensures Closure(vs, done + {u}) && Layered(vs, done + {u})
  {
  }

  /** One round of the search's inner loop: relax the four neighbours of the settled vertex `u`. */
  method RelaxNeighbours(field: Grid, size: int, src: Pos, vs0: seq<Vertex>, vsIn: seq<Vertex>,
                         open: seq<nat>, ghost done: set<nat>, u: nat) returns (vs: seq<Vertex>)
    requires Covers(field, size) && VertexSet(field, size, src, vs0)
    requires Partial(vs0, vsIn, done) && OpenList(open, done, |vs0|)
    requires u < |vs0| && u in done && vsIn[u].dist.Fin?
    requires forall c :: c in done && c < |vs0| ==> AtMost(vsIn[c].dist, vsIn[u].dist)
    requires forall o :: 0 <= o < |vs0| && o !in done ==> AtMost(vsIn[u].dist, vsIn[o].dist)
    ensures Partial(vs0, vs, done) && RelaxProgress(vsIn, vs, done, u, 4)
  {
    vs := vsIn;
    for i := 0 to 4
      invariant Partial(vs0, vs, done) && RelaxProgress(vsIn, vs, done, u, i)
    {
      vs := RelaxOffset(field, size, src, vs0, vsIn, vs, open, done, u, i);
    }
  }

  /** The `i`-th turn of the neighbour loop: relax the neighbour of `u` at offset `i`, if it is on the board. */
  method RelaxOffset(field: Grid, size: int, src: Pos, vs0: seq<Vertex>, vsIn: seq<Vertex>, cur: seq<Vertex>,
                     open: seq<nat>, ghost done: set<nat>, u: nat, i: nat) returns (vs: seq<Vertex>)
    requires Covers(field, size) && VertexSet(field, size, src, vs0)
    requires Partial(vs0, cur, done) && OpenList(open, done, |vs0|)
    requires RelaxProgress(vsIn, cur, done, u, i) && i < 4 && u in done
    requires forall c :: c in done && c < |vs0| ==> AtMost(vsIn[c].dist, vsIn[u].dist)
    ensures Partial(vs0, vs, done) && RelaxProgress(vsIn, vs, done, u, i + 1)
  {
    var upos := cur[u].pos;
    var x := upos.x + Offsets[i].x;
    var y := upos.y + Offsets[i].y;
    if x < 0 || y < 0 || x >= size || y >= size {
      SkipOffBoard(field, size, src, vs0, vsIn, cur, done, u, i);
      return cur;
    }
    vs := RelaxInside(field, size, src, vs0, vsIn, cur, open, done, u, i);
  }

  /** An offset of `u` that leaves the board needs no relaxing: no vertex stands there. */
  lemma SkipOffBoard(field: Grid, size: int, src: Pos, vs0: seq<Vertex>, vsIn: seq<Vertex>, cur: seq<Vertex>,
                     done: set<nat>, u: nat, i: nat)
    requires Covers(field, size) && VertexSet(field, size, src, vs0)
    requires Partial(vs0, cur, done) && RelaxProgress(vsIn, cur, done, u, i) && i < 4 && u in done
    requires !InBounds(size, Shift(cur[u].pos, Offsets[i]))
    ensures RelaxProgress(vsIn, cur, done, u, i + 1)
  {
    OffBoard(field, size, src, vs0, cur, Shift(cur[u].pos, Offsets[i]));
    SkipProgress(vsIn, cur, done, u, i);
  }

  /** An offset of `u` that stays on the board: relax the vertex standing there, if it is open. */
  method RelaxInside(field: Grid, size: int, src: Pos, vs0: seq<Vertex>, vsIn: seq<Vertex>, cur: seq<Vertex>,
                     open: seq<nat>, ghost done: set<nat>, u: nat, i: nat) returns (vs: seq<Vertex>)
    requires Covers(field, size) && VertexSet(field, size, src, vs0)
    requires Partial(vs0, cur, done) && OpenList(open, done, |vs0|)
    requires RelaxProgress(vsIn, cur, done, u, i) && i < 4 && u in done
    requires InBounds(size, Shift(cur[u].pos, Offsets[i]))
    requires forall c :: c in done && c < |vs0| ==> AtMost(vsIn[c].dist, vsIn[u].dist)
    ensures Partial(vs0, vs, done) && RelaxProgress(vsIn, vs, done, u, i + 1)
  {
    var q := Shift(cur[u].pos, Offsets[i]);
    OffsetIndexOf(cur[u].pos, i);
    vs := RelaxTowards(field, size, src, vs0, cur, open, done, u, q);
    TowardsProgress(vsIn, cur, vs, done, u, i);
  }

  /** No vertex but the source stands on a cell off the board. */
  lemma OffBoard(field: Grid, size: int, src: Pos, vs0: seq<Vertex>, vs: seq<Vertex>, p: Pos)
    requires Covers(field, size) && VertexSet(field, size, src, vs0) && !InBounds(size, p)
    requires |vs| == |vs0| && forall k :: 0 <= k < |vs| ==> vs[k].pos == vs0[k].pos
    ensures forall w :: 0 < w < |vs| ==> vs[w].pos != p
  {
    forall w | 0 < w < |vs|
      ensures vs[w].pos != p
    {
      assert IsFreeCell(field, size, src, vs0[w].pos);
    }
  }

  /**
   * Settling `u` and relaxing its neighbours (`before` to `vs`) keeps the loop's two orders:
   * no edge out of a settled vertex can shorten a distance, and settled vertices are no
   * farther than open ones.
   */
  lemma SettleStep(before: seq<Vertex>, vs: seq<Vertex>, done: set<nat>, u: nat)
    requires RelaxProgress(before, vs, done, u, 4) && u in done
    requires forall k :: 0 <= k < |vs| ==> vs[k].pos == before[k].pos
    requires Closure(before, done - {u})
    requires forall c :: c in done && c < |before| ==> AtMost(before[c].dist, before[u].dist)
    ensures Closure(vs, done) && Layered(vs, done)
  {
    ProgressDone(before, vs, done, u);
    forall c, o | c in done && o !in done
      ensures NoFarther(vs, c, o)
    {
      if 0 <= c < |vs| && 0 <= o < |vs| {
        assert AtMost(before[c].dist, before[u].dist);
      }
    }
    forall c, w | c in done
      ensures EdgeOk(vs, c, w)
    {
      if c != u && 0 <= c < |vs| && 0 <= w < |vs| {
        assert c in done - {u} && EdgeOk(before, c, w);
      }
    }
  }

  /** After all four offsets every 4-neighbour of `u` is within one hop of it. */
  lemma ProgressDone(vsIn: seq<Vertex>, vs: seq<Vertex>, done: set<nat>, u: nat)
    requires RelaxProgress(vsIn, vs, done, u, 4) && u in done
    ensures forall w :: 0 <= w < |vs| && Adjacent(vs[u].pos, vs[w].pos) ==>
      AtMost(vs[w].dist, Fin(vs[u].dist.hops + 1))
  {
    forall w | 0 <= w < |vs| && Adjacent(vs[u].pos, vs[w].pos)
      ensures AtMost(vs[w].dist, Fin(vs[u].dist.hops + 1))
    {
      assert OffsetIndex(vsIn[u].pos, vs[w].pos) < 4;
    }
  }

  /**
   * How far relaxing the neighbours of `u` has got after the first `i` offsets, measured against
   * the table `vsIn` it started from: settled vertices are untouched, distances only shrank,
   * unsettled vertices stay no nearer than `u`, the first `i` neighbours are within one hop
   * of `u`, and a vertex that changed is one of those neighbours and now links back to `u`.
   */
  ghost predicate RelaxProgress(vsIn: seq<Vertex>, vs: seq<Vertex>, done: set<nat>, u: nat, i: int)
  {
    && |vs| == |vsIn| && u < |vsIn| && vsIn[u].dist.Fin?
    && (forall c :: c in done && c < |vs| ==> vs[c] == vsIn[c])
    && (forall o :: 0 <= o < |vs| ==> AtMost(vs[o].dist, vsIn[o].dist))
    && (forall o :: 0 <= o < |vs| && o !in done ==> AtMost(vsIn[u].dist, vs[o].dist))
    && (forall w :: 0 <= w < |vs| && OffsetIndex(vsIn[u].pos, vs[w].pos) < i ==>
          AtMost(vs[w].dist, Fin(vsIn[u].dist.hops + 1)))
    && (forall o :: 0 <= o < |vs| && vs[o] != vsIn[o] ==>
          OffsetIndex(vsIn[u].pos, vs[o].pos) < i && vs[o].prev == Some(u))
  }

  /** An offset that leaves the board (no vertex stands there) needs no relaxing. */
  lemma SkipProgress(vsIn: seq<Vertex>, vs: seq<Vertex>, done: set<nat>, u: nat, i: nat)
    requires RelaxProgress(vsIn, vs, done, u, i) && i < 4 && u in done
    requires forall w :: 0 < w < |vs| ==> vs[w].pos != Shift(vsIn[u].pos, Offsets[i])
    requires |vs| >= 1 && vs[0].dist == Fin(0)
    ensures RelaxProgress(vsIn, vs, done, u, i + 1)
  {
    OffsetIndexOf(vsIn[u].pos, i);
  }

  /** One call of RelaxTowards at the `i`-th offset advances the progress by one offset. */
  lemma TowardsProgress(vsIn: seq<Vertex>, cur: seq<Vertex>, vs: seq<Vertex>, done: set<nat>, u: nat, i: nat)
    requires RelaxProgress(vsIn, cur, done, u, i) && i < 4 && u in done
    requires |vs| == |cur| && forall k :: 0 <= k < |vs| ==> vs[k].pos == cur[k].pos
    requires forall c :: c in done && c < |cur| ==> vs[c] == cur[c]
    requires forall o :: 0 <= o < |cur| ==> AtMost(vs[o].dist, cur[o].dist)
    requires forall o :: 0 <= o < |cur| && vs[o] != cur[o] ==> vs[o].dist == Fin(cur[u].dist.hops + 1)
    requires forall w :: 0 <= w < |cur| && vs[w].pos == Shift(vsIn[u].pos, Offsets[i]) ==>
      AtMost(vs[w].dist, Fin(cur[u].dist.hops + 1))
    requires forall o :: 0 <= o < |cur| && vs[o] != cur[o] ==>
      vs[o].pos == Shift(vsIn[u].pos, Offsets[i]) && vs[o].prev == Some(u)
    ensures RelaxProgress(vsIn, vs, done, u, i + 1)
  {
    OffsetIndexOf(vsIn[u].pos, i);
    assert cur[u] == vsIn[u];
    forall o | 0 <= o < |vs| && o !in done
      ensures AtMost(vsIn[u].dist, vs[o].dist)
    {
      if vs[o] == cur[o] {
        assert AtMost(vsIn[u].dist, cur[o].dist);
      }
    }
    forall o | 0 <= o < |vs|
      ensures AtMost(vs[o].dist, vsIn[o].dist)
    {
      assert AtMost(cur[o].dist, vsIn[o].dist);
    }
    forall w | 0 <= w < |vs| && OffsetIndex(vsIn[u].pos, vs[w].pos) < i + 1
      ensures AtMost(vs[w].dist, Fin(vsIn[u].dist.hops + 1))
    {
      if OffsetIndex(vsIn[u].pos, vs[w].pos) < i {
        assert AtMost(cur[w].dist, Fin(vsIn[u].dist.hops + 1));
      }
    }
    forall o | 0 <= o < |vs| && vs[o] != vsIn[o]
      ensures OffsetIndex(vsIn[u].pos, vs[o].pos) < i + 1 && vs[o].prev == Some(u)
    {
      if vs[o] == cur[o] {
        assert cur[o] != vsIn[o];
      }
    }
  }

  /** Which of the four offsets leads from `p` to `q`, or 4 when `q` is no 4-neighbour of `p`. */
  function OffsetIndex(p: Pos, q: Pos): (t: nat)
    ensures t < 4 <==> Adjacent(p, q)
    ensures t < 4 ==> q == Shift(p, Offsets[t])
  {
    if q == Shift(p, Offsets[0]) then 0
    else if q == Shift(p, Offsets[1]) then 1
    else if q == Shift(p, Offsets[2]) then 2
    else if q == Shift(p, Offsets[3]) then 3
    else 4
  }

  /** The four offsets are pairwise different, so the `i`-th one is found at index `i`. */
  lemma OffsetIndexOf(p: Pos, i: nat)
    requires i < 4
    ensures OffsetIndex(p, Shift(p, Offsets[i])) == i
  {
  }

  /**
   * distanz_update for the one neighbour of `u` at the in-bounds cell `q`: when an open vertex
   * stands there and going through `u` is shorter, it takes `u` as its predecessor.
   */
  method RelaxTowards(field: Grid, size: int, src: Pos, vs0: seq<Vertex>, vsIn: seq<Vertex>,
                      open: seq<nat>, ghost done: set<nat>, u: nat, q: Pos) returns (vs: seq<Vertex>)
    requires Covers(field, size) && VertexSet(field, size, src, vs0)
    requires Partial(vs0, vsIn, done) && OpenList(open, done, |vs0|)
    requires u < |vs0| && u in done && vsIn[u].dist.Fin? && Adjacent(vsIn[u].pos, q)
    requires forall c :: c in done && c < |vs0| ==> AtMost(vsIn[c].dist, vsIn[u].dist)
    ensures Partial(vs0, vs, done)
    ensures forall c :: c in done && c < |vs0| ==> vs[c] == vsIn[c]
    ensures forall o :: 0 <= o < |vs0| ==> AtMost(vs[o].dist, vsIn[o].dist)
    ensures forall o :: 0 <= o < |vs0| && vs[o] != vsIn[o] ==> vs[o].dist == Fin(vsIn[u].dist.hops + 1)
    ensures forall w :: 0 <= w < |vs0| && vs[w].pos == q ==> AtMost(vs[w].dist, Fin(vsIn[u].dist.hops + 1))
    ensures forall o :: 0 <= o < |vs0| && vs[o] != vsIn[o] ==>
              o !in done && vs[o].pos == q && vs[o].prev == Some(u)
    ensures forall w :: 0 <= w < |vs0| && w !in done && vsIn[w].pos == q ==>
              (vs[w] != vsIn[w] <==> Below(Fin(vsIn[u].dist.hops + 1), vsIn[w].dist))
  {
    var found := FindVertex(vsIn, open, q);
    if found.Some? {
      vs := RelaxOpen(field, size, src, vs0, vsIn, done, u, open[found.value]);
    } else {
      vs := vsIn;
      NoOpenVertexThere(vs, open, done, q);
    }
  }

  /** The open vertex `v` next to `u` takes `u` as its predecessor when that makes it nearer. */
  method RelaxOpen(field: Grid, size: int, src: Pos, vs0: seq<Vertex>, vsIn: seq<Vertex>,
                   ghost done: set<nat>, u: nat, v: nat) returns (vs: seq<Vertex>)
    requires Covers(field, size) && VertexSet(field, size, src, vs0) && Partial(vs0, vsIn, done)
    requires u < |vs0| && u in done && vsIn[u].dist.Fin?
    requires v < |vs0| && v !in done && Adjacent(vsIn[u].pos, vsIn[v].pos)
    ensures Partial(vs0, vs, done)
    ensures forall c :: c in done && c < |vs0| ==> vs[c] == vsIn[c]
    ensures forall o :: 0 <= o < |vs0| ==> AtMost(vs[o].dist, vsIn[o].dist)
    ensures forall o :: 0 <= o < |vs0| && vs[o] != vsIn[o] ==> vs[o].dist == Fin(vsIn[u].dist.hops + 1)
    ensures forall w :: 0 <= w < |vs0| && vs[w].pos == vsIn[v].pos ==>
      AtMost(vs[w].dist, Fin(vsIn[u].dist.hops + 1))
    ensures forall o :: 0 <= o < |vs0| && vs[o] != vsIn[o] ==> o == v && vs[o].prev == Some(u)
    ensures vs[v] != vsIn[v] <==> Below(Fin(vsIn[u].dist.hops + 1), vsIn[v].dist)
  {
    vs := vsIn;
    var alternative := vs[u].dist.hops + 1;
    if Below(Fin(alternative), vs[v].dist) {
      LinkPreserved(vs0, vs, done, u, v);
      vs := vs[v := Vertex(vs[v].pos, Fin(alternative), Some(u))];
    }
    OnlyVertexThere(field, size, src, vs0, vs, v);
  }

  /** Positions are pairwise different, so no vertex but `v` stands where `v` stands. */
  lemma OnlyVertexThere(field: Grid, size: int, src: Pos, vs0: seq<Vertex>, vs: seq<Vertex>, v: nat)
    requires Covers(field, size) && VertexSet(field, size, src, vs0) && v < |vs0|
    requires |vs| == |vs0| && forall k :: 0 <= k < |vs| ==> vs[k].pos == vs0[k].pos
    ensures forall w :: 0 <= w < |vs| && w != v ==> vs[w].pos != vs[v].pos
  {
    forall w | 0 <= w < |vs| && w != v
      ensures vs[w].pos != vs[v].pos
    {
      if w < v { assert vs0[w].pos != vs0[v].pos; } else { assert vs0[v].pos != vs0[w].pos; }
    }
  }

  /** When no open vertex stands at `q`, every unsettled vertex stands elsewhere. */
  lemma NoOpenVertexThere(vs: seq<Vertex>, open: seq<nat>, done: set<nat>, q: Pos)
    requires OpenList(open, done, |vs|)
    requires forall j :: 0 <= j < |open| ==> vs[open[j]].pos != q
    ensures forall w :: 0 <= w < |vs| && w !in done ==> vs[w].pos != q
  {
    forall w | 0 <= w < |vs| && w !in done
      ensures vs[w].pos != q
    {
      var i :| 0 <= i < |open| && open[i] == w;
    }
  }

  /** Giving the unsettled vertex `v` the settled neighbour `u` as predecessor keeps the bookkeeping. */
  lemma LinkPreserved(vs0: seq<Vertex>, vs: seq<Vertex>, done: set<nat>, u: nat, v: nat)
    requires Partial(vs0, vs, done)
    requires u < |vs| && u in done && vs[u].dist.Fin?
    requires 0 < v < |vs| && v !in done && Adjacent(vs[u].pos, vs[v].pos)
    ensures Partial(vs0, vs[v := Vertex(vs[v].pos, Fin(vs[u].dist.hops + 1), Some(u))], done)
  {
    var vs' := vs[v := Vertex(vs[v].pos, Fin(vs[u].dist.hops + 1), Some(u))];
    forall k | 0 <= k < |vs'| && vs'[k].prev.Some?
      ensures LinkOk(vs', k) && vs'[k].prev.value in done
    {
      if k != v {
        assert LinkOk(vs, k);
      }
    }
  }
}
