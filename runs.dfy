/**
 * The line rule of checkRemoveBlocks (Game.java), as functions of a board: how far a colour
 * runs from a cell in each of eight directions, which of the four direction pairs form a line
 * of at least four, which cells are cleared and what the clear is worth.
 */
module Runs {
  import opened Geometry

  /**
   * The eight directions in the order the source walks them; entries 2i and 2i+1 are opposite,
   * so the pairs are right/left, down/up and the two diagonals.
   */
  const Directions: seq<Pos> :=
    [Pos(0, 1), Pos(0, -1), Pos(1, 0), Pos(-1, 0), Pos(1, 1), Pos(-1, -1), Pos(-1, 1), Pos(1, -1)]

  /** A king's step: each component -1, 0 or 1, not both 0. */
  predicate IsDirection(d: Pos)
  {
    -1 <= d.x <= 1 && -1 <= d.y <= 1 && d != Pos(0, 0)
  }

  /** `k * a` for a component `a` in -1..1, written without multiplication. */
  function Scale(k: int, a: int): int
    requires -1 <= a <= 1
  {
    if a == 0 then 0 else if a == 1 then k else -k
  }

  /** The cell `k` steps from `p` towards `d` (Point.translate applied `k` times). */
  function Along(p: Pos, d: Pos, k: int): Pos
    requires IsDirection(d)
  {
    Pos(p.x + Scale(k, d.x), p.y + Scale(k, d.y))
  }

  /** How many steps from `p` towards `d` lead to `q`, if `q` lies on that line. */
  function StepsTo(p: Pos, d: Pos, q: Pos): int
    requires IsDirection(d)
  {
    if d.x != 0 then Scale(q.x - p.x, d.x) else Scale(q.y - p.y, d.y)
  }

  /** `q` is one of the first `m` cells from `p` towards `d` (not `p` itself). */
  predicate OnRay(p: Pos, d: Pos, m: nat, q: Pos)
    requires IsDirection(d)
  {
    var k := StepsTo(p, d, q);
    1 <= k <= m && Along(p, d, k) == q
  }

  /** The number of consecutive cells of colour `c` met from `p` towards `d`, starting `k` steps out. */
  function RunFrom(g: Grid, n: int, p: Pos, d: Pos, c: int, k: nat): nat
    requires Covers(g, n) && IsDirection(d)
    decreases n - k
  {
    var q := Along(p, d, k);
    if k < n && InBounds(n, q) && g[q.x][q.y] == c then 1 + RunFrom(g, n, p, d, c, k + 1) else 0
  }

  /** The run of `p`'s own colour leaving `p` towards `d` (one matches[i] of the source). */
  function Ray(g: Grid, n: int, p: Pos, d: Pos): nat
    requires Covers(g, n) && InBounds(n, p) && IsDirection(d)
  {
    RunFrom(g, n, p, d, g[p.x][p.y], 1)
  }

  /** The eight run lengths around `p`, in the order of Directions. */
  function Matches(g: Grid, n: int, p: Pos): (m: seq<nat>)
    requires Covers(g, n) && InBounds(n, p)
    ensures |m| == 8
  {
    DirectionsValid();
    seq(8, i requires 0 <= i < 8 => Ray(g, n, p, Directions[i]))
  }

  /** Every cell of the first `m[i]` steps in direction `i` is on the board. */
  predicate RunsInside(n: int, p: Pos, m: seq<nat>)
    requires |m| == 8
  {
    DirectionsValid();
    forall i, k :: 0 <= i < 8 && 1 <= k <= m[i] ==> InBounds(n, Along(p, Directions[i], k))
  }

  /** Direction pair `i` holds a line: the cell itself plus both runs make at least four. */
  predicate PairMatches(m: seq<nat>, i: int)
    requires |m| == 8 && 0 <= i < 4
  {
    1 + m[2 * i] + m[2 * i + 1] >= 4
  }

  /** The pair direction `i` belongs to: `i / 2`, spelled out for directions 0 to 7. */
  function PairOf(i: int): int
  {
    if i < 2 then 0 else if i < 4 then 1 else if i < 6 then 2 else 3
  }

  /** The run lengths with every pair that holds no line set to zero. */
  function Kept(m: seq<nat>): (kept: seq<nat>)
    requires |m| == 8
    ensures |kept| == 8
  {
    seq(8, i requires 0 <= i < 8 => if PairMatches(m, PairOf(i)) then m[i] else 0)
  }

  /** How many of the four pairs hold a line (distinctmatches). */
  function DistinctMatches(m: seq<nat>): nat
    requires |m| == 8
  {
    (if PairMatches(m, 0) then 1 else 0) + (if PairMatches(m, 1) then 1 else 0) +
    (if PairMatches(m, 2) then 1 else 0) + (if PairMatches(m, 3) then 1 else 0)
  }

  /** The sum of a sequence, added up from the front. */
  function Sum(s: seq<nat>): nat
  {
    if |s| == 0 then 0 else Sum(s[..|s| - 1]) + s[|s| - 1]
  }

  /** Sum over a growing prefix adds the next element. */
  lemma SumStep(s: seq<nat>, t: nat)
    requires t < |s|
    ensures Sum(s[..t + 1]) == Sum(s[..t]) + s[t]
  {
    assert s[..t + 1][..t] == s[..t];
  }

  /** Points for a clear: one plus the number of pairs times the cells in their runs. */
  function ScoreGain(m: seq<nat>): nat
    requires |m| == 8
  {
    1 + DistinctMatches(m) * Sum(Kept(m))
  }

  /** How many times a clear increments freeBlocks: once per run cell, once for the centre. */
  function ClearedCount(m: seq<nat>): nat
    requires |m| == 8
  {
    if DistinctMatches(m) > 0 then Sum(Kept(m)) + 1 else 0
  }

  /** `q` lies on one of the kept runs around `p`. */
  predicate OnKeptRun(p: Pos, kept: seq<nat>, q: Pos)
    requires |kept| == 8
  {
    DirectionsValid();
    exists i :: 0 <= i < 8 && OnRay(p, Directions[i], kept[i], q)
  }

  /** `q` is cleared by a clear at `p`: the centre of a clear, or a cell of a kept run. */
  predicate IsCleared(g: Grid, n: int, p: Pos, q: Pos)
    requires Covers(g, n) && InBounds(n, p)
  {
    var m := Matches(g, n, p);
    (DistinctMatches(m) > 0 && q == p) || OnKeptRun(p, Kept(m), q)
  }

  /** The board after checkRemoveBlocks at `p`: every cleared cell set to 0, the rest as before. */
  function Cleared(g: Grid, n: int, p: Pos): (h: Grid)
    requires IsSquare(g, n) && InBounds(n, p)
    ensures IsSquare(h, n)
  {
    seq(n, x requires 0 <= x < n => seq(n, y requires 0 <= y < n =>
      if IsCleared(g, n, p, Pos(x, y)) then 0 else g[x][y]))
  }

  /** The filled cells of an `n`-by-`n` board. */
  function Occupied(g: Grid, n: int): set<Pos>
    requires Covers(g, n)
  {
    set x, y | 0 <= x < n && 0 <= y < n && g[x][y] != 0 :: Pos(x, y)
  }

  // ---------------------------------------------------------------------------------------
  // Lemmas
  // ---------------------------------------------------------------------------------------

  lemma DirectionsValid()
    ensures |Directions| == 8
    ensures forall i :: 0 <= i < 8 ==> IsDirection(Directions[i])
  {
  }

  /** A line leaves an `n`-by-`n` board after at most n-1 steps. */
  lemma {:induction false} FarOut(n: int, p: Pos, d: Pos, k: int)
    requires InBounds(n, p) && IsDirection(d) && k >= n
    ensures !InBounds(n, Along(p, d, k))
  {
    if d.x != 0 {
      assert Along(p, d, k).x == (if d.x == 1 then p.x + k else p.x - k);
    } else {
      assert Along(p, d, k).y == (if d.y == 1 then p.y + k else p.y - k);
    }
  }

  /** A cell `k` steps out that is still on the board means `k` is less than the board size. */
  lemma StepsInside(n: int, p: Pos, d: Pos, k: int)
    requires InBounds(n, p) && IsDirection(d)
    ensures InBounds(n, Along(p, d, k)) ==> k < n
  {
    if k >= n {
      FarOut(n, p, d, k);
    }
  }

  /** One more step towards `d` (Point.translate) lands on the next cell of the line. */
  lemma AlongStep(p: Pos, d: Pos, k: int)
    requires IsDirection(d)
    ensures Shift(Along(p, d, k), d) == Along(p, d, k + 1)
  {
  }

  /** The runs around a cell stay on the board. */
  lemma MatchesInside(g: Grid, n: int, p: Pos)
    requires Covers(g, n) && InBounds(n, p)
    ensures RunsInside(n, p, Matches(g, n, p))
  {
    DirectionsValid();
    forall i | 0 <= i < 8
      ensures forall k :: 1 <= k <= Matches(g, n, p)[i] ==> InBounds(n, Along(p, Directions[i], k))
    {
      RayIsMaximalRun(g, n, p, Directions[i]);
    }
  }

  /** A run that reaches the next cell of the line continues through it. */
  lemma RunGoesOn(g: Grid, n: int, p: Pos, d: Pos, c: int, k: nat)
    requires Covers(g, n) && InBounds(n, p) && IsDirection(d)
    requires InBounds(n, Along(p, d, k)) && g[Along(p, d, k).x][Along(p, d, k).y] == c
    ensures k < n && RunFrom(g, n, p, d, c, k) == 1 + RunFrom(g, n, p, d, c, k + 1)
  {
    StepsInside(n, p, d, k);
  }

  /** A run ends at a cell off the board or of another colour. */
  lemma RunEnds(g: Grid, n: int, p: Pos, d: Pos, c: int, k: nat)
    requires Covers(g, n) && IsDirection(d)
    requires !InBounds(n, Along(p, d, k)) || g[Along(p, d, k).x][Along(p, d, k).y] != c
    ensures RunFrom(g, n, p, d, c, k) == 0
  {
  }

  /** Counting the steps back recovers the step count. */
  lemma StepsToAlong(p: Pos, d: Pos, k: int)
    requires IsDirection(d)
    ensures StepsTo(p, d, Along(p, d, k)) == k
  {
  }

  /** The cell `j` steps from `p` towards `d` is on the board and has colour `c`. */
  predicate CellIs(g: Grid, n: int, p: Pos, d: Pos, c: int, j: int)
    requires Covers(g, n) && IsDirection(d)
  {
    var q := Along(p, d, j);
    InBounds(n, q) && g[q.x][q.y] == c
  }

  /** RunFrom counts an unbroken run: every cell from step k on, up to its length, has colour c. */
  lemma {:induction false} RunFromIsRun(g: Grid, n: int, p: Pos, d: Pos, c: int, k: nat)
    requires Covers(g, n) && IsDirection(d)
    ensures forall j {:trigger CellIs(g, n, p, d, c, j)} ::
      k <= j < k + RunFrom(g, n, p, d, c, k) ==> CellIs(g, n, p, d, c, j)
    decreases n - k
  {
    if CellIs(g, n, p, d, c, k) && k < n {
      RunFromIsRun(g, n, p, d, c, k + 1);
      assert RunFrom(g, n, p, d, c, k) == 1 + RunFrom(g, n, p, d, c, k + 1);
    }
  }

  /** RunFrom is maximal: the cell just after the run is off the board or of another colour. */
  lemma {:induction false} RunFromStops(g: Grid, n: int, p: Pos, d: Pos, c: int, k: nat)
    requires Covers(g, n) && InBounds(n, p) && IsDirection(d)
    ensures !CellIs(g, n, p, d, c, k + RunFrom(g, n, p, d, c, k))
    decreases n - k
  {
    if CellIs(g, n, p, d, c, k) {
      StepsInside(n, p, d, k);
      RunFromStops(g, n, p, d, c, k + 1);
      assert RunFrom(g, n, p, d, c, k) == 1 + RunFrom(g, n, p, d, c, k + 1);
    } else {
      assert RunFrom(g, n, p, d, c, k) == 0;
    }
  }

  /**
   * Ray is the source's matchcount loop: the run of `p`'s colour is unbroken, and it stops at
   * the edge of the board or at the first cell of another colour.
   */
  lemma RayIsMaximalRun(g: Grid, n: int, p: Pos, d: Pos)
    requires Covers(g, n) && InBounds(n, p) && IsDirection(d)
    ensures forall j :: 1 <= j <= Ray(g, n, p, d) ==>
      InBounds(n, Along(p, d, j)) && g[Along(p, d, j).x][Along(p, d, j).y] == g[p.x][p.y]
    ensures var q := Along(p, d, Ray(g, n, p, d) + 1);
      !InBounds(n, q) || g[q.x][q.y] != g[p.x][p.y]
    ensures Ray(g, n, p, d) < n
  {
    var c, r := g[p.x][p.y], Ray(g, n, p, d);
    RunFromIsRun(g, n, p, d, c, 1);
    RunFromStops(g, n, p, d, c, 1);
    assert !CellIs(g, n, p, d, c, r + 1);
    forall j | 1 <= j <= r
      ensures InBounds(n, Along(p, d, j)) && g[Along(p, d, j).x][Along(p, d, j).y] == c
    {
      assert CellIs(g, n, p, d, c, j);
    }
    if r >= n {
      assert CellIs(g, n, p, d, c, r);
      assert InBounds(n, Along(p, d, r));
      FarOut(n, p, d, r);
    }
  }

  /** Without a line in any pair every run is dropped, so nothing is cleared. */
  lemma NoMatchKeepsNothing(m: seq<nat>)
    requires |m| == 8 && DistinctMatches(m) == 0
    ensures forall i :: 0 <= i < 8 ==> Kept(m)[i] == 0
    ensures Sum(Kept(m)) == 0 && ClearedCount(m) == 0
  {
    SumOfZeros(Kept(m));
  }

  lemma {:induction false} SumOfZeros(s: seq<nat>)
    requires forall i :: 0 <= i < |s| ==> s[i] == 0
    ensures Sum(s) == 0
  {
    if |s| > 0 {
      SumOfZeros(s[..|s| - 1]);
    }
  }

  /** A clear that does not happen leaves the board unchanged. */
  lemma NoMatchNoChange(g: Grid, n: int, p: Pos)
    requires IsSquare(g, n) && InBounds(n, p) && DistinctMatches(Matches(g, n, p)) == 0
    ensures Cleared(g, n, p) == g
  {
    var m := Matches(g, n, p);
    NoMatchKeepsNothing(m);
    forall q
      ensures !IsCleared(g, n, p, q)
    {
      DirectionsValid();
      forall i | 0 <= i < 8
        ensures !OnRay(p, Directions[i], Kept(m)[i], q)
      {
        assert Kept(m)[i] == 0;
      }
    }
    var h := Cleared(g, n, p);
    forall x, y | 0 <= x < n && 0 <= y < n
      ensures h[x][y] == g[x][y]
    {
      assert !IsCleared(g, n, p, Pos(x, y));
    }
    SameCells(h, g, n);
  }

  /**
   * `p` lies inside four consecutive cells of its own colour along `d`: the cells from `a`
   * steps towards `d` up to `a + 3` steps (a negative step count goes the other way).
   */
  predicate LineOfFour(g: Grid, n: int, p: Pos, d: Pos, a: int)
    requires Covers(g, n) && InBounds(n, p) && IsDirection(d)
  {
    forall j :: a <= j <= a + 3 ==> CellIs(g, n, p, d, g[p.x][p.y], j)
  }

  /**
   * What the pair test `1 + matches[2i] + matches[2i+1] >= 4` means on the board: it holds
   * exactly when four consecutive cells of the centre's colour, the centre among them, lie on
   * the axis of pair `i`.
   */
  lemma PairRule(g: Grid, n: int, p: Pos, i: int)
    requires Covers(g, n) && InBounds(n, p) && 0 <= i < 4
    ensures PairMatches(Matches(g, n, p), i) <==>
      exists a :: -3 <= a <= 0 && LineOfFour(g, n, p, Directions[2 * i], a)
  {
    DirectionsValid();
    var d, e := Directions[2 * i], Directions[2 * i + 1];
    assert e == Pos(-d.x, -d.y);
    var m := Matches(g, n, p);
    assert m[2 * i] == Ray(g, n, p, d) && m[2 * i + 1] == Ray(g, n, p, e);
    if PairMatches(m, i) {
      LineFromRuns(g, n, p, d);
    }
    if exists a :: -3 <= a <= 0 && LineOfFour(g, n, p, d, a) {
      var a :| -3 <= a <= 0 && LineOfFour(g, n, p, d, a);
      RunsFromLine(g, n, p, d, a);
    }
  }

  /** Runs of `r1` cells towards `d` and `r2` cells back, with `r1 + r2 >= 3`, hold a line of four. */
  lemma LineFromRuns(g: Grid, n: int, p: Pos, d: Pos)
    requires Covers(g, n) && InBounds(n, p) && IsDirection(d)
    requires Ray(g, n, p, d) + Ray(g, n, p, Pos(-d.x, -d.y)) >= 3
    ensures exists a :: -3 <= a <= 0 && LineOfFour(g, n, p, d, a)
  {
    var e, c := Pos(-d.x, -d.y), g[p.x][p.y];
    var r1: int, r2: int := Ray(g, n, p, d), Ray(g, n, p, e);
    RayIsMaximalRun(g, n, p, d);
    RayIsMaximalRun(g, n, p, e);
    var a := if r2 < 3 then -r2 else -3;
    forall j | a <= j <= a + 3
      ensures CellIs(g, n, p, d, c, j)
    {
      if j < 0 {
        AlongBack(p, d, -j);
        assert 1 <= -j <= r2;
      } else if j == 0 {
        assert Along(p, d, 0) == p;
      } else {
        assert 1 <= j <= r1;
      }
    }
    assert LineOfFour(g, n, p, d, a);
  }

  /** A line of four through `p` along `d` makes the two runs add up to at least three. */
  lemma RunsFromLine(g: Grid, n: int, p: Pos, d: Pos, a: int)
    requires Covers(g, n) && InBounds(n, p) && IsDirection(d)
    requires -3 <= a <= 0 && LineOfFour(g, n, p, d, a)
    ensures Ray(g, n, p, d) + Ray(g, n, p, Pos(-d.x, -d.y)) >= 3
  {
    var e, c := Pos(-d.x, -d.y), g[p.x][p.y];
    forall j | 1 <= j < 1 + (a + 3)
      ensures CellIs(g, n, p, d, c, j)
    {
      assert a <= j <= a + 3;
    }
    RunAtLeast(g, n, p, d, c, 1, a + 3);
    forall j | 1 <= j < 1 + -a
      ensures CellIs(g, n, p, e, c, j)
    {
      assert a <= -j <= a + 3;
      assert CellIs(g, n, p, d, c, -j);
      AlongBack(p, d, j);
    }
    RunAtLeast(g, n, p, e, c, 1, -a);
  }

  /** `k` steps back from `p` along `d` are `k` steps along the opposite direction. */
  lemma AlongBack(p: Pos, d: Pos, k: int)
    requires IsDirection(d)
    ensures IsDirection(Pos(-d.x, -d.y)) && Along(p, d, -k) == Along(p, Pos(-d.x, -d.y), k)
  {
  }

  /** `m` cells of colour `c` from `k` steps out on make a run of at least `m` from there. */
  lemma {:induction false} RunAtLeast(g: Grid, n: int, p: Pos, d: Pos, c: int, k: nat, m: int)
    requires Covers(g, n) && InBounds(n, p) && IsDirection(d)
    requires forall j :: k <= j < k + m ==> CellIs(g, n, p, d, c, j)
    ensures RunFrom(g, n, p, d, c, k) >= m
    decreases m
  {
    if m > 0 {
      assert CellIs(g, n, p, d, c, k);
      RunGoesOn(g, n, p, d, c, k);
      RunAtLeast(g, n, p, d, c, k + 1, m - 1);
    }
  }

  // ---------------------------------------------------------------------------------------
  // Counting the cleared cells
  // ---------------------------------------------------------------------------------------

  /** The first `m` cells from `p` towards `d`. */
  function RaySet(p: Pos, d: Pos, m: nat): set<Pos>
    requires IsDirection(d)
  {
    if m == 0 then {} else RaySet(p, d, m - 1) + {Along(p, d, m)}
  }

  /** The kept runs of the first `t` directions. */
  function RunCells(p: Pos, kept: seq<nat>, t: nat): set<Pos>
    requires |kept| == 8 && t <= 8
  {
    DirectionsValid();
    if t == 0 then {} else RunCells(p, kept, t - 1) + RaySet(p, Directions[t - 1], kept[t - 1])
  }

  /** The cells a clear at `p` empties. */
  function ClearedCells(g: Grid, n: int, p: Pos): set<Pos>
    requires Covers(g, n) && InBounds(n, p)
  {
    var m := Matches(g, n, p);
    (if DistinctMatches(m) > 0 then {p} else {}) + RunCells(p, Kept(m), 8)
  }

  lemma {:induction false} RaySetMembers(p: Pos, d: Pos, m: nat)
    requires IsDirection(d)
    ensures forall q :: q in RaySet(p, d, m) <==> OnRay(p, d, m, q)
  {
    if m > 0 {
      RaySetMembers(p, d, m - 1);
      StepsToAlong(p, d, m);
    }
  }

  /** Distinct steps reach distinct cells, so the first `m` cells of a line are `m` cells. */
  lemma {:induction false} RaySetSize(p: Pos, d: Pos, m: nat)
    requires IsDirection(d)
    ensures |RaySet(p, d, m)| == m
  {
    if m > 0 {
      RaySetSize(p, d, m - 1);
      RaySetMembers(p, d, m - 1);
      StepsToAlong(p, d, m);
      assert Along(p, d, m) !in RaySet(p, d, m - 1);
    }
  }

  /** Two lines out of the same cell meet only if they are the same line at the same step. */
  lemma LinesMeetOnlyThemselves(p: Pos, d1: Pos, d2: Pos, k1: int, k2: int)
    requires IsDirection(d1) && IsDirection(d2)
    ensures k1 >= 1 && k2 >= 1 && Along(p, d1, k1) == Along(p, d2, k2) ==> d1 == d2 && k1 == k2
  {
  }

  /** The eight directions are eight different directions. */
  lemma DirectionsDistinct()
    ensures forall a, b :: 0 <= a < b < 8 ==> Directions[a] != Directions[b]
  {
  }

  lemma {:induction false} RunCellsMember(p: Pos, kept: seq<nat>, t: nat, q: Pos)
    requires |kept| == 8 && t <= 8
    ensures q in RunCells(p, kept, t) <==> exists i :: 0 <= i < t && OnRay(p, Directions[i], kept[i], q)
  {
    DirectionsValid();
    if t > 0 {
      RunCellsMember(p, kept, t - 1, q);
      RaySetMembers(p, Directions[t - 1], kept[t - 1]);
    }
  }

  /** A cell on the line of direction `j` is on none of the runs of the directions before `t <= j`. */
  lemma {:induction false} RunCellsAvoid(p: Pos, kept: seq<nat>, t: nat, j: nat, k: int)
    requires |kept| == 8 && t <= j < 8 && k >= 1
    ensures (DirectionsValid(); Along(p, Directions[j], k) !in RunCells(p, kept, t))
  {
    DirectionsValid();
    if t > 0 {
      var d := Directions[t - 1];
      var q := Along(p, Directions[j], k);
      RunCellsAvoid(p, kept, t - 1, j, k);
      RaySetMembers(p, d, kept[t - 1]);
      DirectionsDistinct();
      LinesMeetOnlyThemselves(p, d, Directions[j], StepsTo(p, d, q), k);
      assert !OnRay(p, d, kept[t - 1], q);
    }
  }

  /** The runs of different directions share no cell, so their sizes add up. */
  lemma {:induction false} RunCellsSize(p: Pos, kept: seq<nat>, t: nat)
    requires |kept| == 8 && t <= 8
    ensures |RunCells(p, kept, t)| == Sum(kept[..t])
  {
    DirectionsValid();
    if t > 0 {
      var d := Directions[t - 1];
      var before := RunCells(p, kept, t - 1);
      var ray := RaySet(p, d, kept[t - 1]);
      RunCellsSize(p, kept, t - 1);
      RaySetSize(p, d, kept[t - 1]);
      RaySetMembers(p, d, kept[t - 1]);
      forall q | q in ray
        ensures q !in before
      {
        RunCellsAvoid(p, kept, t - 1, t - 1, StepsTo(p, d, q));
      }
      assert before * ray == {};
      assert kept[..t][..t - 1] == kept[..t - 1];
    }
  }

  /** The centre is on no run, and the runs around it are Sum(kept) distinct cells. */
  lemma RunsAroundCentre(p: Pos, kept: seq<nat>)
    requires |kept| == 8
    ensures |RunCells(p, kept, 8)| == Sum(kept)
    ensures |{p} + RunCells(p, kept, 8)| == Sum(kept) + 1
  {
    DirectionsValid();
    RunCellsSize(p, kept, 8);
    assert kept[..8] == kept;
    RunCellsMember(p, kept, 8, p);
    forall i | 0 <= i < 8
      ensures !OnRay(p, Directions[i], kept[i], p)
    {
    }
  }

  /** The cleared cells are exactly the cells IsCleared names. */
  lemma ClearedCellsMembers(g: Grid, n: int, p: Pos)
    requires Covers(g, n) && InBounds(n, p)
    ensures forall q :: q in ClearedCells(g, n, p) <==> IsCleared(g, n, p, q)
  {
    var kept := Kept(Matches(g, n, p));
    forall q
      ensures q in RunCells(p, kept, 8) <==> OnKeptRun(p, kept, q)
    {
      RunCellsMember(p, kept, 8, q);
    }
  }

  /**
   * There are ClearedCount cleared cells: freeBlocks is incremented once per emptied cell,
   * never twice for the same one.
   */
  lemma ClearedCellsCount(g: Grid, n: int, p: Pos)
    requires Covers(g, n) && InBounds(n, p)
    ensures |ClearedCells(g, n, p)| == ClearedCount(Matches(g, n, p))
  {
    var m := Matches(g, n, p);
    RunsAroundCentre(p, Kept(m));
    if DistinctMatches(m) == 0 {
      NoMatchKeepsNothing(m);
    }
  }

  /** Every cleared cell lies on the board and has the colour of `p`. */
  lemma ClearedCellsHaveColour(g: Grid, n: int, p: Pos, q: Pos)
    requires Covers(g, n) && InBounds(n, p) && IsCleared(g, n, p, q)
    ensures InBounds(n, q) && g[q.x][q.y] == g[p.x][p.y]
  {
    DirectionsValid();
    var m := Matches(g, n, p);
    if q != p || DistinctMatches(m) == 0 {
      var i :| 0 <= i < 8 && OnRay(p, Directions[i], Kept(m)[i], q);
      RayIsMaximalRun(g, n, p, Directions[i]);
      assert Kept(m)[i] <= Ray(g, n, p, Directions[i]);
    }
  }

  /** Cell by cell, a clear empties exactly ClearedCells and leaves every other cell alone. */
  lemma ClearedAt(g: Grid, n: int, p: Pos)
    requires IsSquare(g, n) && InBounds(n, p)
    ensures forall x, y :: 0 <= x < n && 0 <= y < n ==>
      Cleared(g, n, p)[x][y] == if Pos(x, y) in ClearedCells(g, n, p) then 0 else g[x][y]
  {
    ClearedCellsMembers(g, n, p);
  }

  /** The filled cells after a clear are the filled cells before it, minus the cleared ones. */
  lemma OccupiedAfterClear(g: Grid, n: int, p: Pos)
    requires IsSquare(g, n) && InBounds(n, p)
    ensures Occupied(Cleared(g, n, p), n) == Occupied(g, n) - ClearedCells(g, n, p)
  {
    var h := Cleared(g, n, p);
    var cs := ClearedCells(g, n, p);
    ClearedCellsMembers(g, n, p);
    forall q
      ensures q in Occupied(h, n) <==> q in Occupied(g, n) && q !in cs
    {
      if q in Occupied(h, n) {
        assert InBounds(n, q) && h[q.x][q.y] != 0;
      }
      if q in Occupied(g, n) && q !in cs {
        assert InBounds(n, q) && h[q.x][q.y] != 0;
      }
    }
  }

  /**
   * A clear around a filled cell empties exactly ClearedCount filled cells, so a count of free
   * cells raised by ClearedCount stays equal to the number of empty cells.
   */
  lemma ClearFreesCells(g: Grid, n: int, p: Pos)
    requires IsSquare(g, n) && InBounds(n, p) && g[p.x][p.y] != 0
    ensures |Occupied(Cleared(g, n, p), n)| + ClearedCount(Matches(g, n, p)) == |Occupied(g, n)|
  {
    var cs := ClearedCells(g, n, p);
    ClearedCellsMembers(g, n, p);
    ClearedCellsCount(g, n, p);
    forall q | q in cs
      ensures q in Occupied(g, n)
    {
      ClearedCellsHaveColour(g, n, p, q);
    }
    OccupiedAfterClear(g, n, p);
    var occ := Occupied(g, n);
    assert occ == (occ - cs) + cs;
    assert |occ| == |occ - cs| + |cs|;
  }
}
