/**
 * The game itself (Game.java): a square board of coloured blocks, a queue of colours to be
 * placed next, score, level, lines left to the next level, the undo stack, free moves and the
 * count of free cells. A move carries a block along a path of empty cells; completing a line
 * of four or more clears it, otherwise new blocks drop onto random empty cells.
 */
module GameEngine {
  import opened Options
  import opened Geometry
  import opened PathFinding
  import opened Runs

  const NumberOfColors: int := 5
  const LinesPerLevel: int := 40
  /** Blocks added per step on levels 1, 2 and 3; later levels keep the last entry. */
  const BlocksPerLevel: seq<nat> := [3, 4, 5]

  predicate IsColour(c: int)
  {
    1 <= c <= NumberOfColors
  }

  /** Game.State: the part of the game doUndo brings back. */
  datatype State = State(field: Grid, nextBlocks: seq<int>, score: int, linesLeft: int, level: int)

  /** A snapshot fit to be restored onto an `n`-by-`n` game. */
  predicate StateOk(s: State, n: int)
  {
    && IsSquare(s.field, n) && Colours(s.field, n)
    && (forall i :: 0 <= i < |s.nextBlocks| ==> IsColour(s.nextBlocks[i]))
    && s.score >= 0 && 1 <= s.linesLeft <= LinesPerLevel && s.level >= 1
  }

  // ---------------------------------------------------------------------------------------
  // Levels
  // ---------------------------------------------------------------------------------------

  /** How many colours populateField queues on a level. */
  function BlocksToAdd(level: int): (k: nat)
    requires level >= 1
    ensures k == if level <= 3 then level + 2 else 5
  {
    if level <= |BlocksPerLevel| then BlocksPerLevel[level - 1] else BlocksPerLevel[|BlocksPerLevel| - 1]
  }

  /** The counters and the queue: everything besides the board and the undo stack that a step can change. */
  datatype Counters = Counters(
    score: int, freeBlocks: int, freeMoves: int, linesLeft: int, level: int, numUndos: int, nextBlocks: seq<int>)

  /** The counters nextStep updates after a clear. */
  datatype Standing = Standing(linesLeft: int, level: int, numUndos: int)

  /** nextStep after a clear: one line fewer to go; at zero, the next level, one more undo, 40 lines again. */
  function AfterClear(s: Standing): (t: Standing)
    requires 1 <= s.linesLeft <= LinesPerLevel
    ensures 1 <= t.linesLeft <= LinesPerLevel
    ensures s.linesLeft == 1 ==> t == Standing(LinesPerLevel, s.level + 1, s.numUndos + 1)
    ensures s.linesLeft > 1 ==> t == Standing(s.linesLeft - 1, s.level, s.numUndos)
  {
    var left := s.linesLeft - 1;
    if left == 0 then Standing(LinesPerLevel, s.level + 1, s.numUndos + 1) else Standing(left, s.level, s.numUndos)
  }

  /** `k` clears in a row. */
  function Clears(s: Standing, k: nat): Standing
    requires 1 <= s.linesLeft <= LinesPerLevel
    ensures 1 <= Clears(s, k).linesLeft <= LinesPerLevel
    decreases k
  {
    if k == 0 then s else Clears(AfterClear(s), k - 1)
  }

  /** Fewer clears than lines left only count lines down. */
  lemma {:induction false} ClearsCountDown(s: Standing, k: nat)
    requires 1 <= s.linesLeft <= LinesPerLevel && k < s.linesLeft
    ensures Clears(s, k) == Standing(s.linesLeft - k, s.level, s.numUndos)
    decreases k
  {
    if k > 0 {
      ClearsCountDown(AfterClear(s), k - 1);
    }
  }

  /** Clearing as many lines as are left reaches the next level with a fresh 40 lines and one more undo. */
  lemma {:induction false} ClearsReachNextLevel(s: Standing)
    requires 1 <= s.linesLeft <= LinesPerLevel
    ensures Clears(s, s.linesLeft) == Standing(LinesPerLevel, s.level + 1, s.numUndos + 1)
  {
    if s.linesLeft > 1 {
      ClearsCountDown(s, s.linesLeft - 1);
      assert Clears(s, s.linesLeft - 1) == Standing(1, s.level, s.numUndos);
      ClearsSplit(s, s.linesLeft - 1, 1);
    }
  }

  lemma {:induction false} ClearsSplit(s: Standing, a: nat, b: nat)
    requires 1 <= s.linesLeft <= LinesPerLevel
    ensures Clears(s, a + b) == Clears(Clears(s, a), b)
    decreases a
  {
    if a > 0 {
      ClearsSplit(AfterClear(s), a - 1, b);
    }
  }

  // ---------------------------------------------------------------------------------------
  // Boards
  // ---------------------------------------------------------------------------------------

  /** Every cell is empty or holds a colour. */
  predicate Colours(g: Grid, n: int)
    requires IsSquare(g, n)
  {
    forall x, y :: 0 <= x < n && 0 <= y < n ==> 0 <= g[x][y] <= NumberOfColors
  }

  /** No cell is empty. */
  predicate Full(g: Grid, n: int)
    requires IsSquare(g, n)
  {
    forall x, y :: 0 <= x < n && 0 <= y < n ==> g[x][y] != 0
  }

  /** No cell holds colour `c`. */
  predicate Absent(g: Grid, n: int, c: int)
    requires IsSquare(g, n)
  {
    forall x, y :: 0 <= x < n && 0 <= y < n ==> g[x][y] != c
  }

  /** The colours `q` are pairwise different and none of them is on the board. */
  predicate Unseen(g: Grid, n: int, q: seq<int>)
    requires IsSquare(g, n)
  {
    (forall i, j :: 0 <= i < j < |q| ==> q[i] != q[j]) && forall i :: 0 <= i < |q| ==> Absent(g, n, q[i])
  }

  /** The positions of the first `k` columns of an `n`-by-`n` board. */
  function Columns(n: int, k: int): set<Pos>
  {
    set x, y | 0 <= x < k && 0 <= y < n :: Pos(x, y)
  }

  /** The first `n` positions of column `x`. */
  function Column(x: int, n: int): set<Pos>
  {
    set y | 0 <= y < n :: Pos(x, y)
  }

  lemma {:induction false} ColumnSize(x: int, n: nat)
    ensures |Column(x, n)| == n
  {
    if n > 0 {
      ColumnSize(x, n - 1);
      assert Column(x, n) == Column(x, n - 1) + {Pos(x, n - 1)};
    }
  }

  lemma {:induction false} ColumnsSize(n: nat, k: nat)
    ensures |Columns(n, k)| == k * n
  {
    if k > 0 {
      ColumnsSize(n, k - 1);
      var column := Column(k - 1, n);
      ColumnSize(k - 1, n);
      forall q
        ensures q in Columns(n, k) <==> q in Columns(n, k - 1) || q in column
      {
        if q in Columns(n, k) && q.x == k - 1 {
          assert q in column;
        }
      }
      assert Columns(n, k) == Columns(n, k - 1) + column;
      forall q | q in column
        ensures q !in Columns(n, k - 1)
      {
      }
      assert Columns(n, k - 1) * column == {};
      assert |Columns(n, k)| == |Columns(n, k - 1)| + n;
      MulStep(k, n);
    }
  }

  lemma MulStep(k: int, n: int)
    ensures k * n == (k - 1) * n + n
  {
  }

  /**
   * A board that is not full has an empty cell; put the other way round, as long as fewer
   * than n * n cells are filled some cell is empty.
   */
  lemma FreeCellExists(g: Grid, n: nat)
    requires IsSquare(g, n) && |Occupied(g, n)| < n * n
    ensures !Full(g, n)
  {
    if Full(g, n) {
      assert Occupied(g, n) == Columns(n, n);
      ColumnsSize(n, n);
    }
  }

  /** A cell whose colour occurs nowhere else on the board makes no line. */
  lemma AloneNoMatch(g: Grid, n: int, p: Pos)
    requires IsSquare(g, n) && InBounds(n, p)
    requires forall x, y :: 0 <= x < n && 0 <= y < n && Pos(x, y) != p ==> g[x][y] != g[p.x][p.y]
    ensures forall i :: 0 <= i < 8 ==> Matches(g, n, p)[i] == 0
    ensures DistinctMatches(Matches(g, n, p)) == 0
  {
    DirectionsValid();
    var m := Matches(g, n, p);
    forall i | 0 <= i < 8
      ensures m[i] == 0
    {
      var d := Directions[i];
      var q := Along(p, d, 1);
      assert q != p;
      if InBounds(n, q) {
        assert g[q.x][q.y] != g[p.x][p.y];
      }
      RunEnds(g, n, p, d, g[p.x][p.y], 1);
      assert m[i] == Ray(g, n, p, d);
    }
    assert m[0] == m[1] == m[2] == m[3] == m[4] == m[5] == m[6] == m[7] == 0;
    assert !PairMatches(m, 0) && !PairMatches(m, 1) && !PairMatches(m, 2) && !PairMatches(m, 3);
  }

  /** A clear only empties cells, so the board keeps to empty cells and colours. */
  lemma ClearedKeepsColours(g: Grid, n: int, p: Pos)
    requires IsSquare(g, n) && InBounds(n, p) && Colours(g, n)
    ensures Colours(Cleared(g, n, p), n)
  {
    ClearedAt(g, n, p);
  }

  /** The board with cell `q` set to `c`. */
  function Put(g: Grid, n: int, q: Pos, c: int): (h: Grid)
    requires IsSquare(g, n) && InBounds(n, q)
    ensures IsSquare(h, n)
  {
    g[q.x := g[q.x][q.y := c]]
  }

  /** The two assignments of doMove and doFreeMove: copy the block at `src` to `dst`, then empty `src`. */
  function Moved(g: Grid, n: int, src: Pos, dst: Pos): (h: Grid)
    requires IsSquare(g, n) && InBounds(n, src) && InBounds(n, dst)
    ensures IsSquare(h, n)
  {
    Put(Put(g, n, dst, g[src.x][src.y]), n, src, 0)
  }

  /** Filling an empty cell adds exactly that cell to the filled ones. */
  lemma PutFills(g: Grid, n: int, q: Pos, c: int)
    requires IsSquare(g, n) && InBounds(n, q) && g[q.x][q.y] == 0 && c != 0
    ensures Occupied(Put(g, n, q, c), n) == Occupied(g, n) + {q}
    ensures |Occupied(Put(g, n, q, c), n)| == |Occupied(g, n)| + 1
  {
    var h := Put(g, n, q, c);
    forall r
      ensures r in Occupied(h, n) <==> r in Occupied(g, n) || r == q
    {
      if r in Occupied(h, n) || r == q {
        assert InBounds(n, r);
      }
    }
    assert q !in Occupied(g, n);
  }

  /** Emptying a filled cell removes exactly that cell from the filled ones. */
  lemma PutEmpties(g: Grid, n: int, q: Pos)
    requires IsSquare(g, n) && InBounds(n, q) && g[q.x][q.y] != 0
    ensures Occupied(Put(g, n, q, 0), n) == Occupied(g, n) - {q}
    ensures |Occupied(Put(g, n, q, 0), n)| + 1 == |Occupied(g, n)|
  {
    var h := Put(g, n, q, 0);
    forall r
      ensures r in Occupied(h, n) <==> r in Occupied(g, n) && r != q
    {
      if r in Occupied(g, n) {
        assert InBounds(n, r);
      }
    }
    assert q in Occupied(g, n);
  }

  /**
   * A legal move (filled source, empty destination, different cells) keeps the number of
   * blocks: the block leaves `src` and appears at `dst`.
   */
  lemma MoveKeepsBlocks(g: Grid, n: int, src: Pos, dst: Pos)
    requires IsSquare(g, n) && InBounds(n, src) && InBounds(n, dst)
    requires g[src.x][src.y] != 0 && g[dst.x][dst.y] == 0 && src != dst
    ensures Occupied(Moved(g, n, src, dst), n) == Occupied(g, n) - {src} + {dst}
    ensures |Occupied(Moved(g, n, src, dst), n)| == |Occupied(g, n)|
    ensures Moved(g, n, src, dst)[dst.x][dst.y] == g[src.x][src.y]
  {
    var g1 := Put(g, n, dst, g[src.x][src.y]);
    PutFills(g, n, dst, g[src.x][src.y]);
    PutEmpties(g1, n, src);
  }

  /**
   * doFreeMove onto a filled cell: the block that stood at `dst` is gone, so the board holds
   * one block fewer while freeBlocks stays as it was.
   */
  lemma FreeMoveOverwrites(g: Grid, n: int, src: Pos, dst: Pos)
    requires IsSquare(g, n) && InBounds(n, src) && InBounds(n, dst)
    requires g[src.x][src.y] != 0 && g[dst.x][dst.y] != 0 && src != dst
    ensures Occupied(Moved(g, n, src, dst), n) == Occupied(g, n) - {src}
    ensures |Occupied(Moved(g, n, src, dst), n)| + 1 == |Occupied(g, n)|
  {
    var g1 := Put(g, n, dst, g[src.x][src.y]);
    assert Occupied(g1, n) == Occupied(g, n) by {
      forall r
        ensures r in Occupied(g1, n) <==> r in Occupied(g, n)
      {
        if r in Occupied(g1, n) || r in Occupied(g, n) {
          assert InBounds(n, r);
        }
      }
    }
    PutEmpties(g1, n, src);
  }

  /**
   * doFreeMove with `dst == src`: the block is removed, leaving the cell empty, while
   * freeBlocks stays as it was.
   */
  lemma FreeMoveInPlace(g: Grid, n: int, src: Pos)
    requires IsSquare(g, n) && InBounds(n, src) && g[src.x][src.y] != 0
    ensures Moved(g, n, src, src) == Put(g, n, src, 0)
    ensures |Occupied(Moved(g, n, src, src), n)| + 1 == |Occupied(g, n)|
  {
    assert g[src.x][src.y := g[src.x][src.y]] == g[src.x];
    assert Put(g, n, src, g[src.x][src.y]) == g;
    PutEmpties(g, n, src);
  }

  /** The board of a fresh game: every cell empty. */
  function EmptyGrid(n: nat): (g: Grid)
    ensures IsSquare(g, n) && Colours(g, n) && Occupied(g, n) == {}
    ensures forall x, y :: 0 <= x < n && 0 <= y < n ==> g[x][y] == 0
  {
    seq(n, x => seq(n, y => 0))
  }

  /**
   * What a clear at `p` does to the board: it keeps to empty cells and colours, frees exactly
   * ClearedCount cells when `p` holds a block, and changes nothing when no line is found.
   */
  lemma ClearEffects(g: Grid, n: int, p: Pos)
    requires IsSquare(g, n) && InBounds(n, p) && Colours(g, n)
    ensures Colours(Cleared(g, n, p), n)
    ensures g[p.x][p.y] != 0 ==> |Occupied(Cleared(g, n, p), n)| + ClearedCount(Matches(g, n, p)) == |Occupied(g, n)|
    ensures DistinctMatches(Matches(g, n, p)) == 0 ==> Cleared(g, n, p) == g && ClearedCount(Matches(g, n, p)) == 0
  {
    ClearedKeepsColours(g, n, p);
    if g[p.x][p.y] != 0 {
      ClearFreesCells(g, n, p);
    }
    if DistinctMatches(Matches(g, n, p)) == 0 {
      NoMatchKeepsNothing(Matches(g, n, p));
      NoMatchNoChange(g, n, p);
    }
  }

  /**
   * Dropping colour `c` on the empty cell `q` and clearing there: the board keeps to empty
   * cells and colours, and the filled cells grow by one less the cells cleared.
   */
  lemma PlaceAndClear(g: Grid, n: int, q: Pos, c: int)
    requires IsSquare(g, n) && InBounds(n, q) && g[q.x][q.y] == 0 && IsColour(c) && Colours(g, n)
    ensures var g1 := Put(g, n, q, c);
      && Colours(Cleared(g1, n, q), n)
      && |Occupied(Cleared(g1, n, q), n)| + ClearedCount(Matches(g1, n, q)) == |Occupied(g, n)| + 1
  {
    var g1 := Put(g, n, q, c);
    PutFills(g, n, q, c);
    ClearEffects(g1, n, q);
  }

  /**
   * Dropping the front of a queue of fresh colours (pairwise different, none on the board)
   * completes no line, and the rest of the queue stays fresh.
   */
  lemma PlaceUnseen(g: Grid, n: int, q: Pos, queue: seq<int>)
    requires IsSquare(g, n) && InBounds(n, q) && |queue| > 0 && Unseen(g, n, queue)
    ensures var g1 := Put(g, n, q, queue[0]);
      && DistinctMatches(Matches(g1, n, q)) == 0 && Cleared(g1, n, q) == g1
      && Unseen(g1, n, queue[1..])
  {
    assert Absent(g, n, queue[0]);
    FreshColourNoMatch(g, n, q, queue[0]);
    UnseenTail(g, n, q, queue);
  }

  /** A colour that is nowhere else on the board completes no line where it is dropped. */
  lemma FreshColourNoMatch(g: Grid, n: int, q: Pos, c: int)
    requires IsSquare(g, n) && InBounds(n, q) && Absent(g, n, c)
    ensures DistinctMatches(Matches(Put(g, n, q, c), n, q)) == 0
    ensures Cleared(Put(g, n, q, c), n, q) == Put(g, n, q, c)
  {
    var g1 := Put(g, n, q, c);
    forall x, y | 0 <= x < n && 0 <= y < n && Pos(x, y) != q
      ensures g1[x][y] != g1[q.x][q.y]
    {
      assert g1[x][y] == g[x][y];
    }
    AloneNoMatch(g1, n, q);
    NoMatchNoChange(g1, n, q);
  }

  /** Dropping the front of a fresh queue leaves the rest of it fresh. */
  lemma UnseenTail(g: Grid, n: int, q: Pos, queue: seq<int>)
    requires IsSquare(g, n) && InBounds(n, q) && |queue| > 0 && Unseen(g, n, queue)
    ensures Unseen(Put(g, n, q, queue[0]), n, queue[1..])
  {
    var rest := queue[1..];
    forall i | 0 <= i < |rest|
      ensures Absent(Put(g, n, q, queue[0]), n, rest[i])
    {
      assert rest[i] == queue[i + 1] && queue[0] != queue[i + 1];
      PutKeepsAbsent(g, n, q, queue[0], queue[i + 1]);
    }
  }

  /** Writing a colour other than `c` keeps `c` off the board. */
  lemma PutKeepsAbsent(g: Grid, n: int, q: Pos, d: int, c: int)
    requires IsSquare(g, n) && InBounds(n, q) && Absent(g, n, c) && d != c
    ensures Absent(Put(g, n, q, d), n, c)
  {
  }

  // ---------------------------------------------------------------------------------------
  // Populating the board
  // ---------------------------------------------------------------------------------------

  /** The board and the three counters one placement of populateField changes. */
  datatype Tally = Tally(board: Grid, score: int, freeBlocks: int, freeMoves: int)

  /**
   * One turn of populateField's loop: colour `c` is written into cell `q` and freeBlocks
   * drops by one, then checkRemoveBlocks(q) clears what the new block completes and credits it.
   */
  function Drop(t: Tally, n: int, q: Pos, c: int): (r: Tally)
    requires IsSquare(t.board, n) && InBounds(n, q)
    ensures IsSquare(r.board, n)
  {
    var g := Put(t.board, n, q, c);
    var m := Matches(g, n, q);
    Tally(Cleared(g, n, q),
          t.score + (if DistinctMatches(m) > 0 then ScoreGain(m) else 0),
          t.freeBlocks - 1 + ClearedCount(m),
          t.freeMoves + (if DistinctMatches(m) > 1 then 1 else 0))
  }

  predicate AllInBounds(n: int, qs: seq<Pos>)
  {
    forall i :: 0 <= i < |qs| ==> InBounds(n, qs[i])
  }

  /** The colours `cs` dropped one after the other, in queue order, on the cells `qs`. */
  function Drops(t: Tally, n: int, cs: seq<int>, qs: seq<Pos>): (r: Tally)
    requires IsSquare(t.board, n) && |cs| == |qs| && AllInBounds(n, qs)
    ensures IsSquare(r.board, n)
    decreases |qs|
  {
    if |qs| == 0 then t
    else
      var k := |qs| - 1;
      Drop(Drops(t, n, cs[..k], qs[..k]), n, qs[k], cs[k])
  }

  /** Every cell of `qs` is empty at the moment its colour is dropped on it. */
  predicate OnEmpty(t: Tally, n: int, cs: seq<int>, qs: seq<Pos>)
    requires IsSquare(t.board, n) && |cs| == |qs| && AllInBounds(n, qs)
    decreases |qs|
  {
    if |qs| == 0 then true
    else
      var k := |qs| - 1;
      OnEmpty(t, n, cs[..k], qs[..k]) && Drops(t, n, cs[..k], qs[..k]).board[qs[k].x][qs[k].y] == 0
  }

  /** One more drop extends the drops made so far. */
  lemma DropsSnoc(t: Tally, n: int, cs: seq<int>, qs: seq<Pos>, c: int, q: Pos)
    requires IsSquare(t.board, n) && |cs| == |qs| && AllInBounds(n, qs) && InBounds(n, q)
    ensures AllInBounds(n, qs + [q])
    ensures Drops(t, n, cs + [c], qs + [q]) == Drop(Drops(t, n, cs, qs), n, q, c)
    ensures OnEmpty(t, n, cs + [c], qs + [q]) <==>
      OnEmpty(t, n, cs, qs) && Drops(t, n, cs, qs).board[q.x][q.y] == 0
  {
    assert (cs + [c])[..|cs|] == cs && (qs + [q])[..|qs|] == qs;
  }

  /** Taking the front of what is left of `queue` after `k` drops. */
  lemma QueueStep(queue: seq<int>, k: nat)
    requires k < |queue|
    ensures queue[k..][0] == queue[k] && queue[k..][1..] == queue[k + 1..]
    ensures queue[..k + 1] == queue[..k] + [queue[k]]
  {
  }

  /** The colours `cs` written into the cells `qs`, one after the other, with no clearing. */
  function Puts(g: Grid, n: int, cs: seq<int>, qs: seq<Pos>): (h: Grid)
    requires IsSquare(g, n) && |cs| == |qs| && AllInBounds(n, qs)
    ensures IsSquare(h, n)
    decreases |qs|
  {
    if |qs| == 0 then g
    else
      var k := |qs| - 1;
      Put(Puts(g, n, cs[..k], qs[..k]), n, qs[k], cs[k])
  }

  /**
   * Dropping colours that are pairwise different and absent from the board (the queue 1, 2, 3
   * on reset's empty board) completes no line: each drop only writes its cell, spends one free
   * block and scores nothing.
   */
  lemma {:induction false} DropsUnseen(t: Tally, n: int, cs: seq<int>, qs: seq<Pos>, rest: seq<int>)
    requires IsSquare(t.board, n) && AllInBounds(n, qs) && |cs| == |qs|
    requires Unseen(t.board, n, cs + rest)
    ensures Drops(t, n, cs, qs) == Tally(Puts(t.board, n, cs, qs), t.score, t.freeBlocks - |cs|, t.freeMoves)
    ensures Unseen(Puts(t.board, n, cs, qs), n, rest)
    decreases |qs|
  {
    if |qs| == 0 {
      assert cs + rest == rest;
    } else {
      var k := |qs| - 1;
      var later := [cs[k]] + rest;
      assert cs[..k] + later == cs + rest;
      DropsUnseen(t, n, cs[..k], qs[..k], later);
      var g := Puts(t.board, n, cs[..k], qs[..k]);
      DropOnUnseen(Tally(g, t.score, t.freeBlocks - k, t.freeMoves), n, qs[k], later);
      assert later[0] == cs[k] && later[1..] == rest;
    }
  }

  /** One drop of a colour absent from the board only writes its cell and spends a free block. */
  lemma DropOnUnseen(t: Tally, n: int, q: Pos, queue: seq<int>)
    requires IsSquare(t.board, n) && InBounds(n, q) && |queue| > 0 && Unseen(t.board, n, queue)
    ensures Drop(t, n, q, queue[0]) == Tally(Put(t.board, n, q, queue[0]), t.score, t.freeBlocks - 1, t.freeMoves)
    ensures Unseen(Put(t.board, n, q, queue[0]), n, queue[1..])
  {
    PlaceUnseen(t.board, n, q, queue);
    NoMatchKeepsNothing(Matches(Put(t.board, n, q, queue[0]), n, q));
  }

  /** None of reset's queue colours 1, 2, 3 is on an empty board. */
  lemma FreshUnseen(n: nat)
    ensures Unseen(EmptyGrid(n), n, [1, 2, 3])
  {
    var e := EmptyGrid(n);
    forall i | 0 <= i < 3
      ensures Absent(e, n, [1, 2, 3][i])
    { }
  }

  /** Colours that are all absent from the board drop onto `cells` without clearing anything. */
  lemma DropsPlain(t: Tally, n: int, cs: seq<int>, cells: seq<Pos>)
    requires IsSquare(t.board, n) && AllInBounds(n, cells) && |cells| <= |cs|
    requires Unseen(t.board, n, cs)
    ensures Drops(t, n, cs[..|cells|], cells)
      == Tally(Puts(t.board, n, cs[..|cells|], cells), t.score, t.freeBlocks - |cells|, t.freeMoves)
  {
    assert cs[..|cells|] + cs[|cells|..] == cs;
    DropsUnseen(t, n, cs[..|cells|], cells, cs[|cells|..]);
  }

  /**
   * What populateField leaves on reset's empty `n`-by-`n` board: the colours 1, 2, 3 (as many
   * as were placed) written in queue order into the cells `cells`, each empty when its colour
   * lands, with nothing cleared and one free block spent per colour.
   */
  ghost predicate FreshSpawn(g: Grid, freeBlocks: int, n: nat, cells: seq<Pos>)
  {
    && |cells| <= 3 && AllInBounds(n, cells)
    && OnEmpty(Tally(EmptyGrid(n), 0, n * n, 0), n, [1, 2, 3][..|cells|], cells)
    && g == Puts(EmptyGrid(n), n, [1, 2, 3][..|cells|], cells) && freeBlocks == n * n - |cells|
  }

  /** The drops on reset's board are plain writes: the queue 1, 2, 3 is absent from an empty board. */
  lemma SpawnOnFresh(n: nat, cells: seq<Pos>, t: Tally)
    requires |cells| <= 3 && AllInBounds(n, cells)
    requires OnEmpty(Tally(EmptyGrid(n), 0, n * n, 0), n, [1, 2, 3][..|cells|], cells)
    requires t == Drops(Tally(EmptyGrid(n), 0, n * n, 0), n, [1, 2, 3][..|cells|], cells)
    ensures FreshSpawn(t.board, t.freeBlocks, n, cells) && t.score == 0 && t.freeMoves == 0
  {
    FreshUnseen(n);
    DropsPlain(Tally(EmptyGrid(n), 0, n * n, 0), n, [1, 2, 3], cells);
  }

  // ---------------------------------------------------------------------------------------
  // The game
  // ---------------------------------------------------------------------------------------

  /** Game: the board lives in an array that moves, clears and placements update in place. */
  class Game {
    var field: array2<int>
    var nextBlocks: seq<int>
    var score: int
    var level: int
    var linesLeft: int
    var lastStates: seq<State>
    var size: int
    var freeBlocks: int
    var freeMoves: int
    var numUndos: int
    var pathfinder: PathFinder
    /** The pathfinding cache key; nothing ever sets it, so every query searches afresh. */
    var lastSrc: Option<Pos>
    /** The contents of `field` as a value. */
    ghost var board: Grid

    /** Game(size): a new path finder and a game reset to an `n`-by-`n` board. */
    constructor (n: nat)
      ensures Valid() && fresh(field) && size == n && lastStates == [] && Consistent()
      ensures level == 1 && linesLeft == LinesPerLevel && numUndos == 2 && score == 0 && freeMoves == 0
      ensures exists cells ::
                FreshSpawn(board, freeBlocks, n, cells)
                && Refilled([1, 2, 3], |cells|) && (|cells| == 3 || freeBlocks == 0)
    {
      field := new int[0, 0];
      board := [];
      nextBlocks := [];
      score := 0;
      level := 1;
      linesLeft := LinesPerLevel;
      lastStates := [];
      size := 0;
      freeBlocks := 0;
      freeMoves := 0;
      numUndos := 0;
      pathfinder := new PathFinder();
      lastSrc := None;
      new;
      ghost var cells := Reset(n);
      assert FreshSpawn(board, freeBlocks, n, cells);
    }

    /** The board array is `size` by `size`. */
    predicate Sized()
      reads this`field, this`size
    {
      field.Length0 == size && field.Length1 == size
    }

    /** The ghost `board` is the array's contents as a value. */
    ghost predicate Mirror()
      reads this`field, this`size, this`board, field
    {
      && Sized() && IsSquare(board, size)
      && forall x, y {:trigger field[x, y]} :: 0 <= x < size && 0 <= y < size ==> field[x, y] == board[x][y]
    }

    /**
     * Cells hold 0 or a colour, the queue holds colours, the counters are in range, the undo
     * snapshots fit the board and the path cache key is unset.
     */
    ghost predicate Valid()
      reads this, field
    {
      && Mirror() && Colours(board, size)
      && (forall i :: 0 <= i < |nextBlocks| ==> IsColour(nextBlocks[i]))
      && score >= 0 && level >= 1 && 1 <= linesLeft <= LinesPerLevel
      && freeBlocks >= 0 && freeMoves >= 0 && numUndos >= 0
      && (forall i :: 0 <= i < |lastStates| ==> StateOk(lastStates[i], size))
      && lastSrc.None?
    }

    /** Game.State(): what doUndo brings back. */
    ghost function Snapshot(): State
      reads this`board, this`nextBlocks, this`score, this`linesLeft, this`level
    {
      State(board, nextBlocks, score, linesLeft, level)
    }

    /** The free-cell counter agrees with the board: filled cells plus freeBlocks make size * size. */
    ghost predicate Consistent()
      reads this`board, this`size, this`freeBlocks
    {
      IsSquare(board, size) && |Occupied(board, size)| + freeBlocks == size * size
    }

    /** The deep copy of the array in State(): the board as a value. */
    method CopyField() returns (g: Grid)
      requires Mirror()
      ensures g == board
    {
      g := [];
      for x := 0 to size
        invariant |g| == x && forall i :: 0 <= i < x ==> g[i] == board[i]
      {
        var row: seq<int> := [];
        for y := 0 to size
          invariant |row| == y && forall j :: 0 <= j < y ==> row[j] == board[x][j]
        {
          row := row + [field[x, y]];
        }
        g := g + [row];
      }
    }

    /**
     * The inner while-loop of checkRemoveBlocks: walk from `p` towards `d` while the cells
     * hold `p`'s colour.
     */
    method CountRun(p: Pos, d: Pos) returns (count: nat)
      requires Mirror() && InBounds(size, p) && IsDirection(d)
      ensures count == Ray(board, size, p, d)
    {
      var colour := field[p.x, p.y];
      assert colour == board[p.x][p.y];
      var cur := p;
      count := 0;
      assert Ray(board, size, p, d) == RunFrom(board, size, p, d, colour, 1);
      while true
        invariant cur == Along(p, d, count)
        invariant Ray(board, size, p, d) == count + RunFrom(board, size, p, d, colour, count + 1)
        decreases size - count
      {
        cur := Shift(cur, d);
        AlongStep(p, d, count);
        if cur.x < 0 || cur.x >= size || cur.y < 0 || cur.y >= size {
          RunEnds(board, size, p, d, colour, count + 1);
          break;
        }
        assert field[cur.x, cur.y] == board[cur.x][cur.y];
        if field[cur.x, cur.y] != colour {
          RunEnds(board, size, p, d, colour, count + 1);
          break;
        }
        RunGoesOn(board, size, p, d, colour, count + 1);
        count := count + 1;
      }
    }

    /**
     * The k-loop of checkRemoveBlocks: empty the first `count` cells from `p` towards `d`.
     * The caller raises freeBlocks by `count`, one for each cell emptied here.
     */
    method ClearRun(p: Pos, d: Pos, count: nat)
      requires Sized() && IsDirection(d)
      requires forall k :: 1 <= k <= count ==> InBounds(size, Along(p, d, k))
      modifies field
      ensures forall x, y {:trigger field[x, y]} :: 0 <= x < size && 0 <= y < size ==>
        field[x, y] == if Pos(x, y) in RaySet(p, d, count) then 0 else old(field[x, y])
    {
      var cur := p;
      for k := 0 to count
        invariant cur == Along(p, d, k)
        invariant forall x, y {:trigger field[x, y]} :: 0 <= x < size && 0 <= y < size ==>
          field[x, y] == if Pos(x, y) in RaySet(p, d, k) then 0 else old(field[x, y])
      {
        cur := Shift(cur, d);
        assert cur == Along(p, d, k + 1);
        field[cur.x, cur.y] := 0;
      }
    }

    /** The array holds `g`, except that every cell of `cells` is empty. */
    ghost predicate Wiped(g: Grid, cells: set<Pos>)
      reads this`field, this`size, field
      requires Sized() && IsSquare(g, size)
    {
      forall x, y {:trigger field[x, y]} :: 0 <= x < size && 0 <= y < size ==>
        field[x, y] == if Pos(x, y) in cells then 0 else g[x][y]
    }

    /** The counting loop of checkRemoveBlocks: the eight run lengths around `p`. */
    method CountMatches(p: Pos) returns (matches: array<nat>)
      requires Mirror() && InBounds(size, p)
      ensures fresh(matches) && matches[..] == Matches(board, size, p)
    {
      DirectionsValid();
      matches := new nat[8];
      for i := 0 to 8
        modifies matches
        invariant forall j :: 0 <= j < i ==> matches[j] == Matches(board, size, p)[j]
      {
        matches[i] := CountRun(p, Directions[i]);
      }
    }

    /**
     * One turn of the pair loop of checkRemoveBlocks: if pair `i` makes a line, clear both of
     * its runs; otherwise zero its two counts.
     */
    method ClearLine(ghost g: Grid, p: Pos, ghost m: seq<nat>, matches: array<nat>, i: nat)
      returns (hit: bool, cleared: nat)
      requires Sized() && IsSquare(g, size) && |m| == 8 && RunsInside(size, p, m)
      requires i < 4 && matches.Length == 8
      requires forall j :: 2 * i <= j < 8 ==> matches[j] == m[j]
      requires Wiped(g, RunCells(p, Kept(m), 2 * i))
      modifies field, matches
      ensures hit == PairMatches(m, i)
      ensures matches[2 * i] == Kept(m)[2 * i] && matches[2 * i + 1] == Kept(m)[2 * i + 1]
      ensures cleared == Kept(m)[2 * i] + Kept(m)[2 * i + 1]
      ensures Wiped(g, RunCells(p, Kept(m), 2 * i + 2))
      ensures forall j :: 0 <= j < 8 && j != 2 * i && j != 2 * i + 1 ==> matches[j] == old(matches[j])
    {
      ghost var kept := Kept(m);
      var total := 1 + matches[2 * i] + matches[2 * i + 1];
      if total >= 4 {
        hit := true;
        cleared := ClearPair(g, p, m, matches, i);
      } else {
        hit := false;
        cleared := 0;
        matches[2 * i] := 0;
        matches[2 * i + 1] := 0;
        assert RunCells(p, kept, 2 * i + 2) == RunCells(p, kept, 2 * i);
      }
    }

    /** The removal loop for a direction pair `i` that makes a line: empty both of its runs. */
    method ClearPair(ghost g: Grid, p: Pos, ghost m: seq<nat>, matches: array<nat>, i: nat)
      returns (cleared: nat)
      requires Sized() && IsSquare(g, size) && |m| == 8 && RunsInside(size, p, m)
      requires i < 4 && matches.Length == 8 && PairMatches(m, i)
      requires matches[2 * i] == m[2 * i] && matches[2 * i + 1] == m[2 * i + 1]
      requires Wiped(g, RunCells(p, Kept(m), 2 * i))
      modifies field
      ensures cleared == Kept(m)[2 * i] + Kept(m)[2 * i + 1]
      ensures Wiped(g, RunCells(p, Kept(m), 2 * i + 2))
    {
      ghost var kept := Kept(m);
      DirectionsValid();
      cleared := 0;
      for j := 0 to 2
        modifies field
        invariant cleared == (if j == 0 then 0 else kept[2 * i]) + (if j == 2 then kept[2 * i + 1] else 0)
        invariant Wiped(g, RunCells(p, kept, 2 * i + j))
      {
        ClearKeptRun(g, p, m, 2 * i + j, matches[2 * i + j]);
        cleared := cleared + matches[2 * i + j];
      }
    }

    /** Empty the kept run of direction `t`, `count` cells long. */
    method ClearKeptRun(ghost g: Grid, p: Pos, ghost m: seq<nat>, t: nat, count: nat)
      requires Sized() && IsSquare(g, size) && |m| == 8 && RunsInside(size, p, m)
      requires t < 8 && count == m[t] == Kept(m)[t]
      requires Wiped(g, RunCells(p, Kept(m), t))
      modifies field
      ensures Wiped(g, RunCells(p, Kept(m), t + 1))
    {
      DirectionsValid();
      ClearRun(p, Directions[t], count);
    }

    /** The pair loop of checkRemoveBlocks: clear every line through `p`. */
    method ClearLines(ghost g: Grid, p: Pos, ghost m: seq<nat>, matches: array<nat>)
      returns (distinct: nat, freed: nat)
      requires Sized() && IsSquare(g, size) && |m| == 8 && RunsInside(size, p, m)
      requires matches.Length == 8 && matches[..] == m && Wiped(g, {})
      modifies field, matches
      ensures matches[..] == Kept(m) && distinct == DistinctMatches(m) && freed == Sum(Kept(m))
      ensures Wiped(g, RunCells(p, Kept(m), 8))
    {
      distinct := 0;
      freed := 0;
      for i := 0 to 4
        modifies field, matches
        invariant PairsDone(g, p, m, matches, i, distinct, freed)
      {
        distinct, freed := ClearLineCounted(g, p, m, matches, i, distinct, freed);
      }
      ghost var kept := Kept(m);
      assert kept[..8] == kept;
      assert matches[..] == kept;
      PairsFoundAll(m);
    }

    /**
     * The state of the pair loop after `i` pairs: their counts are the kept ones, the rest are
     * untouched, `distinct` lines were found, `freed` cells counted and exactly those emptied.
     */
    ghost predicate PairsDone(g: Grid, p: Pos, m: seq<nat>, matches: array<nat>, i: nat, distinct: nat, freed: nat)
      reads this`field, this`size, field, matches
    {
      && Sized() && IsSquare(g, size) && |m| == 8 && RunsInside(size, p, m)
      && matches.Length == 8 && i <= 4
      && (forall j :: 0 <= j < 2 * i ==> matches[j] == Kept(m)[j])
      && (forall j :: 2 * i <= j < 8 ==> matches[j] == m[j])
      && distinct == PairsFound(m, i) && freed == Sum(Kept(m)[..2 * i])
      && Wiped(g, RunCells(p, Kept(m), 2 * i))
    }

    /** One turn of the pair loop together with its distinctmatches++ and freeBlocks++ counting. */
    method ClearLineCounted(ghost g: Grid, p: Pos, ghost m: seq<nat>, matches: array<nat>, i: nat,
                            distinct: nat, freed: nat) returns (distinct': nat, freed': nat)
      requires i < 4 && PairsDone(g, p, m, matches, i, distinct, freed)
      modifies field, matches
      ensures PairsDone(g, p, m, matches, i + 1, distinct', freed')
    {
      ghost var kept := Kept(m);
      var hit, cleared := ClearLine(g, p, m, matches, i);
      distinct' := if hit then distinct + 1 else distinct;
      freed' := freed + cleared;
      SumStep(kept, 2 * i);
      SumStep(kept, 2 * i + 1);
    }

    /** The for-each loop of checkRemoveBlocks adding up the run counts. */
    static method SumOf(matches: array<nat>) returns (sum: nat)
      ensures sum == Sum(matches[..])
    {
      sum := 0;
      for i := 0 to matches.Length
        invariant sum == Sum(matches[..i])
      {
        sum := sum + matches[i];
        SumStep(matches[..], i);
      }
      assert matches[..matches.Length] == matches[..];
    }

    /** Empty the cell `p` (the centre of a clear). */
    method ClearCentre(ghost g: Grid, p: Pos, ghost cells: set<Pos>)
      requires Sized() && IsSquare(g, size) && InBounds(size, p) && Wiped(g, cells)
      modifies field
      ensures Wiped(g, cells + {p})
    {
      field[p.x, p.y] := 0;
    }

    /** Once exactly the cleared cells of a clear at `p` are emptied, the array holds Cleared(g, size, p). */
    lemma WipedBoard(g: Grid, p: Pos, cells: set<Pos>)
      requires Sized() && IsSquare(g, size) && InBounds(size, p)
      requires cells == ClearedCells(g, size, p) && Wiped(g, cells)
      ensures forall x, y {:trigger field[x, y]} :: 0 <= x < size && 0 <= y < size ==>
        field[x, y] == Cleared(g, size, p)[x][y]
    {
      ClearedAt(g, size, p);
    }

    /**
     * The board part of checkRemoveBlocks: count the runs of `p`'s colour in the eight
     * directions, clear every direction pair that makes a line of four or more together with
     * `p`, and then `p` itself. Returns the number of lines, the number of cells cleared
     * (every freeBlocks++ of the source) and the sum of the kept run lengths.
     */
    method ClearAround(p: Pos) returns (distinct: nat, freed: nat, sum: nat)
      requires Valid() && InBounds(size, p)
      modifies this`board, field
      ensures Valid()
      ensures var m := Matches(old(board), size, p);
        && distinct == DistinctMatches(m) && freed == ClearedCount(m) && sum == Sum(Kept(m))
        && board == Cleared(old(board), size, p)
    {
      ghost var g := board;
      ghost var m := Matches(g, size, p);
      ghost var cells := ClearedCells(g, size, p);
      var matches := CountMatches(p);
      MatchesInside(g, size, p);
      distinct, freed := ClearLines(g, p, m, matches);
      sum := 0;
      if distinct > 0 {
        ClearCentre(g, p, RunCells(p, Kept(m), 8));
        assert cells == RunCells(p, Kept(m), 8) + {p};
        freed := freed + 1;
        sum := SumOf(matches);
      } else {
        NoMatchKeepsNothing(m);
        assert cells == RunCells(p, Kept(m), 8);
      }
      WipedBoard(g, p, cells);
      ClearedKeepsColours(g, size, p);
      board := Cleared(g, size, p);
    }

    /**
     * checkRemoveBlocks: clear the lines through `p`; if there was one, credit the cleared
     * cells to freeBlocks, a free move for more than one line, and the score.
     */
    method CheckRemoveBlocks(p: Pos) returns (removed: bool)
      requires Valid() && InBounds(size, p)
      modifies this`board, this`score, this`freeBlocks, this`freeMoves, field
      ensures Valid()
      ensures var m := Matches(old(board), size, p);
        && removed == (DistinctMatches(m) > 0)
        && board == Cleared(old(board), size, p)
        && score == old(score) + (if removed then ScoreGain(m) else 0)
        && freeBlocks == old(freeBlocks) + ClearedCount(m)
        && freeMoves == old(freeMoves) + (if DistinctMatches(m) > 1 then 1 else 0)
      ensures old(Consistent()) && old(board[p.x][p.y]) != 0 ==> Consistent()
    {
      ghost var g := board;
      if g[p.x][p.y] != 0 {
        ClearFreesCells(g, size, p);
      }
      var distinct, freed, sum := ClearAround(p);
      removed := Credit(distinct, freed, sum);
    }

    /** The bookkeeping at the end of checkRemoveBlocks, for `distinct` lines, `freed` cells and run total `sum`. */
    method Credit(distinct: nat, freed: nat, sum: nat) returns (removed: bool)
      requires Valid()
      modifies this`score, this`freeBlocks, this`freeMoves
      ensures Valid()
      ensures removed == (distinct > 0)
      ensures score == old(score) + (if removed then 1 + (distinct as int) * sum else 0)
      ensures freeBlocks == old(freeBlocks) + freed
      ensures freeMoves == old(freeMoves) + (if distinct > 1 then 1 else 0)
    {
      freeBlocks := freeBlocks + freed;
      if distinct > 0 {
        if distinct > 1 {
          freeMoves := freeMoves + 1;
        }
        score := score + (1 + (distinct as int) * sum);
        return true;
      }
      return false;
    }

    /** The counters and the queue as a value. */
    function Counts(): Counters
      reads this`score, this`freeBlocks, this`freeMoves, this`linesLeft, this`level, this`numUndos, this`nextBlocks
    {
      Counters(score, freeBlocks, freeMoves, linesLeft, level, numUndos, nextBlocks)
    }

    /** The board and the counters a placement changes. */
    ghost function Tallied(): Tally
      reads this`board, this`score, this`freeBlocks, this`freeMoves
    {
      Tally(board, score, freeBlocks, freeMoves)
    }

    /**
     * The queue is what `queue` kept after its first `placed` colours were dropped onto the
     * board, followed by BlocksToAdd(level) new colours.
     */
    ghost predicate Refilled(queue: seq<int>, placed: nat)
      reads this`nextBlocks, this`level
      requires placed <= |queue| && level >= 1
    {
      |nextBlocks| == |queue| - placed + BlocksToAdd(level) && nextBlocks[..|queue| - placed] == queue[placed..]
    }

    /**
     * The game is where nextStep(p) takes a game whose board was `g` and whose counters were
     * `c`: either the lines through `p` were cleared and counted, or populateField dropped the
     * front of the queue, in order, on the empty cells `cells` (stopping early only on a full
     * board or no free cells), clearing after each drop, and refilled the queue.
     */
    ghost predicate Stepped(g: Grid, p: Pos, c: Counters, cells: seq<Pos>)
      reads this`board, this`size, this`score, this`freeBlocks, this`freeMoves
      reads this`linesLeft, this`level, this`numUndos, this`nextBlocks
      requires IsSquare(g, size) && IsSquare(board, size) && InBounds(size, p)
      requires 1 <= c.linesLeft <= LinesPerLevel && c.level >= 1
    {
      if DistinctMatches(Matches(g, size, p)) > 0 then LineCounted(g, p, c) && cells == []
      else Populated(g, c, cells)
    }

    /** The lines through `p` on `g` were cleared, scored and counted; the queue is untouched. */
    ghost predicate LineCounted(g: Grid, p: Pos, c: Counters)
      reads this`board, this`size, this`score, this`freeBlocks, this`freeMoves
      reads this`linesLeft, this`level, this`numUndos, this`nextBlocks
      requires IsSquare(g, size) && InBounds(size, p)
      requires 1 <= c.linesLeft <= LinesPerLevel
    {
      var m := Matches(g, size, p);
      && board == Cleared(g, size, p)
      && score == c.score + ScoreGain(m)
      && freeBlocks == c.freeBlocks + ClearedCount(m)
      && freeMoves == c.freeMoves + (if DistinctMatches(m) > 1 then 1 else 0)
      && Standing(linesLeft, level, numUndos) == AfterClear(Standing(c.linesLeft, c.level, c.numUndos))
      && nextBlocks == c.nextBlocks
    }

    /**
     * populateField dropped the front of the queue `c.nextBlocks`, in order, on the empty cells
     * `cells` of `g`, clearing after each drop, and refilled the queue.
     */
    ghost predicate Populated(g: Grid, c: Counters, cells: seq<Pos>)
      reads this`board, this`size, this`score, this`freeBlocks, this`freeMoves
      reads this`linesLeft, this`level, this`numUndos, this`nextBlocks
      requires IsSquare(g, size) && IsSquare(board, size) && c.level >= 1
    {
      var start := Tally(g, c.score, c.freeBlocks, c.freeMoves);
      && linesLeft == c.linesLeft && level == c.level && numUndos == c.numUndos
      && |cells| <= |c.nextBlocks| && Refilled(c.nextBlocks, |cells|)
      && AllInBounds(size, cells) && OnEmpty(start, size, c.nextBlocks[..|cells|], cells)
      && Tallied() == Drops(start, size, c.nextBlocks[..|cells|], cells)
      && (|cells| < |c.nextBlocks| ==> freeBlocks <= 0 || Full(board, size))
      && score >= c.score && freeMoves >= c.freeMoves
    }

    /** saveStep: push a snapshot of the game for doUndo and drop the path cache key. */
    method SaveStep()
      requires Valid()
      modifies this`lastStates, this`lastSrc
      ensures Valid() && lastStates == old(lastStates) + [Snapshot()] && lastSrc == None
    {
      var copy := CopyField();
      lastStates := lastStates + [State(copy, nextBlocks, score, linesLeft, level)];
      lastSrc := None;
    }

    /** State.restore: the game takes over the snapshot's board, queue, score, lines left and level. */
    method Restore(s: State)
      requires size >= 0 && IsSquare(s.field, size)
      modifies this`field, this`board, this`nextBlocks, this`score, this`linesLeft, this`level
      ensures fresh(field) && Mirror() && Snapshot() == s
    {
      var n: nat := size;
      field := new int[n, n]((x, y) requires 0 <= x < n && 0 <= y < n => s.field[x][y]);
      board := s.field;
      nextBlocks := s.nextBlocks;
      score := s.score;
      linesLeft := s.linesLeft;
      level := s.level;
    }

    /**
     * doUndo: with an undo left and a snapshot saved, restore the latest snapshot and spend
     * the undo. freeBlocks and freeMoves are not part of a snapshot and keep their values.
     */
    method DoUndo() returns (ok: bool)
      requires Valid()
      modifies this`field, this`board, this`nextBlocks, this`score, this`linesLeft, this`level
      modifies this`lastStates, this`numUndos, this`lastSrc
      ensures Valid()
      ensures ok == (old(numUndos) > 0 && |old(lastStates)| > 0)
      ensures ok ==>
        && Snapshot() == old(lastStates[|lastStates| - 1])
        && lastStates == old(lastStates[..|lastStates| - 1])
        && numUndos == old(numUndos) - 1 && fresh(field)
      ensures freeBlocks == old(freeBlocks) && freeMoves == old(freeMoves)
      ensures !ok ==> unchanged(this) && unchanged(field)
    {
      if numUndos > 0 && |lastStates| > 0 {
        var s := lastStates[|lastStates| - 1];
        Pop();
        Restore(s);
        return true;
      }
      return false;
    }

    /** The bookkeeping of doUndo: drop the latest snapshot, spend an undo, drop the cache key. */
    method Pop()
      requires |lastStates| > 0
      modifies this`lastStates, this`numUndos, this`lastSrc
      ensures lastStates == old(lastStates[..|lastStates| - 1]) && numUndos == old(numUndos) - 1
      ensures lastSrc == None
    {
      lastStates := lastStates[..|lastStates| - 1];
      numUndos := numUndos - 1;
      lastSrc := None;
    }

    /** Set cell `q` to `c`. */
    method SetCell(q: Pos, c: int)
      requires Valid() && InBounds(size, q) && (c == 0 || IsColour(c))
      modifies this`board, field
      ensures Valid() && board == Put(old(board), size, q, c)
    {
      field[q.x, q.y] := c;
      board := Put(board, size, q, c);
    }

    /** The two assignments of doMove and doFreeMove: copy the block at `src` to `dst`, then empty `src`. */
    method MoveBlock(src: Pos, dst: Pos)
      requires Valid() && InBounds(size, src) && InBounds(size, dst)
      modifies this`board, field
      ensures Valid() && board == Moved(old(board), size, src, dst)
      ensures old(Consistent()) && old(board[src.x][src.y]) != 0 && old(board[dst.x][dst.y]) == 0 && src != dst ==>
        Consistent()
    {
      ghost var g := board;
      if g[src.x][src.y] != 0 && g[dst.x][dst.y] == 0 && src != dst {
        MoveKeepsBlocks(g, size, src, dst);
      }
      SetCell(dst, field[src.x, src.y]);
      SetCell(src, 0);
    }

    /** nextBlocks.remove(0) and freeBlocks-- of populateField. */
    method Dequeue()
      requires Valid() && |nextBlocks| > 0 && freeBlocks > 0
      modifies this`nextBlocks, this`freeBlocks
      ensures Valid() && nextBlocks == old(nextBlocks[1..]) && freeBlocks == old(freeBlocks) - 1
    {
      nextBlocks := nextBlocks[1..];
      freeBlocks := freeBlocks - 1;
    }

    /**
     * One turn of populateField's loop that finds the cell `q` empty: drop the queue's front
     * colour there and clear what it completes.
     */
    method PlaceNext(q: Pos)
      requires Valid() && InBounds(size, q) && |nextBlocks| > 0 && freeBlocks > 0
      requires board[q.x][q.y] == 0
      modifies this`nextBlocks, this`freeBlocks, this`score, this`freeMoves, this`board, field
      ensures Valid()
      ensures nextBlocks == old(nextBlocks[1..])
      ensures Tallied() == Drop(old(Tallied()), size, q, old(nextBlocks[0]))
      ensures score >= old(score) && freeMoves >= old(freeMoves)
      ensures old(Consistent()) ==> Consistent()
      ensures old(Unseen(board, size, nextBlocks)) ==>
        Unseen(board, size, nextBlocks) && score == old(score) && freeMoves == old(freeMoves)
    {
      DropFront(q);
      var _ := CheckRemoveBlocks(q);
    }

    /** field[p] = nextBlocks.remove(0) and freeBlocks-- of populateField, for the empty cell `q`. */
    method DropFront(q: Pos)
      requires Valid() && InBounds(size, q) && |nextBlocks| > 0 && freeBlocks > 0
      requires board[q.x][q.y] == 0
      modifies this`nextBlocks, this`freeBlocks, this`board, field
      ensures Valid() && board[q.x][q.y] != 0
      ensures board == Put(old(board), size, q, old(nextBlocks[0])) && nextBlocks == old(nextBlocks[1..])
      ensures freeBlocks == old(freeBlocks) - 1
      ensures old(Consistent()) ==> Consistent()
      ensures old(Unseen(board, size, nextBlocks)) ==>
        Unseen(board, size, nextBlocks) && DistinctMatches(Matches(board, size, q)) == 0
        && Cleared(board, size, q) == board
    {
      ghost var g, consistent, rest := board, Consistent(), nextBlocks[1..];
      ghost var unseen := Unseen(g, size, nextBlocks);
      var c := nextBlocks[0];
      PutFills(g, size, q, c);
      if unseen {
        PlaceUnseen(g, size, q, nextBlocks);
      }
      SetCell(q, c);
      Dequeue();
      assert board == Put(g, size, q, c) && nextBlocks == rest;
      assert consistent ==> Consistent();
    }

    /** The refill loop of populateField: queue BlocksToAdd(level) colours of 1 to 5. */
    method Refill()
      requires level >= 1 && forall i :: 0 <= i < |nextBlocks| ==> IsColour(nextBlocks[i])
      modifies this`nextBlocks
      ensures |nextBlocks| == |old(nextBlocks)| + BlocksToAdd(level)
      ensures nextBlocks[..|old(nextBlocks)|] == old(nextBlocks)
      ensures forall i :: 0 <= i < |nextBlocks| ==> IsColour(nextBlocks[i])
    {
      var toAdd := BlocksToAdd(level);
      ghost var kept := nextBlocks;
      for i := 0 to toAdd
        invariant |nextBlocks| == |kept| + i && nextBlocks[..|kept|] == kept
        invariant forall j :: 0 <= j < |nextBlocks| ==> IsColour(nextBlocks[j])
      {
        assert 0 <= 0 < NumberOfColors;
        var r :| 0 <= r < NumberOfColors;
        nextBlocks := nextBlocks + [1 + r];
      }
    }

    /**
     * populateField: while the queue and freeBlocks last, drop the queue's front colour onto
     * an empty cell and clear what it completes; then queue BlocksToAdd(level) new colours.
     * The random cell draws are a choice of any empty cell.
     */
    method PopulateField() returns (ghost cells: seq<Pos>)
      requires Valid()
      modifies this`nextBlocks, this`freeBlocks, this`score, this`freeMoves, this`board, field
      ensures Valid()
      ensures |cells| <= |old(nextBlocks)| && Refilled(old(nextBlocks), |cells|)
      ensures AllInBounds(size, cells) && OnEmpty(old(Tallied()), size, old(nextBlocks)[..|cells|], cells)
      ensures Tallied() == Drops(old(Tallied()), size, old(nextBlocks)[..|cells|], cells)
      ensures |cells| < |old(nextBlocks)| ==> freeBlocks <= 0 || Full(board, size)
      ensures score >= old(score) && freeMoves >= old(freeMoves)
      ensures old(Consistent()) ==> Consistent() && (|cells| == |old(nextBlocks)| || freeBlocks == 0)
      ensures old(Unseen(board, size, nextBlocks)) ==> score == old(score) && freeMoves == old(freeMoves)
    {
      cells := PlaceQueue();
      ghost var rest := nextBlocks;
      Refill();
      assert nextBlocks[..|rest|] == rest;
    }

    /** The placement loop of populateField, before the refill. */
    method PlaceQueue() returns (ghost cells: seq<Pos>)
      requires Valid()
      modifies this`nextBlocks, this`freeBlocks, this`score, this`freeMoves, this`board, field
      ensures Valid()
      ensures |cells| <= |old(nextBlocks)| && nextBlocks == old(nextBlocks)[|cells|..]
      ensures AllInBounds(size, cells) && OnEmpty(old(Tallied()), size, old(nextBlocks)[..|cells|], cells)
      ensures Tallied() == Drops(old(Tallied()), size, old(nextBlocks)[..|cells|], cells)
      ensures |cells| < |old(nextBlocks)| ==> freeBlocks <= 0 || Full(board, size)
      ensures score >= old(score) && freeMoves >= old(freeMoves)
      ensures old(Consistent()) ==> Consistent() && (|cells| == |old(nextBlocks)| || freeBlocks == 0)
      ensures old(Unseen(board, size, nextBlocks)) ==> score == old(score) && freeMoves == old(freeMoves)
    {
      ghost var queue := nextBlocks;
      ghost var start := Tallied();
      ghost var full := false;
      ghost var unseen := Unseen(board, size, nextBlocks);
      ghost var consistent := Consistent();
      cells := [];
      assert queue[..0] == [] && queue[0..] == queue;
      while |nextBlocks| > 0 && freeBlocks > 0
        invariant PlacedSoFar(start, queue, cells, unseen, consistent) && !full
        decreases |queue| - |cells|
      {
        if forall x, y :: 0 <= x < size && 0 <= y < size ==> field[x, y] != 0 {
          assert Mirror();
          forall x, y | 0 <= x < size && 0 <= y < size
            ensures board[x][y] != 0
          {
            assert field[x, y] == board[x][y];
          }
          full := true;
          break;
        }
        var x, y :| 0 <= x < size && 0 <= y < size && field[x, y] == 0;
        Placed(start, queue, cells, unseen, consistent, Pos(x, y));
        cells := cells + [Pos(x, y)];
      }
      assert |cells| < |queue| ==> freeBlocks <= 0 || full;
      if consistent && |cells| < |queue| && freeBlocks > 0 {
        FreeCellExists(board, size);
      }
    }

    /**
     * populateField's loop so far: the queue's first |cells| colours were dropped, in order,
     * on the cells `cells` of a game that started as `start`; the score and the free moves
     * have not dropped; a consistent free-cell count stays consistent, and fresh colours score nothing.
     */
    ghost predicate PlacedSoFar(start: Tally, queue: seq<int>, cells: seq<Pos>, unseen: bool, consistent: bool)
      reads this, field
    {
      && Valid() && IsSquare(start.board, size)
      && |cells| <= |queue| && nextBlocks == queue[|cells|..] && AllInBounds(size, cells)
      && OnEmpty(start, size, queue[..|cells|], cells)
      && Tallied() == Drops(start, size, queue[..|cells|], cells)
      && score >= start.score && freeMoves >= start.freeMoves
      && (consistent ==> Consistent())
      && (unseen ==> Unseen(board, size, nextBlocks) && score == start.score && freeMoves == start.freeMoves)
    }

    /** One turn of populateField's loop, extending the drops made so far by one on the empty cell `q`. */
    method Placed(ghost start: Tally, ghost queue: seq<int>, ghost cells: seq<Pos>, ghost unseen: bool,
                  ghost consistent: bool, q: Pos)
      requires PlacedSoFar(start, queue, cells, unseen, consistent)
      requires InBounds(size, q) && field[q.x, q.y] == 0 && freeBlocks > 0 && |cells| < |queue|
      modifies this`nextBlocks, this`freeBlocks, this`score, this`freeMoves, this`board, field
      ensures PlacedSoFar(start, queue, cells + [q], unseen, consistent)
    {
      PlaceAt(start, queue, cells, q);
    }

    /** The drop of Placed, with the new state spelled out field by field. */
    method PlaceAt(ghost start: Tally, ghost queue: seq<int>, ghost cells: seq<Pos>, q: Pos)
      requires Valid() && InBounds(size, q) && field[q.x, q.y] == 0 && freeBlocks > 0
      requires |cells| < |queue| && nextBlocks == queue[|cells|..]
      requires IsSquare(start.board, size) && AllInBounds(size, cells)
      requires OnEmpty(start, size, queue[..|cells|], cells)
      requires Tallied() == Drops(start, size, queue[..|cells|], cells)
      modifies this`nextBlocks, this`freeBlocks, this`score, this`freeMoves, this`board, field
      ensures Valid() && nextBlocks == queue[|cells| + 1..] && AllInBounds(size, cells + [q])
      ensures OnEmpty(start, size, queue[..|cells| + 1], cells + [q])
      ensures Tallied() == Drops(start, size, queue[..|cells| + 1], cells + [q])
      ensures score >= old(score) && freeMoves >= old(freeMoves)
      ensures old(Consistent()) ==> Consistent()
      ensures old(Unseen(board, size, nextBlocks)) ==>
        Unseen(board, size, nextBlocks) && score == old(score) && freeMoves == old(freeMoves)
    {
      ghost var k := |cells|;
      ghost var c := queue[k];
      QueueStep(queue, k);
      DropsSnoc(start, size, queue[..k], cells, c, q);
      assert board[q.x][q.y] == 0;
      PlaceNext(q);
    }

    /** The else-branch of nextStep: one line fewer to go; at zero, the next level, one more undo, 40 lines again. */
    method CountLine()
      requires 1 <= linesLeft <= LinesPerLevel
      modifies this`linesLeft, this`level, this`numUndos
      ensures Standing(linesLeft, level, numUndos) == AfterClear(old(Standing(linesLeft, level, numUndos)))
    {
      linesLeft := linesLeft - 1;
      if linesLeft == 0 {
        level := level + 1;
        numUndos := numUndos + 1;
        linesLeft := LinesPerLevel;
      }
    }

    /** nextStep: clear the lines through `p`, or if there are none, populate the board. */
    method NextStep(p: Pos) returns (ghost cells: seq<Pos>)
      requires Valid() && InBounds(size, p)
      modifies this`nextBlocks, this`freeBlocks, this`score, this`freeMoves, this`board, field
      modifies this`linesLeft, this`level, this`numUndos
      ensures Valid()
      ensures Stepped(old(board), p, old(Counts()), cells)
      ensures old(Consistent()) && old(board[p.x][p.y]) != 0 ==> Consistent()
    {
      var removed := CheckRemoveBlocks(p);
      if !removed {
        NoMatchNoChange(old(board), size, p);
        NoMatchKeepsNothing(Matches(old(board), size, p));
        assert board == old(board) && Counts() == old(Counts());
        cells := PopulateOnMiss(p, old(Counts()));
      } else {
        cells := [];
        CountLine();
      }
    }

    /** nextStep when no line runs through `p`: populateField, with the counters `c` it starts from. */
    method PopulateOnMiss(p: Pos, ghost c: Counters) returns (ghost cells: seq<Pos>)
      requires Valid() && InBounds(size, p) && c == Counts() && DistinctMatches(Matches(board, size, p)) == 0
      modifies this`nextBlocks, this`freeBlocks, this`score, this`freeMoves, this`board, field
      ensures Valid() && Stepped(old(board), p, c, cells)
      ensures old(Consistent()) ==> Consistent()
    {
      cells := PopulateField();
    }

    /**
     * reset: an `n`-by-`n` board with every cell free, the queue 1, 2, 3, level 1, score 0,
     * two undos, no free moves, 40 lines to go and no snapshots; then populateField.
     */
    method Reset(n: nat) returns (ghost cells: seq<Pos>)
      requires lastSrc.None?
      modifies this
      ensures Valid() && fresh(field) && size == n && lastStates == [] && Consistent()
      ensures level == 1 && linesLeft == LinesPerLevel && numUndos == 2
      ensures score == 0 && freeMoves == 0
      ensures |cells| <= 3 && Refilled([1, 2, 3], |cells|) && (|cells| == 3 || freeBlocks == 0)
      ensures FreshSpawn(board, freeBlocks, n, cells)
    {
      Restart(n);
      cells := PopulateFresh(n);
    }

    /** The populateField call that ends reset, on the fresh board with the queue 1, 2, 3. */
    method PopulateFresh(n: nat) returns (ghost cells: seq<Pos>)
      requires Valid() && size == n && Consistent() && board == EmptyGrid(n) && nextBlocks == [1, 2, 3]
      requires Unseen(board, size, nextBlocks) && score == 0 && freeMoves == 0 && freeBlocks == n * n
      modifies this`nextBlocks, this`freeBlocks, this`score, this`freeMoves, this`board, field
      ensures Valid() && Consistent() && score == 0 && freeMoves == 0
      ensures |cells| <= 3 && Refilled([1, 2, 3], |cells|) && (|cells| == 3 || freeBlocks == 0)
      ensures FreshSpawn(board, freeBlocks, n, cells)
    {
      cells := PopulateField();
      SpawnOnFresh(n, cells, Tallied());
    }

    /** The assignments of reset before populateField: an empty board, all of it free, and the queue 1, 2, 3. */
    method Restart(n: nat)
      requires lastSrc.None?
      modifies this
      ensures Valid() && fresh(field) && size == n && lastStates == [] && Consistent()
      ensures board == EmptyGrid(n) && nextBlocks == [1, 2, 3] && Unseen(board, size, nextBlocks)
      ensures level == 1 && linesLeft == LinesPerLevel && numUndos == 2
      ensures score == 0 && freeMoves == 0 && freeBlocks == n * n
    {
      ResetCounters(n);
      NewBoard(n);
    }

    /** The counter and queue assignments of reset. */
    method ResetCounters(n: nat)
      modifies this`freeBlocks, this`nextBlocks, this`lastStates, this`level, this`score
      modifies this`numUndos, this`freeMoves, this`linesLeft
      ensures freeBlocks == n * n && nextBlocks == [1, 2, 3] && lastStates == []
      ensures level == 1 && linesLeft == LinesPerLevel && numUndos == 2
      ensures score == 0 && freeMoves == 0
    {
      freeBlocks := n * n;
      nextBlocks := [1, 2, 3];
      lastStates := [];
      level := 1;
      score := 0;
      numUndos := 2;
      freeMoves := 0;
      linesLeft := LinesPerLevel;
    }

    /** size = n and field = new int[n][n]: a fresh board with every cell empty. */
    method NewBoard(n: nat)
      modifies this`size, this`field, this`board
      ensures Mirror() && fresh(field) && size == n && board == EmptyGrid(n)
      ensures Colours(board, size) && |Occupied(board, size)| == 0 && Unseen(board, size, [1, 2, 3])
    {
      size := n;
      field := new int[n, n]((x, y) => 0);
      board := EmptyGrid(n);
    }

    /**
     * getPath: the shortest path over empty cells from `src` to `dst`, or None. The cache key
     * lastSrc is never set, so the search always runs afresh on the current board.
     */
    method GetPath(src: Pos, dst: Pos) returns (path: Option<seq<Pos>>)
      requires Valid()
      modifies pathfinder
      ensures path.Some? <==> Reachable(board, size, src, dst)
      ensures path.Some? ==> IsShortestWalk(board, size, src, path.value) && path.value[|path.value| - 1] == dst
    {
      if lastSrc != Some(src) {
        var g := CopyField();
        pathfinder.CalculateCosts(g, size, src);
      }
      path := pathfinder.GetPath(dst);
    }

    /** canMove: a path from `src` to `dst` exists. */
    method CanMove(src: Pos, dst: Pos) returns (can: bool)
      requires Valid()
      modifies pathfinder
      ensures can == Reachable(board, size, src, dst)
    {
      var path := GetPath(src, dst);
      can := path.Some?;
    }

    /** getReachablePoints: the empty cells other than `src` a path from `src` reaches, row by row. */
    method GetReachablePoints(src: Pos) returns (points: Option<seq<Pos>>)
      requires Valid()
      modifies pathfinder
      ensures points.Some?
      ensures forall p :: p in points.value <==> Classified(board, size, src, p, true)
      ensures forall a, b :: 0 <= a < b < |points.value| ==> LexLess(points.value[a], points.value[b])
    {
      if lastSrc != Some(src) {
        var g := CopyField();
        pathfinder.CalculateCosts(g, size, src);
      }
      points := pathfinder.GetReachablePoints();
    }

    /** getUnreachablePoints: the empty cells other than `src` no path from `src` reaches, row by row. */
    method GetUnreachablePoints(src: Pos) returns (points: Option<seq<Pos>>)
      requires Valid()
      modifies pathfinder
      ensures points.Some?
      ensures forall p :: p in points.value <==> Classified(board, size, src, p, false)
      ensures forall a, b :: 0 <= a < b < |points.value| ==> LexLess(points.value[a], points.value[b])
    {
      if lastSrc != Some(src) {
        var g := CopyField();
        pathfinder.CalculateCosts(g, size, src);
      }
      points := pathfinder.GetUnreachablePoints();
    }

    /**
     * doMove: a block moves from `src` to the empty cell `dst` along a path of empty cells;
     * the game is saved for undo first and takes its next step at `dst` afterwards.
     */
    method DoMove(src: Pos, dst: Pos) returns (ok: bool, ghost cells: seq<Pos>)
      requires Valid() && InBounds(size, src) && InBounds(size, dst)
      modifies this`lastStates, this`lastSrc, this`nextBlocks, this`freeBlocks, this`score, this`freeMoves
      modifies this`linesLeft, this`level, this`numUndos, this`board, field, pathfinder
      ensures Valid()
      ensures ok == (old(board[src.x][src.y]) != 0 && old(board[dst.x][dst.y]) == 0 && src != dst &&
                     Reachable(old(board), size, src, dst))
      ensures ok ==> lastStates == old(lastStates) + [old(Snapshot())]
      ensures ok ==> Stepped(Moved(old(board), size, src, dst), dst, old(Counts()), cells)
      ensures !ok ==> board == old(board) && Counts() == old(Counts()) && lastStates == old(lastStates)
      ensures old(Consistent()) ==> Consistent()
    {
      if field[src.x, src.y] == 0 || field[dst.x, dst.y] != 0 || src == dst {
        return false, [];
      }
      var can := CanMove(src, dst);
      if !can {
        return false, [];
      }
      cells := MoveAndStep(src, dst);
      return true, cells;
    }

    /** The rest of a legal doMove: saveStep(), move the block, then nextStep(dst). */
    method MoveAndStep(src: Pos, dst: Pos) returns (ghost cells: seq<Pos>)
      requires Valid() && InBounds(size, src) && InBounds(size, dst)
      requires board[src.x][src.y] != 0 && board[dst.x][dst.y] == 0 && src != dst
      modifies this`lastStates, this`lastSrc, this`nextBlocks, this`freeBlocks, this`score, this`freeMoves
      modifies this`linesLeft, this`level, this`numUndos, this`board, field
      ensures Valid()
      ensures lastStates == old(lastStates) + [old(Snapshot())]
      ensures Stepped(Moved(old(board), size, src, dst), dst, old(Counts()), cells)
      ensures old(Consistent()) ==> Consistent()
    {
      ghost var moved := Moved(board, size, src, dst);
      SaveAndMove(src, dst);
      assert board == moved;
      cells := NextStep(dst);
    }

    /**
     * The part doMove and doFreeMove share: saveStep(), then copy the block at `src` to `dst`
     * and empty `src`.
     */
    method SaveAndMove(src: Pos, dst: Pos)
      requires Valid() && InBounds(size, src) && InBounds(size, dst)
      modifies this`lastStates, this`lastSrc, this`board, field
      ensures Valid()
      ensures lastStates == old(lastStates) + [old(Snapshot())]
      ensures board == Moved(old(board), size, src, dst)
      ensures src != dst ==> board[dst.x][dst.y] == old(board[src.x][src.y])
      ensures Counts() == old(Counts())
      ensures old(Consistent()) && old(board[src.x][src.y]) != 0 && old(board[dst.x][dst.y]) == 0 && src != dst ==>
        Consistent()
    {
      ghost var snap := Snapshot();
      SaveStep();
      assert lastStates == old(lastStates) + [snap];
      MoveBlock(src, dst);
    }

    /** freeMoves-- of doFreeMove. */
    method SpendFreeMove()
      requires Valid() && freeMoves > 0
      modifies this`freeMoves
      ensures Valid() && Counts() == old(Counts()).(freeMoves := old(freeMoves) - 1)
    {
      freeMoves := freeMoves - 1;
    }

    /**
     * doFreeMove: with a free move left, the block at `src` jumps to `dst` whatever lies
     * between. Neither an empty `dst` nor `dst != src` is checked: a block at `dst` is
     * overwritten, and `dst == src` empties the cell.
     */
    method DoFreeMove(src: Pos, dst: Pos) returns (ok: bool, ghost cells: seq<Pos>)
      requires Valid() && InBounds(size, src) && InBounds(size, dst)
      modifies this`lastStates, this`lastSrc, this`nextBlocks, this`freeBlocks, this`score, this`freeMoves
      modifies this`linesLeft, this`level, this`numUndos, this`board, field
      ensures Valid()
      ensures ok == (old(freeMoves) > 0 && old(board[src.x][src.y]) != 0)
      ensures ok ==> lastStates == old(lastStates) + [old(Snapshot())]
      ensures ok ==> Stepped(Moved(old(board), size, src, dst), dst, old(Counts()).(freeMoves := old(freeMoves) - 1), cells)
      ensures !ok ==> board == old(board) && Counts() == old(Counts()) && lastStates == old(lastStates)
      ensures old(Consistent()) && old(board[dst.x][dst.y]) == 0 && src != dst ==> Consistent()
    {
      if freeMoves <= 0 {
        return false, [];
      }
      if field[src.x, src.y] == 0 {
        return false, [];
      }
      SaveAndJump(src, dst);
      cells := NextStep(dst);
      return true, cells;
    }

    /** The state changes of doFreeMove before nextStep: saveStep(), the jump and freeMoves--. */
    method SaveAndJump(src: Pos, dst: Pos)
      requires Valid() && InBounds(size, src) && InBounds(size, dst) && freeMoves > 0
      modifies this`lastStates, this`lastSrc, this`board, field, this`freeMoves
      ensures Valid()
      ensures lastStates == old(lastStates) + [old(Snapshot())]
      ensures board == Moved(old(board), size, src, dst)
      ensures src != dst ==> board[dst.x][dst.y] == old(board[src.x][src.y])
      ensures Counts() == old(Counts()).(freeMoves := old(freeMoves) - 1)
      ensures old(Consistent()) && old(board[src.x][src.y]) != 0 && old(board[dst.x][dst.y]) == 0 && src != dst ==>
        Consistent()
    {
      SaveAndMove(src, dst);
      SpendFreeMove();
    }
  }

  /** How many of the first `t` direction pairs hold a line. */
  ghost function PairsFound(m: seq<nat>, t: nat): nat
    requires |m| == 8 && t <= 4
  {
    if t == 0 then 0 else PairsFound(m, t - 1) + (if PairMatches(m, t - 1) then 1 else 0)
  }

  /** Over all four pairs, PairsFound is the number of lines. */
  lemma PairsFoundAll(m: seq<nat>)
    requires |m| == 8
    ensures PairsFound(m, 4) == DistinctMatches(m)
  {
    assert PairsFound(m, 1) == (if PairMatches(m, 0) then 1 else 0);
    assert PairsFound(m, 2) == PairsFound(m, 1) + (if PairMatches(m, 1) then 1 else 0);
    assert PairsFound(m, 3) == PairsFound(m, 2) + (if PairMatches(m, 2) then 1 else 0);
  }
}
