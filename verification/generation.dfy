/**
 * The backend's maze generator, recursive backtracking on a square grid that
 * starts as all walls. The nested `recursive_backtrack` closes over the grid
 * and changes it in place, so the generator is a class whose `maze` field the
 * carving methods reassign. The shuffle of the four directions at each carved
 * cell is a parameter `order`: every cell is carved at most once, so one
 * permutation per cell covers every run of `random.shuffle`.
 *
 * Carving only ever opens cells with two even coordinates and the cell halfway
 * between two of them. On an even size the last row and the last column have
 * odd indices and no even cell beyond them, so they stay walls; the generator
 * then opens the bottom-right corner anyway, and that corner cannot be reached
 * (`GenerateMaze`, `CornerWalledIn`). `GenerateConnectedMaze` also opens the
 * cell left of that corner, which makes every open cell reachable from the
 * top-left corner.
 */
module Generation {
  import opened Grid

  /** The generator's `is_valid`: inside the `size x size` grid. */
  predicate InGrid(size: int, row: int, col: int) {
    0 <= row < size && 0 <= col < size
  }

  predicate IsSquare(g: seq<seq<int>>, size: int) {
    |g| == size && forall i :: 0 <= i < size ==> |g[i]| == size
  }

  /** Every cell holds 0 (passage) or 1 (wall). */
  predicate Bits(g: seq<seq<int>>) {
    forall i, j :: 0 <= i < |g| && 0 <= j < |g[i]| ==> g[i][j] == 0 || g[i][j] == 1
  }

  /** The starting grid: `size` rows of `size` walls. */
  function AllWalls(size: nat): (g: seq<seq<int>>)
    ensures IsSquare(g, size) && Bits(g)
    ensures forall i, j :: InGrid(size, i, j) ==> g[i][j] == 1
  {
    seq(size, i => seq(size, j => 1))
  }

  /**
   * The cells carving can open: two even coordinates, or one odd coordinate
   * that has an even neighbour on both sides inside the grid.
   */
  predicate Carvable(size: int, i: int, j: int) {
    || (i % 2 == 0 && j % 2 == 0)
    || (i % 2 == 1 && j % 2 == 0 && i + 1 < size)
    || (i % 2 == 0 && j % 2 == 1 && j + 1 < size)
  }

  predicate Shaped(g: seq<seq<int>>) {
    forall i, j {:trigger Carvable(|g|, i, j)} :: 0 <= i < |g| && 0 <= j < |g[i]| && g[i][j] == 0 ==> Carvable(|g|, i, j)
  }

  /** `g2` is `g1` with some walls opened and nothing else changed. */
  predicate Widens(g1: seq<seq<int>>, g2: seq<seq<int>>) {
    && |g1| == |g2|
    && (forall i :: 0 <= i < |g1| ==> |g1[i]| == |g2[i]|)
    && (forall i, j :: 0 <= i < |g1| && 0 <= j < |g1[i]| && g1[i][j] == 0 ==> g2[i][j] == 0)
    && (forall i, j :: 0 <= i < |g1| && 0 <= j < |g1[i]| && g2[i][j] == 1 ==> g1[i][j] == 1)
  }

  /** Every open cell of a grid can be reached from the top-left corner. */
  ghost predicate Connected(g: seq<seq<int>>) {
    forall c {:trigger Reachable(g, (0, 0), c)} :: IsOpen(g, c) ==> Reachable(g, (0, 0), c)
  }

  /** The cell two moves along `d` from (`row`, `col`) is open, if it lies in the grid. */
  predicate TargetOpen(g: seq<seq<int>>, row: int, col: int, d: Cell) {
    var r, c := row + d.0 * 2, col + d.1 * 2;
    0 <= r < |g| && 0 <= c < |g[r]| ==> g[r][c] == 0
  }

  /** All four cells two moves away from (`row`, `col`) that lie in the grid are open. */
  predicate TargetsOpen(g: seq<seq<int>>, row: int, col: int) {
    forall d :: d in Directions ==> TargetOpen(g, row, col, d)
  }

  /**
   * Every cell with two even coordinates that was a wall in `g0` and is open
   * in `g`, other than `skip`, has its four targets open in `g`.
   */
  predicate CarvedFully(g0: seq<seq<int>>, g: seq<seq<int>>, skip: Cell) {
    forall i, j {:trigger TargetsOpen(g, i, j)} ::
      && 0 <= i < |g0| && 0 <= j < |g0[i]| && i < |g| && j < |g[i]|
      && i % 2 == 0 && j % 2 == 0 && (i, j) != skip && g0[i][j] == 1 && g[i][j] == 0
      ==> TargetsOpen(g, i, j)
  }

  /** The number of walls in a row. */
  function Ones(r: seq<int>): nat {
    if r == [] then 0 else (if r[0] == 1 then 1 else 0) + Ones(r[1..])
  }

  /** The number of walls still standing; carving removes at least one each call, so the recursion ends. */
  function WallCount(g: seq<seq<int>>): nat {
    if g == [] then 0 else Ones(g[0]) + WallCount(g[1..])
  }

  lemma WidensTransitive(g1: seq<seq<int>>, g2: seq<seq<int>>, g3: seq<seq<int>>)
    requires Widens(g1, g2) && Widens(g2, g3)
    ensures Widens(g1, g3)
  {
  }

  /** A row with no new walls has no more walls; one with a wall gone has fewer. */
  lemma {:induction false} FewerOnes(r1: seq<int>, r2: seq<int>, j: int)
    requires |r1| == |r2|
    requires forall k :: 0 <= k < |r1| && r2[k] == 1 ==> r1[k] == 1
    ensures Ones(r2) <= Ones(r1)
    ensures 0 <= j < |r1| && r1[j] == 1 && r2[j] != 1 ==> Ones(r2) < Ones(r1)
  {
    if r1 != [] {
      FewerOnes(r1[1..], r2[1..], j - 1);
    }
  }

  /** Opening cells leaves no more walls, and strictly fewer when the wall at `m` is gone. */
  lemma {:induction false} FewerWalls(g1: seq<seq<int>>, g2: seq<seq<int>>, m: Cell)
    requires Widens(g1, g2)
    ensures WallCount(g2) <= WallCount(g1)
    ensures 0 <= m.0 < |g1| && 0 <= m.1 < |g1[m.0]| && g1[m.0][m.1] == 1 && g2[m.0][m.1] == 0
            ==> WallCount(g2) < WallCount(g1)
  {
    if g1 != [] {
      FewerOnes(g1[0], g2[0], if m.0 == 0 then m.1 else -1);
      FewerWalls(g1[1..], g2[1..], (m.0 - 1, m.1));
    }
  }

  /** Opening cells keeps every walk a walk. */
  lemma WalkSurvivesOpening(g1: seq<seq<int>>, g2: seq<seq<int>>, p: seq<Cell>, s: Cell, e: Cell)
    requires forall c :: IsOpen(g1, c) ==> IsOpen(g2, c)
    requires IsWalk(g1, p, s, e)
    ensures IsWalk(g2, p, s, e)
  {
  }

  /**
   * Writing 0 into cell `m` of a square grid opens `m` and nothing else, and
   * keeps it connected when `m` is the corner, or already open, or next to an
   * open cell.
   */
  lemma OpenOne(g1: seq<seq<int>>, m: Cell)
    requires IsSquare(g1, |g1|) && |g1| > 0 && InGrid(|g1|, m.0, m.1)
    requires Connected(g1)
    requires m == (0, 0) || IsOpen(g1, m) || exists x :: Adjacent(x, m) && IsOpen(g1, x)
    ensures var g2 := g1[m.0 := g1[m.0][m.1 := 0]];
      && IsSquare(g2, |g1|) && Connected(g2)
      && forall c :: IsOpen(g2, c) <==> IsOpen(g1, c) || c == m
  {
    var g2 := g1[m.0 := g1[m.0][m.1 := 0]];
    assert forall c :: IsOpen(g2, c) <==> IsOpen(g1, c) || c == m;
    forall c | IsOpen(g2, c)
      ensures Reachable(g2, (0, 0), c)
    {
      if c == m && m == (0, 0) {
        assert IsWalk(g2, [m], (0, 0), m);
      } else if IsOpen(g1, c) {
        assert Reachable(g1, (0, 0), c);
        var p :| IsWalk(g1, p, (0, 0), c);
        WalkSurvivesOpening(g1, g2, p, (0, 0), c);
      } else {
        var x :| Adjacent(x, m) && IsOpen(g1, x);
        assert Reachable(g1, (0, 0), x);
        var p :| IsWalk(g1, p, (0, 0), x);
        WalkSurvivesOpening(g1, g2, p, (0, 0), x);
        ExtendWalk(g2, p, (0, 0), x, m);
      }
    }
  }

  /**
   * Writing 0 into a cell of a 0/1 square grid keeps it a 0/1 grid, only
   * widens it, changes no other cell, and keeps the carving shape when the
   * cell is one carving may open.
   */
  lemma WriteZero(g: seq<seq<int>>, m: Cell)
    requires IsSquare(g, |g|) && Bits(g) && InGrid(|g|, m.0, m.1)
    ensures var g2 := g[m.0 := g[m.0][m.1 := 0]];
      && Bits(g2) && Widens(g, g2) && g2[m.0][m.1] == 0
      && (forall i, j :: 0 <= i < |g| && 0 <= j < |g[i]| && (i, j) != m ==> g2[i][j] == g[i][j])
      && (Shaped(g) && Carvable(|g|, m.0, m.1) ==> Shaped(g2))
  {
  }

  /**
   * Two moves along a direction from a cell with even coordinates lands on a
   * cell with even coordinates; the cell halfway has one odd coordinate and,
   * when both ends lie in the grid, lies in the grid and carving may open it.
   */
  lemma Halfway(size: int, cell: Cell, d: Cell, mid: Cell, target: Cell)
    requires cell.0 % 2 == 0 && cell.1 % 2 == 0 && d in Directions
    requires mid == (cell.0 + d.0, cell.1 + d.1) && target == (cell.0 + d.0 * 2, cell.1 + d.1 * 2)
    ensures target.0 % 2 == 0 && target.1 % 2 == 0
    ensures mid.0 % 2 == 1 || mid.1 % 2 == 1
    ensures mid != target && Adjacent(cell, mid) && Adjacent(mid, target)
    ensures InGrid(size, cell.0, cell.1) && InGrid(size, target.0, target.1)
            ==> InGrid(size, mid.0, mid.1) && Carvable(size, mid.0, mid.1)
  {
  }

  /** One more direction tried: the targets found open before stay open, and the new one is open. */
  lemma TargetsKept(g1: seq<seq<int>>, g2: seq<seq<int>>, row: int, col: int, dirs: seq<Cell>, k: int)
    requires Widens(g1, g2) && 0 <= k < |dirs|
    requires forall m :: 0 <= m < k ==> TargetOpen(g1, row, col, dirs[m])
    requires TargetOpen(g2, row, col, dirs[k])
    ensures forall m :: 0 <= m < k + 1 ==> TargetOpen(g2, row, col, dirs[m])
  {
    forall m | 0 <= m < k
      ensures TargetOpen(g2, row, col, dirs[m])
    {
      assert TargetOpen(g1, row, col, dirs[m]);
    }
  }

  /** Opening more cells keeps open targets open. */
  lemma AllTargetsKept(g1: seq<seq<int>>, g2: seq<seq<int>>, i: int, j: int)
    requires Widens(g1, g2) && TargetsOpen(g1, i, j)
    ensures TargetsOpen(g2, i, j)
  {
    forall d | d in Directions
      ensures TargetOpen(g2, i, j, d)
    {
      assert TargetOpen(g1, i, j, d);
    }
  }

  /** Carving completeness composes over two successive stretches of carving. */
  lemma CarvedFullyCompose(g0: seq<seq<int>>, g1: seq<seq<int>>, g2: seq<seq<int>>, skip: Cell)
    requires Widens(g0, g1) && Widens(g1, g2) && Bits(g1)
    requires CarvedFully(g0, g1, skip) && CarvedFully(g1, g2, (-1, -1))
    ensures CarvedFully(g0, g2, skip)
  {
    forall i, j | && 0 <= i < |g0| && 0 <= j < |g0[i]| && i < |g2| && j < |g2[i]|
                  && i % 2 == 0 && j % 2 == 0 && (i, j) != skip && g0[i][j] == 1 && g2[i][j] == 0
      ensures TargetsOpen(g2, i, j)
    {
      if g1[i][j] == 0 {
        assert TargetsOpen(g1, i, j);
        AllTargetsKept(g1, g2, i, j);
      }
    }
  }

  /** Opening just the cell `m` leaves nothing but `m` to carve from. */
  lemma CarvedNothingElse(g0: seq<seq<int>>, m: Cell)
    requires 0 <= m.0 < |g0| && 0 <= m.1 < |g0[m.0]|
    ensures CarvedFully(g0, g0[m.0 := g0[m.0][m.1 := 0]], m)
  {
  }

  /**
   * Opening one cell `m` with an odd coordinate, then carving completely,
   * carves completely.
   */
  lemma CarvedFullyPastHalfway(g0: seq<seq<int>>, g1: seq<seq<int>>, g2: seq<seq<int>>, m: Cell)
    requires Widens(g0, g1) && Widens(g1, g2)
    requires m.0 % 2 == 1 || m.1 % 2 == 1
    requires 0 <= m.0 < |g0| && 0 <= m.1 < |g0[m.0]| && g1 == g0[m.0 := g0[m.0][m.1 := 0]]
    requires CarvedFully(g1, g2, (-1, -1))
    ensures CarvedFully(g0, g2, (-1, -1))
  {
    forall i, j | && 0 <= i < |g0| && 0 <= j < |g0[i]| && i < |g2| && j < |g2[i]|
                  && i % 2 == 0 && j % 2 == 0 && g0[i][j] == 1 && g2[i][j] == 0
      ensures TargetsOpen(g2, i, j)
    {
      assert (i, j) != m;
      assert g1[i][j] == 1;
    }
  }

  /**
   * One more direction tried in `recursive_backtrack`'s loop: the grid has
   * only widened and lost walls since the cell was entered, every direction
   * tried so far has its target open, and carving is complete but for the
   * cell itself.
   */
  lemma DirectionDone(entry: seq<seq<int>>, g1: seq<seq<int>>, g2: seq<seq<int>>,
                      row: int, col: int, dirs: seq<Cell>, k: int)
    requires Widens(entry, g1) && Widens(g1, g2) && Bits(g1) && 0 <= k < |dirs|
    requires WallCount(g1) < WallCount(entry)
    requires forall m :: 0 <= m < k ==> TargetOpen(g1, row, col, dirs[m])
    requires TargetOpen(g2, row, col, dirs[k])
    requires CarvedFully(entry, g1, (row, col)) && CarvedFully(g1, g2, (-1, -1))
    ensures Widens(entry, g2) && WallCount(g2) < WallCount(entry)
    ensures forall m :: 0 <= m < k + 1 ==> TargetOpen(g2, row, col, dirs[m])
    ensures CarvedFully(entry, g2, (row, col))
  {
    WidensTransitive(entry, g1, g2);
    FewerWalls(g1, g2, (-1, -1));
    TargetsKept(g1, g2, row, col, dirs, k);
    CarvedFullyCompose(entry, g1, g2, (row, col));
  }

  /** Opening the cell halfway to a walled target opens it and leaves the target a wall. */
  lemma MidOpened(g: seq<seq<int>>, mid: Cell, target: Cell)
    requires IsSquare(g, |g|) && InGrid(|g|, mid.0, mid.1) && InGrid(|g|, target.0, target.1)
    requires Adjacent(mid, target) && g[target.0][target.1] == 1
    ensures var g2 := g[mid.0 := g[mid.0][mid.1 := 0]];
      g2[target.0][target.1] == 1 && exists x :: Adjacent(x, target) && IsOpen(g2, x)
  {
    var g2 := g[mid.0 := g[mid.0][mid.1 := 0]];
    assert IsOpen(g2, mid);
  }

  /**
   * Opening the cell `mid` halfway to `target` and then carving completely
   * from `target` only opens cells, opens `target`, and carves completely.
   */
  lemma CarvedThrough(g0: seq<seq<int>>, g1: seq<seq<int>>, g2: seq<seq<int>>, mid: Cell, target: Cell)
    requires Widens(g0, g1) && Widens(g1, g2)
    requires mid.0 % 2 == 1 || mid.1 % 2 == 1
    requires 0 <= mid.0 < |g0| && 0 <= mid.1 < |g0[mid.0]| && g1 == g0[mid.0 := g0[mid.0][mid.1 := 0]]
    requires CarvedFully(g1, g2, (-1, -1))
    requires 0 <= target.0 < |g2| && 0 <= target.1 < |g2[target.0]| && g2[target.0][target.1] == 0
    ensures Widens(g0, g2) && g2[target.0][target.1] == 0
    ensures CarvedFully(g0, g2, (-1, -1))
  {
    WidensTransitive(g0, g1, g2);
    CarvedFullyPastHalfway(g0, g1, g2, mid);
  }

  /** The state `generate_maze_recursive_backtracking` shares with its nested `recursive_backtrack`. */
  class Generator {
    var maze: seq<seq<int>>
    const size: nat

    /** A grid of `size` rows of `size` walls; with no open cell it is trivially valid. */
    constructor(size: nat)
      requires size > 0
      ensures this.size == size && maze == AllWalls(size)
      ensures Valid()
    {
      this.size := size;
      maze := AllWalls(size);
    }

    /** The invariant carving keeps: a connected 0/1 square grid of the right shape. */
    ghost predicate Valid()
      reads this
    {
      IsSquare(maze, size) && size > 0 && Bits(maze) && Shaped(maze) && Connected(maze)
    }

    /**
     * The carving write `maze[r][c] = 0` on a cell carving may open, next to
     * an open cell (or the corner, where carving starts): the grid stays
     * valid, that cell is open and no other changes.
     */
    method OpenCell(m: Cell)
      requires Valid() && InGrid(size, m.0, m.1) && Carvable(size, m.0, m.1)
      requires m == (0, 0) || exists x :: Adjacent(x, m) && IsOpen(maze, x)
      modifies this
      ensures Valid() && Widens(old(maze), maze)
      ensures maze == old(maze)[m.0 := old(maze)[m.0][m.1 := 0]]
      ensures WallCount(maze) <= WallCount(old(maze))
      ensures old(maze)[m.0][m.1] == 1 ==> WallCount(maze) < WallCount(old(maze))
    {
      OpenOne(maze, m);
      WriteZero(maze, m);
      maze := maze[m.0 := maze[m.0][m.1 := 0]];
      FewerWalls(old(maze), maze, m);
    }

    /**
     * `recursive_backtrack(row, col)`: open the cell, then try the four
     * directions in the shuffled order. It only opens cells, keeps the grid
     * valid, and leaves every cell with two even coordinates that it opened,
     * (`row`, `col`) among them, with its four targets open.
     */
    method RecursiveBacktrack(row: int, col: int, order: Cell -> seq<Cell>)
      requires Valid()
      requires InGrid(size, row, col) && row % 2 == 0 && col % 2 == 0 && maze[row][col] == 1
      requires (row, col) == (0, 0) || exists x :: Adjacent(x, (row, col)) && IsOpen(maze, x)
      requires forall c :: IsShuffle(order(c))
      modifies this
      ensures Valid() && Widens(old(maze), maze)
      ensures maze[row][col] == 0 && TargetsOpen(maze, row, col)
      ensures CarvedFully(old(maze), maze, (-1, -1))
      decreases WallCount(maze), 0
    {
      ghost var entry := maze;
      OpenCell((row, col));
      CarvedNothingElse(entry, (row, col));
      var shuffledDirs := order((row, col));
      ShuffleMembers(shuffledDirs);
      for k := 0 to |shuffledDirs|
        invariant Valid() && Widens(entry, maze) && maze[row][col] == 0
        invariant WallCount(maze) < WallCount(entry)
        invariant forall m :: 0 <= m < k ==> TargetOpen(maze, row, col, shuffledDirs[m])
        invariant CarvedFully(entry, maze, (row, col))
      {
        ghost var before := maze;
        CarveToward(row, col, shuffledDirs[k], order);
        DirectionDone(entry, before, maze, row, col, shuffledDirs, k);
      }
      forall d | d in Directions
        ensures TargetOpen(maze, row, col, d)
      {
        var m :| 0 <= m < |shuffledDirs| && shuffledDirs[m] == d;
      }
    }

    /**
     * One pass of the loop in `recursive_backtrack`: when the cell two moves
     * along `d` lies in the grid and is still a wall, open the cell between and
     * carve on from the far cell. Afterwards that far cell is open, if it is in
     * the grid.
     */
    method CarveToward(row: int, col: int, d: Cell, order: Cell -> seq<Cell>)
      requires Valid()
      requires InGrid(size, row, col) && row % 2 == 0 && col % 2 == 0 && maze[row][col] == 0
      requires d in Directions
      requires forall c :: IsShuffle(order(c))
      modifies this
      ensures Valid() && Widens(old(maze), maze)
      ensures TargetOpen(maze, row, col, d)
      ensures CarvedFully(old(maze), maze, (-1, -1))
      decreases WallCount(maze), 1
    {
      var newRow, newCol := row + d.0 * 2, col + d.1 * 2;
      if InGrid(size, newRow, newCol) && maze[newRow][newCol] == 1 {
        ghost var before := maze;
        var mid := (row + d.0, col + d.1);
        Halfway(size, (row, col), d, mid, (newRow, newCol));
        assert IsOpen(maze, (row, col));
        OpenCell(mid);
        MidOpened(before, mid, (newRow, newCol));
        ghost var carved := maze;
        RecursiveBacktrack(newRow, newCol, order);
        CarvedThrough(before, carved, maze, mid, (newRow, newCol));
      }
    }
  }

  /**
   * Writing 0 into a cell of a connected square grid leaves every other open
   * cell reachable from the top-left corner, whatever surrounds that cell.
   */
  lemma OpenAnyway(g1: seq<seq<int>>, m: Cell)
    requires IsSquare(g1, |g1|) && |g1| > 0 && InGrid(|g1|, m.0, m.1)
    requires Connected(g1)
    ensures var g2 := g1[m.0 := g1[m.0][m.1 := 0]];
      forall c :: IsOpen(g2, c) && c != m ==> Reachable(g2, (0, 0), c)
  {
    var g2 := g1[m.0 := g1[m.0][m.1 := 0]];
    forall c | IsOpen(g2, c) && c != m
      ensures Reachable(g2, (0, 0), c)
    {
      assert IsOpen(g1, c);
      assert Reachable(g1, (0, 0), c);
      var p :| IsWalk(g1, p, (0, 0), c);
      WalkSurvivesOpening(g1, g2, p, (0, 0), c);
    }
  }

  /**
   * Once carving from the top-left corner has finished, every cell with two
   * even coordinates is open: each is two moves from another one nearer the
   * corner, and carving opened every target of that one.
   */
  lemma {:induction false} RoomsOpen(g: seq<seq<int>>, i: int, j: int)
    requires IsSquare(g, |g|) && |g| > 0 && g[0][0] == 0
    requires CarvedFully(AllWalls(|g|), g, (-1, -1))
    requires InGrid(|g|, i, j) && i % 2 == 0 && j % 2 == 0
    ensures g[i][j] == 0
    decreases i + j
  {
    if i >= 2 {
      RoomsOpen(g, i - 2, j);
      assert TargetsOpen(g, i - 2, j);
      assert TargetOpen(g, i - 2, j, (1, 0));
    } else if j >= 2 {
      RoomsOpen(g, i, j - 2);
      assert TargetsOpen(g, i, j - 2);
      assert TargetOpen(g, i, j - 2, (0, 1));
    }
  }

  /**
   * In a square grid of size at least 2 whose two cells next to the
   * bottom-right corner are not open, no walk leads from the top-left corner
   * to the bottom-right one.
   */
  lemma CornerWalledIn(g: seq<seq<int>>)
    requires IsSquare(g, |g|) && |g| >= 2
    requires g[|g| - 1][|g| - 2] != 0 && g[|g| - 2][|g| - 1] != 0
    ensures !Reachable(g, (0, 0), (|g| - 1, |g| - 1))
  {
    var n := |g|;
    if Reachable(g, (0, 0), (n - 1, n - 1)) {
      var p :| IsWalk(g, p, (0, 0), (n - 1, n - 1));
      LastStep(g, p, (0, 0), (n - 1, n - 1));
    }
  }

  /**
   * The carving part of `generate_maze_recursive_backtracking`: an all-walls
   * grid, carved by `recursive_backtrack(0, 0)`. The result is a connected
   * 0/1 grid of the carving shape with every cell of two even coordinates open.
   */
  method CarveFromCorner(size: nat, order: Cell -> seq<Cell>) returns (maze: seq<seq<int>>)
    requires size > 0
    requires forall c :: IsShuffle(order(c))
    ensures IsSquare(maze, size) && Bits(maze) && Shaped(maze) && Connected(maze)
    ensures forall i, j :: InGrid(size, i, j) && i % 2 == 0 && j % 2 == 0 ==> maze[i][j] == 0
  {
    var gen := new Generator(size);
    gen.RecursiveBacktrack(0, 0, order);
    maze := gen.maze;
    forall i, j | InGrid(size, i, j) && i % 2 == 0 && j % 2 == 0
      ensures maze[i][j] == 0
    {
      RoomsOpen(maze, i, j);
    }
  }

  /**
   * `generate_maze_recursive_backtracking(size)` as written: carve, then open
   * the two corners. Every open cell but the bottom-right corner is reachable
   * from the top-left one; on an odd size the corner is too, and on an even
   * size it is not.
   */
  method GenerateMaze(size: nat, order: Cell -> seq<Cell>) returns (maze: seq<seq<int>>)
    requires size > 0
    requires forall c :: IsShuffle(order(c))
    ensures IsSquare(maze, size) && Bits(maze)
    ensures maze[0][0] == 0 && maze[size - 1][size - 1] == 0
    ensures forall i, j :: InGrid(size, i, j) && i % 2 == 0 && j % 2 == 0 ==> maze[i][j] == 0
    ensures forall c :: IsOpen(maze, c) && c != (size - 1, size - 1) ==> Reachable(maze, (0, 0), c)
    ensures size % 2 == 1 ==> Connected(maze)
    ensures size % 2 == 0 ==> !Reachable(maze, (0, 0), (size - 1, size - 1))
  {
    maze := CarveFromCorner(size, order);
    assert IsOpen(maze, (0, 0));
    OpenOne(maze, (0, 0));
    WriteZero(maze, (0, 0));
    maze := maze[0 := maze[0][0 := 0]];
    ghost var carved := maze;
    var last := size - 1;
    if size % 2 == 1 {
      assert IsOpen(maze, (last, last));
      OpenOne(maze, (last, last));
    } else {
      OpenAnyway(maze, (last, last));
    }
    WriteZero(maze, (last, last));
    maze := maze[last := maze[last][last := 0]];
    if size % 2 == 0 {
      assert !Carvable(size, last, last - 1) && !Carvable(size, last - 1, last);
      assert maze[last][last - 1] == carved[last][last - 1] != 0;
      assert maze[last - 1][last] == carved[last - 1][last] != 0;
      CornerWalledIn(maze);
    }
  }

  /**
   * Writing 0 into a cell that is open or next to an open cell keeps a
   * connected 0/1 square grid connected, and only widens it.
   */
  lemma JoinOpen(g: seq<seq<int>>, m: Cell)
    requires IsSquare(g, |g|) && |g| > 0 && Bits(g) && Connected(g) && InGrid(|g|, m.0, m.1)
    requires IsOpen(g, m) || exists x :: Adjacent(x, m) && IsOpen(g, x)
    ensures var g2 := g[m.0 := g[m.0][m.1 := 0]];
      IsSquare(g2, |g|) && Bits(g2) && Connected(g2) && Widens(g, g2) && g2[m.0][m.1] == 0
  {
    OpenOne(g, m);
    WriteZero(g, m);
  }

  /**
   * The generator with the bottom-right corner joined up: on an even size it
   * also opens the cell left of that corner, next to the open cell of two
   * even coordinates above it. Every open cell, the corner included, is then
   * reachable from the top-left corner.
   */
  method GenerateConnectedMaze(size: nat, order: Cell -> seq<Cell>) returns (maze: seq<seq<int>>)
    requires size > 0
    requires forall c :: IsShuffle(order(c))
    ensures IsSquare(maze, size) && Bits(maze)
    ensures maze[0][0] == 0 && maze[size - 1][size - 1] == 0
    ensures forall i, j :: InGrid(size, i, j) && i % 2 == 0 && j % 2 == 0 ==> maze[i][j] == 0
    ensures Connected(maze)
    ensures Reachable(maze, (0, 0), (size - 1, size - 1))
  {
    maze := CarveFromCorner(size, order);
    ghost var carved := maze;
    var last := size - 1;
    if size % 2 == 0 {
      assert Adjacent((last - 1, last - 1), (last, last - 1)) && IsOpen(maze, (last - 1, last - 1));
      JoinOpen(maze, (last, last - 1));
      maze := maze[last := maze[last][last - 1 := 0]];
    }
    ghost var joined := maze;
    assert IsOpen(maze, (0, 0));
    JoinOpen(maze, (0, 0));
    maze := maze[0 := maze[0][0 := 0]];
    WidensTransitive(carved, joined, maze);
    if size % 2 == 0 {
      assert Adjacent((last, last - 1), (last, last)) && IsOpen(maze, (last, last - 1));
    } else {
      assert IsOpen(maze, (last, last));
    }
    ghost var cornered := maze;
    JoinOpen(maze, (last, last));
    maze := maze[last := maze[last][last := 0]];
    WidensTransitive(carved, cornered, maze);
    assert IsOpen(maze, (last, last));
  }
}
