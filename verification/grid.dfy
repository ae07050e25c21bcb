/**
 * The rectangular 0/1 grid shared by the generator, the two solvers and the UI:
 * 0 is an open cell, 1 (or anything else the solvers see) is a wall.
 * Coordinates are (row, col) pairs; the four moves are the offsets the backend
 * lists in the order up, right, down, left.
 */
module Grid {

  type Cell = (int, int)

  /** The backend's `directions` list, in its own order. */
  const Directions: seq<Cell> := [(-1, 0), (0, 1), (1, 0), (0, -1)]

  /** What `random.shuffle` may turn `directions` into: any permutation of it. */
  predicate IsShuffle(dirs: seq<Cell>) {
    multiset(dirs) == multiset(Directions)
  }

  /** A shuffled direction list holds exactly the four directions. */
  lemma ShuffleMembers(dirs: seq<Cell>)
    requires IsShuffle(dirs)
    ensures forall d :: d in dirs <==> d in Directions
  {
    forall d
      ensures d in dirs <==> d in Directions
    {
      assert d in dirs <==> d in multiset(dirs);
      assert d in Directions <==> d in multiset(Directions);
    }
  }

  /** The cell one move `d` away from `c`. */
  function Shift(c: Cell, d: Cell): Cell {
    (c.0 + d.0, c.1 + d.1)
  }

  /** `b` is one of the four neighbours of `a`. */
  predicate Adjacent(a: Cell, b: Cell) {
    (b.0 - a.0, b.1 - a.1) in Directions
  }

  /**
   * The solvers' test for a cell they may step on: inside `rows x cols`, where
   * `cols` is the width of the first row, and holding 0.
   */
  predicate IsOpen(maze: seq<seq<int>>, c: Cell) {
    0 <= c.0 < |maze| && 0 <= c.1 < |maze[0]| && c.1 < |maze[c.0]| && maze[c.0][c.1] == 0
  }

  /**
   * `p` is a walk from `s` to `e`: it starts at `s`, ends at `e`, every step goes
   * to a neighbour, and every cell after the first is open. (The first cell is
   * whatever start the client sent; the solvers never check it.)
   */
  ghost predicate IsWalk(maze: seq<seq<int>>, p: seq<Cell>, s: Cell, e: Cell) {
    && |p| > 0 && p[0] == s && p[|p| - 1] == e
    && (forall k :: 0 < k < |p| ==> Adjacent(p[k - 1], p[k]))
    && (forall k :: 0 < k < |p| ==> IsOpen(maze, p[k]))
  }

  ghost predicate Reachable(maze: seq<seq<int>>, s: Cell, e: Cell) {
    exists p :: IsWalk(maze, p, s, e)
  }

  predicate NoDuplicates<T(==)>(s: seq<T>) {
    forall i, j :: 0 <= i < j < |s| ==> s[i] != s[j]
  }

  /** Python's `list.reverse()`, on values. */
  function Reverse<T>(s: seq<T>): (r: seq<T>)
    ensures |r| == |s|
    ensures forall i :: 0 <= i < |s| ==> r[i] == s[|s| - 1 - i]
  {
    if s == [] then [] else Reverse(s[1..]) + [s[0]]
  }

  /**
   * A set of cells that holds `s`, misses `e` and contains every open neighbour
   * of each of its cells cannot be left by a walk, so `e` is not reachable.
   */
  lemma {:induction false} ClosedSetBlocks(maze: seq<seq<int>>, region: set<Cell>, s: Cell, e: Cell)
    requires s in region && e !in region
    requires forall c, d :: c in region && Adjacent(c, d) && IsOpen(maze, d) ==> d in region
    ensures !Reachable(maze, s, e)
  {
    forall p | IsWalk(maze, p, s, e)
      ensures false
    {
      WalkStaysInside(maze, region, p, s, e, |p| - 1);
    }
  }

  lemma {:induction false} WalkStaysInside(maze: seq<seq<int>>, region: set<Cell>, p: seq<Cell>, s: Cell, e: Cell, k: nat)
    requires IsWalk(maze, p, s, e) && k < |p|
    requires s in region
    requires forall c, d :: c in region && Adjacent(c, d) && IsOpen(maze, d) ==> d in region
    ensures p[k] in region
  {
    if k > 0 {
      WalkStaysInside(maze, region, p, s, e, k - 1);
      assert Adjacent(p[k - 1], p[k]) && IsOpen(maze, p[k]);
    }
  }

  /** A walk to `m` followed by a step to an open neighbour `e` is a walk to `e`. */
  lemma ExtendWalk(maze: seq<seq<int>>, p: seq<Cell>, s: Cell, m: Cell, e: Cell)
    requires IsWalk(maze, p, s, m)
    requires Adjacent(m, e) && IsOpen(maze, e)
    ensures IsWalk(maze, p + [e], s, e)
  {
  }

  /** A walk between two different cells enters its end from a neighbour that is its start or open. */
  lemma LastStep(maze: seq<seq<int>>, p: seq<Cell>, s: Cell, e: Cell)
    requires IsWalk(maze, p, s, e) && s != e
    ensures |p| >= 2 && Adjacent(p[|p| - 2], e)
    ensures p[|p| - 2] == s || IsOpen(maze, p[|p| - 2])
  {
  }
}
