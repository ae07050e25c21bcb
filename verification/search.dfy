/**
 * The backend's two solvers, `solve_maze_bfs` and `solve_maze_dfs`. Both keep a
 * frontier (a queue for BFS, a stack for DFS), the `visited` set, the
 * `visited_list` in discovery order and the `parent` map, and rebuild the path by
 * following parents back from the end and reversing.
 */
module Search {
  import opened Grid

  /** Every in-bounds cell of the solvers' `rows x cols` rectangle. */
  ghost function AllCells(maze: seq<seq<int>>): set<Cell>
    requires |maze| > 0
  {
    set r, c | 0 <= r < |maze| && 0 <= c < |maze[0]| :: (r, c)
  }

  /**
   * What the solvers' bookkeeping keeps true: `visitedList` starts at `start` and
   * lists `visited` once each (`idx` gives each cell's position), every later
   * entry is open, and every cell but `start` has a parent: an open neighbour
   * discovered before it.
   */
  ghost predicate TraceInv(maze: seq<seq<int>>, start: Cell, visited: set<Cell>, visitedList: seq<Cell>,
                           parent: map<Cell, Cell>, idx: map<Cell, int>)
  {
    && |visitedList| > 0 && visitedList[0] == start
    && idx.Keys == visited
    && (forall i :: 0 <= i < |visitedList| ==> visitedList[i] in idx && idx[visitedList[i]] == i)
    && (forall c :: c in idx ==> 0 <= idx[c] < |visitedList| && visitedList[idx[c]] == c)
    && (forall i :: 0 < i < |visitedList| ==> IsOpen(maze, visitedList[i]))
    && parent.Keys == visited - {start}
    && (forall c {:trigger parent[c]} :: c in parent ==> IsOpen(maze, c) && parent[c] in visited)
    && (forall c {:trigger parent[c]} :: c in parent ==> Adjacent(parent[c], c) && idx[parent[c]] < idx[c])
  }

  /** The guarantees on `visited_list` that follow from the bookkeeping. */
  lemma TraceFacts(maze: seq<seq<int>>, start: Cell, visited: set<Cell>, visitedList: seq<Cell>,
                   parent: map<Cell, Cell>, idx: map<Cell, int>)
    requires TraceInv(maze, start, visited, visitedList, parent, idx)
    ensures NoDuplicates(visitedList)
    ensures forall k :: 0 < k < |visitedList| ==>
              exists j :: 0 <= j < k && Adjacent(visitedList[j], visitedList[k])
  {
    forall k | 0 < k < |visitedList|
      ensures exists j :: 0 <= j < k && Adjacent(visitedList[j], visitedList[k])
    {
      var c := visitedList[k];
      assert c != start by { assert idx[c] == k && idx[start] == 0; }
      var j := idx[parent[c]];
      assert visitedList[j] == parent[c];
    }
  }

  /** Discovering `next` from `cell` keeps the bookkeeping intact. */
  lemma Discover(maze: seq<seq<int>>, start: Cell, visited: set<Cell>, visitedList: seq<Cell>,
                 parent: map<Cell, Cell>, idx: map<Cell, int>, cell: Cell, next: Cell)
    requires TraceInv(maze, start, visited, visitedList, parent, idx)
    requires cell in visited && next !in visited
    requires Adjacent(cell, next) && IsOpen(maze, next)
    ensures TraceInv(maze, start, visited + {next}, visitedList + [next], parent[next := cell],
                     idx[next := |visitedList|])
  {
  }

  /**
   * The inner `for dr, dc in directions` loop: every neighbour in `dirs` that is
   * open and not yet visited is pushed on the frontier, added to `visited` and
   * `visitedList`, and gets `cell` as its parent. `added` lists the newcomers.
   */
  method Expand(maze: seq<seq<int>>, ghost start: Cell, cell: Cell, dirs: seq<Cell>,
                frontier: seq<Cell>, visited: set<Cell>, visitedList: seq<Cell>,
                parent: map<Cell, Cell>, ghost idx: map<Cell, int>)
    returns (frontier': seq<Cell>, visited': set<Cell>, visitedList': seq<Cell>,
             parent': map<Cell, Cell>, ghost idx': map<Cell, int>, ghost added: seq<Cell>)
    requires |maze| > 0
    requires TraceInv(maze, start, visited, visitedList, parent, idx)
    requires cell in visited
    requires forall d :: d in dirs <==> d in Directions
    ensures TraceInv(maze, start, visited', visitedList', parent', idx')
    ensures visitedList' == visitedList + added && frontier' == frontier + added
    ensures forall c :: c in visited' <==> c in visited || c in added
    ensures forall c :: c in added ==> c !in visited && IsOpen(maze, c)
    ensures forall c :: c in added ==> Adjacent(cell, c) && c in parent' && parent'[c] == cell
    ensures forall c :: c in parent ==> c in parent' && parent'[c] == parent[c]
    ensures forall d :: Adjacent(cell, d) && IsOpen(maze, d) ==> d in visited'
  {
    frontier', visited', visitedList', parent', idx', added := frontier, visited, visitedList, parent, idx, [];
    for i := 0 to |dirs|
      invariant TraceInv(maze, start, visited', visitedList', parent', idx')
      invariant visitedList' == visitedList + added && frontier' == frontier + added
      invariant forall c :: c in visited' <==> c in visited || c in added
      invariant forall c :: c in added ==> c !in visited && IsOpen(maze, c)
      invariant forall c {:trigger parent'[c]} :: c in parent' ==> parent'[c] == if c in parent then parent[c] else cell
      invariant forall k :: 0 <= k < i && IsOpen(maze, Shift(cell, dirs[k])) ==> Shift(cell, dirs[k]) in visited'
    {
      var next := Shift(cell, dirs[i]);
      if IsOpen(maze, next) && next !in visited' {
        assert dirs[i] in Directions;
        Discover(maze, start, visited', visitedList', parent', idx', cell, next);
        frontier' := frontier' + [next];
        visited' := visited' + {next};
        idx' := idx'[next := |visitedList'|];
        visitedList' := visitedList' + [next];
        parent' := parent'[next := cell];
        added := added + [next];
      }
    }
    AllDirectionsTried(maze, cell, dirs, visited');
    ParentsAfterExpand(maze, start, cell, visited, parent, visited', visitedList', parent', idx', added);
  }

  /**
   * Once every parent recorded by the neighbour loop is either an old one or
   * `cell`, each newcomer has `cell` as its parent, and so neighbours it, and
   * the old parents are kept.
   */
  lemma ParentsAfterExpand(maze: seq<seq<int>>, start: Cell, cell: Cell, visited: set<Cell>, parent: map<Cell, Cell>,
                           visited': set<Cell>, visitedList': seq<Cell>, parent': map<Cell, Cell>,
                           idx': map<Cell, int>, added: seq<Cell>)
    requires parent.Keys == visited - {start} && start in visited
    requires TraceInv(maze, start, visited', visitedList', parent', idx')
    requires forall c :: c in visited' <==> c in visited || c in added
    requires forall c :: c in added ==> c !in visited
    requires forall c {:trigger parent'[c]} :: c in parent' ==> parent'[c] == if c in parent then parent[c] else cell
    ensures forall c :: c in added ==> Adjacent(cell, c) && c in parent' && parent'[c] == cell
    ensures forall c :: c in parent ==> c in parent' && parent'[c] == parent[c]
  {
    forall c | c in added
      ensures Adjacent(cell, c) && c in parent' && parent'[c] == cell
    {
      assert c in parent';
      assert parent'[c] == cell;
    }
    forall c | c in parent
      ensures c in parent' && parent'[c] == parent[c]
    {
      assert c in parent';
      assert parent'[c] == parent[c];
    }
  }

  /** Trying every direction of a shuffle reaches every neighbour. */
  lemma AllDirectionsTried(maze: seq<seq<int>>, cell: Cell, dirs: seq<Cell>, visited: set<Cell>)
    requires forall d :: d in dirs <==> d in Directions
    requires forall k :: 0 <= k < |dirs| && IsOpen(maze, Shift(cell, dirs[k])) ==> Shift(cell, dirs[k]) in visited
    ensures forall d :: Adjacent(cell, d) && IsOpen(maze, d) ==> d in visited
  {
    forall d | Adjacent(cell, d) && IsOpen(maze, d)
      ensures d in visited
    {
      var x := (d.0 - cell.0, d.1 - cell.1);
      assert x in dirs;
      var k :| 0 <= k < |dirs| && dirs[k] == x;
      assert Shift(cell, dirs[k]) == d;
    }
  }

  /** Cell `k` of `chain` has cell `k + 1` as its parent. */
  ghost predicate LinkedAt(parent: map<Cell, Cell>, chain: seq<Cell>, k: int)
    requires 0 <= k < |chain| - 1
  {
    chain[k] in parent && parent[chain[k]] == chain[k + 1]
  }

  /** Each cell of `chain` but the last has the next one as its parent. */
  ghost predicate Linked(parent: map<Cell, Cell>, chain: seq<Cell>) {
    forall k :: 0 <= k < |chain| - 1 ==> LinkedAt(parent, chain, k)
  }

  /** A linked chain whose last cell has parent `c` stays linked with `c` appended. */
  lemma LinkedExtend(parent: map<Cell, Cell>, chain: seq<Cell>, c: Cell)
    requires Linked(parent, chain)
    requires |chain| > 0 ==> chain[|chain| - 1] in parent && parent[chain[|chain| - 1]] == c
    ensures Linked(parent, chain + [c])
  {
    var chain' := chain + [c];
    forall k | 0 <= k < |chain'| - 1
      ensures LinkedAt(parent, chain', k)
    {
      if k < |chain| - 1 {
        assert LinkedAt(parent, chain, k);
      }
    }
  }

  /**
   * The path rebuild both solvers share: walk `parent` back from `end` to
   * `start`, append `start`, and reverse.
   */
  method ReconstructPath(ghost maze: seq<seq<int>>, start: Cell, end: Cell, ghost visited: set<Cell>,
                         ghost visitedList: seq<Cell>, parent: map<Cell, Cell>, ghost idx: map<Cell, int>)
    returns (path: seq<Cell>)
    requires TraceInv(maze, start, visited, visitedList, parent, idx)
    requires end in visited
    ensures IsWalk(maze, path, start, end)
    ensures NoDuplicates(path)
    ensures forall c :: c in path ==> c in visited
  {
    var trail: seq<Cell> := [];
    var current := end;
    while current != start
      invariant current in visited
      invariant |trail| == 0 ==> current == end
      invariant |trail| > 0 ==> trail[0] == end && trail[|trail| - 1] in parent && parent[trail[|trail| - 1]] == current
      invariant Linked(parent, trail)
      invariant forall k :: 0 <= k < |trail| ==> trail[k] in visited
      invariant forall a :: 0 <= a < |trail| ==> idx[current] < idx[trail[a]]
      invariant forall a, b :: 0 <= a < b < |trail| ==> idx[trail[b]] < idx[trail[a]]
      decreases idx[current]
    {
      assert current in parent;
      LinkedExtend(parent, trail, current);
      trail := trail + [current];
      current := parent[current];
    }
    LinkedExtend(parent, trail, start);
    trail := trail + [start];
    path := Reverse(trail);
    ChainIsWalk(maze, start, end, parent, trail);
    ChainIsSimple(start, parent, idx, trail);
  }

  /** A parent chain from `end` back to `start`, reversed, is a walk from `start` to `end`. */
  lemma ChainIsWalk(maze: seq<seq<int>>, start: Cell, end: Cell, parent: map<Cell, Cell>, chain: seq<Cell>)
    requires forall c {:trigger parent[c]} :: c in parent ==> IsOpen(maze, c) && Adjacent(parent[c], c)
    requires |chain| > 0 && chain[0] == end && chain[|chain| - 1] == start
    requires Linked(parent, chain)
    ensures IsWalk(maze, Reverse(chain), start, end)
  {
    var path, n := Reverse(chain), |chain|;
    forall k | 0 < k < n
      ensures Adjacent(path[k - 1], path[k]) && IsOpen(maze, path[k])
    {
      ParentStep(maze, parent, chain, n - 1 - k);
      assert path[k] == chain[n - 1 - k] && path[k - 1] == chain[n - k];
    }
    assert path[0] == start && path[n - 1] == end;
  }

  /** Each cell of a parent chain but the last is open and neighbours the next one, its parent. */
  lemma ParentStep(maze: seq<seq<int>>, parent: map<Cell, Cell>, chain: seq<Cell>, j: int)
    requires forall c {:trigger parent[c]} :: c in parent ==> IsOpen(maze, c) && Adjacent(parent[c], c)
    requires Linked(parent, chain)
    requires 0 <= j < |chain| - 1
    ensures Adjacent(chain[j + 1], chain[j]) && IsOpen(maze, chain[j])
  {
    assert LinkedAt(parent, chain, j);
  }

  /** A chain along which the discovery index strictly falls, ending at the parentless `start`, repeats no cell. */
  lemma ChainIsSimple(start: Cell, parent: map<Cell, Cell>, idx: map<Cell, int>, chain: seq<Cell>)
    requires start !in parent
    requires |chain| > 0 && chain[|chain| - 1] == start
    requires Linked(parent, chain)
    requires forall k :: 0 <= k < |chain| ==> chain[k] in idx
    requires forall a, b :: 0 <= a < b < |chain| - 1 ==> idx[chain[b]] < idx[chain[a]]
    ensures NoDuplicates(Reverse(chain))
  {
    var path, n := Reverse(chain), |chain|;
    forall a, b | 0 <= a < b < n
      ensures path[a] != path[b]
    {
      assert path[a] == chain[n - 1 - a] && path[b] == chain[n - 1 - b];
      if a == 0 {
        assert LinkedAt(parent, chain, n - 1 - b);
      }
    }
  }

  /**
   * `solve_maze_bfs`. `visitedList` starts at `start`, names each cell once, and
   * every later entry is an open cell next to an earlier one; a non-empty path is
   * a walk from `start` to `end` through visited cells; and the path is empty
   * exactly when `end` cannot be reached, in which case every reachable cell was
   * visited.
   */
  method SolveBfs(maze: seq<seq<int>>, start: Cell, end: Cell) returns (path: seq<Cell>, visitedList: seq<Cell>)
    requires |maze| > 0
    ensures |visitedList| > 0 && visitedList[0] == start
    ensures NoDuplicates(visitedList)
    ensures forall k :: 0 < k < |visitedList| ==> IsOpen(maze, visitedList[k])
    ensures forall k :: 0 < k < |visitedList| ==>
              exists j :: 0 <= j < k && Adjacent(visitedList[j], visitedList[k])
    ensures path != [] ==> IsWalk(maze, path, start, end) && NoDuplicates(path)
    ensures forall c :: c in path ==> c in visitedList
    ensures path == [] <==> !Reachable(maze, start, end)
    ensures path == [] ==> forall c :: Reachable(maze, start, c) ==> c in visitedList
  {
    var queue := [start];
    var visited := {start};
    visitedList := [start];
    var parent: map<Cell, Cell> := map[];
    ghost var idx := map[start := 0];
    ghost var done: set<Cell> := {};
    while queue != []
      invariant TraceInv(maze, start, visited, visitedList, parent, idx)
      invariant Explored(maze, end, visited, queue, done)
      decreases AllCells(maze) - visited, |queue|
    {
      var cell := queue[0];
      ghost var popped := queue;
      queue := queue[1..];
      if cell == end {
        path := ReconstructPath(maze, start, end, visited, visitedList, parent, idx);
        TraceFacts(maze, start, visited, visitedList, parent, idx);
        assert IsWalk(maze, path, start, end);
        return;
      }
      ghost var before, added := visited, [];
      queue, visited, visitedList, parent, idx, added := Expand(maze, start, cell, Directions, queue, visited, visitedList, parent, idx);
      ExploreStep(maze, end, before, popped, done, cell, popped[1..], visited, added);
      done := done + {cell};
      Progress(maze, before, visited, added);
    }
    path := [];
    TraceFacts(maze, start, visited, visitedList, parent, idx);
    Exhausted(maze, start, end, visited, visitedList, parent, idx);
  }

  /**
   * `solve_maze_dfs`, for every order `random.shuffle` may give the four
   * directions at each popped cell (`order(cell)`): the same guarantees as BFS.
   */
  method SolveDfs(maze: seq<seq<int>>, start: Cell, end: Cell, order: Cell -> seq<Cell>)
    returns (path: seq<Cell>, visitedList: seq<Cell>)
    requires |maze| > 0
    requires forall c :: IsShuffle(order(c))
    ensures |visitedList| > 0 && visitedList[0] == start
    ensures NoDuplicates(visitedList)
    ensures forall k :: 0 < k < |visitedList| ==> IsOpen(maze, visitedList[k])
    ensures forall k :: 0 < k < |visitedList| ==>
              exists j :: 0 <= j < k && Adjacent(visitedList[j], visitedList[k])
    ensures path != [] ==> IsWalk(maze, path, start, end) && NoDuplicates(path)
    ensures forall c :: c in path ==> c in visitedList
    ensures path == [] <==> !Reachable(maze, start, end)
    ensures path == [] ==> forall c :: Reachable(maze, start, c) ==> c in visitedList
  {
    var stack := [start];
    var visited := {start};
    visitedList := [start];
    var parent: map<Cell, Cell> := map[];
    ghost var idx := map[start := 0];
    ghost var done: set<Cell> := {};
    while stack != []
      invariant TraceInv(maze, start, visited, visitedList, parent, idx)
      invariant Explored(maze, end, visited, stack, done)
      decreases AllCells(maze) - visited, |stack|
    {
      var cell := stack[|stack| - 1];
      ghost var popped := stack;
      stack := stack[..|stack| - 1];
      if cell == end {
        path := ReconstructPath(maze, start, end, visited, visitedList, parent, idx);
        TraceFacts(maze, start, visited, visitedList, parent, idx);
        assert IsWalk(maze, path, start, end);
        return;
      }
      var shuffledDirs := order(cell);
      ShuffleMembers(shuffledDirs);
      ghost var before, added := visited, [];
      stack, visited, visitedList, parent, idx, added := Expand(maze, start, cell, shuffledDirs, stack, visited, visitedList, parent, idx);
      ExploreStep(maze, end, before, popped, done, cell, popped[..|popped| - 1], visited, added);
      done := done + {cell};
      Progress(maze, before, visited, added);
    }
    path := [];
    TraceFacts(maze, start, visited, visitedList, parent, idx);
    Exhausted(maze, start, end, visited, visitedList, parent, idx);
  }

  /**
   * The frontier discipline: `done` holds the cells already popped and
   * expanded, never `end`; every visited cell is done or still waiting; and
   * every open neighbour of a done cell has been visited.
   */
  ghost predicate Explored(maze: seq<seq<int>>, end: Cell, visited: set<Cell>, frontier: seq<Cell>, done: set<Cell>) {
    && done <= visited && end !in done
    && (forall c :: c in frontier ==> c in visited)
    && (forall c :: c in visited ==> c in done || c in frontier)
    && (forall c, d :: c in done && Adjacent(c, d) && IsOpen(maze, d) ==> d in visited)
  }

  /** Popping `cell` (not `end`) and expanding it keeps the discipline. */
  lemma ExploreStep(maze: seq<seq<int>>, end: Cell, visited: set<Cell>, frontier: seq<Cell>, done: set<Cell>,
                    cell: Cell, rest: seq<Cell>, visited': set<Cell>, added: seq<Cell>)
    requires Explored(maze, end, visited, frontier, done)
    requires cell in frontier && cell != end
    requires forall c :: c in frontier ==> c == cell || c in rest
    requires forall c :: c in rest ==> c in frontier
    requires forall c :: c in visited' <==> c in visited || c in added
    requires forall d :: Adjacent(cell, d) && IsOpen(maze, d) ==> d in visited'
    ensures Explored(maze, end, visited', rest + added, done + {cell})
  {
  }

  /**
   * One round of the main loop either discovers a new in-bounds cell, which
   * shrinks the set of cells still unvisited, or discovers nothing.
   */
  lemma Progress(maze: seq<seq<int>>, before: set<Cell>, after: set<Cell>, added: seq<Cell>)
    requires |maze| > 0
    requires forall c :: c in after <==> c in before || c in added
    requires forall c :: c in added ==> c !in before && IsOpen(maze, c)
    ensures added == [] ==> after == before
    ensures added != [] ==> AllCells(maze) - after < AllCells(maze) - before
  {
    if added != [] {
      var c := added[0];
      assert c in added;
      assert c == (c.0, c.1) && 0 <= c.0 < |maze| && 0 <= c.1 < |maze[0]|;
      assert c in AllCells(maze);
      assert c !in AllCells(maze) - after;
    }
  }

  /**
   * When the frontier runs dry the visited cells are closed under open
   * neighbours, so `end` (never visited) is unreachable and every reachable
   * cell was visited.
   */
  lemma Exhausted(maze: seq<seq<int>>, start: Cell, end: Cell, visited: set<Cell>, visitedList: seq<Cell>,
                  parent: map<Cell, Cell>, idx: map<Cell, int>)
    requires TraceInv(maze, start, visited, visitedList, parent, idx)
    requires end !in visited
    requires forall c, d :: c in visited && Adjacent(c, d) && IsOpen(maze, d) ==> d in visited
    ensures !Reachable(maze, start, end)
    ensures forall c :: Reachable(maze, start, c) ==> c in visitedList
  {
    ClosedSetBlocks(maze, visited, start, end);
    forall c | Reachable(maze, start, c)
      ensures c in visitedList
    {
      var p :| IsWalk(maze, p, start, c);
      WalkStaysInside(maze, visited, p, start, c, |p| - 1);
      assert visitedList[idx[c]] == c;
    }
  }
}
