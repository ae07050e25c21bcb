/**
 * The backend's two HTTP routes: `/generate-maze` validates its size and
 * returns a fresh maze, `/solve-maze` reads a maze, an algorithm name and two
 * optional end points and returns the solver's path and visit order. A reply
 * is a JSON body, or an error message with its status code.
 */
module Routes {
  import opened Wrappers
  import opened Grid
  import Generation
  import Search

  datatype Reply =
    | MazeReply(maze: seq<seq<int>>)
    | SolutionReply(solution: seq<Cell>, visited: seq<Cell>)
    | ErrorReply(status: int, error: string)

  /** The `size` query argument: absent, an integer, or text `int()` rejects. */
  datatype SizeArg = Absent | Number(n: int) | NotANumber(text: string)

  /** The fields `/solve-maze` reads from its JSON body; `None` is a missing key. */
  datatype SolveRequest = SolveRequest(
    maze: Option<seq<seq<int>>>,
    algorithm: Option<string>,
    start: Option<Cell>,
    end: Option<Cell>)

  const DefaultSize := 10
  const MinSize := 5
  const MaxSize := 30

  const SizeError := "Size must be between 5 and 30"
  const NoMazeError := "No maze provided"
  const AlgorithmError := "Invalid algorithm"

  /**
   * `/generate-maze`: the size defaults to 10 and must lie in 5..30, else a
   * 400 reply; a size that is not an integer is a 500 reply. A valid size
   * gets the generator's maze as written: square, 0/1, both corners open, and
   * every open cell but the bottom-right corner reachable from the top-left
   * one. On an odd size that corner is reachable too; on an even size,
   * the default 10 among them, it is not.
   */
  method GenerateMazeRoute(size: SizeArg, order: Cell -> seq<Cell>) returns (r: Reply)
    requires forall c :: IsShuffle(order(c))
    ensures size.NotANumber? <==> r.ErrorReply? && r.status == 500
    ensures !size.NotANumber? ==>
      var n := if size.Absent? then DefaultSize else size.n;
      && ((n < MinSize || n > MaxSize) <==> r == ErrorReply(400, SizeError))
      && (MinSize <= n <= MaxSize <==> r.MazeReply?)
    ensures r.MazeReply? ==>
      var n := |r.maze|;
      && MinSize <= n <= MaxSize && (size.Absent? ==> n == DefaultSize) && (size.Number? ==> n == size.n)
      && Generation.IsSquare(r.maze, n) && Generation.Bits(r.maze)
      && r.maze[0][0] == 0 && r.maze[n - 1][n - 1] == 0
      && (forall c :: IsOpen(r.maze, c) && c != (n - 1, n - 1) ==> Reachable(r.maze, (0, 0), c))
      && (n % 2 == 1 ==> Generation.Connected(r.maze))
      && (n % 2 == 0 ==> !Reachable(r.maze, (0, 0), (n - 1, n - 1)))
  {
    var n;
    match size {
      case Absent => n := DefaultSize;
      case Number(k) => n := k;
      case NotANumber(text) =>
        return ErrorReply(500, "invalid literal for int() with base 10: '" + text + "'");
    }
    if n < MinSize || n > MaxSize {
      return ErrorReply(400, SizeError);
    }
    var maze := Generation.GenerateMaze(n, order);
    return MazeReply(maze);
  }

  /**
   * What a solver's reply guarantees: the visit order starts at the start,
   * repeats no cell and lists only open cells after it; the solution is empty
   * exactly when the end cannot be reached from the start, and otherwise is a
   * duplicate-free walk from one to the other through open cells.
   */
  ghost predicate SolvedBetween(r: Reply, maze: seq<seq<int>>, start: Cell, end: Cell) {
    && r.SolutionReply?
    && |r.visited| > 0 && r.visited[0] == start && NoDuplicates(r.visited)
    && (forall k :: 0 < k < |r.visited| ==> IsOpen(maze, r.visited[k]))
    && (r.solution == [] <==> !Reachable(maze, start, end))
    && (r.solution != [] ==> IsWalk(maze, r.solution, start, end) && NoDuplicates(r.solution))
  }

  /**
   * The dispatch on the algorithm name shared by both readings of
   * `/solve-maze`: "bfs" and "dfs" run their solver, anything else is a 400
   * reply. A solution is empty exactly when the end cannot be reached from
   * the start, and otherwise walks from one to the other through open cells.
   */
  method Dispatch(maze: seq<seq<int>>, algorithm: string, start: Cell, end: Cell, order: Cell -> seq<Cell>)
    returns (r: Reply)
    requires |maze| > 0
    requires forall c :: IsShuffle(order(c))
    ensures algorithm != "bfs" && algorithm != "dfs" <==> r == ErrorReply(400, AlgorithmError)
    ensures r.SolutionReply? || r == ErrorReply(400, AlgorithmError)
    ensures r.SolutionReply? ==> SolvedBetween(r, maze, start, end)
  {
    if algorithm == "bfs" {
      var solution, visited := Search.SolveBfs(maze, start, end);
      r := SolutionReply(solution, visited);
    } else if algorithm == "dfs" {
      var solution, visited := Search.SolveDfs(maze, start, end, order);
      r := SolutionReply(solution, visited);
    } else {
      r := ErrorReply(400, AlgorithmError);
    }
  }

  /**
   * `/solve-maze` as written: the default end point `[len(maze)-1,
   * len(maze[0])-1]` is built before the key is looked up and before the maze
   * is checked, so a missing maze fails in `len` and an empty one in
   * `maze[0]`, both as 500 replies. The 400 reply "No maze provided" is never
   * sent.
   */
  method SolveMazeRouteAsWritten(req: SolveRequest, order: Cell -> seq<Cell>) returns (r: Reply)
    requires forall c :: IsShuffle(order(c))
    ensures req.maze == None ==> r == ErrorReply(500, "object of type 'NoneType' has no len()")
    ensures req.maze == Some([]) ==> r == ErrorReply(500, "list index out of range")
    ensures r != ErrorReply(400, NoMazeError)
    ensures req.maze.Some? && req.maze.value != [] ==>
      var maze := req.maze.value;
      var algorithm := if req.algorithm.Some? then req.algorithm.value else "bfs";
      var start := if req.start.Some? then req.start.value else (0, 0);
      var end := if req.end.Some? then req.end.value else (|maze| - 1, |maze[0]| - 1);
      && (algorithm != "bfs" && algorithm != "dfs" <==> r == ErrorReply(400, AlgorithmError))
      && (algorithm == "bfs" || algorithm == "dfs" ==> SolvedBetween(r, maze, start, end))
  {
    if req.maze.None? {
      return ErrorReply(500, "object of type 'NoneType' has no len()");
    }
    var maze := req.maze.value;
    if |maze| == 0 {
      return ErrorReply(500, "list index out of range");
    }
    var algorithm := if req.algorithm.Some? then req.algorithm.value else "bfs";
    var start := if req.start.Some? then req.start.value else (0, 0);
    var defaultEnd := (|maze| - 1, |maze[0]| - 1);
    var end := if req.end.Some? then req.end.value else defaultEnd;
    r := Dispatch(maze, algorithm, start, end, order);
    assert AlgorithmError[0] != NoMazeError[0];
  }

  /**
   * `/solve-maze` with the maze checked before the default end point is
   * built: a missing or empty maze is the 400 reply "No maze provided", and
   * every other request is dispatched as in the route as written.
   */
  method SolveMazeRoute(req: SolveRequest, order: Cell -> seq<Cell>) returns (r: Reply)
    requires forall c :: IsShuffle(order(c))
    ensures req.maze == None || req.maze == Some([]) <==> r == ErrorReply(400, NoMazeError)
    ensures req.maze.Some? && req.maze.value != [] ==>
      var maze := req.maze.value;
      var algorithm := if req.algorithm.Some? then req.algorithm.value else "bfs";
      var start := if req.start.Some? then req.start.value else (0, 0);
      var end := if req.end.Some? then req.end.value else (|maze| - 1, |maze[0]| - 1);
      && (algorithm != "bfs" && algorithm != "dfs" <==> r == ErrorReply(400, AlgorithmError))
      && (algorithm == "bfs" || algorithm == "dfs" ==> SolvedBetween(r, maze, start, end))
  {
    if req.maze.None? || req.maze.value == [] {
      return ErrorReply(400, NoMazeError);
    }
    var maze := req.maze.value;
    var algorithm := if req.algorithm.Some? then req.algorithm.value else "bfs";
    var start := if req.start.Some? then req.start.value else (0, 0);
    var end := if req.end.Some? then req.end.value else (|maze| - 1, |maze[0]| - 1);
    r := Dispatch(maze, algorithm, start, end, order);
    assert AlgorithmError[0] != NoMazeError[0];
  }

  /**
   * The default session: `/generate-maze` with no size, then `/solve-maze`
   * on its maze with the default algorithm BFS, between the markers the
   * frontend places on the maze's corners, (0, 0) and (9, 9). Whatever the
   * shuffles, the reply is an empty solution, which the frontend reports as
   * "No solution found!".
   */
  method DefaultSessionAsWritten(order: Cell -> seq<Cell>) returns (r: Reply)
    requires forall c :: IsShuffle(order(c))
    ensures r.SolutionReply? && r.solution == []
  {
    var generated := GenerateMazeRoute(Absent, order);
    var maze := generated.maze;
    var req := SolveRequest(Some(maze), None, Some((0, 0)), Some((|maze| - 1, |maze| - 1)));
    r := SolveMazeRouteAsWritten(req, order);
  }
}
