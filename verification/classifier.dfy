/**
 * The frontend's `getCellClass`: the colour category of one grid cell during
 * replay. The exploration trace (`visitedCells`) and the path (`solution`) are
 * revealed by one counter, `animationStep`: a cell turns Visited once the
 * counter passes its first position in the exploration trace, and Path once the
 * counter passes the whole trace plus its first position in the path.
 */
module Classifier {
  import opened Grid

  datatype Category = Start | End | Wall | Path | Visited | Open

  /** What replay reads besides the counter; fixed while a replay runs. */
  datatype Scene = Scene(maze: seq<seq<int>>, startPoint: Cell, endPoint: Cell,
                         visitedCells: seq<Cell>, solution: seq<Cell>)

  /** JavaScript's `findIndex` for a cell: its first position, or -1 when absent. */
  function FindIndex(trace: seq<Cell>, cell: Cell): (i: int)
    ensures -1 <= i < |trace|
    ensures i == -1 <==> cell !in trace
    ensures 0 <= i ==> trace[i] == cell && cell !in trace[..i]
  {
    if trace == [] then -1
    else if trace[0] == cell then 0
    else
      var j := FindIndex(trace[1..], cell);
      if j == -1 then -1
      else
        assert trace[..j + 1] == [trace[0]] + trace[1..][..j];
        j + 1
  }

  /** `maze[row]?.[col] === 1`: outside the grid a cell is not a wall. */
  predicate IsWall(maze: seq<seq<int>>, row: int, col: int) {
    0 <= row < |maze| && 0 <= col < |maze[row]| && maze[row][col] == 1
  }

  /** `getCellClass(row, col)`, categories in the source's order of precedence. */
  function CellClass(scene: Scene, animationStep: int, row: int, col: int): (c: Category)
    ensures c == Start <==> (row, col) == scene.startPoint
    ensures c == Wall ==> IsWall(scene.maze, row, col)
    ensures c == Path ==> (row, col) in scene.solution && animationStep > |scene.visitedCells|
    ensures c == Visited ==> (row, col) in scene.visitedCells && animationStep > 0
  {
    var cell := (row, col);
    var isStart := cell == scene.startPoint;
    var isEnd := cell == scene.endPoint;
    var isWall := IsWall(scene.maze, row, col);
    var visitedIndex := FindIndex(scene.visitedCells, cell);
    var isVisited := animationStep > visitedIndex && visitedIndex != -1;
    var solutionIndex := FindIndex(scene.solution, cell);
    var isPath := animationStep > |scene.visitedCells| + solutionIndex && solutionIndex != -1;
    if isStart then Start
    else if isEnd then End
    else if isWall then Wall
    else if isPath then Path
    else if isVisited then Visited
    else Open
  }

  /**
   * Revealing without `findIndex`: some occurrence of the cell in the trace lies
   * before the counter (for the path, after the whole exploration trace).
   */
  ghost predicate PathShown(scene: Scene, animationStep: int, cell: Cell) {
    exists i :: 0 <= i < |scene.solution| && scene.solution[i] == cell && animationStep > |scene.visitedCells| + i
  }

  ghost predicate VisitShown(scene: Scene, animationStep: int, cell: Cell) {
    exists j :: 0 <= j < |scene.visitedCells| && scene.visitedCells[j] == cell && animationStep > j
  }

  /** The counter passes the first occurrence exactly when it passes some occurrence. */
  lemma FirstOccurrenceDecides(trace: seq<Cell>, cell: Cell, bound: int)
    ensures (FindIndex(trace, cell) != -1 && bound > FindIndex(trace, cell))
            <==> exists i :: 0 <= i < |trace| && trace[i] == cell && bound > i
  {
  }

  /**
   * The whole classifier against that independent reading: the precedence
   * Start, End, Wall, Path, Visited, open, with the two reveal rules.
   */
  lemma ClassifierSpec(scene: Scene, animationStep: int, row: int, col: int)
    ensures var cell, r := (row, col), CellClass(scene, animationStep, row, col);
      && (r == Start <==> cell == scene.startPoint)
      && (r == End <==> cell != scene.startPoint && cell == scene.endPoint)
      && (r == Wall <==> cell != scene.startPoint && cell != scene.endPoint && IsWall(scene.maze, row, col))
      && (r == Path <==> cell != scene.startPoint && cell != scene.endPoint && !IsWall(scene.maze, row, col)
                         && PathShown(scene, animationStep, cell))
      && (r == Visited <==> cell != scene.startPoint && cell != scene.endPoint && !IsWall(scene.maze, row, col)
                            && !PathShown(scene, animationStep, cell) && VisitShown(scene, animationStep, cell))
      && (r == Open <==> cell != scene.startPoint && cell != scene.endPoint && !IsWall(scene.maze, row, col)
                         && !PathShown(scene, animationStep, cell) && !VisitShown(scene, animationStep, cell))
  {
    FirstOccurrenceDecides(scene.solution, (row, col), animationStep - |scene.visitedCells|);
    FirstOccurrenceDecides(scene.visitedCells, (row, col), animationStep);
  }

  /** Before replay starts (`animationStep` 0, or below) nothing is revealed. */
  lemma NothingShownAtStepZero(scene: Scene, animationStep: int, row: int, col: int)
    requires animationStep <= 0
    ensures CellClass(scene, animationStep, row, col) != Path
    ensures CellClass(scene, animationStep, row, col) != Visited
  {
  }

  /**
   * Reveal is monotone: a cell shown as Path stays Path, a cell shown as Visited
   * stays Visited or turns Path, and Start, End and Wall never depend on the counter.
   */
  lemma RevealIsMonotone(scene: Scene, s1: int, s2: int, row: int, col: int)
    requires s1 <= s2
    ensures CellClass(scene, s1, row, col) == Path ==> CellClass(scene, s2, row, col) == Path
    ensures CellClass(scene, s1, row, col) == Visited ==> CellClass(scene, s2, row, col) in {Visited, Path}
    ensures CellClass(scene, s1, row, col) in {Start, End, Wall} ==> CellClass(scene, s2, row, col) == CellClass(scene, s1, row, col)
    ensures CellClass(scene, s2, row, col) in {Start, End, Wall} ==> CellClass(scene, s1, row, col) == CellClass(scene, s2, row, col)
  {
  }

  /**
   * The exact moment each cell turns: with `i` its first position in the path,
   * Path from step `|visitedCells| + i + 1` on and not before; with `j` its first
   * position in the exploration trace, Visited (or Path) from step `j + 1` on.
   */
  lemma RevealMoment(scene: Scene, animationStep: int, row: int, col: int)
    requires (row, col) != scene.startPoint && (row, col) != scene.endPoint && !IsWall(scene.maze, row, col)
    ensures var i := FindIndex(scene.solution, (row, col));
      CellClass(scene, animationStep, row, col) == Path <==> i != -1 && animationStep >= |scene.visitedCells| + i + 1
    ensures var j := FindIndex(scene.visitedCells, (row, col));
      j != -1 && animationStep >= j + 1 ==> CellClass(scene, animationStep, row, col) in {Visited, Path}
    ensures (row, col) !in scene.solution && (row, col) !in scene.visitedCells ==> CellClass(scene, animationStep, row, col) == Open
  {
  }

  /**
   * At the step where replay stops (`|visitedCells| + |solution| + 1`) every
   * path cell shows as Path and every explored cell as Visited or Path, unless
   * a marker or a wall covers it.
   */
  lemma FinalStepShowsEverything(scene: Scene, row: int, col: int)
    ensures var r := CellClass(scene, |scene.visitedCells| + |scene.solution| + 1, row, col);
      && ((row, col) in scene.solution ==> r in {Start, End, Wall, Path})
      && ((row, col) in scene.visitedCells ==> r in {Start, End, Wall, Path, Visited})
  {
  }
}
