/**
 * The frontend's state and the steps that change it: the start/end marker
 * placement (`handleCellClick` and the two "Set ... Point" buttons), the
 * animation effect that advances `animationStep`, and the resets done by
 * `generateMaze` and `solveMaze`. The two async handlers are split at their
 * `await`: `Begin...` is what runs before the request goes out, `Complete...`
 * what runs when its response (or failure) comes back. A timer firing is an
 * explicit call to `Tick`.
 */
module Replay {
  import opened Grid
  import opened Wrappers
  import Classifier

  /** How a `fetch` ends: a body, a non-2xx status, or a rejection with its message. */
  datatype Response<T> = Ok(body: T) | NotOk | Rejected(message: string)

  /** The body of a successful `/solve-maze` answer. */
  datatype SolveBody = SolveBody(solution: seq<Cell>, visited: seq<Cell>)

  /** Which request, if any, is awaiting its response. */
  datatype Request = NoRequest | Generating | Solving

  const GenerateFailed := "Failed to generate maze"
  const SolveFailed := "Failed to solve maze"
  const NoSolution := "No solution found!"
  /**
   * The TypeError raised by `data.maze[0].length` when the maze has no rows,
   * in V8's wording; other JavaScript engines word the message differently.
   */
  const NoFirstRow := "Cannot read properties of undefined (reading 'length')"

  /** The replay counter and the `solving` flag, the part of the state a tick touches. */
  datatype Progress = Progress(step: int, solving: bool)

  /**
   * One run of the animation effect for a trace of `total` cells: below or at
   * `total` the counter moves on by one; past it, `solving` is cleared; at 0
   * (no replay) nothing happens. The counter never falls and never passes
   * `total + 1` unless it already had.
   */
  function Advance(p: Progress, total: nat): (q: Progress)
    ensures p.step <= q.step
    ensures p.step <= total ==> q.step <= total + 1
    ensures q.solving ==> p.solving
    ensures p.step > 0 && q.step == p.step ==> !q.solving
  {
    if 0 < p.step <= total then Progress(p.step + 1, p.solving)
    else if p.step > total then Progress(p.step, false)
    else p
  }

  /** `n` runs of the animation effect in a row. */
  function Run(p: Progress, total: nat, n: nat): Progress
    decreases n
  {
    if n == 0 then p else Run(Advance(p, total), total, n - 1)
  }

  /**
   * From any counter value `1 <= s <= total + 1`, ticks count up one at a time
   * and stop at `total + 1`, where `solving` is cleared.
   */
  lemma {:induction false} TicksFrom(s: int, solving: bool, total: nat, n: nat)
    requires 1 <= s <= total + 1
    decreases n
    ensures Run(Progress(s, solving), total, n)
            == if s + n <= total + 1 then Progress(s + n, solving) else Progress(total + 1, false)
  {
    if n > 0 {
      if s <= total {
        TicksFrom(s + 1, solving, total, n - 1);
      } else {
        TicksFrom(s, false, total, n - 1);
      }
    }
  }

  /**
   * Replay terminates: started at 1, the counter is `1 + n` after `n <= total`
   * ticks with `solving` still set, and the `total + 1`-th tick clears `solving`
   * with the counter at `total + 1`, where it stays.
   */
  lemma ReplayTerminates(total: nat, n: nat)
    ensures n <= total ==> Run(Progress(1, true), total, n) == Progress(1 + n, true)
    ensures n > total ==> Run(Progress(1, true), total, n) == Progress(total + 1, false)
  {
    TicksFrom(1, true, total, n);
  }

  /**
   * A counter at 0 stays at 0 under the tick rule, however many ticks arrive,
   * and `solving` keeps its value.
   */
  lemma {:induction false} IdleCounterStays(solving: bool, total: nat, n: nat)
    ensures Run(Progress(0, solving), total, n) == Progress(0, solving)
  {
    if n > 0 {
      IdleCounterStays(solving, total, n - 1);
    }
  }

  class App {
    var maze: seq<seq<int>>
    var solving: bool
    var solution: seq<Cell>
    var startPoint: Cell
    var endPoint: Cell
    var settingStart: bool
    var settingEnd: bool
    var loading: bool
    var error: Option<string>
    var visitedCells: seq<Cell>
    var animationStep: int
    ghost var pending: Request

    /**
     * The counter stays within the trace plus one, is non-zero only with a
     * non-empty path, and keeps `solving` set while a replay is under way;
     * `loading` says a request is in flight, and while one is, the counter is 0
     * and the exploration trace and the error are cleared.
     */
    ghost predicate Valid()
      reads this
    {
      && 0 <= animationStep <= |visitedCells| + |solution| + 1
      && (animationStep > 0 ==> solution != [])
      && (0 < animationStep <= |visitedCells| + |solution| ==> solving)
      && (loading <==> pending != NoRequest)
      && (pending != NoRequest ==> animationStep == 0 && visitedCells == [] && error == None)
      && (pending == Solving ==> solving)
    }

    function Scene(): Classifier.Scene
      reads this
    {
      Classifier.Scene(maze, startPoint, endPoint, visitedCells, solution)
    }

    /** `getCellClass` on the current state: while a request is in flight nothing shows as explored. */
    function GetCellClass(row: int, col: int): (r: Classifier.Category)
      reads this
      requires Valid()
      ensures loading ==> r != Classifier.Path && r != Classifier.Visited
      ensures (row, col) == startPoint ==> r == Classifier.Start
    {
      Classifier.CellClass(Scene(), animationStep, row, col)
    }

    /** The initial `useState` values. */
    constructor ()
      ensures Valid()
      ensures maze == [] && solution == [] && visitedCells == [] && animationStep == 0
      ensures startPoint == (0, 0) && endPoint == (9, 9)
      ensures !solving && !settingStart && !settingEnd && !loading && error == None
    {
      maze, solving, solution := [], false, [];
      startPoint, endPoint := (0, 0), (9, 9);
      settingStart, settingEnd := false, false;
      loading, error := false, None;
      visitedCells, animationStep := [], 0;
      pending := NoRequest;
    }

    /** The "Set Start Point" button, enabled only when nothing is loading or solving. */
    method SetStartMode()
      requires Valid() && !loading && !solving
      modifies this`settingStart
      ensures Valid() && settingStart
    {
      settingStart := true;
    }

    /** The "Set End Point" button, enabled only when nothing is loading or solving. */
    method SetEndMode()
      requires Valid() && !loading && !solving
      modifies this`settingEnd
      ensures Valid() && settingEnd
    {
      settingEnd := true;
    }

    /**
     * `handleCellClick` on a rendered cell. A wall changes nothing; otherwise a
     * pending start placement wins, then a pending end placement; with neither
     * pending nothing changes.
     */
    method HandleCellClick(row: int, col: int)
      requires Valid()
      requires 0 <= row < |maze| && 0 <= col < |maze[row]|
      modifies this`startPoint, this`endPoint, this`settingStart, this`settingEnd
      ensures Valid()
      ensures maze[row][col] == 1 ==>
        && startPoint == old(startPoint) && endPoint == old(endPoint)
        && settingStart == old(settingStart) && settingEnd == old(settingEnd)
      ensures maze[row][col] != 1 && old(settingStart) ==>
        && startPoint == (row, col) && !settingStart
        && endPoint == old(endPoint) && settingEnd == old(settingEnd)
      ensures maze[row][col] != 1 && !old(settingStart) && old(settingEnd) ==>
        && endPoint == (row, col) && !settingEnd
        && startPoint == old(startPoint) && !settingStart
      ensures maze[row][col] != 1 && !old(settingStart) && !old(settingEnd) ==>
        && startPoint == old(startPoint) && endPoint == old(endPoint)
        && !settingStart && !settingEnd
    {
      if maze[row][col] == 1 {
        return;
      }
      if settingStart {
        startPoint := (row, col);
        settingStart := false;
      } else if settingEnd {
        endPoint := (row, col);
        settingEnd := false;
      }
    }

    /**
     * The animation effect, run when its timer fires (or when the counter has
     * run past the trace): the state moves as `Advance` says, nothing else changes.
     */
    method Tick()
      requires Valid()
      modifies this`animationStep, this`solving
      ensures Valid()
      ensures Progress(animationStep, solving)
              == Advance(Progress(old(animationStep), old(solving)), |visitedCells| + |solution|)
    {
      if animationStep > 0 && animationStep <= |visitedCells| + |solution| {
        animationStep := animationStep + 1;
      } else if animationStep > |visitedCells| + |solution| {
        solving := false;
      }
    }

    /**
     * `generateMaze` up to its `fetch` (the button is disabled while loading or
     * solving): clear the error and both traces and reset the counter.
     */
    method BeginGenerate()
      requires Valid() && !loading && !solving
      modifies this
      ensures Valid() && loading && pending == Generating
      ensures error == None && solution == [] && visitedCells == [] && animationStep == 0
      ensures maze == old(maze) && startPoint == old(startPoint) && endPoint == old(endPoint)
      ensures settingStart == old(settingStart) && settingEnd == old(settingEnd) && solving == old(solving)
    {
      loading := true;
      error := None;
      solution := [];
      visitedCells := [];
      animationStep := 0;
      pending := Generating;
    }

    /**
     * `generateMaze` after its `fetch`: on success the maze is replaced and the
     * markers go to its top-left and bottom-right corners; a maze with no rows
     * fails at reading the first row's length after the maze and the start are
     * set; a non-2xx status or a rejection only sets the error.
     */
    method CompleteGenerate(response: Response<seq<seq<int>>>)
      requires Valid() && pending == Generating
      modifies this
      ensures Valid() && !loading && pending == NoRequest
      ensures solution == old(solution) && visitedCells == old(visitedCells) && animationStep == old(animationStep)
      ensures solving == old(solving) && settingStart == old(settingStart) && settingEnd == old(settingEnd)
      ensures response.Ok? && |response.body| > 0 ==>
        && maze == response.body && error == old(error)
        && startPoint == (0, 0) && endPoint == (|response.body| - 1, |response.body[0]| - 1)
      ensures response.Ok? && |response.body| == 0 ==>
        maze == [] && startPoint == (0, 0) && endPoint == old(endPoint) && error == Some(NoFirstRow)
      ensures response.NotOk? ==>
        maze == old(maze) && startPoint == old(startPoint) && endPoint == old(endPoint) && error == Some(GenerateFailed)
      ensures response.Rejected? ==>
        maze == old(maze) && startPoint == old(startPoint) && endPoint == old(endPoint) && error == Some(response.message)
    {
      match response {
        case Ok(m) =>
          maze := m;
          startPoint := (0, 0);
          if |m| == 0 {
            error := Some(NoFirstRow);
          } else {
            endPoint := (|m| - 1, |m[0]| - 1);
          }
        case NotOk =>
          error := Some(GenerateFailed);
        case Rejected(message) =>
          error := Some(message);
      }
      loading := false;
      pending := NoRequest;
    }

    /**
     * `solveMaze` up to its `fetch` (the button is disabled while loading,
     * solving, or with no maze): set `solving`, clear the error and the
     * exploration trace, reset the counter. The old path is kept.
     */
    method BeginSolve()
      requires Valid() && !loading && !solving && |maze| > 0
      modifies this
      ensures Valid() && loading && solving && pending == Solving
      ensures error == None && visitedCells == [] && animationStep == 0 && solution == old(solution)
      ensures maze == old(maze) && startPoint == old(startPoint) && endPoint == old(endPoint)
      ensures settingStart == old(settingStart) && settingEnd == old(settingEnd)
    {
      loading := true;
      error := None;
      solving := true;
      visitedCells := [];
      animationStep := 0;
      pending := Solving;
    }

    /**
     * `solveMaze` after its `fetch`. A non-empty path installs both traces and
     * starts the replay at step 1 with `solving` still set; an empty path reports
     * "No solution found!", clears `solving` and leaves the counter at 0, so no
     * replay starts; a failed request reports its own message and clears `solving`.
     */
    method CompleteSolve(response: Response<SolveBody>)
      requires Valid() && pending == Solving
      modifies this
      ensures Valid() && !loading && pending == NoRequest
      ensures maze == old(maze) && startPoint == old(startPoint) && endPoint == old(endPoint)
      ensures settingStart == old(settingStart) && settingEnd == old(settingEnd)
      ensures response.Ok? && response.body.solution != [] ==>
        && solution == response.body.solution && visitedCells == response.body.visited
        && animationStep == 1 && solving && error == None
      ensures !(response.Ok? && response.body.solution != []) ==>
        && solution == old(solution) && visitedCells == [] && animationStep == 0 && !solving
      ensures response.Ok? && response.body.solution == [] ==> error == Some(NoSolution)
      ensures response.NotOk? ==> error == Some(SolveFailed)
      ensures response.Rejected? ==> error == Some(response.message)
    {
      match response {
        case Ok(body) =>
          if body.solution == [] {
            error := Some(NoSolution);
            solving := false;
          } else {
            solution := body.solution;
            visitedCells := body.visited;
            animationStep := 1;
          }
        case NotOk =>
          error := Some(SolveFailed);
          solving := false;
        case Rejected(message) =>
          error := Some(message);
          solving := false;
      }
      loading := false;
      pending := NoRequest;
    }
  }
}
