# MazeSolver, modelled in Dafny

MazeSolver is a small web application. A Flask backend generates square mazes
by recursive backtracking and solves them by breadth-first or depth-first
search. A React frontend shows the maze, lets the user place the start and end
markers, and replays the solver's exploration trace and path one cell per
timer tick.

This project models the logic of both halves and proves properties about it.
Every maze is a grid of rows of integers, where 0 is a passage and 1 is a wall.

- `wrappers.dfy` (`Wrappers`): the `Option` type.
- `grid.dfy` (`Grid`): cells, the backend's four directions, open cells, walks and reachability.
- `search.dfy` (`Search`): `solve_maze_bfs` and `solve_maze_dfs`. These are
  loops over a queue or stack, the `visited` set, `visited_list` and the
  `parent` map, followed by the parent-chain path rebuild.
- `generation.dfy` (`Generation`): `generate_maze_recursive_backtracking`.
  The carving is a class whose `maze` field the recursive methods update.
- `routes.dfy` (`Routes`): the `/generate-maze` and `/solve-maze` routes, with
  their validation and error replies.
- `classifier.dfy` (`Classifier`): the frontend's `getCellClass`, including `findIndex`.
- `replay.dfy` (`Replay`): the frontend's state as a class. It covers
  `handleCellClick`, the marker buttons, the animation tick, and
  `generateMaze` / `solveMaze` split at their `await`.

`random.shuffle` is an oracle `order`. It maps each cell to a permutation of
the four directions, and every method that shuffles requires only that each
`order(c)` is a permutation. The generator shuffles once per carved cell, and
DFS shuffles once per popped cell. Every cell is carved or popped at most once,
so the results hold for every run of the shuffle.

A worked example of the replay: with the exploration trace (0,0), (0,1),
(1,1), (2,1), (2,2) and the path (0,0), (1,1), (2,2), cell (1,1) turns
Visited at step 3 and Path at step 7 (`frontend/src/App.jsx:141-145`), so at
step 6 it is shown as Visited. This is `Classifier.RevealMoment` for a cell
first at position 2 of a five-cell trace and first at position 1 of the path.

## Model

| member | source | states |
|---|---|---|
| Grid.IsOpen | backend/app.py:75-78 | The solvers' step test: inside `rows` x `cols`, with `cols` the width of the first row, and holding 0. A probe past the end of a shorter row counts as a wall. |
| Grid.ShuffleMembers | backend/app.py:23-24 | Every permutation of the direction list holds exactly the four directions. |
| Grid.Reverse | backend/app.py:68 | `list.reverse()`: the result has the same length, and position i holds the element at position n-1-i. |
| Grid.ClosedSetBlocks | backend/app.py:55-85 | A cell set that holds the start, misses the end, and holds every open neighbour of its members has no walk out of it to the end. |
| Grid.LastStep | backend/app.py:72-78 | A walk between two different cells enters its end from a neighbour that is either the start or an open cell. |
| Search.TraceFacts | backend/app.py:51-52 | The solvers' bookkeeping implies that `visited_list` has no duplicates and that each later entry neighbours an earlier one. |
| Search.Discover | backend/app.py:75-83 | Discovering an open, unvisited neighbour keeps the bookkeeping invariant: start first, one entry per visited cell, open cells, and parents that are neighbours discovered earlier. |
| Search.Expand | backend/app.py:72-83 | The neighbour loop pushes exactly the open, unvisited neighbours of the cell, in the frontier and the visit order alike, and records the cell as the parent of each. Earlier parents are kept, the invariant holds, and afterwards every open neighbour of the cell is visited. This holds for any order of the four directions. |
| Search.ParentsAfterExpand | backend/app.py:83 | When every parent entry is either an old one or the expanded cell, each newcomer has that cell as its parent and neighbours it, and old entries are unchanged. |
| Search.AllDirectionsTried | backend/app.py:115-118 | Trying every direction of a shuffle covers every neighbour. |
| Search.ReconstructPath | backend/app.py:60-70 | Following parents from the end back to the start and then reversing terminates. It yields a duplicate-free walk from start to end through visited cells. |
| Search.ChainIsWalk | backend/app.py:63-68 | A reversed parent chain from end to start is a walk from start to end through open cells. |
| Search.LinkedExtend | backend/app.py:63-66 | Appending the parent of a parent chain's last cell keeps every cell of the chain followed by its parent. |
| Search.ParentStep | backend/app.py:63-66 | Each cell of a parent chain but the last is open and neighbours the next one, its parent. |
| Search.ChainIsSimple | backend/app.py:63-68 | A parent chain along which the discovery order strictly falls repeats no cell. |
| Search.ExploreStep | backend/app.py:55-83 | Popping a cell other than the end and expanding it keeps the frontier discipline: every open neighbour of an expanded cell is visited. |
| Search.Progress | backend/app.py:55-83 | Each round either discovers a new in-bounds cell, which shrinks the unvisited set, or discovers nothing. This is the loop's termination. |
| Search.Exhausted | backend/app.py:85 | When the frontier empties without reaching the end, the end is unreachable and every reachable cell is in `visited_list`. |
| Search.SolveBfs | backend/app.py:44-85 | `visited_list` starts at the start, has no duplicates, and lists open cells each next to an earlier one. A non-empty path is a duplicate-free walk from start to end. The path is empty if and only if the end is unreachable, and then every reachable cell was visited. |
| Search.SolveDfs | backend/app.py:87-131 | The same guarantees as BFS, for every shuffle order at every popped cell. |
| Classifier.IsWall | frontend/src/App.jsx:138 | `maze[row]?.[col] === 1`: a cell is a wall exactly when it lies in the maze and holds 1; outside the maze it is not a wall. |
| Classifier.CellClass | frontend/src/App.jsx:135-154 | `getCellClass`: Start exactly on the start marker; Wall only on a wall; Path only for a path cell once the whole exploration trace has been shown; Visited only for an explored cell once the counter is positive. The full precedence is stated by `Classifier.ClassifierSpec`. |
| Classifier.FindIndex | frontend/src/App.jsx:141 | `findIndex` returns -1 exactly when the cell is absent. Otherwise it returns the first position holding the cell. |
| Classifier.FirstOccurrenceDecides | frontend/src/App.jsx:141-145 | A bound exceeds the first position of a cell exactly when it exceeds some position of that cell. |
| Classifier.ClassifierSpec | frontend/src/App.jsx:135-154 | Each of the six categories holds exactly under the precedence Start, End, Wall, Path, Visited, open. Path and Visited are defined by some occurrence passed by the counter. |
| Classifier.NothingShownAtStepZero | frontend/src/App.jsx:141-145 | At step 0 or below, no cell is Path or Visited. |
| Classifier.RevealIsMonotone | frontend/src/App.jsx:141-145 | A later step keeps Path as Path and Visited as Visited or Path. Start, End and Wall do not depend on the step. |
| Classifier.RevealMoment | frontend/src/App.jsx:141-145 | A free cell is Path exactly from step (length of the exploration trace) + i + 1, with i its first path position. It is Visited or Path from step j + 1, with j its first trace position. A cell in neither trace is open. |
| Classifier.FinalStepShowsEverything | frontend/src/App.jsx:114-120 | At the step where replay stops, every path cell is Path and every explored cell is Visited or Path, unless a marker or a wall covers it. |
| Replay.Advance | frontend/src/App.jsx:113-127 | One tick never lowers the counter and never sets a cleared `solving` flag. A counter at most total stays at most total+1, and a tick that leaves a positive counter where it was leaves `solving` cleared. The exact per-tick rule is stated by `Replay.TicksFrom`. |
| Replay.TicksFrom | frontend/src/App.jsx:114-120 | From any counter in 1..total+1, n ticks count up one at a time and stop at total+1 with `solving` cleared. |
| Replay.ReplayTerminates | frontend/src/App.jsx:114-120 | Started at 1, the counter is 1+n after n ≤ total ticks. After more ticks it is total+1 and `solving` is false. |
| Replay.IdleCounterStays | frontend/src/App.jsx:114-120 | A counter at 0 never moves, however many ticks arrive. |
| Replay.App.constructor | frontend/src/App.jsx:5-20 | The initial state: empty maze and traces, markers at (0,0) and (9,9), every flag clear. |
| Replay.App.GetCellClass | frontend/src/App.jsx:135-154 | While a request is in flight no cell is Path or Visited, and the start marker's cell is always Start. |
| Replay.App.SetStartMode | frontend/src/App.jsx:210-216 | The "Set Start Point" button, usable when neither loading nor solving, arms start placement. |
| Replay.App.SetEndMode | frontend/src/App.jsx:218-224 | The "Set End Point" button, usable when neither loading nor solving, arms end placement. |
| Replay.App.HandleCellClick | frontend/src/App.jsx:99-110 | A wall click changes nothing. Otherwise an armed start placement wins, then an armed end placement. With neither armed, nothing changes. |
| Replay.App.Tick | frontend/src/App.jsx:113-127 | The counter and `solving` move exactly as `Advance` says, and the state invariant is kept. |
| Replay.App.BeginGenerate | frontend/src/App.jsx:22-30 | Sets loading. Clears the error and both traces and resets the counter. Leaves the maze and markers alone. |
| Replay.App.CompleteGenerate | frontend/src/App.jsx:30-46 | On success, installs the maze and moves the markers to its corners. A maze with no rows fails after the maze and start are set. A non-2xx status or a rejection only sets the error. |
| Replay.App.BeginSolve | frontend/src/App.jsx:50-69 | Sets loading and solving. Clears the error and the exploration trace, resets the counter to 0, and keeps the old path. |
| Replay.App.CompleteSolve | frontend/src/App.jsx:71-95 | A non-empty path installs both traces and starts replay at step 1. An empty path sets "No solution found!", clears solving and leaves the counter at 0. A failure sets its message and clears solving. |
| Generation.InGrid | backend/app.py:16-17 | `is_valid`: the cell lies in the size x size grid. |
| Generation.AllWalls | backend/app.py:12 | The starting grid is size x size, and every cell is 1. |
| Generation.FewerOnes | backend/app.py:21 | A row with no new walls has no more walls, and one with a wall removed has strictly fewer. |
| Generation.FewerWalls | backend/app.py:19-33 | Opening cells never raises the wall count and strictly lowers it when a wall goes. This is the recursion's termination measure. |
| Generation.WalkSurvivesOpening | backend/app.py:21 | Opening cells keeps every walk a walk. |
| Generation.OpenOne | backend/app.py:32 | Writing 0 into a cell opens that cell and no other. It keeps the grid connected when the cell is the corner, already open, or next to an open cell. |
| Generation.OpenAnyway | backend/app.py:39 | Writing 0 into any cell keeps every other open cell reachable. |
| Generation.WriteZero | backend/app.py:32 | Writing 0 keeps a 0/1 grid and changes only that cell. It keeps the carving shape when the cell is carvable. |
| Generation.Halfway | backend/app.py:28-32 | Two moves from an even cell land on an even cell. The cell between has an odd coordinate and neighbours both ends, and it is in bounds and carvable when both ends are. |
| Generation.TargetsKept | backend/app.py:27-33 | After one more direction is tried, every target tried so far is open. |
| Generation.AllTargetsKept | backend/app.py:27-33 | Opening more cells keeps open targets open. |
| Generation.CarvedFullyCompose | backend/app.py:27-33 | Complete carving composes across two successive stretches. |
| Generation.CarvedFullyPastHalfway | backend/app.py:32-33 | Opening the halfway cell and then carving completely is complete carving. |
| Generation.CarvedNothingElse | backend/app.py:21 | Opening only the cell being entered leaves no other even cell opened without its targets. |
| Generation.MidOpened | backend/app.py:30-32 | Opening the cell halfway to a walled target leaves the target a wall, with an open neighbour to carve from. |
| Generation.CarvedThrough | backend/app.py:30-33 | Opening the halfway cell and then carving completely from the target only opens cells, opens the target, and is complete carving. |
| Generation.DirectionDone | backend/app.py:27-33 | After one more direction the grid has only widened and lost walls, every direction tried so far has its target open, and carving is complete but for the entered cell. |
| Generation.Generator.constructor | backend/app.py:12 | The generator starts from `AllWalls(size)`, which satisfies the carving invariant. |
| Generation.Generator.OpenCell | backend/app.py:30-32 | The write `maze[r][c] = 0` keeps a connected 0/1 grid of the carving shape. It changes only that cell and strictly lowers the wall count when the cell was a wall. |
| Generation.Generator.RecursiveBacktrack | backend/app.py:19-33 | `recursive_backtrack` keeps the grid valid and connected and only opens cells. It opens its own cell and all four in-grid targets. Every even cell it opened has its targets open. |
| Generation.Generator.CarveToward | backend/app.py:28-33 | One pass of the direction loop leaves the target two moves away open when it is in the grid. |
| Generation.RoomsOpen | backend/app.py:35-36 | After carving from (0,0), every cell with two even coordinates is open. |
| Generation.CornerWalledIn | backend/app.py:38-39 | In a grid of size 2 or more whose two cells next to the bottom-right corner are not open, that corner is unreachable from (0,0). |
| Generation.CarveFromCorner | backend/app.py:11-36 | Carving yields a connected 0/1 square grid of the carving shape, with every even cell open. |
| Generation.GenerateMaze | backend/app.py:11-41 | As written: a size x size 0/1 grid with both corners open and every even cell open. Every open cell but the bottom-right corner is reachable. On an odd size the grid is connected, and on an even size the corner is unreachable. |
| Generation.GenerateConnectedMaze | backend/app.py:11-41 | Corrected: the same grid with every open cell reachable from (0,0), the bottom-right corner included. |
| Generation.JoinOpen | backend/app.py:38-39 | Writing 0 into a cell that is open or next to an open cell keeps a connected 0/1 square grid connected, only widens it, and opens that cell. |
| Routes.GenerateMazeRoute | backend/app.py:133-148 | A non-integer size gives 500. The size defaults to 10, and a size outside 5..30 gives exactly the 400 "Size must be between 5 and 30". A valid size gives the generator's maze as written: size x size, 0/1, both corners open, and every open cell but the far corner reachable. On an odd size the maze is connected; on an even size, the default among them, the far corner is unreachable. |
| Routes.Dispatch | backend/app.py:163-168 | "bfs" and "dfs" run their solver, and anything else gives exactly the 400 "Invalid algorithm". A solution is empty if and only if the end is unreachable, and otherwise it is a duplicate-free walk. |
| Routes.SolveMazeRouteAsWritten | backend/app.py:150-176 | A missing maze gives 500 from `len`, and an empty one gives 500 from `maze[0]`. The 400 "No maze provided" is never sent. A non-empty maze is dispatched with the defaults bfs, (0,0) and the far corner. For "bfs" or "dfs" the reply is a solution: the visit order starts at the start and repeats nothing, and the path is empty exactly when the end is unreachable, otherwise a duplicate-free walk. |
| Routes.SolveMazeRoute | backend/app.py:150-176 | Corrected: a missing or empty maze gives exactly the 400 "No maze provided". Every other request is dispatched as written, with the same solution guarantees. |
| Routes.DefaultSessionAsWritten | backend/app.py:133-176 | `/generate-maze` with no size, then `/solve-maze` on that maze between the frontend's corner markers with the default algorithm, always gets an empty solution. |

## Left out

- Flask, CORS, `request.json` and `jsonify`, and the frontend's `fetch`,
  `response.json()` and `JSON.stringify`. A route takes its query argument or
  its body fields as values. A frontend request is split into a `Begin...`
  method and a `Complete...` method that takes the response.
- A `/solve-maze` body that is not a JSON object, and fields of the wrong
  JSON type. `SolveRequest` has only well-typed fields, each possibly missing.
- The exact text of the 500 reply for a non-integer size. Python shows the
  text's repr, which escapes quotes, backslashes and control characters and
  is cut at 200 characters. The model uses the plain quoted text.
- Routes.GenerateMazeRoute: does not parse the query text with `int()`. The
  size argument arrives already classified as absent, an integer, or not a
  number.
- Ragged mazes sent to `/solve-maze`. A probe past the end of a short row
  raises `IndexError` in the source. The solvers' `IsOpen` treats such a cell
  as a wall, so the model answers where the source replies 500.
- Search.SolveBfs: BFS path optimality is not proved. Only the "Shortest Path"
  label in the frontend claims it.
- `random.shuffle` itself. The shuffle is the oracle `order`, and the model
  proves its results for every permutation it may return.
- `setTimeout`, `clearTimeout`, the effect cleanup and `animationSpeed`. A
  timer firing is an explicit call to `Replay.App.Tick`.
- React's batching of state updates, and the closure over old state values.
  Each handler's updates apply in sequence.
- The mount-time effect that calls `generateMaze` once.
- The JSX rendering, Tailwind class names and the `onChange` handlers of the
  size, algorithm and speed inputs. The categories are the enum `Category`.
- The tuple-versus-list mix in `visited_list` and the `list(v)` conversion.
  Cells are pairs throughout.
- Generation.GenerateMaze and Generation.GenerateConnectedMaze: size 0 is
  excluded by `requires size > 0`, where the source raises `IndexError`. The
  route only calls them with sizes 5..30.
- Generation.GenerateMaze: proves connectivity, not that the carved passages
  form a tree (a "perfect" maze without cycles).
- Python's recursion limit, which a depth of at most about 225 nested calls
  on a 30x30 grid does not reach.

## Findings

| source | as written | input that shows it | evidently intended | confidence | as-written member | corrected member |
|---|---|---|---|---|---|---|
| backend/app.py:38-39 | On an even size the last row and column have odd indices, so carving never opens the cells (n-1, n-2) and (n-2, n-1). The generator then opens the corner (n-1, n-1), which no walk from (0,0) reaches. | Any even size, including the default 10, with any shuffle. The frontend places its end marker on (9, 9), so solving reports "No solution found!". | The bottom-right corner is reachable from the top-left corner. | high; proved for every shuffle, not executed | Generation.GenerateMaze (with Generation.CornerWalledIn, Routes.GenerateMazeRoute and Routes.DefaultSessionAsWritten) | Generation.GenerateConnectedMaze |
| backend/app.py:157-161 | The default for `end` is evaluated before `data.get` runs and before the maze is checked. A missing maze therefore fails in `len(None)`, and an empty one fails in `maze[0]`, both as 500. | A body `{}` or `{"maze": []}`. | A missing or empty maze gets the 400 "No maze provided". | high; not executed | Routes.SolveMazeRouteAsWritten | Routes.SolveMazeRoute |
