# Maze exit finding, modelled in Dafny

The repository finds a shortest way out of a rectangular maze held in an
`int[,]`. A cell holding `-1` is a wall; any other value can be walked on.
Every cell of the outer ring is an exit. The search is a breadth-first
search from a start cell. It looks at the neighbours of each cell in the
fixed order left, up, right, down, and it stops at the first newly
discovered neighbour that lies on the border.

The search exists in two copies, and both are modelled:

- `CustomMazeSolver.BfsExitFinder.FindExit` returns the route as an array
  of cells. It rebuilds the route by following parent links back to the
  sentinel `(-1, -1)` and then reversing them. The static facade
  `CustomMazeSolver.MazeSolver.FindPath` checks its arguments first.
- `MazeLibrary.MazeSolver` is a stateful object. `PassMaze` runs the same
  search and writes the step numbers `1..n` along the route into the
  caller's array. `MazeWithPass` hands that array back. The flags
  `triedToFindPath` and `exitWasFound` enforce the call order.

Modules, one per file:

| file | module | contents |
|---|---|---|
| `wrappers.dfy` | `Wrappers`, `Errors` | `Option`, `Result` and `Outcome`; the .NET exceptions as an `Error` datatype |
| `cell.dfy` | `Cells` | the coordinate value, `==`, `!=` and `ToString` |
| `maze.dfy` | `Mazes` | a value copy of the array (`Grid`, taken by `Snapshot`), the border test, the neighbour filter, and routes, escapes and shortest escapes |
| `traversal.dfy` | `Traversal` | the search's bookkeeping as ghost state, and the lemmas that turn it into the two results |
| `bfs_exit_finder.dfy` | `BfsExitFinder` | `FindExit` and `CreatePath`, imperative, over `array2` |
| `custom_maze_solver.dfy` | `CustomMazeSolver` | the facade's argument check and both `FindPath` overloads |
| `maze_library.dfy` | `MazeLibrary` | the `MazeSolver` class with its fields, flags and in-place stamping |

The model's main results are these:

- `FindExit` succeeds exactly when some escape exists. An escape is a
  route from the start to a border cell other than the start, through
  orthogonally adjacent open cells. When it succeeds, it returns a
  shortest such route.
- `PassMaze` sets `exitWasFound` exactly when an escape exists. It then
  writes `i + 1` into the i-th cell of a shortest escape and leaves every
  other cell as it was. When no escape exists, the array is untouched.

Exceptions become `Failure`/`Fail` values that carry the exception's kind
and its argument. A C# `null` becomes `None`, or the nullable array type
`array2?` for the maze taken by `FindExit`, both argument checks, both
`FindPath` overloads and `Create`. The stateful solver's constructor and
the helpers below the entry points take an `array2`, because every
caller has already ruled out null. The queue is a `seq<Cell>`.
The `visited` and `parent` matrices are arrays that the methods update in
place. The search's sets and distances are ghost state beside them.

Where the documented behaviour and the code differ, the model follows the
code:

- A start on the border does not give the one-cell route `[start]`. Both
  copies apply the border test only to newly discovered neighbours
  (`CustomMazeSolver/BfsExitFinder.cs:53`, `MazeLibrary/MazeSolver.cs:116`).
  So such a start gets a route of two or more cells, or no route at all.
- Take the 3×3 grid `[[0,0,-1],[-1,0,0],[0,-1,0]]` with start `(1,1)`.
  The left neighbour `(1,0)` is a wall. The up neighbour `(0,1)` comes next
  in the order, and it is open and on the border. So the search picks
  `(0,1)`, not `(1,2)`. With the structural equality the model gives
  `Cell` (see "## Left out"), `FindExit` and `FindPath` return
  `[(1,1),(0,1)]`, and `MazeLibrary.MazeSolver.PassMaze` stamps 1 into
  `(1,1)` and 2 into `(0,1)`. `BfsExitFinder.UpBeforeRight` and
  `CustomMazeSolver.FindPathUpBeforeRight` state the returned route.
- `IMazeExitFinder` documents "returns null if impossible to exit". The
  only implementation throws `ArgumentException("Exit was not found.")`
  instead, and the model follows the implementation.
- `MazeLibrary.MazeSolver`'s constructor does not reject a start on a wall.
  `ChecksDifferOnlyOnWalls` states that this is the only difference from
  the facade's corrected check.

## Model

| member | source | states |
|---|---|---|
| Cells.Equals | CustomMazeSolver/Cell.cs:50-63 | `==` holds exactly when both cells are the same value, i.e. X equals X and Y equals Y; the private copy at MazeLibrary/MazeSolver.cs:297-310 is the same |
| Cells.NotEquals | CustomMazeSolver/Cell.cs:80 | `!=` is the negation of `==`, so it holds exactly when the cells differ; likewise the private copy at MazeLibrary/MazeSolver.cs:327 |
| Cells.EqualsIsEquivalence | CustomMazeSolver/Cell.cs:62 | the component-wise test is reflexive, symmetric and transitive |
| Cells.NatStringRoundTrip | CustomMazeSolver/Cell.cs:90 | reading back the decimal numeral that interpolation writes for a non-negative coordinate gives that coordinate |
| Cells.IntStringRoundTrip | CustomMazeSolver/Cell.cs:90 | the same for any coordinate, with its minus sign; the numeral contains no comma |
| Cells.IntString | CustomMazeSolver/Cell.cs:90 | a coordinate's text starts with a minus sign exactly when it is negative; every other character is a decimal digit, and there is at least one |
| Cells.ToStringInjective | CustomMazeSolver/Cell.cs:88-91 | the text "(X, Y)" determines the cell: two cells with the same text are equal; the private copy at MazeLibrary/MazeSolver.cs:335-338 prints the same way |
| Cells.ToString | CustomMazeSolver/Cell.cs:88-91 | the text opens with "(" and closes with ")"; the numeral before the ", " reads back as X and the one after it as Y |
| Cells.Parenthesized | CustomMazeSolver/Cell.cs:90 | in "(u, v)" the text u sits between the "(" and the ", ", and v between the ", " and the ")" |
| Mazes.IsExit | CustomMazeSolver/BfsExitFinder.cs:122-134 | for a cell of the grid: it is an exit exactly when one of its four neighbours lies outside the grid; the copy at MazeLibrary/MazeSolver.cs:198-210 is the same test |
| Mazes.AdjacentIsUnitStep | CustomMazeSolver/BfsExitFinder.cs:83-86 | the four neighbour cells are exactly the cells at Manhattan distance one, and adjacency is symmetric |
| Mazes.GetNeighbors | CustomMazeSolver/BfsExitFinder.cs:81-107 | yields exactly the adjacent cells that are inside the maze, not visited and not walls, in strictly increasing order left, up, right, down; the copy at MazeLibrary/MazeSolver.cs:224-250 is the same filter |
| Mazes.RankIncreases | CustomMazeSolver/BfsExitFinder.cs:88-106 | the four optional yields, in program order, hold exactly the taken cells, and their ranks increase |
| Mazes.PairwiseRankOrdered | CustomMazeSolver/BfsExitFinder.cs:88-106 | a sequence whose ranks increase between any two positions increases from each cell to the next |
| Mazes.HeadRankLeast | CustomMazeSolver/BfsExitFinder.cs:88-106 | in such a sequence the first cell comes no later in the order than any other |
| Mazes.ShortestEscapeIsSimple | CustomMazeSolver/BfsExitFinder.cs:53-59 | a shortest escape never visits a cell twice, and no cell before its last is a border cell other than the start |
| Traversal.Reverse | CustomMazeSolver/BfsExitFinder.cs:163 | `List.Reverse`: the same length, with element i taken from position length-1-i |
| Traversal.Origin | CustomMazeSolver/BfsExitFinder.cs:29-39 | after the setup, the start alone is visited, at distance 0, with the sentinel as parent and the start queued |
| Traversal.Dequeue | CustomMazeSolver/BfsExitFinder.cs:43 | the dequeued head lies no closer than the level before it, and raising the level to its distance keeps the search invariant |
| Traversal.Link | CustomMazeSolver/BfsExitFinder.cs:51 | giving a newly discovered open neighbour the cell being expanded as parent keeps the parent tree: each visited cell other than the start links to an adjacent visited cell one step closer |
| Traversal.ParentLink | CustomMazeSolver/BfsExitFinder.cs:160 | a visited cell lies in the grid; the start's parent is the sentinel; any other cell's parent is an adjacent visited cell one level closer; the sentinel is never visited |
| Traversal.Discover | CustomMazeSolver/BfsExitFinder.cs:58-59 | marking and queueing a non-border neighbour one level further out keeps the search invariant (queue distinct, ordered by distance, spanning at most two levels) |
| Traversal.ScanStart | CustomMazeSolver/BfsExitFinder.cs:44 | the `foreach` starts with distinct open unvisited neighbours, and every other neighbour has been reached |
| Traversal.ScanStep | CustomMazeSolver/BfsExitFinder.cs:51-59 | visiting the next neighbour keeps that description for the neighbours still to come |
| Traversal.ScanDone | CustomMazeSolver/BfsExitFinder.cs:44-60 | a finished `foreach` leaves every open neighbour of the head visited, at most one level further out |
| Traversal.FirstBorder | CustomMazeSolver/BfsExitFinder.cs:44-55 | while the `foreach` runs, the next neighbour in the order left, up, right, down ranks no later than any fresh open border neighbour not yet passed |
| Traversal.NoFreshBorder | CustomMazeSolver/BfsExitFinder.cs:44-60 | a `foreach` that ran to the end met no fresh open neighbour on the border |
| Traversal.FirstStep | CustomMazeSolver/BfsExitFinder.cs:41-55 | a border cell found while expanding the start alone, first in the order among the start's fresh open border neighbours, is its first exit neighbour, and the route to it has two cells |
| Traversal.NoExitNeighbor | CustomMazeSolver/BfsExitFinder.cs:41-60 | when expanding the start alone finds no border neighbour, the start has no open border neighbour at all |
| Traversal.Expand | CustomMazeSolver/BfsExitFinder.cs:41-60 | once all neighbours of the head are reached, moving the head from the queue to the expanded cells keeps the search invariant |
| Traversal.RouteStaysVisited | CustomMazeSolver/BfsExitFinder.cs:41-60 | a route from the start stays among visited cells, each no further than the steps taken, while it passes expanded cells |
| Traversal.NoShortEscape | CustomMazeSolver/BfsExitFinder.cs:41-60 | no route of at most `level` steps is an escape |
| Traversal.ExitFoundIsShortest | CustomMazeSolver/BfsExitFinder.cs:53-55 | a route of level + 2 cells to a newly discovered border cell is a shortest escape |
| Traversal.ExhaustedMeansNoEscape | CustomMazeSolver/BfsExitFinder.cs:41-63 | when the queue is empty, no escape exists |
| Traversal.TrailStep | CustomMazeSolver/BfsExitFinder.cs:157-161 | each step of the parent walk adds the current cell and moves one level closer to the start, so the walk ends |
| Traversal.TrailEnd | CustomMazeSolver/BfsExitFinder.cs:163-165 | at the sentinel, the reversed cells form a route from the start to the end cell, with cell i at distance i |
| BfsExitFinder.StartSearch | CustomMazeSolver/BfsExitFinder.cs:33-39 | fresh `visited` and `parent` matrices the size of the maze; only the start is marked, and its parent is the sentinel; `PassMaze` starts the same way (MazeLibrary/MazeSolver.cs:96-102) |
| BfsExitFinder.SetParent | CustomMazeSolver/BfsExitFinder.cs:51 | the parent matrix also holds the new cell's link |
| BfsExitFinder.MarkVisited | CustomMazeSolver/BfsExitFinder.cs:58 | the visited matrix marks the new cell as well |
| BfsExitFinder.VisitNeighbor | CustomMazeSolver/BfsExitFinder.cs:46-59 | the `continue` is never taken. A border neighbour ends the scan with the queue and the visited marks unchanged. Any other is linked, marked, queued and placed one level further out |
| BfsExitFinder.VisitNeighbors | CustomMazeSolver/BfsExitFinder.cs:44-60 | a border neighbour ends the `foreach`: it is unvisited, open and adjacent, and first in the order left, up, right, down among the head's fresh open border neighbours; the visited marks still match the visited set. Otherwise no fresh open neighbour is on the border and the head is left expanded, keeping tree and search invariants |
| BfsExitFinder.CreatePath | CustomMazeSolver/BfsExitFinder.cs:151-166 | the walk ends at the sentinel. The result starts at the start and ends at `end`, through adjacent open cells, one cell per distance level |
| BfsExitFinder.FindExit | CustomMazeSolver/BfsExitFinder.cs:27-64 | a null maze fails with a null reference and a start outside the maze on the first array access. Otherwise it succeeds exactly when an escape exists, returns a shortest escape, and fails with "Exit was not found." otherwise. When the start has an open border neighbour, the route is the two cells to the first of them in the order left, up, right, down; the maze is not written |
| BfsExitFinder.UpBeforeRight | CustomMazeSolver/BfsExitFinder.cs:88-95 | on the 3×3 maze `[[0,0,-1],[-1,0,0],[0,-1,0]]` from (1, 1), where up and right are both open border cells, the search returns `[(1,1),(0,1)]` |
| BfsExitFinder.ExitUp | CustomMazeSolver/BfsExitFinder.cs:88-95 | in that maze the start (1, 1) has an open border neighbour |
| BfsExitFinder.FirstIsUp | CustomMazeSolver/BfsExitFinder.cs:88-95 | in that maze, with the left neighbour a wall, the first open border neighbour of (1, 1) is the one above it |
| CustomMazeSolver.ThrowForInvalid | CustomMazeSolver/MazeSolver.cs:92-113 | as written: null gives `ArgumentNullException("maze")`; startX outside [0, columns) gives `ArgumentException("startX")`; then startY outside [0, rows) gives `ArgumentException("startY")`; a start that passes those swapped bounds but lies outside the array fails on the read; an in-range wall gives `ArgumentException("Start position is -1.")`; it passes exactly when the swapped bounds hold and the start is inside the maze and open |
| CustomMazeSolver.SwappedCheckRejectsValidStart | CustomMazeSolver/MazeSolver.cs:104-107 | on a 1×3 maze the in-range start (0, 2) is rejected with `ArgumentException("startY")` |
| CustomMazeSolver.SwappedCheckAdmitsOutOfRange | CustomMazeSolver/MazeSolver.cs:99-109 | on a 1×3 maze the start (2, 0) passes both bound checks and then reads outside the array |
| CustomMazeSolver.ValidateStart | CustomMazeSolver/MazeSolver.cs:92-113 | corrected: passes exactly when the maze exists and the start is inside it on an open cell; null gives `ArgumentNullException("maze")`, startX outside [0, rows) `ArgumentException("startX")`, then startY outside [0, columns) `ArgumentException("startY")`, and an in-range wall `ArgumentException("Start position is -1.")` |
| CustomMazeSolver.SquareGridsAgree | CustomMazeSolver/MazeSolver.cs:99-107 | on square mazes the written and corrected checks agree |
| CustomMazeSolver.FindPathWith | CustomMazeSolver/MazeSolver.cs:31-46 | as written: a null finder throws `ArgumentNullException("mazeExitFinder")`; then a start that `ThrowForInvalid` rejects gets its error; otherwise the finder's result is returned unchanged: a shortest escape exactly when one exists, else "Exit was not found.", and when the start has an open border neighbour, the two cells to the first of them in the order left, up, right, down |
| CustomMazeSolver.FindPath | CustomMazeSolver/MazeSolver.cs:66-71 | as written: `ThrowForInvalid`, then the overload above with the breadth-first finder, with the same results, the first-step tie-break included |
| CustomMazeSolver.CheckedFindPathWith | CustomMazeSolver/MazeSolver.cs:31-46 | the same with the corrected check `ValidateStart`: every open start inside the maze is searched from, with the same results and first-step tie-break |
| CustomMazeSolver.CheckedFindPath | CustomMazeSolver/MazeSolver.cs:66-71 | the same with the corrected check |
| CustomMazeSolver.FindPathUpBeforeRight | CustomMazeSolver/MazeSolver.cs:66-71 | on the 3×3 maze of `BfsExitFinder.UpBeforeRight`, `FindPath(maze, 1, 1)` returns the finder's `[(1,1),(0,1)]` |
| MazeLibrary.ValidateArguments | MazeLibrary/MazeSolver.cs:62-78 | passes exactly when the maze is not null and the start lies inside it; null gives `ArgumentNullException("mazeModel")`, startX outside [0, rows) `ArgumentException("startX")`, then startY outside [0, columns) `ArgumentException("startY")` |
| MazeLibrary.ChecksDifferOnlyOnWalls | MazeLibrary/MazeSolver.cs:62-78 | the constructor's check and the facade's corrected check differ only on a start that is a wall |
| MazeLibrary.MazeSolver.constructor | MazeLibrary/MazeSolver.cs:55-79 | stores the maze and `Cell(startX, startY)`, with both flags false |
| MazeLibrary.MazeSolver.Create | MazeLibrary/MazeSolver.cs:55-79 | throws exactly what the argument check throws; otherwise a new solver over that maze and start, with both flags false |
| MazeLibrary.MazeSolver.MazeWithPass | MazeLibrary/MazeSolver.cs:138-151 | "not started" before `PassMaze`; "Path was not found." after a search without exit; otherwise the solver's own array |
| MazeLibrary.MazeSolver.TraceRoute | MazeLibrary/MazeSolver.cs:171-179 | the `&&` guard stops exactly at the sentinel, because maze cells have no negative coordinate. The result is a route from the start to `end`, one cell per level |
| MazeLibrary.MazeSolver.Stamp | MazeLibrary/MazeSolver.cs:181-185 | the i-th route cell holds i + 1, and every other cell keeps its value |
| MazeLibrary.MazeSolver.MarkPathOnMazeMatrix | MazeLibrary/MazeSolver.cs:169-186 | stamps a route from the start to `end` and changes nothing else in the maze |
| MazeLibrary.MazeSolver.ExitFound | MazeLibrary/MazeSolver.cs:116-121 | sets `exitWasFound`; the stamped route is a shortest escape; when the start alone was being expanded and the border cell came first in the order among its fresh neighbours, the route is the two cells to the start's first exit neighbour |
| MazeLibrary.MazeSolver.PassMaze | MazeLibrary/MazeSolver.cs:88-127 | `triedToFindPath` is set. When an exit was already found, nothing changes. Otherwise `exitWasFound` holds exactly when an escape exists; then a shortest escape is stamped and no other cell changes, and when the start has an open border neighbour it is the two cells to the first of them in the order left, up, right, down. Without an escape the maze is untouched |

## Left out

- Cells.Equals: `Cell`'s `operator ==` tests `lhs == null`, which calls
  the same operator again and never ends. So `current != startParent` in
  `CreatePath` (CustomMazeSolver/BfsExitFinder.cs:157) overflows the
  stack, and as written `FindExit` and both `FindPath` overloads never
  return a route: they either throw or overflow. Only
  `MazeLibrary.MazeSolver`, whose walk compares the int coordinates
  (MazeLibrary/MazeSolver.cs:173), returns one. The model gives `Cell`
  structural equality, the comparison the code evidently intends.
- BfsExitFinder.FindExit: `Cell` is a C# class, but the model's `Cell`
  is a value and is never null. So `FindExit(maze, null)`, which throws
  `NullReferenceException` at `start.X`
  (CustomMazeSolver/BfsExitFinder.cs:34), has no counterpart. Nor does
  the `ArgumentNullException` documented for a null operand of `==`.
- Cells.IntString: writes the minus sign as "-". .NET takes it from the
  current culture's `NegativeSign`; cultures are not modelled.
- `IMazeExitFinder` is an interface. The model replaces it with the
  datatype `ExitFinder`, whose one value `Bfs` stands for
  `BfsExitFinder`. A null finder is `None`.
- `GetNeighbors` is a lazy `yield` iterator. It is modelled as a function
  that returns the whole sequence. Each candidate's test reads only its
  own cell, and the caller marks only the cell just yielded, so the
  results agree. The `visited` re-check in the `foreach` is shown to be
  dead.
- Integer overflow is not modelled. Coordinates are bounded by the array
  dimensions, and step numbers by the number of cells.
- MazeLibrary.MazeSolver.ExitFound: sets `exitWasFound` after the route is
  stamped, where the source sets it before. The stamping never reads the
  flag. The `break` after it stands for the inner `break`, and the
  while-guard then ends the search.
- BfsExitFinder.FindExit: of several shortest escapes, the one returned
  is fixed by the order left, up, right, down only at the first step:
  when the start has an open border neighbour, the route goes to the
  first of them. Beyond that, the contract promises some shortest
  escape. The full tie-break would need an invariant ordering the queue
  by the neighbour orders along each cell's tree route.
- MazeLibrary.MazeSolver.PassMaze: the same limit as `FindExit`; the
  tie-break is stated for the first step only.
- CustomMazeSolver.FindPathWith: returns the finder's result, so the tie-break is
  stated for the first step only, as for `FindExit`.
- CustomMazeSolver.FindPath: returns the finder's result, so the tie-break is
  stated for the first step only, as for `FindExit`.
- CustomMazeSolver.CheckedFindPathWith: returns the finder's result, so the tie-break is
  stated for the first step only, as for `FindExit`.
- CustomMazeSolver.CheckedFindPath: returns the finder's result, so the tie-break is
  stated for the first step only, as for `FindExit`.
- The loop bound of rows × cols rounds is shown as termination: each
  round expands a grid cell not expanded before. It is not stated as an
  explicit count.
- The two-dimensional `int[,]` maze is an `array2<int>`. Its element
  type's range and the .NET exceptions' messages beyond those quoted are
  not modelled.

## Findings

| source | as written | input that shows it | evidently intended | confidence | as-written member | corrected member |
|---|---|---|---|---|---|---|
| CustomMazeSolver/MazeSolver.cs:99-109 | `startX` is bounded by `GetLength(1)` and `startY` by `GetLength(0)`, but the start is read as `maze[startX, startY]` | a maze with 1 row and 3 columns: start (0, 2) is rejected with `ArgumentException("startY")`, and start (2, 0) passes both checks and then fails with `IndexOutOfRangeException` | bound `startX` by `GetLength(0)` and `startY` by `GetLength(1)`, as `MazeLibrary.MazeSolver`'s constructor does | high; not executed | CustomMazeSolver.ThrowForInvalid, with CustomMazeSolver.SwappedCheckRejectsValidStart and CustomMazeSolver.SwappedCheckAdmitsOutOfRange | CustomMazeSolver.ValidateStart, used by CustomMazeSolver.CheckedFindPathWith and CustomMazeSolver.CheckedFindPath |
