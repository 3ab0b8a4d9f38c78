/**
 * `CustomMazeSolver.MazeSolver`: the static entry points that check their
 * arguments and then hand the maze to an exit finder.
 */
module CustomMazeSolver {
  import opened Cells
  import opened Wrappers
  import opened Errors
  import opened Mazes
  import opened BfsExitFinder

  /**
   * The implementations of `IMazeExitFinder` there are: just the
   * breadth-first one. A null finder is `None`.
   */
  datatype ExitFinder = Bfs

  /**
   * `ThrowForInvalid` as written: after the null test, startX is compared
   * with the second dimension and startY with the first, but the cell is
   * then read as `maze[startX, startY]`, so a start that passes both checks
   * can still lie outside the array (the read throws IndexOutOfRange).
   */
  function ThrowForInvalid(maze: array2?<int>, startX: int, startY: int): (r: Outcome<Error>)
    reads maze
    ensures maze == null ==> r == Fail(ArgumentNull("maze"))
    ensures maze != null && !(0 <= startX < maze.Length1) ==> r == Fail(Argument("startX"))
    ensures maze != null && 0 <= startX < maze.Length1 && !(0 <= startY < maze.Length0) ==>
      r == Fail(Argument("startY"))
    ensures r == Fail(IndexOutOfRange) <==>
      && maze != null
      && 0 <= startX < maze.Length1 && 0 <= startY < maze.Length0
      && !Within(maze.Length0, maze.Length1, Cell(startX, startY))
    ensures
      && maze != null
      && 0 <= startX < maze.Length1 && 0 <= startY < maze.Length0
      && Within(maze.Length0, maze.Length1, Cell(startX, startY))
      && maze[startX, startY] == Wall
      ==> r == Fail(StartIsWall)
    ensures r.Pass? <==>
      && maze != null
      && 0 <= startX < maze.Length1 && 0 <= startY < maze.Length0
      && Within(maze.Length0, maze.Length1, Cell(startX, startY))
      && maze[startX, startY] != Wall
  {
    if maze == null then Fail(ArgumentNull("maze"))
    else if startX < 0 || startX >= maze.Length1 then Fail(Argument("startX"))
    else if startY < 0 || startY >= maze.Length0 then Fail(Argument("startY"))
    else if !(startX < maze.Length0 && startY < maze.Length1) then Fail(IndexOutOfRange)
    else if maze[startX, startY] == Wall then Fail(StartIsWall)
    else Pass
  }

  /** On a grid with one row and three columns the swapped test rejects the in-range start (0, 2). */
  lemma SwappedCheckRejectsValidStart(maze: array2<int>)
    requires maze.Length0 == 1 && maze.Length1 == 3 && maze[0, 2] != Wall
    ensures Within(maze.Length0, maze.Length1, Cell(0, 2))
    ensures ThrowForInvalid(maze, 0, 2) == Fail(Argument("startY"))
    ensures ValidateStart(maze, 0, 2) == Pass
  {
  }

  /** On the same grid the swapped test lets (2, 0) through to an out-of-range read. */
  lemma SwappedCheckAdmitsOutOfRange(maze: array2<int>)
    requires maze.Length0 == 1 && maze.Length1 == 3
    ensures !Within(maze.Length0, maze.Length1, Cell(2, 0))
    ensures ThrowForInvalid(maze, 2, 0) == Fail(IndexOutOfRange)
    ensures ValidateStart(maze, 2, 0) == Fail(Argument("startX"))
  {
  }

  /**
   * The argument check with each coordinate compared with the dimension it
   * indexes, as `MazeLibrary.MazeSolver`'s constructor does: it passes exactly
   * when the maze exists and the start lies in it on an open cell, and it
   * never reads outside the array.
   */
  function ValidateStart(maze: array2?<int>, startX: int, startY: int): (r: Outcome<Error>)
    reads maze
    ensures r.Pass? <==>
      maze != null && Within(maze.Length0, maze.Length1, Cell(startX, startY)) && maze[startX, startY] != Wall
    ensures maze == null ==> r == Fail(ArgumentNull("maze"))
    ensures maze != null && !(0 <= startX < maze.Length0) ==> r == Fail(Argument("startX"))
    ensures maze != null && 0 <= startX < maze.Length0 && !(0 <= startY < maze.Length1) ==>
      r == Fail(Argument("startY"))
    ensures maze != null && Within(maze.Length0, maze.Length1, Cell(startX, startY)) && maze[startX, startY] == Wall ==>
      r == Fail(StartIsWall)
  {
    if maze == null then Fail(ArgumentNull("maze"))
    else if startX < 0 || startX >= maze.Length0 then Fail(Argument("startX"))
    else if startY < 0 || startY >= maze.Length1 then Fail(Argument("startY"))
    else if maze[startX, startY] == Wall then Fail(StartIsWall)
    else Pass
  }

  /** On square grids the swap makes no difference. */
  lemma SquareGridsAgree(maze: array2?<int>, startX: int, startY: int)
    requires maze != null ==> maze.Length0 == maze.Length1
    ensures ThrowForInvalid(maze, startX, startY) == ValidateStart(maze, startX, startY)
  {
  }

  /**
   * `FindPath(mazeExitFinder, maze, startX, startY)` as written: a missing
   * finder is reported first, then `ThrowForInvalid` checks the arguments,
   * and only a start that passes it is searched from. That start lies in
   * the maze on an open cell, so the search's results hold for it.
   */
  method FindPathWith(finder: Option<ExitFinder>, maze: array2?<int>, startX: int, startY: int)
    returns (r: Result<seq<Cell>, Error>)
    ensures finder.None? ==> r == Failure(ArgumentNull("mazeExitFinder"))
    ensures finder.Some? && ThrowForInvalid(maze, startX, startY).Fail? ==>
      r == Failure(ThrowForInvalid(maze, startX, startY).error)
    ensures finder.Some? && ThrowForInvalid(maze, startX, startY).Pass? ==>
      && maze != null
      && (r.Success? <==> CanEscape(Snapshot(maze), Cell(startX, startY)))
      && (r.Success? ==> IsShortestEscape(Snapshot(maze), Cell(startX, startY), r.value))
      && (r.Failure? ==> r.error == ExitNotFound)
    ensures finder.Some? && ThrowForInvalid(maze, startX, startY).Pass? && HasExitNeighbor(Snapshot(maze), Cell(startX, startY)) ==>
      maze != null && r.Success? && |r.value| == 2 && FirstExitNeighbor(Snapshot(maze), Cell(startX, startY), r.value[1])
  {
    if finder.None? {
      return Failure(ArgumentNull("mazeExitFinder"));
    }
    var check := ThrowForInvalid(maze, startX, startY);
    if check.Fail? {
      return Failure(check.error);
    }
    match finder.value
    case Bfs =>
      r := FindExit(maze, Cell(startX, startY));
  }

  /**
   * `FindPath(maze, startX, startY)` as written: `ThrowForInvalid`, then the
   * overload above with the breadth-first finder, which repeats the check.
   */
  method FindPath(maze: array2?<int>, startX: int, startY: int) returns (r: Result<seq<Cell>, Error>)
    ensures ThrowForInvalid(maze, startX, startY).Fail? ==> r == Failure(ThrowForInvalid(maze, startX, startY).error)
    ensures ThrowForInvalid(maze, startX, startY).Pass? ==>
      && maze != null
      && (r.Success? <==> CanEscape(Snapshot(maze), Cell(startX, startY)))
      && (r.Success? ==> IsShortestEscape(Snapshot(maze), Cell(startX, startY), r.value))
      && (r.Failure? ==> r.error == ExitNotFound)
    ensures ThrowForInvalid(maze, startX, startY).Pass? && HasExitNeighbor(Snapshot(maze), Cell(startX, startY)) ==>
      maze != null && r.Success? && |r.value| == 2 && FirstExitNeighbor(Snapshot(maze), Cell(startX, startY), r.value[1])
  {
    var check := ThrowForInvalid(maze, startX, startY);
    if check.Fail? {
      return Failure(check.error);
    }
    r := FindPathWith(Some(Bfs), maze, startX, startY);
  }

  /**
   * `FindPath(mazeExitFinder, maze, startX, startY)` with the corrected
   * check: every start inside the maze on an open cell is searched from,
   * whatever the shape of the maze.
   */
  method CheckedFindPathWith(finder: Option<ExitFinder>, maze: array2?<int>, startX: int, startY: int)
    returns (r: Result<seq<Cell>, Error>)
    ensures finder.None? ==> r == Failure(ArgumentNull("mazeExitFinder"))
    ensures finder.Some? && ValidateStart(maze, startX, startY).Fail? ==>
      r == Failure(ValidateStart(maze, startX, startY).error)
    ensures finder.Some? && ValidateStart(maze, startX, startY).Pass? ==>
      && maze != null
      && (r.Success? <==> CanEscape(Snapshot(maze), Cell(startX, startY)))
      && (r.Success? ==> IsShortestEscape(Snapshot(maze), Cell(startX, startY), r.value))
      && (r.Failure? ==> r.error == ExitNotFound)
    ensures finder.Some? && ValidateStart(maze, startX, startY).Pass? && HasExitNeighbor(Snapshot(maze), Cell(startX, startY)) ==>
      maze != null && r.Success? && |r.value| == 2 && FirstExitNeighbor(Snapshot(maze), Cell(startX, startY), r.value[1])
  {
    if finder.None? {
      return Failure(ArgumentNull("mazeExitFinder"));
    }
    var check := ValidateStart(maze, startX, startY);
    if check.Fail? {
      return Failure(check.error);
    }
    match finder.value
    case Bfs =>
      r := FindExit(maze, Cell(startX, startY));
  }

  /** `FindPath(maze, startX, startY)` with the corrected check. */
  method CheckedFindPath(maze: array2?<int>, startX: int, startY: int) returns (r: Result<seq<Cell>, Error>)
    ensures ValidateStart(maze, startX, startY).Fail? ==> r == Failure(ValidateStart(maze, startX, startY).error)
    ensures ValidateStart(maze, startX, startY).Pass? ==>
      && maze != null
      && (r.Success? <==> CanEscape(Snapshot(maze), Cell(startX, startY)))
      && (r.Success? ==> IsShortestEscape(Snapshot(maze), Cell(startX, startY), r.value))
      && (r.Failure? ==> r.error == ExitNotFound)
    ensures ValidateStart(maze, startX, startY).Pass? && HasExitNeighbor(Snapshot(maze), Cell(startX, startY)) ==>
      maze != null && r.Success? && |r.value| == 2 && FirstExitNeighbor(Snapshot(maze), Cell(startX, startY), r.value[1])
  {
    var check := ValidateStart(maze, startX, startY);
    if check.Fail? {
      return Failure(check.error);
    }
    r := CheckedFindPathWith(Some(Bfs), maze, startX, startY);
  }

  /**
   * The facade passes the finder's route on unchanged: on the 3×3 maze of
   * `BfsExitFinder.UpBeforeRight`, `FindPath(maze, 1, 1)` also goes up.
   */
  method FindPathUpBeforeRight() returns (r: Result<seq<Cell>, Error>)
    ensures r == Success([Cell(1, 1), Cell(0, 1)])
  {
    var maze := new int[3, 3];
    maze[0, 0], maze[0, 1], maze[0, 2] := 0, 0, -1;
    maze[1, 0], maze[1, 1], maze[1, 2] := -1, 0, 0;
    maze[2, 0], maze[2, 1], maze[2, 2] := 0, -1, 0;
    ghost var g := Snapshot(maze);
    assert g.cells[Cell(1, 0)] == Wall && g.cells[Cell(0, 1)] == 0;
    ExitUp(g);
    assert ThrowForInvalid(maze, 1, 1) == Pass;
    r := FindPath(maze, 1, 1);
    assert Snapshot(maze) == g;
    FirstIsUp(g, r.value[1]);
    assert r.value == [Cell(1, 1), Cell(0, 1)];
  }
}
