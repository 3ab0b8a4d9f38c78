/**
 * `MazeLibrary.MazeSolver`: the stateful copy of the search. It holds the
 * caller's maze array and a start cell, searches on `PassMaze`, writes the
 * step numbers 1..n of the route it found into that same array, and hands
 * the array back through `MazeWithPass` once a route was found.
 */
module MazeLibrary {
  import opened Cells
  import opened Wrappers
  import opened Errors
  import opened Mazes
  import opened Traversal
  import opened BfsExitFinder
  import CustomMazeSolver

  /**
   * The constructor's argument check: a null maze, then each coordinate
   * against the dimension it indexes. The start cell is not tested for a
   * wall.
   */
  function ValidateArguments(mazeModel: array2?<int>, startX: int, startY: int): (r: Outcome<Error>)
    ensures r.Pass? <==> mazeModel != null && Within(mazeModel.Length0, mazeModel.Length1, Cell(startX, startY))
    ensures mazeModel == null ==> r == Fail(ArgumentNull("mazeModel"))
    ensures mazeModel != null && !(0 <= startX < mazeModel.Length0) ==> r == Fail(Argument("startX"))
    ensures mazeModel != null && 0 <= startX < mazeModel.Length0 && !(0 <= startY < mazeModel.Length1) ==>
      r == Fail(Argument("startY"))
  {
    if mazeModel == null then Fail(ArgumentNull("mazeModel"))
    else if startX < 0 || startX >= mazeModel.Length0 then Fail(Argument("startX"))
    else if startY < 0 || startY >= mazeModel.Length1 then Fail(Argument("startY"))
    else Pass
  }

  /**
   * p's cells hold their 1-based positions along p, and every other cell
   * keeps the value it had before.
   */
  ghost predicate Stamped(before: Grid, after: Grid, p: seq<Cell>) {
    && after.rows == before.rows && after.cols == before.cols
    && (forall i :: 0 <= i < |p| ==> p[i] in after.cells && after.cells[p[i]] == i + 1)
    && (forall c :: before.InBounds(c) && c in before.cells && c !in p ==>
          c in after.cells && after.cells[c] == before.cells[c])
  }

  class MazeSolver {
    const maze: array2<int>
    const start: Cell

    /** Whether a search has found an exit. */
    var exitWasFound: bool

    /** Whether `PassMaze` has been called. */
    var triedToFindPath: bool

    /** The route the last successful search stamped into the maze. */
    ghost var route: seq<Cell>

    ghost predicate Valid()
      reads this
    {
      Within(maze.Length0, maze.Length1, start) && (exitWasFound ==> triedToFindPath)
    }

    /** The constructor, for arguments its check lets through; `Create` runs the check. */
    constructor(mazeModel: array2<int>, startX: int, startY: int)
      requires ValidateArguments(mazeModel, startX, startY).Pass?
      ensures Valid() && maze == mazeModel && start == Cell(startX, startY)
      ensures !exitWasFound && !triedToFindPath
    {
      maze := mazeModel;
      start := Cell(startX, startY);
      exitWasFound := false;
      triedToFindPath := false;
      route := [];
    }

    /** `new MazeSolver(mazeModel, startX, startY)`, throwing what the argument check throws. */
    static method Create(mazeModel: array2?<int>, startX: int, startY: int) returns (r: Result<MazeSolver, Error>)
      ensures r.Failure? <==> ValidateArguments(mazeModel, startX, startY).Fail?
      ensures r.Failure? ==> r.error == ValidateArguments(mazeModel, startX, startY).error
      ensures r.Success? ==>
        && fresh(r.value) && r.value.Valid()
        && r.value.maze == mazeModel && r.value.start == Cell(startX, startY)
        && !r.value.exitWasFound && !r.value.triedToFindPath
    {
      var check := ValidateArguments(mazeModel, startX, startY);
      if check.Fail? {
        return Failure(check.error);
      }
      var solver := new MazeSolver(mazeModel, startX, startY);
      return Success(solver);
    }

    /**
     * `MazeWithPass`: the maze array itself once a search has found an exit;
     * before any search, and after one that found none, it throws.
     */
    function MazeWithPass(): (r: Result<array2<int>, Error>)
      reads this
      requires Valid()
      ensures r.Success? <==> exitWasFound
      ensures r.Success? ==> r.value == maze
      ensures !triedToFindPath ==> r == Failure(NotStarted)
      ensures triedToFindPath && !exitWasFound ==> r == Failure(PathNotFound)
    {
      if !triedToFindPath then Failure(NotStarted)
      else if !exitWasFound then Failure(PathNotFound)
      else Success(maze)
    }

    /**
     * The first half of `MarkPathOnMazeMatrix`: follows parent links from
     * `end` back to the sentinel, then reverses them into the route from the
     * start. The walk stops once a coordinate equals the sentinel's, which
     * for cells of the maze, whose coordinates are never negative, is the
     * same as stopping at the sentinel.
     */
    method TraceRoute(parent: array2<Option<Cell>>, startParent: Cell, end: Cell,
                      ghost g: Grid, ghost V: set<Cell>, ghost dist: map<Cell, nat>,
                      ghost links: map<Cell, Cell>)
      returns (path: seq<Cell>)
      requires Tree(g, start, V, dist, links) && Mirrors(g, parent, V, links)
      requires startParent == Sentinel && end in V
      ensures IsRoute(g, start, path) && path[|path| - 1] == end
      ensures |path| == dist[end] + 1
      ensures forall i :: 0 <= i < |path| ==> path[i] in V && dist[path[i]] == i
    {
      var reversed: seq<Cell> := [];
      var current := end;
      while current.x != startParent.x && current.y != startParent.y
        invariant Trail(g, start, V, dist, end, reversed, current)
        decreases dist[end] + 1 - |reversed|
      {
        ParentLink(g, start, V, dist, links, current);
        TrailStep(g, start, V, dist, end, reversed, current, links[current]);
        reversed := reversed + [current];
        current := parent[current.x, current.y].value;
      }
      // A cell of the maze has no negative coordinate, so the walk ended at the sentinel.
      assert current == startParent by {
        if current != Sentinel {
          ParentLink(g, start, V, dist, links, current);
        }
      }
      path := Reverse(reversed);
      TrailEnd(g, start, V, dist, links, end, reversed);
    }

    /**
     * `MarkPathOnMazeMatrix`: traces the route to `end` and writes i + 1
     * into its i-th cell, leaving every other cell of the maze as it was.
     */
    method MarkPathOnMazeMatrix(parent: array2<Option<Cell>>, startParent: Cell, end: Cell,
                                ghost g: Grid, ghost V: set<Cell>, ghost dist: map<Cell, nat>,
                                ghost links: map<Cell, Cell>)
      returns (path: seq<Cell>)
      modifies maze
      requires g == Snapshot(maze)
      requires Tree(g, start, V, dist, links) && Mirrors(g, parent, V, links)
      requires startParent == Sentinel && end in V
      ensures IsRoute(g, start, path) && path[|path| - 1] == end && |path| == dist[end] + 1
      ensures Stamped(g, Snapshot(maze), path)
    {
      path := TraceRoute(parent, startParent, end, g, V, dist, links);
      Stamp(path, g, V, dist);
    }

    /** The `for` loop of `MarkPathOnMazeMatrix`: stamps i + 1 into the i-th cell of path. */
    method Stamp(path: seq<Cell>, ghost g: Grid, ghost V: set<Cell>, ghost dist: map<Cell, nat>)
      modifies maze
      requires g == Snapshot(maze)
      requires forall i :: 0 <= i < |path| ==> path[i] in V && path[i] in dist && dist[path[i]] == i
      requires forall c :: c in V ==> g.InBounds(c)
      ensures Stamped(g, Snapshot(maze), path)
    {
      for i := 0 to |path|
        invariant forall j :: 0 <= j < i ==> maze[path[j].x, path[j].y] == j + 1
        invariant forall c {:trigger maze[c.x, c.y]} :: g.InBounds(c) && c !in path[..i] ==>
          maze[c.x, c.y] == g.cells[c]
      {
        var element := path[i];
        assert g.InBounds(element) && element !in path[..i];
        maze[element.x, element.y] := i + 1;
        assert path[..i + 1] == path[..i] + [element];
      }
      assert path[..|path|] == path;
    }

    /**
     * The exit branch of the scan in `PassMaze`: the search expanding
     * `current` has just linked the border cell n. Sets the flag and stamps
     * the route to n, which is a shortest escape, into the maze.
     */
    method ExitFound(parent: array2<Option<Cell>>, startParent: Cell, current: Cell, n: Cell,
                     ghost g: Grid, ghost V: set<Cell>, ghost E: set<Cell>, ghost dist: map<Cell, nat>,
                     ghost links: map<Cell, Cell>, ghost level: nat, ghost pending: seq<Cell>,
                     ghost V0: set<Cell>)
      modifies this, maze
      requires g == Snapshot(maze) && startParent == Sentinel && triedToFindPath
      requires Tree(g, start, V, dist, links) && Explored(g, start, V, E, dist, level, pending)
      requires pending != [] && pending[0] == current && dist[current] == level
      requires IsExit(g.rows, g.cols, n) && n !in V && g.Open(n) && Adjacent(current, n)
      requires Mirrors(g, parent, V + {n}, links[n := current])
      requires forall m :: Adjacent(current, m) && g.Open(m) && m !in V0 && IsExit(g.rows, g.cols, m) ==>
        Rank(current, n) <= Rank(current, m)
      ensures exitWasFound && triedToFindPath
      ensures IsShortestEscape(g, start, route) && Stamped(g, Snapshot(maze), route)
      ensures current == start && V0 == {start} ==> |route| == 2 && FirstExitNeighbor(g, start, route[1])
    {
      Link(g, start, V, dist, links, level, n, current);
      ghost var dist' := dist[n := level + 1];
      var path := MarkPathOnMazeMatrix(parent, startParent, n, g, V + {n}, dist', links[n := current]);
      assert |path| == level + 2 && path[|path| - 1] == n;
      ExitFoundIsShortest(g, start, V, E, dist, level, pending, path);
      assert Stamped(g, Snapshot(maze), path);
      if current == start && V0 == {start} {
        assert level == 0;
        FirstStep(g, start, V0, n, path);
      }
      // The flag is set first in the source; the stamping does not read it.
      exitWasFound, route := true, path;
    }

    /**
     * `PassMaze`: records that a search was made; unless an exit was already
     * found, searches breadth-first from the start exactly as
     * `BfsExitFinder.FindExit` does, and on reaching a border cell sets the
     * flag and stamps a shortest escape route into the maze. A search that
     * finds nothing leaves the maze untouched.
     */
    method PassMaze()
      requires Valid()
      modifies this, maze
      ensures Valid() && triedToFindPath
      ensures old(exitWasFound) ==> exitWasFound && route == old(route) && unchanged(maze)
      ensures !old(exitWasFound) ==> (exitWasFound <==> CanEscape(old(Snapshot(maze)), start))
      ensures !old(exitWasFound) && exitWasFound ==>
        IsShortestEscape(old(Snapshot(maze)), start, route) && Stamped(old(Snapshot(maze)), Snapshot(maze), route)
      ensures !exitWasFound ==> unchanged(maze)
      ensures !old(exitWasFound) && HasExitNeighbor(old(Snapshot(maze)), start) ==>
        exitWasFound && |route| == 2 && FirstExitNeighbor(old(Snapshot(maze)), start, route[1])
    {
      ghost var g := Snapshot(maze);
      ghost var foundBefore := exitWasFound;
      triedToFindPath := true;
      var queue := [start];
      var visited, parent, startParent := StartSearch(maze.Length0, maze.Length1, start, g);
      Origin(g, start);

      ghost var V := {start};
      ghost var E: set<Cell> := {};
      ghost var dist: map<Cell, nat> := map[start := 0];
      ghost var level: nat := 0;
      ghost var links := map[start := startParent];

      while queue != [] && !exitWasFound
        invariant Valid() && triedToFindPath && exitWasFound == foundBefore
        invariant route == old(route) && unchanged(maze)
        invariant Marks(g, visited, V) && Mirrors(g, parent, V, links)
        invariant Tree(g, start, V, dist, links) && Explored(g, start, V, E, dist, level, queue)
        invariant E == {} ==> queue == [start] && V == {start}
        invariant E != {} ==> !HasExitNeighbor(g, start)
        decreases AllCells(g.rows, g.cols) - E
      {
        Dequeue(g, start, V, E, dist, level, queue);
        ghost var pending := queue;
        ghost var V0 := V;
        var current := queue[0];
        queue := queue[1..];
        level := dist[current];
        var exit;
        exit, queue, V, dist, links, pending :=
          VisitNeighbors(maze, visited, parent, current, queue, g, start, V, E, dist, links, level, pending);
        if exit.Some? {
          ExitFound(parent, startParent, current, exit.value, g, V, E, dist, links, level, pending, V0);
          // The loop guard, now false, ends the search.
          break;
        }
        if E == {} {
          NoExitNeighbor(g, start, V0);
        }
        Expand(g, start, V, E, dist, level, pending);
        E := E + {current};
      }
      if !exitWasFound {
        ExhaustedMeansNoEscape(g, start, V, E, dist, level);
      }
    }
  }

  /** The two argument checks differ only in that the stateful solver accepts a wall as start. */
  lemma ChecksDifferOnlyOnWalls(maze: array2?<int>, startX: int, startY: int)
    ensures CustomMazeSolver.ValidateStart(maze, startX, startY).Pass? <==>
      ValidateArguments(maze, startX, startY).Pass? && maze != null && maze[startX, startY] != Wall
  {
  }
}
