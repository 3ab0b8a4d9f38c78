/**
 * `CustomMazeSolver.BfsExitFinder`: breadth-first search from a start cell
 * to the nearest border cell, returning the route as a sequence of cells.
 * The caller's maze is only read; the visited and parent arrays are local.
 */
module BfsExitFinder {
  import opened Cells
  import opened Wrappers
  import opened Errors
  import opened Mazes
  import opened Traversal

  /**
   * `CreatePath`: follows parent links from `end` back to the sentinel, then
   * reverses the collected cells. The ghost parameters name the search the
   * parent array was built by; the result walks from its start to `end`,
   * one cell per distance level.
   */
  method CreatePath(parent: array2<Option<Cell>>, startParent: Cell, end: Cell,
                    ghost g: Grid, ghost start: Cell, ghost V: set<Cell>, ghost dist: map<Cell, nat>,
                    ghost links: map<Cell, Cell>)
    returns (path: seq<Cell>)
    requires Tree(g, start, V, dist, links) && Mirrors(g, parent, V, links)
    requires startParent == Sentinel && end in V
    ensures IsRoute(g, start, path) && path[|path| - 1] == end
    ensures |path| == dist[end] + 1
    ensures forall i :: 0 <= i < |path| ==> path[i] in V && dist[path[i]] == i
  {
    // Holds the route from end back to start.
    var reversed: seq<Cell> := [];
    var current := end;
    while current != startParent
      invariant Trail(g, start, V, dist, end, reversed, current)
      decreases dist[end] + 1 - |reversed|
    {
      ParentLink(g, start, V, dist, links, current);
      TrailStep(g, start, V, dist, end, reversed, current, links[current]);
      reversed := reversed + [current];
      current := parent[current.x, current.y].value;
    }
    path := Reverse(reversed);
    TrailEnd(g, start, V, dist, links, end, reversed);
  }

  /**
   * The start of both searches: fresh visited and parent arrays the size of
   * the maze, with only the start marked, its parent the sentinel `startParent`.
   */
  method StartSearch(rows: nat, cols: nat, start: Cell, ghost g: Grid)
    returns (visited: array2<bool>, parent: array2<Option<Cell>>, startParent: Cell)
    requires g.rows == rows && g.cols == cols && g.InBounds(start)
    ensures fresh(visited) && fresh(parent) && startParent == Sentinel
    ensures Marks(g, visited, {start}) && Mirrors(g, parent, {start}, map[start := startParent])
  {
    visited := new bool[rows, cols]((i, j) => false);
    visited[start.x, start.y] := true;
    parent := new Option<Cell>[rows, cols]((i, j) => None);
    startParent := Cell(-1, -1);
    parent[start.x, start.y] := Some(startParent);
  }

  /** `parent[n.X, n.Y] = p` for a newly discovered cell n: the array now also holds n's link. */
  method SetParent(parent: array2<Option<Cell>>, n: Cell, p: Cell,
                   ghost g: Grid, ghost V: set<Cell>, ghost links: map<Cell, Cell>)
    modifies parent
    requires Mirrors(g, parent, V, links) && g.InBounds(n) && n !in V
    ensures Mirrors(g, parent, V + {n}, links[n := p])
  {
    parent[n.x, n.y] := Some(p);
  }

  /** `visited[n.X, n.Y] = true`: the array now marks n as well. */
  method MarkVisited(visited: array2<bool>, n: Cell, ghost g: Grid, ghost V: set<Cell>)
    modifies visited
    requires Marks(g, visited, V) && g.InBounds(n)
    ensures Marks(g, visited, V + {n})
  {
    visited[n.x, n.y] := true;
  }

  /**
   * One pass of the `foreach` in `FindExit`, for the next neighbour n of
   * `current`: n gets `current` as its parent; a border cell ends the scan,
   * any other is marked visited and queued. The skip for an already visited
   * neighbour is never taken, since n came from the unvisited ones.
   */
  method VisitNeighbor(maze: array2<int>, visited: array2<bool>, parent: array2<Option<Cell>>,
                       current: Cell, n: Cell, queue: seq<Cell>,
                       ghost g: Grid, ghost start: Cell, ghost V: set<Cell>, ghost E: set<Cell>,
                       ghost dist: map<Cell, nat>, ghost links: map<Cell, Cell>, ghost level: nat,
                       ghost pending: seq<Cell>, ghost rest: seq<Cell>)
    returns (isExit: bool, queue': seq<Cell>)
    modifies visited, parent
    requires maze.Length0 == g.rows && maze.Length1 == g.cols
    requires Marks(g, visited, V) && Mirrors(g, parent, V, links)
    requires Tree(g, start, V, dist, links) && Explored(g, start, V, E, dist, level, pending)
    requires pending != [] && pending[0] == current && dist[current] == level
    requires Scanning(g, V, dist, current, rest)
    requires rest != [] && rest[0] == n && queue == pending[1..]
    ensures Mirrors(g, parent, V + {n}, links[n := current])
    ensures isExit ==> IsExit(g.rows, g.cols, n) && n !in V && g.Open(n) && Adjacent(current, n)
    ensures isExit ==> queue' == queue && Marks(g, visited, V)
    ensures !isExit ==>
      && Marks(g, visited, V + {n})
      && Tree(g, start, V + {n}, dist[n := level + 1], links[n := current])
      && Explored(g, start, V + {n}, E, dist[n := level + 1], level, pending + [n])
      && Scanning(g, V + {n}, dist[n := level + 1], current, rest[1..])
      && queue' == (pending + [n])[1..]
  {
    queue' := queue;
    assert n !in V && g.InBounds(n);
    if visited[n.x, n.y] {
      assert false;
    }
    SetParent(parent, n, current, g, V, links);
    isExit := IsExit(maze.Length0, maze.Length1, n);
    if !isExit {
      MarkVisited(visited, n, g, V);
      Link(g, start, V, dist, links, level, n, current);
      Discover(g, start, V, E, dist, level, pending, n);
      ScanStep(g, V, dist, level, current, rest);
      TailAppend(pending, n);
      queue' := queue + [n];
    }
  }

  /**
   * The `foreach` over the neighbours of `current` in `FindExit`, in the
   * order `GetNeighbors` yields them, up to the first border cell, which is
   * returned. The ghost results give the search state as it stands when the
   * scan ends (for an exit: just before the exit cell was linked).
   */
  method VisitNeighbors(maze: array2<int>, visited: array2<bool>, parent: array2<Option<Cell>>,
                        current: Cell, queue: seq<Cell>,
                        ghost g: Grid, ghost start: Cell, ghost V: set<Cell>, ghost E: set<Cell>,
                        ghost dist: map<Cell, nat>, ghost links: map<Cell, Cell>, ghost level: nat,
                        ghost pending: seq<Cell>)
    returns (exit: Option<Cell>, queue': seq<Cell>, ghost V': set<Cell>, ghost dist': map<Cell, nat>,
             ghost links': map<Cell, Cell>, ghost pending': seq<Cell>)
    modifies visited, parent
    requires g == Snapshot(maze)
    requires Marks(g, visited, V)
    requires Tree(g, start, V, dist, links) && Mirrors(g, parent, V, links)
    requires Explored(g, start, V, E, dist, level, pending)
    requires pending != [] && pending[0] == current && queue == pending[1..] && dist[current] == level
    ensures Tree(g, start, V', dist', links')
    ensures Explored(g, start, V', E, dist', level, pending')
    ensures pending' != [] && pending'[0] == current && queue' == pending'[1..]
    ensures dist'[current] == level
    ensures Marks(g, visited, V')
    ensures exit.None? ==> Mirrors(g, parent, V', links') && Expanded(g, V', dist', current)
    ensures exit.None? ==> forall m :: Adjacent(current, m) && g.Open(m) && m !in V ==> !IsExit(g.rows, g.cols, m)
    ensures exit.Some? ==>
      && var n := exit.value;
         IsExit(g.rows, g.cols, n) && n !in V' && g.Open(n) && Adjacent(current, n)
         && Mirrors(g, parent, V' + {n}, links'[n := current])
         && forall m :: Adjacent(current, m) && g.Open(m) && m !in V && IsExit(g.rows, g.cols, m) ==>
              Rank(current, n) <= Rank(current, m)
  {
    var neighbors := GetNeighbors(maze, visited, current);
    queue', V', dist', links', pending' := queue, V, dist, links, pending;
    forall m | true
      ensures m in neighbors <==> Adjacent(current, m) && g.Open(m) && m !in V
    {
      if Adjacent(current, m) && Within(g.rows, g.cols, m) {
        assert g.cells[m] == maze[m.x, m.y] && (visited[m.x, m.y] <==> m in V);
      }
    }
    ScanStart(g, start, V, E, dist, level, pending, current, neighbors);
    PairwiseRankOrdered(current, neighbors);
    var rest := neighbors;
    while rest != []
      invariant Marks(g, visited, V') && Mirrors(g, parent, V', links')
      invariant Tree(g, start, V', dist', links') && Explored(g, start, V', E, dist', level, pending')
      invariant pending' != [] && pending'[0] == current && dist'[current] == level
      invariant Scanning(g, V', dist', current, rest)
      invariant queue' == pending'[1..]
      invariant RankOrdered(current, rest)
    {
      var n := rest[0];
      var isExit;
      isExit, queue' := VisitNeighbor(maze, visited, parent, current, n, queue', g, start, V', E,
                                      dist', links', level, pending', rest);
      if isExit {
        FirstBorder(g, start, V', E, dist', level, pending', current, rest, V);
        return Some(n), queue', V', dist', links', pending';
      }
      V', dist', links', pending' := V' + {n}, dist'[n := level + 1], links'[n := current], pending' + [n];
      rest := rest[1..];
    }
    ScanDone(g, V', dist', current);
    NoFreshBorder(g, start, V', E, dist', level, pending', current, V);
    return None, queue', V', dist', links', pending';
  }

  /**
   * `FindExit`: a null maze fails on the first access to it, and a start
   * outside the maze on the first array access. Otherwise the search
   * succeeds exactly when some route leaves the start and reaches a border
   * cell other than the start, returns a shortest such route, and fails
   * with "Exit was not found." when there is none. When the start has an
   * open border neighbour, the route is the two-cell one to the first such
   * neighbour in the order left, up, right, down.
   */
  method FindExit(maze: array2?<int>, start: Cell) returns (r: Result<seq<Cell>, Error>)
    ensures maze == null ==> r == Failure(NullReference)
    ensures maze != null && !Within(maze.Length0, maze.Length1, start) ==> r == Failure(IndexOutOfRange)
    ensures maze != null && Within(maze.Length0, maze.Length1, start) ==>
      && (r.Success? <==> CanEscape(Snapshot(maze), start))
      && (r.Success? ==> IsShortestEscape(Snapshot(maze), start, r.value))
      && (r.Failure? ==> r.error == ExitNotFound)
    ensures maze != null && Within(maze.Length0, maze.Length1, start) && HasExitNeighbor(Snapshot(maze), start) ==>
      r.Success? && |r.value| == 2 && FirstExitNeighbor(Snapshot(maze), start, r.value[1])
  {
    if maze == null {
      return Failure(NullReference);
    }
    if !Within(maze.Length0, maze.Length1, start) {
      return Failure(IndexOutOfRange);
    }
    ghost var g := Snapshot(maze);
    var queue := [start];
    var visited, parent, startParent := StartSearch(maze.Length0, maze.Length1, start, g);
    Origin(g, start);

    // The search as sets: visited cells, expanded cells, their distances.
    ghost var V := {start};
    ghost var E: set<Cell> := {};
    ghost var dist: map<Cell, nat> := map[start := 0];
    ghost var level: nat := 0;
    ghost var links := map[start := startParent];

    while queue != []
      invariant Marks(g, visited, V)
      invariant Tree(g, start, V, dist, links) && Mirrors(g, parent, V, links)
      invariant Explored(g, start, V, E, dist, level, queue)
      invariant E == {} ==> queue == [start] && V == {start}
      invariant E != {} ==> !HasExitNeighbor(g, start)
      decreases AllCells(g.rows, g.cols) - E
    {
      Dequeue(g, start, V, E, dist, level, queue);
      ghost var pending := queue;
      ghost var V0 := V;
      var current := queue[0];
      queue := queue[1..];
      level := dist[current];
      var exit;
      exit, queue, V, dist, links, pending :=
        VisitNeighbors(maze, visited, parent, current, queue, g, start, V, E, dist, links, level, pending);
      if exit.Some? {
        var n := exit.value;
        Link(g, start, V, dist, links, level, n, current);
        var path := CreatePath(parent, startParent, n, g, start, V + {n}, dist[n := level + 1], links[n := current]);
        ExitFoundIsShortest(g, start, V, E, dist, level, pending, path);
        if E == {} {
          FirstStep(g, start, V0, n, path);
        }
        return Success(path);
      }
      if E == {} {
        NoExitNeighbor(g, start, V0);
      }
      Expand(g, start, V, E, dist, level, pending);
      E := E + {current};
    }
    ExhaustedMeansNoEscape(g, start, V, E, dist, level);
    return Failure(ExitNotFound);
  }

  /**
   * The tie-break on a concrete maze: in
   *     0  0 -1
   *    -1  0  0
   *     0 -1  0
   * the start (1, 1) has two open border neighbours, up (0, 1) and right
   * (1, 2). Up comes first in the order, so the route goes up.
   */
  method UpBeforeRight() returns (r: Result<seq<Cell>, Error>)
    ensures r == Success([Cell(1, 1), Cell(0, 1)])
  {
    var maze := new int[3, 3];
    maze[0, 0], maze[0, 1], maze[0, 2] := 0, 0, -1;
    maze[1, 0], maze[1, 1], maze[1, 2] := -1, 0, 0;
    maze[2, 0], maze[2, 1], maze[2, 2] := 0, -1, 0;
    ghost var g := Snapshot(maze);
    assert g.cells[Cell(1, 0)] == Wall && g.cells[Cell(0, 1)] == 0;
    ExitUp(g);
    r := FindExit(maze, Cell(1, 1));
    assert Snapshot(maze) == g;
    FirstIsUp(g, r.value[1]);
    assert r.value == [Cell(1, 1), Cell(0, 1)];
  }

  lemma ExitUp(g: Grid)
    requires g.rows == 3 && g.cols == 3
    requires Cell(0, 1) in g.cells && g.cells[Cell(0, 1)] == 0
    ensures HasExitNeighbor(g, Cell(1, 1))
  {
    assert ExitNeighbor(g, Cell(1, 1), Cell(0, 1));
  }

  lemma FirstIsUp(g: Grid, n: Cell)
    requires g.rows == 3 && g.cols == 3
    requires Cell(1, 0) in g.cells && g.cells[Cell(1, 0)] == Wall
    requires g.Open(Cell(0, 1))
    requires FirstExitNeighbor(g, Cell(1, 1), n)
    ensures n == Cell(0, 1)
  {
    assert ExitNeighbor(g, Cell(1, 1), Cell(0, 1));
    assert Rank(Cell(1, 1), n) <= 1;
  }
}
