/**
 * The grid view both solvers share: bounds, walls, the border test, the
 * ordered neighbour filter, and what it means for a sequence of cells to be
 * a route out of the maze.
 *
 * Code reads the caller's `int[,]` (an `array2<int>`); specifications talk
 * about a value copy of it (`Grid`, taken by `Snapshot`), so that they keep
 * their meaning after the stateful solver has written into the array.
 */
module Mazes {
  import opened Cells

  /** A marker value: -1 is a wall, anything else can be walked on. */
  const Wall := -1

  /** The parent recorded for the start cell; no cell of any grid equals it. */
  const Sentinel := Cell(-1, -1)

  predicate Within(rows: int, cols: int, c: Cell) {
    0 <= c.x < rows && 0 <= c.y < cols
  }

  /** A value copy of a maze: its two dimensions and the marker of every cell. */
  datatype Grid = Grid(rows: nat, cols: nat, cells: map<Cell, int>) {

    predicate InBounds(c: Cell) {
      Within(rows, cols, c)
    }

    /** In the grid and not a wall. */
    predicate Open(c: Cell) {
      InBounds(c) && c in cells && cells[c] != Wall
    }
  }

  function AllCells(rows: nat, cols: nat): (s: set<Cell>)
    ensures forall c :: c in s <==> Within(rows, cols, c)
  {
    var s := set i, j | 0 <= i < rows && 0 <= j < cols :: Cell(i, j);
    assert forall c :: Within(rows, cols, c) ==> Cell(c.x, c.y) in s;
    s
  }

  /** The grid held by `maze` in the current heap. */
  ghost function Snapshot(maze: array2<int>): (g: Grid)
    reads maze
    ensures g.rows == maze.Length0 && g.cols == maze.Length1
    ensures forall c {:trigger c in g.cells} ::
      g.InBounds(c) ==> c in g.cells && g.cells[c] == maze[c.x, c.y]
  {
    var all := AllCells(maze.Length0, maze.Length1);
    var cells := map c | c in all :: maze[c.x, c.y];
    assert forall c :: Within(maze.Length0, maze.Length1, c) ==> c in all && cells[c] == maze[c.x, c.y];
    Grid(maze.Length0, maze.Length1, cells)
  }

  // ----- neighbours, in the order the search expands them -----

  function Left(c: Cell): Cell { Cell(c.x, c.y - 1) }
  function Up(c: Cell): Cell { Cell(c.x - 1, c.y) }
  function Right(c: Cell): Cell { Cell(c.x, c.y + 1) }
  function Down(c: Cell): Cell { Cell(c.x + 1, c.y) }

  /** One orthogonal step leads from a to b. */
  predicate Adjacent(a: Cell, b: Cell) {
    b == Left(a) || b == Up(a) || b == Right(a) || b == Down(a)
  }

  function Abs(n: int): nat { if n < 0 then -n else n }

  /** Adjacent cells are exactly those at Manhattan distance one. */
  lemma AdjacentIsUnitStep(a: Cell, b: Cell)
    ensures Adjacent(a, b) <==> Abs(a.x - b.x) + Abs(a.y - b.y) == 1
    ensures Adjacent(a, b) <==> Adjacent(b, a)
  {
  }

  /** The position of neighbour n of c in the expansion order left, up, right, down. */
  function Rank(c: Cell, n: Cell): nat {
    if n == Left(c) then 0 else if n == Up(c) then 1 else if n == Right(c) then 2 else 3
  }

  /**
   * The border test of both solvers (`IsExit`): first or last row, first or
   * last column. For a cell of the grid this is the same as having a
   * neighbour outside the grid.
   */
  function IsExit(rows: int, cols: int, element: Cell): (r: bool)
    ensures Within(rows, cols, element) ==>
      (r <==> !(Within(rows, cols, Left(element)) && Within(rows, cols, Up(element)) &&
                Within(rows, cols, Right(element)) && Within(rows, cols, Down(element))))
  {
    var isExitOnTop := element.x == 0;
    var isExitOnLeftSide := element.y == 0;
    var isExitOnDownSide := element.x == rows - 1;
    var isExitOnRightSide := element.y == cols - 1;
    isExitOnTop || isExitOnLeftSide || isExitOnDownSide || isExitOnRightSide
  }

  /** Cell n can be stepped onto: inside the maze, not yet visited and not a wall. */
  predicate Free(maze: array2<int>, visited: array2<bool>, n: Cell)
    reads maze, visited
    requires visited.Length0 == maze.Length0 && visited.Length1 == maze.Length1
  {
    Within(maze.Length0, maze.Length1, n) && !visited[n.x, n.y] && maze[n.x, n.y] != Wall
  }

  /**
   * `GetNeighbors`: the neighbours of `next` that lie in the maze, are not
   * yet visited and are not walls, in the order left, up, right, down. Each
   * bound test checks only the coordinate that moved, which suffices because
   * `next` itself lies in the maze.
   */
  function GetNeighbors(maze: array2<int>, visited: array2<bool>, next: Cell): (r: seq<Cell>)
    reads maze, visited
    requires visited.Length0 == maze.Length0 && visited.Length1 == maze.Length1
    requires Within(maze.Length0, maze.Length1, next)
    ensures forall n {:trigger n in r} :: n in r <==> Adjacent(next, n) && Free(maze, visited, n)
    ensures forall i, j :: 0 <= i < j < |r| ==> Rank(next, r[i]) < Rank(next, r[j])
  {
    var left := Cell(next.x, next.y - 1);
    var right := Cell(next.x, next.y + 1);
    var up := Cell(next.x - 1, next.y);
    var down := Cell(next.x + 1, next.y);
    var takeLeft := left.y >= 0 && !visited[left.x, left.y] && maze[left.x, left.y] != Wall;
    var takeUp := up.x >= 0 && !visited[up.x, up.y] && maze[up.x, up.y] != Wall;
    var takeRight := right.y < maze.Length1 && !visited[right.x, right.y] && maze[right.x, right.y] != Wall;
    var takeDown := down.x < maze.Length0 && !visited[down.x, down.y] && maze[down.x, down.y] != Wall;
    assert takeLeft == Free(maze, visited, Left(next));
    assert takeUp == Free(maze, visited, Up(next));
    assert takeRight == Free(maze, visited, Right(next));
    assert takeDown == Free(maze, visited, Down(next));
    var r := (if takeLeft then [left] else []) + (if takeUp then [up] else []) +
             (if takeRight then [right] else []) + (if takeDown then [down] else []);
    RankIncreases(next, takeLeft, takeUp, takeRight, takeDown, r);
    r
  }

  /** The four optional pieces, left, up, right and down, concatenated, keep that order. */
  lemma RankIncreases(next: Cell, takeLeft: bool, takeUp: bool, takeRight: bool, takeDown: bool, r: seq<Cell>)
    requires r == (if takeLeft then [Left(next)] else []) + (if takeUp then [Up(next)] else []) +
                  (if takeRight then [Right(next)] else []) + (if takeDown then [Down(next)] else [])
    ensures forall n {:trigger n in r} :: n in r <==>
      (takeLeft && n == Left(next)) || (takeUp && n == Up(next)) ||
      (takeRight && n == Right(next)) || (takeDown && n == Down(next))
    ensures forall i, j :: 0 <= i < j < |r| ==> Rank(next, r[i]) < Rank(next, r[j])
  {
  }

  /** Seen from c, each cell of s comes later in the order left, up, right, down than the one before it. */
  ghost predicate RankOrdered(c: Cell, s: seq<Cell>)
    decreases |s|
  {
    |s| <= 1 || (Rank(c, s[0]) < Rank(c, s[1]) && RankOrdered(c, s[1..]))
  }

  lemma {:induction false} PairwiseRankOrdered(c: Cell, s: seq<Cell>)
    requires forall i, j :: 0 <= i < j < |s| ==> Rank(c, s[i]) < Rank(c, s[j])
    ensures RankOrdered(c, s)
    decreases |s|
  {
    if |s| > 1 {
      PairwiseRankOrdered(c, s[1..]);
    }
  }

  /** The head of an ordered sequence comes first. */
  lemma {:induction false} HeadRankLeast(c: Cell, s: seq<Cell>, i: nat)
    requires RankOrdered(c, s) && i < |s|
    ensures Rank(c, s[0]) <= Rank(c, s[i])
    decreases i
  {
    if i > 0 {
      HeadRankLeast(c, s[1..], i - 1);
    }
  }

  /** n is a neighbour of c that is an open border cell: one step from c leaves the maze. */
  ghost predicate ExitNeighbor(g: Grid, c: Cell, n: Cell) {
    Adjacent(c, n) && g.Open(n) && IsExit(g.rows, g.cols, n)
  }

  /** One of the four neighbours of c is an open border cell. */
  ghost predicate HasExitNeighbor(g: Grid, c: Cell) {
    || ExitNeighbor(g, c, Left(c)) || ExitNeighbor(g, c, Up(c))
    || ExitNeighbor(g, c, Right(c)) || ExitNeighbor(g, c, Down(c))
  }

  /** n is the first such neighbour of c in the order left, up, right, down. */
  ghost predicate FirstExitNeighbor(g: Grid, c: Cell, n: Cell) {
    && ExitNeighbor(g, c, n)
    && forall m :: ExitNeighbor(g, c, m) ==> Rank(c, n) <= Rank(c, m)
  }

  // ----- routes out of the maze -----

  /**
   * p walks from start through the grid: every step is orthogonal and every
   * cell after the first is open. The first cell is not tested for a wall,
   * as neither search tests it.
   */
  ghost predicate IsRoute(g: Grid, start: Cell, p: seq<Cell>) {
    && |p| >= 1
    && p[0] == start
    && g.InBounds(start)
    && (forall i :: 1 <= i < |p| ==> g.Open(p[i]))
    && (forall i :: 1 <= i < |p| ==> Adjacent(p[i - 1], p[i]))
  }

  /**
   * A route that ends on the border at a cell other than the start. Both
   * searches apply the border test only to newly discovered neighbours, and
   * the start is never rediscovered, so these are the routes they look for.
   */
  ghost predicate IsEscape(g: Grid, start: Cell, p: seq<Cell>) {
    && IsRoute(g, start, p)
    && |p| >= 2
    && IsExit(g.rows, g.cols, p[|p| - 1])
    && p[|p| - 1] != start
  }

  ghost predicate CanEscape(g: Grid, start: Cell) {
    exists p :: IsEscape(g, start, p)
  }

  ghost predicate IsShortestEscape(g: Grid, start: Cell, p: seq<Cell>) {
    && IsEscape(g, start, p)
    && forall w :: IsEscape(g, start, w) ==> |p| <= |w|
  }

  /** Cutting out the loop between two visits of the same cell leaves a route. */
  lemma Splice(g: Grid, start: Cell, p: seq<Cell>, i: nat, j: nat)
    requires IsRoute(g, start, p)
    requires i < j < |p| && p[i] == p[j]
    ensures IsRoute(g, start, p[..i] + p[j..])
    ensures |p[..i] + p[j..]| == |p| - (j - i)
    ensures (p[..i] + p[j..])[|p| - (j - i) - 1] == p[|p| - 1]
  {
    var q := p[..i] + p[j..];
    assert q[0] == start by {
      if i == 0 { assert q[0] == p[j] == p[0]; }
    }
    forall k | 1 <= k < |q|
      ensures g.Open(q[k]) && Adjacent(q[k - 1], q[k])
    {
      if k < i {
        assert q[k] == p[k] && q[k - 1] == p[k - 1];
      } else if k == i {
        assert q[k] == p[j] && q[k - 1] == p[i - 1] && p[j] == p[i];
      } else {
        assert q[k] == p[k + j - i] && q[k - 1] == p[k - 1 + j - i];
      }
    }
  }

  /**
   * A shortest escape route never visits a cell twice, and none of its cells
   * before the last is a border cell other than the start.
   */
  lemma ShortestEscapeIsSimple(g: Grid, start: Cell, p: seq<Cell>)
    requires IsShortestEscape(g, start, p)
    ensures forall i, j :: 0 <= i < j < |p| ==> p[i] != p[j]
    ensures forall i :: 0 < i < |p| - 1 ==> !IsExit(g.rows, g.cols, p[i])
  {
    var n := |p|;
    forall i, j | 0 <= i < j < n
      ensures p[i] != p[j]
    {
      if p[i] == p[j] {
        Splice(g, start, p, i, j);
      }
    }
    forall i | 0 < i < n - 1
      ensures !IsExit(g.rows, g.cols, p[i])
    {
      if IsExit(g.rows, g.cols, p[i]) {
        var q := p[..i + 1];
        assert p[i] != p[0];
        assert IsEscape(g, start, q);
      }
    }
  }
}
