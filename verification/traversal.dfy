/**
 * What both breadth-first searches know about their own bookkeeping: the
 * FIFO queue, the visited set, the parent links and, as ghost state, the
 * distance of each visited cell from the start. The lemmas here turn those
 * facts into the two results the searches promise: a found route is a
 * shortest escape, and an emptied queue means there is no escape.
 */
module Traversal {
  import opened Cells
  import opened Wrappers
  import opened Mazes

  /** Neighbour n of e, if open, has been reached, at most one step further out than e. */
  ghost predicate Reached(g: Grid, V: set<Cell>, dist: map<Cell, nat>, e: Cell, n: Cell) {
    g.Open(n) ==> n in V && n in dist && e in dist && dist[n] <= dist[e] + 1
  }

  /** Every open neighbour of e has been reached: e has been dequeued and expanded. */
  ghost predicate Expanded(g: Grid, V: set<Cell>, dist: map<Cell, nat>, e: Cell) {
    && Reached(g, V, dist, e, Left(e))
    && Reached(g, V, dist, e, Up(e))
    && Reached(g, V, dist, e, Right(e))
    && Reached(g, V, dist, e, Down(e))
  }

  /**
   * The search state as sets and sequences. V holds the visited cells, E
   * those already expanded, pending those still waiting in the queue (head
   * first), and level the distance of the cell expanded last. Expanded cells
   * lie no further out than level; pending ones lie at level or level + 1, in
   * non-decreasing order.
   */
  ghost predicate Explored(g: Grid, start: Cell, V: set<Cell>, E: set<Cell>,
                           dist: map<Cell, nat>, level: nat, pending: seq<Cell>)
  {
    && start in V && V <= dist.Keys && dist[start] == 0
    && (forall c :: c in V ==> g.InBounds(c))
    && (forall c :: c in V && c != start ==> !IsExit(g.rows, g.cols, c))
    && E <= V
    && (forall c {:trigger c in V} :: c in V ==> c in E || c in pending)
    && (forall i :: 0 <= i < |pending| ==> pending[i] in V && pending[i] !in E)
    && (forall i, j :: 0 <= i < j < |pending| ==> pending[i] != pending[j])
    && (forall e {:trigger e in E} :: e in E ==> dist[e] <= level)
    && (forall e {:trigger Expanded(g, V, dist, e)} :: e in E ==> Expanded(g, V, dist, e))
    && (forall i :: 0 <= i < |pending| ==> level <= dist[pending[i]] <= level + 1)
    && (forall i, j :: 0 <= i < j < |pending| ==> dist[pending[i]] <= dist[pending[j]])
  }

  /**
   * The parent links of a search over g, as a map: the start's parent is
   * the sentinel, and every other visited cell is open and linked to an
   * adjacent visited cell one step closer to the start.
   */
  ghost predicate Tree(g: Grid, start: Cell, V: set<Cell>, dist: map<Cell, nat>, links: map<Cell, Cell>) {
    && start in V && V <= dist.Keys && V <= links.Keys && dist[start] == 0
    && (forall c :: c in V ==> g.InBounds(c))
    && links[start] == Sentinel
    && (forall c :: c in V && c != start ==> g.Open(c))
    && (forall c {:trigger links[c]} :: c in V && c != start ==>
          links[c] in V && dist[links[c]] + 1 == dist[c] && Adjacent(links[c], c))
  }

  /** The parent array holds the links of the visited cells. */
  ghost predicate Mirrors(g: Grid, parent: array2<Option<Cell>>, V: set<Cell>, links: map<Cell, Cell>)
    reads parent
  {
    && parent.Length0 == g.rows && parent.Length1 == g.cols
    && (forall c {:trigger parent[c.x, c.y]} :: c in V ==>
          c in links && g.InBounds(c) && parent[c.x, c.y] == Some(links[c]))
  }

  /** Linking a newly discovered cell n to the cell being expanded keeps the tree. */
  lemma Link(g: Grid, start: Cell, V: set<Cell>, dist: map<Cell, nat>, links: map<Cell, Cell>,
             level: nat, n: Cell, current: Cell)
    requires Tree(g, start, V, dist, links)
    requires current in V && dist[current] == level && n !in V && g.Open(n) && Adjacent(current, n)
    ensures Tree(g, start, V + {n}, dist[n := level + 1], links[n := current])
  {
  }

  /** The visited array marks exactly the cells of V. */
  ghost predicate Marks(g: Grid, visited: array2<bool>, V: set<Cell>)
    reads visited
  {
    && visited.Length0 == g.rows && visited.Length1 == g.cols
    && (forall c {:trigger visited[c.x, c.y]} :: g.InBounds(c) ==> (visited[c.x, c.y] <==> c in V))
  }

  /** `List.Reverse`. */
  function Reverse<T>(s: seq<T>): (r: seq<T>)
    ensures |r| == |s|
    ensures forall i :: 0 <= i < |s| ==> r[i] == s[|s| - 1 - i]
  {
    if s == [] then [] else Reverse(s[1..]) + [s[0]]
  }

  /**
   * Walking a route from the start, as long as the cells passed are closer
   * than level (so already expanded), each step stays among the visited
   * cells and no further out than the number of steps taken.
   */
  lemma {:induction false} RouteStaysVisited(g: Grid, start: Cell, V: set<Cell>, E: set<Cell>,
                                             dist: map<Cell, nat>, level: nat,
                                             w: seq<Cell>, i: nat)
    requires IsRoute(g, start, w)
    requires start in V && V <= dist.Keys && dist[start] == 0 && E <= V
    requires forall c {:trigger c in E} :: c in V && dist[c] < level ==> c in E
    requires forall e {:trigger Expanded(g, V, dist, e)} :: e in E ==> Expanded(g, V, dist, e)
    requires i < |w| && i <= level
    ensures w[i] in V && dist[w[i]] <= i
    decreases i
  {
    if i > 0 {
      RouteStaysVisited(g, start, V, E, dist, level, w, i - 1);
      assert w[i - 1] in E;
      assert Expanded(g, V, dist, w[i - 1]);
      assert Adjacent(w[i - 1], w[i]) && g.Open(w[i]);
    }
  }

  /** Under the same conditions no route of at most level steps is an escape. */
  lemma NoShortEscape(g: Grid, start: Cell, V: set<Cell>, E: set<Cell>,
                      dist: map<Cell, nat>, level: nat, w: seq<Cell>)
    requires IsRoute(g, start, w) && |w| - 1 <= level
    requires start in V && V <= dist.Keys && dist[start] == 0 && E <= V
    requires forall c {:trigger c in E} :: c in V && dist[c] < level ==> c in E
    requires forall e {:trigger Expanded(g, V, dist, e)} :: e in E ==> Expanded(g, V, dist, e)
    requires forall c :: c in V && c != start ==> !IsExit(g.rows, g.cols, c)
    ensures !IsEscape(g, start, w)
  {
    RouteStaysVisited(g, start, V, E, dist, level, w, |w| - 1);
  }

  /**
   * The search is expanding the head of pending, at distance level, and has
   * just discovered a border cell one step further out; a route of level + 2
   * cells to that cell is a shortest escape.
   */
  lemma ExitFoundIsShortest(g: Grid, start: Cell, V: set<Cell>, E: set<Cell>,
                            dist: map<Cell, nat>, level: nat, pending: seq<Cell>,
                            path: seq<Cell>)
    requires Explored(g, start, V, E, dist, level, pending)
    requires IsRoute(g, start, path) && |path| == level + 2
    requires IsExit(g.rows, g.cols, path[|path| - 1]) && path[|path| - 1] !in V
    ensures IsShortestEscape(g, start, path)
  {
    forall w | IsEscape(g, start, w)
      ensures |path| <= |w|
    {
      if |w| < |path| {
        NoShortEscape(g, start, V, E, dist, level, w);
      }
    }
  }

  /** Once nothing is pending, every route stays among the visited cells: there is no escape. */
  lemma ExhaustedMeansNoEscape(g: Grid, start: Cell, V: set<Cell>, E: set<Cell>,
                               dist: map<Cell, nat>, level: nat)
    requires Explored(g, start, V, E, dist, level, [])
    ensures !CanEscape(g, start)
  {
    forall w | IsRoute(g, start, w)
      ensures !IsEscape(g, start, w)
    {
      NoShortEscape(g, start, V, E, dist, |w|, w);
    }
  }

  /**
   * Following parent links back from `end`: reversed holds the cells passed
   * so far (end first), each one level closer to the start than the one
   * before, and current is the next cell to pass, or the sentinel once the
   * start has been passed.
   */
  ghost predicate Trail(g: Grid, start: Cell, V: set<Cell>, dist: map<Cell, nat>, end: Cell,
                        reversed: seq<Cell>, current: Cell) {
    && end in V && V <= dist.Keys
    && (current == Sentinel || current in V)
    && (current in V ==> |reversed| + dist[current] == dist[end])
    && (current == Sentinel ==> |reversed| == dist[end] + 1)
    && (reversed == [] ==> current == end)
    && (reversed != [] ==> reversed[0] == end)
    && (forall i :: 0 <= i < |reversed| ==> reversed[i] in V && dist[reversed[i]] == dist[end] - i)
    && (forall i :: 1 <= i < |reversed| ==> Adjacent(reversed[i], reversed[i - 1]))
    && (reversed != [] && current in V ==> Adjacent(current, reversed[|reversed| - 1]))
    && (reversed != [] && current == Sentinel ==> reversed[|reversed| - 1] == start)
  }

  /** What the tree says about a visited cell and its parent link. */
  lemma ParentLink(g: Grid, start: Cell, V: set<Cell>, dist: map<Cell, nat>, links: map<Cell, Cell>, c: Cell)
    requires Tree(g, start, V, dist, links) && c in V
    ensures g.InBounds(c) && Sentinel !in V && dist[start] == 0
    ensures c == start ==> links[c] == Sentinel
    ensures c != start ==> links[c] in V && dist[links[c]] + 1 == dist[c] && Adjacent(links[c], c)
  {
    assert Sentinel in V ==> g.InBounds(Sentinel);
  }

  /** Passing a visited cell moves the trail on to its parent p, one level closer to the start. */
  lemma TrailStep(g: Grid, start: Cell, V: set<Cell>, dist: map<Cell, nat>,
                  end: Cell, reversed: seq<Cell>, current: Cell, p: Cell)
    requires Trail(g, start, V, dist, end, reversed, current) && current in V
    requires Sentinel !in V && start in V && dist[start] == 0
    requires current == start ==> p == Sentinel
    requires current != start ==> p in V && dist[p] + 1 == dist[current] && Adjacent(p, current)
    ensures |reversed| + 1 <= dist[end] + 1
    ensures Trail(g, start, V, dist, end, reversed + [current], p)
  {
    var r := reversed + [current];
    assert forall i :: 0 <= i < |reversed| ==> r[i] == reversed[i];
  }

  /** Once the trail reaches the sentinel, the cells passed, reversed, are a route from the start to end. */
  lemma TrailEnd(g: Grid, start: Cell, V: set<Cell>, dist: map<Cell, nat>, links: map<Cell, Cell>,
                 end: Cell, reversed: seq<Cell>)
    requires Tree(g, start, V, dist, links) && Trail(g, start, V, dist, end, reversed, Sentinel)
    ensures var path := Reverse(reversed);
      && IsRoute(g, start, path) && path[|path| - 1] == end
      && |path| == dist[end] + 1
      && forall i :: 0 <= i < |path| ==> path[i] in V && dist[path[i]] == i
  {
    var path := Reverse(reversed);
    forall i | 0 <= i < |path|
      ensures path[i] in V && dist[path[i]] == i
    {
      assert path[i] == reversed[|reversed| - 1 - i];
    }
    forall i | 1 <= i < |path|
      ensures g.Open(path[i]) && Adjacent(path[i - 1], path[i])
    {
      assert path[i] == reversed[|reversed| - 1 - i] && path[i - 1] == reversed[|reversed| - i];
      assert path[i] != start;
    }
  }

  /** Before the first dequeue only the start is visited, at distance 0, and it waits in the queue. */
  lemma Origin(g: Grid, start: Cell)
    requires g.InBounds(start)
    ensures Tree(g, start, {start}, map[start := 0], map[start := Sentinel])
    ensures Explored(g, start, {start}, {}, map[start := 0], 0, [start])
  {
  }

  /** Dequeuing the head raises level to its distance. */
  lemma Dequeue(g: Grid, start: Cell, V: set<Cell>, E: set<Cell>,
                dist: map<Cell, nat>, level: nat, pending: seq<Cell>)
    requires Explored(g, start, V, E, dist, level, pending) && pending != []
    ensures dist[pending[0]] >= level
    ensures Explored(g, start, V, E, dist, dist[pending[0]], pending)
  {
  }

  /** Discovering an unvisited open non-border neighbour n of the head and appending it. */
  lemma Discover(g: Grid, start: Cell, V: set<Cell>, E: set<Cell>,
                 dist: map<Cell, nat>, level: nat, pending: seq<Cell>, n: Cell)
    requires Explored(g, start, V, E, dist, level, pending) && pending != []
    requires dist[pending[0]] == level
    requires n !in V && g.Open(n) && !IsExit(g.rows, g.cols, n)
    ensures Explored(g, start, V + {n}, E, dist[n := level + 1], level, pending + [n])
  {
    var V', dist', pending' := V + {n}, dist[n := level + 1], pending + [n];
    forall e | e in E
      ensures Expanded(g, V', dist', e)
    {
      assert Expanded(g, V, dist, e);
    }
    forall c | c in V'
      ensures c in E || c in pending'
    {
      if c != n {
        assert c in E || c in pending;
      }
    }
  }

  /** Once every neighbour of the head is reached, the head moves from pending to the expanded set. */
  lemma Expand(g: Grid, start: Cell, V: set<Cell>, E: set<Cell>,
               dist: map<Cell, nat>, level: nat, pending: seq<Cell>)
    requires Explored(g, start, V, E, dist, level, pending) && pending != []
    requires dist[pending[0]] == level
    requires Expanded(g, V, dist, pending[0])
    ensures Explored(g, start, V, E + {pending[0]}, dist, level, pending[1..])
  {
    var u := pending[0];
    forall c | c in V
      ensures c in E + {u} || c in pending[1..]
    {
      if c !in E && c != u {
        var i :| 0 <= i < |pending| && pending[i] == c;
        assert pending[1..][i - 1] == c;
      }
    }
  }

  /** Appending to a non-empty queue and dropping its head commute. */
  lemma TailAppend<T>(s: seq<T>, x: T)
    requires s != []
    ensures (s + [x])[1..] == s[1..] + [x]
  {
  }

  /**
   * The scan of the neighbours of `current`, with rest still to come: rest
   * holds distinct unvisited open neighbours, and every neighbour not in
   * rest has been reached.
   */
  ghost predicate Scanning(g: Grid, V: set<Cell>, dist: map<Cell, nat>, current: Cell, rest: seq<Cell>) {
    && current in V && current in dist
    && (forall i :: 0 <= i < |rest| ==> rest[i] !in V && Adjacent(current, rest[i]) && g.Open(rest[i]))
    && (forall i, j :: 0 <= i < j < |rest| ==> rest[i] != rest[j])
    && (Left(current) !in rest ==> Reached(g, V, dist, current, Left(current)))
    && (Up(current) !in rest ==> Reached(g, V, dist, current, Up(current)))
    && (Right(current) !in rest ==> Reached(g, V, dist, current, Right(current)))
    && (Down(current) !in rest ==> Reached(g, V, dist, current, Down(current)))
  }

  /**
   * The scan of the head of pending starts with its open unvisited
   * neighbours, in strictly increasing rank.
   */
  lemma ScanStart(g: Grid, start: Cell, V: set<Cell>, E: set<Cell>, dist: map<Cell, nat>,
                  level: nat, pending: seq<Cell>, current: Cell, neighbors: seq<Cell>)
    requires Explored(g, start, V, E, dist, level, pending)
    requires pending != [] && pending[0] == current && dist[current] == level
    requires forall n {:trigger n in neighbors} :: n in neighbors <==> Adjacent(current, n) && g.Open(n) && n !in V
    requires forall i, j :: 0 <= i < j < |neighbors| ==> Rank(current, neighbors[i]) < Rank(current, neighbors[j])
    ensures Scanning(g, V, dist, current, neighbors)
  {
    forall i | 0 <= i < |neighbors|
      ensures neighbors[i] !in V && Adjacent(current, neighbors[i]) && g.Open(neighbors[i])
    {
      assert neighbors[i] in neighbors;
    }
  }

  /** Visiting the next neighbour, rest[0], one step further out than current: it is reached. */
  lemma ScanStep(g: Grid, V: set<Cell>, dist: map<Cell, nat>, level: nat, current: Cell, rest: seq<Cell>)
    requires Scanning(g, V, dist, current, rest) && rest != [] && dist[current] == level
    ensures Scanning(g, V + {rest[0]}, dist[rest[0] := level + 1], current, rest[1..])
  {
    var n, tail := rest[0], rest[1..];
    var V', dist' := V + {n}, dist[n := level + 1];
    forall i | 0 <= i < |tail|
      ensures tail[i] !in V' && Adjacent(current, tail[i]) && g.Open(tail[i])
    {
      assert tail[i] == rest[i + 1] && rest[0] != rest[i + 1];
    }
    forall i, j | 0 <= i < j < |tail|
      ensures tail[i] != tail[j]
    {
      assert tail[i] == rest[i + 1] && tail[j] == rest[j + 1];
    }
    assert rest == [n] + tail;
    if Left(current) !in tail { ReachedKept(g, V, dist, level, current, n, Left(current)); }
    if Up(current) !in tail { ReachedKept(g, V, dist, level, current, n, Up(current)); }
    if Right(current) !in tail { ReachedKept(g, V, dist, level, current, n, Right(current)); }
    if Down(current) !in tail { ReachedKept(g, V, dist, level, current, n, Down(current)); }
  }

  /** A cell reached before n was visited, or n itself, is reached afterwards. */
  lemma ReachedKept(g: Grid, V: set<Cell>, dist: map<Cell, nat>, level: nat, current: Cell, n: Cell, x: Cell)
    requires current in V && current in dist && dist[current] == level && n !in V && g.Open(n)
    requires x != n ==> Reached(g, V, dist, current, x)
    ensures Reached(g, V + {n}, dist[n := level + 1], current, x)
  {
  }

  /** A finished scan leaves the head expanded. */
  lemma ScanDone(g: Grid, V: set<Cell>, dist: map<Cell, nat>, current: Cell)
    requires Scanning(g, V, dist, current, [])
    ensures Expanded(g, V, dist, current)
  {
  }

  /**
   * When the scan reaches rest[0], every open border neighbour of current
   * that was not visited before the scan began (V0) lies at rest[0]'s rank
   * or later: the ones before it have been queued, and queued cells are not
   * on the border.
   */
  lemma FirstBorder(g: Grid, start: Cell, V: set<Cell>, E: set<Cell>, dist: map<Cell, nat>, level: nat,
                    pending: seq<Cell>, current: Cell, rest: seq<Cell>, V0: set<Cell>)
    requires Explored(g, start, V, E, dist, level, pending) && Scanning(g, V, dist, current, rest)
    requires rest != [] && start in V0
    requires RankOrdered(current, rest)
    ensures forall m :: Adjacent(current, m) && g.Open(m) && m !in V0 && IsExit(g.rows, g.cols, m) ==>
      Rank(current, rest[0]) <= Rank(current, m)
  {
    forall m | Adjacent(current, m) && g.Open(m) && m !in V0 && IsExit(g.rows, g.cols, m)
      ensures Rank(current, rest[0]) <= Rank(current, m)
    {
      if m in rest {
        var i :| 0 <= i < |rest| && rest[i] == m;
        HeadRankLeast(current, rest, i);
      }
    }
  }

  /** Once current is expanded, none of its open neighbours outside V0 is a border cell. */
  lemma NoFreshBorder(g: Grid, start: Cell, V: set<Cell>, E: set<Cell>, dist: map<Cell, nat>, level: nat,
                      pending: seq<Cell>, current: Cell, V0: set<Cell>)
    requires Explored(g, start, V, E, dist, level, pending) && Expanded(g, V, dist, current)
    requires start in V0
    ensures forall m :: Adjacent(current, m) && g.Open(m) && m !in V0 ==> !IsExit(g.rows, g.cols, m)
  {
    forall m | Adjacent(current, m) && g.Open(m) && m !in V0
      ensures !IsExit(g.rows, g.cols, m)
    {
      assert Reached(g, V, dist, current, m);
      assert m in V && m != start;
    }
  }

  /**
   * The first expansion, of the start alone: a border cell found there, and
   * first in rank among the start's fresh open border neighbours, ends the
   * two-cell route to the first exit neighbour.
   */
  lemma FirstStep(g: Grid, start: Cell, V0: set<Cell>, n: Cell, path: seq<Cell>)
    requires V0 == {start}
    requires IsExit(g.rows, g.cols, n) && g.Open(n) && Adjacent(start, n)
    requires forall m :: Adjacent(start, m) && g.Open(m) && m !in V0 && IsExit(g.rows, g.cols, m) ==>
      Rank(start, n) <= Rank(start, m)
    requires |path| == 2 && path[1] == n
    ensures FirstExitNeighbor(g, start, path[1])
  {
    forall m | ExitNeighbor(g, start, m)
      ensures Rank(start, n) <= Rank(start, m)
    {
      assert m != start;
    }
  }

  /** No fresh open neighbour of the start is a border cell: the start has no exit neighbour. */
  lemma NoExitNeighbor(g: Grid, start: Cell, V0: set<Cell>)
    requires V0 == {start}
    requires forall m :: Adjacent(start, m) && g.Open(m) && m !in V0 ==> !IsExit(g.rows, g.cols, m)
    ensures !HasExitNeighbor(g, start)
  {
    forall m | Adjacent(start, m)
      ensures m !in V0
    {
    }
  }
}
