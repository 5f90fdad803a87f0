/**
 * Breadth-first reachability and shortest distance to a set of goal rows (game/pathfinding.py).
 * Both searches read the board through Board and are proved against walks (module Walks).
 */
module Pathfinding {
  import opened Wrappers
  import opened Boards
  import opened Walks

  /** The inner loop of the reachability search: appends every fresh neighbour of cur. */
  method EnqueueNeighbours(board: Board, cur: Cell, visited: set<Cell>, q: seq<Cell>) returns (q': seq<Cell>)
    requires board.Valid()
    ensures q' == Enqueue(board.Value(), cur, visited, q, |Directions|)
  {
    q' := q;
    for i := 0 to |Directions|
      invariant q' == Enqueue(board.Value(), cur, visited, q, i)
    {
      var n := Next(cur, Directions[i]);
      if !board.Inside(n.0, n.1) {
        continue;
      }
      if board.IsBlocked(cur.0, cur.1, n.0, n.1) {
        continue;
      }
      if n !in visited {
        q' := q' + [n];
      }
    }
  }

  /** bfs_has_path */
  method HasPath(board: Board, start: Cell, goalRows: seq<int>) returns (found: bool)
    requires board.Valid()
    ensures found <==> Reachable(board.Value(), start, goalRows)
    ensures start.0 in goalRows ==> found
  {
    ghost var l := board.Value();
    ghost var universe := Universe(l, start);
    UniverseCovers(l, start);
    var q := [start];
    var visited: set<Cell> := {};
    assert WalkFrom(l, start, [start]);
    while q != []
      invariant Searching(l, start, goalRows, universe, visited, q) && |visited| <= |universe|
      decreases |universe| - |visited|, |q|
    {
      var cur := q[0];
      if cur in visited {
        SearchSkip(l, start, goalRows, universe, visited, q);
        q := q[1..];
        continue;
      }
      if cur.0 in goalRows {
        ConnectedGoal(l, start, goalRows, cur);
        return true;
      }
      SearchVisit(l, start, goalRows, universe, visited, q);
      VisitShrinks(universe, visited, cur);
      visited := visited + {cur};
      q := EnqueueNeighbours(board, cur, visited, q[1..]);
    }
    ClosedSetUnreachable(l, start, goalRows, visited);
    return false;
  }

  /** The inner loop of the distance search: appends every fresh neighbour of cur with distance d. */
  method EnqueueWithDistance(board: Board, cur: Cell, visited: set<Cell>, q: seq<(Cell, int)>, d: int)
    returns (q': seq<(Cell, int)>)
    requires board.Valid()
    ensures q' == DistEnqueue(board.Value(), cur, visited, q, |Directions|, d)
  {
    q' := q;
    for i := 0 to |Directions|
      invariant q' == DistEnqueue(board.Value(), cur, visited, q, i, d)
    {
      var n := Next(cur, Directions[i]);
      if !board.Inside(n.0, n.1) {
        continue;
      }
      if board.IsBlocked(cur.0, cur.1, n.0, n.1) {
        continue;
      }
      if n !in visited {
        q' := q' + [(n, d)];
      }
    }
  }

  /** bfs_shortest_path_length */
  method ShortestPathLength(board: Board, start: Cell, goalRows: seq<int>) returns (r: Option<int>)
    requires board.Valid()
    ensures r.None? <==> !Reachable(board.Value(), start, goalRows)
    ensures r.Some? ==> r.value >= 0 && IsDistance(board.Value(), start, goalRows, r.value)
    ensures start.0 in goalRows ==> r == Some(0)
  {
    ghost var l := board.Value();
    ghost var universe := Universe(l, start);
    UniverseCovers(l, start);
    var q: seq<(Cell, int)> := [(start, 0)];
    var visited: set<Cell> := {};
    ghost var dist: map<Cell, nat> := map[];
    ghost var level: nat := 0;
    FrontierInit(l, start, goalRows, universe);
    while q != []
      invariant Frontier(l, start, goalRows, universe, q, dist, level)
      invariant visited == dist.Keys && |visited| <= |universe|
      decreases |universe| - |visited|, |q|
    {
      var cur, d := q[0].0, q[0].1;
      if cur !in visited {
        if cur.0 in goalRows {
          DistFound(l, start, goalRows, universe, q, dist, level);
          return Some(d);
        }
        DistVisit(l, start, goalRows, universe, q, dist, level);
        VisitShrinks(universe, visited, cur);
        visited, dist := visited + {cur}, dist[cur := d];
        q := EnqueueWithDistance(board, cur, visited, q[1..], d + 1);
      } else {
        DistSkip(l, start, goalRows, universe, q, dist, level);
        q := q[1..];
      }
      level := d;
    }
    DistExhausted(l, start, goalRows, universe, dist, level);
    return None;
  }
}
