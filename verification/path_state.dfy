/**
 * `PathState`: a cache of each tile's neighbour list, computed once when the
 * state is built, and of one path per (strategy, start tile), recomputed
 * only when it is missing or a neighbour of the start tile has its
 * `stateChanged` flag set.
 *
 * The Java object is mutable; here each operation returns the new state.
 * The board is passed to the operations that search it, since the Java
 * state shares the board's tiles and sees their current blocked flags. The
 * `stateChanged` flags, which no code of this model sets or clears, are the
 * set `changed` of tiles whose flag is set.
 */
module PathStates {
  import opened StrategyUtils
  import opened Board
  import opened Results
  import opened Strategies

  /**
   * `computeNeighbors`: the parity table chosen by Java's `tile.i % 2`,
   * filtered by the bounds, in table order. It is the list
   * `StrategyUtils.getNeighbors` returns.
   */
  function ComputeNeighbors(t: Tile, rows: int, cols: int): (r: seq<Tile>)
    ensures r == Neighbors(t, rows, cols)
  {
    Shift(t, if JavaParity(t.i) == 0 then EvenDirs else OddDirs, rows, cols)
  }

  datatype PathState = PathState(rows: int, cols: int,
                                 neighborCache: map<Tile, seq<Tile>>,
                                 pathCache: map<Strategy, map<Tile, seq<Tile>>>,
                                 active: Strategy)

  /** The cached paths of strategy `key`; a missing inner map reads as empty. */
  function Entries(ps: PathState, key: Strategy): map<Tile, seq<Tile>>
  {
    if key in ps.pathCache then ps.pathCache[key] else map[]
  }

  /**
   * `precomputeNeighbors`: row by row, every tile of the board mapped to its
   * neighbour list. The dimensions are those of a Java array, so never
   * negative.
   */
  method PrecomputeNeighbors(rows: int, cols: int) returns (m: map<Tile, seq<Tile>>)
    requires rows >= 0 && cols >= 0
    ensures forall t :: t in m <==> InBounds(t, rows, cols)
    ensures forall t :: t in m ==> m[t] == Neighbors(t, rows, cols)
  {
    m := map[];
    var i := 0;
    while i < rows
      invariant 0 <= i <= rows
      invariant forall t :: t in m <==> 0 <= t.i < i && 0 <= t.j < cols
      invariant forall t :: t in m ==> m[t] == Neighbors(t, rows, cols)
    {
      var j := 0;
      while j < cols
        invariant 0 <= j <= cols
        invariant forall t :: t in m <==> (0 <= t.i < i && 0 <= t.j < cols) || (t.i == i && 0 <= t.j < j)
        invariant forall t :: t in m ==> m[t] == Neighbors(t, rows, cols)
      {
        var m' := m[Tile(i, j) := ComputeNeighbors(Tile(i, j), rows, cols)];
        forall t
          ensures t in m' <==> (0 <= t.i < i && 0 <= t.j < cols) || (t.i == i && 0 <= t.j < j + 1)
        {
          assert t in m' <==> t == Tile(i, j) || t in m;
        }
        m, j := m', j + 1;
      }
      i := i + 1;
    }
  }

  /**
   * The constructor: breadth-first search is the active strategy, the path
   * cache is empty, and the neighbour cache is filled only when the board's
   * first tile exists (`filled` stands for `grid[0][0] != null`).
   */
  method New(rows: int, cols: int, filled: bool) returns (ps: PathState)
    requires rows >= 1 && cols >= 1
    ensures ps.rows == rows && ps.cols == cols && ps.active == BFS && ps.pathCache == map[]
    ensures filled ==> forall t :: t in ps.neighborCache <==> InBounds(t, rows, cols)
    ensures filled ==> forall t :: t in ps.neighborCache ==> ps.neighborCache[t] == Neighbors(t, rows, cols)
    ensures !filled ==> ps.neighborCache == map[]
  {
    var m := map[];
    if filled {
      m := PrecomputeNeighbors(rows, cols);
    }
    ps := PathState(rows, cols, m, map[], BFS);
  }

  /** `setStrategy`: the new strategy becomes active and every cached path is dropped. */
  function SetStrategy(ps: PathState, s: Strategy): (r: PathState)
    ensures r.active == s && forall key :: Entries(r, key) == map[]
    ensures r.rows == ps.rows && r.cols == ps.cols && r.neighborCache == ps.neighborCache
  {
    ps.(active := s, pathCache := map[])
  }

  /** `getNeighbors`: the cached list, or an empty one for a null or unknown tile. */
  function GetNeighbors(ps: PathState, t: Option<Tile>): (r: seq<Tile>)
    ensures t.None? || t.value !in ps.neighborCache ==> r == []
  {
    match t
    case None => []
    case Some(u) => if u in ps.neighborCache then ps.neighborCache[u] else []
  }

  /** Once built over a filled board, the neighbour cache answers exactly as `StrategyUtils.getNeighbors` on the board. */
  lemma GetNeighborsOfNew(ps: PathState, t: Tile)
    requires forall u :: u in ps.neighborCache <==> InBounds(u, ps.rows, ps.cols)
    requires forall u :: u in ps.neighborCache ==> ps.neighborCache[u] == Neighbors(u, ps.rows, ps.cols)
    ensures GetNeighbors(ps, Some(t)) == if InBounds(t, ps.rows, ps.cols) then Neighbors(t, ps.rows, ps.cols) else []
  {
  }

  /** True iff some tile of `nbrs` has its change flag set: the loop of `gridChanged`, which returns at the first. */
  function AnyChanged(nbrs: seq<Tile>, changed: set<Tile>): (r: bool)
    ensures r <==> exists n :: n in nbrs && n in changed
  {
    if nbrs == [] then false
    else if nbrs[0] in changed then true
    else
      assert forall n :: n in nbrs <==> n == nbrs[0] || n in nbrs[1..];
      AnyChanged(nbrs[1..], changed)
  }

  /** `gridChanged`: some cached neighbour of `start` has its change flag set. */
  function GridChanged(ps: PathState, changed: set<Tile>, start: Tile): (r: bool)
    ensures r <==> exists n :: n in GetNeighbors(ps, Some(start)) && n in changed
  {
    AnyChanged(GetNeighbors(ps, Some(start)), changed)
  }

  /**
   * A path as `strategy` returns it: empty exactly when the cat is trapped,
   * else a duplicate-free escape route, and a shortest one for breadth-first
   * search and A*.
   */
  ghost predicate EscapePath(strategy: Strategy, g: Grid, start: Tile, path: seq<Tile>)
  {
    (path == [] <==> !CanEscape(g, start)) &&
    (path != [] ==> EscapeWalk(g, start, path) && NoDup(path)) &&
    (strategy != DFS && path != [] ==> Shortest(g, start, path))
  }

  /** `getPath`: the cached path of the active strategy for `start`, or an empty one. */
  function GetPath(ps: PathState, start: Tile): (r: seq<Tile>)
    ensures start !in Entries(ps, ps.active) ==> r == []
  {
    var entries := Entries(ps, ps.active);
    if start in entries then entries[start] else []
  }

  /** After `setStrategy`, `getPath` finds nothing for any tile until a path is computed again. */
  lemma SetStrategyForgets(ps: PathState, s: Strategy, t: Tile)
    ensures GetPath(SetStrategy(ps, s), t) == []
  {
  }

  /**
   * `updatePath`: nothing happens for a null start. Otherwise the entry for
   * the active strategy and `start` is recomputed when it is missing or a
   * neighbour of `start` has changed, and kept otherwise; no other entry,
   * the neighbour cache and the active strategy do not change.
   */
  method UpdatePath(ps: PathState, g: Grid, changed: set<Tile>, start: Option<Tile>) returns (r: PathState)
    requires start.Some? ==> g.Valid() && g.rows == ps.rows && g.cols == ps.cols && g.InBounds(start.value)
    ensures start.None? ==> r == ps
    ensures r.rows == ps.rows && r.cols == ps.cols && r.neighborCache == ps.neighborCache && r.active == ps.active
    ensures forall key :: key in r.pathCache <==> key in ps.pathCache || (start.Some? && key == ps.active)
    ensures forall key :: key != ps.active ==> Entries(r, key) == Entries(ps, key)
    ensures start.Some? ==>
              var t, before, after := start.value, Entries(ps, ps.active), Entries(r, ps.active);
              (forall u :: u in after <==> u in before || u == t) &&
              (forall u :: u in before && u != t ==> after[u] == before[u]) &&
              (t !in before || GridChanged(ps, changed, t) ==> EscapePath(ps.active, g, t, after[t])) &&
              (t in before && !GridChanged(ps, changed, t) ==> after[t] == before[t])
  {
    if start.None? {
      return ps;
    }
    var t := start.value;
    var key := ps.active;
    var cache := ps.pathCache;
    if key !in cache {
      cache := cache[key := map[]];
    }
    var entries := cache[key];
    if t !in entries || GridChanged(ps, changed, t) {
      var result := FindPath(key, g, t);
      entries := entries[t := result.path];
    }
    r := ps.(pathCache := cache[key := entries]);
  }

  /**
   * `getPath` right after `updatePath(t)`: for `t`, the path just computed
   * by the active strategy when one was due, and the cached path otherwise;
   * every other tile's answer is unchanged.
   */
  lemma UpdateThenGet(ps: PathState, g: Grid, changed: set<Tile>, t: Tile, r: PathState)
    requires r.active == ps.active
    requires forall key :: key != ps.active ==> Entries(r, key) == Entries(ps, key)
    requires forall u :: u in Entries(r, ps.active) <==> u in Entries(ps, ps.active) || u == t
    requires forall u :: u in Entries(ps, ps.active) && u != t ==> Entries(r, ps.active)[u] == Entries(ps, ps.active)[u]
    requires t !in Entries(ps, ps.active) || GridChanged(ps, changed, t) ==> EscapePath(ps.active, g, t, Entries(r, ps.active)[t])
    requires t in Entries(ps, ps.active) && !GridChanged(ps, changed, t) ==> Entries(r, ps.active)[t] == Entries(ps, ps.active)[t]
    ensures t !in Entries(ps, ps.active) || GridChanged(ps, changed, t) ==> EscapePath(ps.active, g, t, GetPath(r, t))
    ensures t in Entries(ps, ps.active) && !GridChanged(ps, changed, t) ==> GetPath(r, t) == GetPath(ps, t)
    ensures forall u :: u != t ==> GetPath(r, u) == GetPath(ps, u)
  {
  }
}
