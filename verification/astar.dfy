/**
 * `AStarStrategy.findPath`: best-first search over an open set ordered by
 * `f = g + h`, where `g` is the number of steps from the start and `h` the
 * number of rows or columns between a tile and the nearest edge of the
 * board. A tile's best known cost only ever drops; an entry polled at a cost
 * above its tile's best cost is stale and skipped; the search stops at the
 * first non-stale border tile it polls.
 *
 * The open set is a sequence; `MinIndex` returns some entry of least
 * priority, and nothing below depends on which one, so the results hold for
 * whatever entry the Java heap returns on a tie.
 */
module AStarStrategy {
  import opened StrategyUtils
  import opened Board
  import opened Results

  function Min(a: int, b: int): int
  {
    if a <= b then a else b
  }

  /**
   * `heuristic`: the number of rows or columns between `t` and the nearest
   * edge. On the board it is never negative and it is zero exactly on the
   * border.
   */
  function Heuristic(t: Tile, rows: int, cols: int): (h: int)
    ensures InBounds(t, rows, cols) ==> 0 <= h && (h == 0 <==> IsAtBorder(t, rows, cols))
  {
    Min(Min(t.i, rows - 1 - t.i), Min(t.j, cols - 1 - t.j))
  }

  /** A hex step moves at most one row and one column. */
  lemma AdjacentClose(a: Tile, b: Tile, rows: int, cols: int)
    requires Adjacent(a, b, rows, cols)
    ensures -1 <= b.i - a.i <= 1 && -1 <= b.j - a.j <= 1
  {
    var d := Offset(b.i - a.i, b.j - a.j);
    assert d in Directions(a.i);
    if a.i % 2 == 0 {
      assert d in EvenDirs;
    } else {
      assert d in OddDirs;
    }
  }

  /** The heuristic changes by at most one between hex neighbours: it is consistent. */
  lemma HeuristicStep(a: Tile, b: Tile, rows: int, cols: int)
    requires Adjacent(a, b, rows, cols)
    ensures Heuristic(a, rows, cols) <= Heuristic(b, rows, cols) + 1
    ensures Heuristic(b, rows, cols) <= Heuristic(a, rows, cols) + 1
  {
    AdjacentClose(a, b, rows, cols);
  }

  /**
   * Along a walk, the heuristic of a tile is at most the heuristic of the
   * walk's last tile plus the number of steps left.
   */
  lemma {:induction false} HeuristicAlongWalk(g: Grid, start: Tile, p: seq<Tile>, k: nat)
    requires IsWalk(g, start, p) && k < |p|
    ensures Heuristic(p[k], g.rows, g.cols) <= Heuristic(p[|p| - 1], g.rows, g.cols) + (|p| - 1 - k)
    decreases |p| - k
  {
    if k < |p| - 1 {
      HeuristicStep(p[k], p[k + 1], g.rows, g.cols);
      HeuristicAlongWalk(g, start, p, k + 1);
    }
  }

  /** The heuristic is admissible: it never exceeds the steps of an escape route. */
  lemma HeuristicAdmissible(g: Grid, start: Tile, p: seq<Tile>)
    requires EscapeWalk(g, start, p)
    ensures Heuristic(start, g.rows, g.cols) <= |p| - 1
  {
    HeuristicAlongWalk(g, start, p, 0);
    assert g.InBounds(p[|p| - 1]);
  }

  /** An entry of the open set: a tile, its cost `g` from the start, and its priority `f`. */
  datatype Node = Node(tile: Tile, g: nat, f: int)

  /**
   * The `Node` constructor, which sets the priority to the cost plus the
   * heuristic. On the board the priority is never below the cost, and equals
   * it exactly on border tiles.
   */
  function MakeNode(t: Tile, g: nat, rows: int, cols: int): (n: Node)
    ensures n.tile == t && n.g == g
    ensures InBounds(t, rows, cols) ==> n.g <= n.f && (n.f == n.g <==> IsAtBorder(t, rows, cols))
  {
    Node(t, g, g + Heuristic(t, rows, cols))
  }

  /**
   * An entry for the `k`-th tile of an escape route, at a cost of at most
   * `k`, has a priority of at most the route's number of steps.
   */
  lemma RoutePriority(g: Grid, start: Tile, p: seq<Tile>, k: nat, c: nat)
    requires EscapeWalk(g, start, p) && k < |p| && c <= k
    ensures MakeNode(p[k], c, g.rows, g.cols).f <= |p| - 1
  {
    HeuristicAlongWalk(g, start, p, k);
    assert g.InBounds(p[|p| - 1]);
  }

  /**
   * The search state: the open set, `bestCost`, the parent map and the
   * visited order.
   */
  datatype State = State(open: seq<Node>, cost: map<Tile, nat>, parent: map<Tile, Tile>, order: seq<Tile>)

  /** `c < bestCost.getOrDefault(t, Integer.MAX_VALUE)`: a missing entry counts as infinite. */
  predicate Improves(cost: map<Tile, nat>, t: Tile, c: nat)
  {
    t !in cost || c < cost[t]
  }

  /** `t` is an unblocked tile of `nbrs` whose best cost strictly improves to `c`. */
  predicate Lowered(g: Grid, nbrs: seq<Tile>, cost: map<Tile, nat>, c: nat, t: Tile)
  {
    t in nbrs && !g.IsBlocked(t) && Improves(cost, t, c)
  }

  /**
   * What the neighbour loop of `cur` does with the cost `c` of a step from
   * `cur`: exactly the unblocked neighbours whose best cost strictly
   * improves get the cost `c`, `cur` as their parent and a new open entry,
   * and nothing else changes; in particular no best cost ever rises.
   */
  ghost predicate Relaxes(g: Grid, cur: Tile, c: nat, nbrs: seq<Tile>, s: State, r: State)
  {
    r.order == s.order && LowersCosts(g, c, nbrs, s, r) && SetsParents(g, cur, c, nbrs, s, r) && PushesEntries(g, c, nbrs, s, r)
  }

  ghost predicate LowersCosts(g: Grid, c: nat, nbrs: seq<Tile>, s: State, r: State)
  {
    (forall t :: t in r.cost <==> t in s.cost || Lowered(g, nbrs, s.cost, c, t)) &&
    (forall t :: t in r.cost ==> r.cost[t] == if Lowered(g, nbrs, s.cost, c, t) then c else s.cost[t]) &&
    (forall t :: t in s.cost ==> r.cost[t] <= s.cost[t])
  }

  ghost predicate SetsParents(g: Grid, cur: Tile, c: nat, nbrs: seq<Tile>, s: State, r: State)
  {
    (forall t :: t in r.parent <==> t in s.parent || Lowered(g, nbrs, s.cost, c, t)) &&
    (forall t :: t in r.parent ==> r.parent[t] == if Lowered(g, nbrs, s.cost, c, t) then cur else s.parent[t])
  }

  ghost predicate PushesEntries(g: Grid, c: nat, nbrs: seq<Tile>, s: State, r: State)
  {
    |s.open| <= |r.open| && r.open[..|s.open|] == s.open &&
    (forall k :: |s.open| <= k < |r.open| ==>
       Lowered(g, nbrs, s.cost, c, r.open[k].tile) && r.open[k] == MakeNode(r.open[k].tile, c, g.rows, g.cols)) &&
    (forall t :: Lowered(g, nbrs, s.cost, c, t) ==> MakeNode(t, c, g.rows, g.cols) in r.open)
  }

  /** One iteration of the neighbour loop. */
  function RelaxOne(g: Grid, cur: Tile, c: nat, n: Tile, s: State): State
  {
    if !g.IsBlocked(n) && Improves(s.cost, n, c)
    then State(s.open + [MakeNode(n, c, g.rows, g.cols)], s.cost[n := c], s.parent[n := cur], s.order)
    else s
  }

  /** The neighbour loop: `RelaxOne` applied to each neighbour in table order. */
  function Relax(g: Grid, cur: Tile, c: nat, nbrs: seq<Tile>, s: State): (r: State)
    ensures Relaxes(g, cur, c, nbrs, s, r)
    decreases |nbrs|
  {
    if nbrs == [] then
      assert s.open[..|s.open|] == s.open;
      s
    else
      var s' := RelaxOne(g, cur, c, nbrs[0], s);
      var r := Relax(g, cur, c, nbrs[1..], s');
      RelaxStep(g, cur, c, nbrs, s, s', r);
      r
  }

  lemma RelaxStep(g: Grid, cur: Tile, c: nat, nbrs: seq<Tile>, s: State, s': State, r: State)
    requires nbrs != [] && s' == RelaxOne(g, cur, c, nbrs[0], s)
    requires Relaxes(g, cur, c, nbrs[1..], s', r)
    ensures Relaxes(g, cur, c, nbrs, s, r)
  {
    LoweredStep(g, cur, c, nbrs, s, s');
    RelaxCostStep(g, cur, c, nbrs, s, s', r);
    RelaxParentStep(g, cur, c, nbrs, s, s', r);
    RelaxOpenStep(g, cur, c, nbrs, s, s', r);
  }

  /** After the first neighbour, the remaining ones are lowered exactly when they were lowered at the start. */
  lemma LoweredStep(g: Grid, cur: Tile, c: nat, nbrs: seq<Tile>, s: State, s': State)
    requires nbrs != [] && s' == RelaxOne(g, cur, c, nbrs[0], s)
    ensures forall t :: t != nbrs[0] ==> (Lowered(g, nbrs, s.cost, c, t) <==> Lowered(g, nbrs[1..], s'.cost, c, t))
    ensures !Lowered(g, nbrs[1..], s'.cost, c, nbrs[0])
  {
    assert forall t :: t in nbrs <==> t == nbrs[0] || t in nbrs[1..];
  }
  lemma RelaxCostStep(g: Grid, cur: Tile, c: nat, nbrs: seq<Tile>, s: State, s': State, r: State)
    requires nbrs != [] && s' == RelaxOne(g, cur, c, nbrs[0], s)
    requires forall t :: t != nbrs[0] ==> (Lowered(g, nbrs, s.cost, c, t) <==> Lowered(g, nbrs[1..], s'.cost, c, t))
    requires !Lowered(g, nbrs[1..], s'.cost, c, nbrs[0])
    requires LowersCosts(g, c, nbrs[1..], s', r)
    ensures LowersCosts(g, c, nbrs, s, r)
  {
  }

  lemma RelaxParentStep(g: Grid, cur: Tile, c: nat, nbrs: seq<Tile>, s: State, s': State, r: State)
    requires nbrs != [] && s' == RelaxOne(g, cur, c, nbrs[0], s)
    requires forall t :: t != nbrs[0] ==> (Lowered(g, nbrs, s.cost, c, t) <==> Lowered(g, nbrs[1..], s'.cost, c, t))
    requires !Lowered(g, nbrs[1..], s'.cost, c, nbrs[0])
    requires SetsParents(g, cur, c, nbrs[1..], s', r)
    ensures SetsParents(g, cur, c, nbrs, s, r)
  {
  }

  lemma RelaxOpenStep(g: Grid, cur: Tile, c: nat, nbrs: seq<Tile>, s: State, s': State, r: State)
    requires nbrs != [] && s' == RelaxOne(g, cur, c, nbrs[0], s)
    requires forall t :: t != nbrs[0] ==> (Lowered(g, nbrs, s.cost, c, t) <==> Lowered(g, nbrs[1..], s'.cost, c, t))
    requires !Lowered(g, nbrs[1..], s'.cost, c, nbrs[0])
    requires PushesEntries(g, c, nbrs[1..], s', r)
    ensures PushesEntries(g, c, nbrs, s, r)
  {
    var n := nbrs[0];
    assert r.open[..|s.open|] == s'.open[..|s.open|];
    if s' != s {
      assert s'.open[|s.open|] == MakeNode(n, c, g.rows, g.cols);
      assert r.open[|s.open|] == MakeNode(n, c, g.rows, g.cols);
    }
  }

  /** The open set without its `i`-th entry. */
  function Remove(open: seq<Node>, i: nat): (r: seq<Node>)
    requires i < |open|
    ensures |r| == |open| - 1
    ensures forall x :: x in r ==> x in open
    ensures forall x :: x in open && x != open[i] ==> x in r
  {
    open[..i] + open[i + 1..]
  }

  /** Entry `i` leaves the open set and its tile joins the visited order. */
  function Visit(s: State, i: nat): (r: State)
    requires i < |s.open|
    ensures r.cost == s.cost && r.parent == s.parent && r.order == s.order + [s.open[i].tile]
    ensures |r.open| == |s.open| - 1 && forall x :: x in s.open && x != s.open[i] ==> x in r.open
  {
    s.(open := Remove(s.open, i), order := s.order + [s.open[i].tile])
  }

  /** The entry polled is stale: its tile has since been reached more cheaply. */
  predicate Stale(s: State, i: nat)
    requires i < |s.open| && s.open[i].tile in s.cost
  {
    s.cost[s.open[i].tile] < s.open[i].g
  }

  /**
   * One iteration of the main loop, polling entry `i`: a stale entry is
   * dropped without joining the visited order; otherwise its tile joins the
   * visited order, and the search either stops there, exactly when the tile
   * is on the border, or relaxes the tile's neighbours.
   */
  function Poll(g: Grid, s: State, i: nat): (r: (State, Option<Tile>))
    requires i < |s.open| && s.open[i].tile in s.cost
    ensures Stale(s, i) ==> r.0 == s.(open := Remove(s.open, i)) && r.1 == None
    ensures !Stale(s, i) ==> r.0.order == s.order + [s.open[i].tile]
    ensures r.1 != None <==> !Stale(s, i) && g.Border(s.open[i].tile)
    ensures r.1 != None ==> r.1 == Some(s.open[i].tile) && r.0 == Visit(s, i)
  {
    var nd := s.open[i];
    if Stale(s, i) then
      (s.(open := Remove(s.open, i)), None)
    else if IsAtBorder(nd.tile, g.rows, g.cols) then
      (Visit(s, i), Some(nd.tile))
    else
      (Expand(g, s, i), None)
  }

  /** Expanding the tile of entry `i`: the neighbour loop at one step beyond the entry's cost. */
  function Expand(g: Grid, s: State, i: nat): (r: State)
    requires i < |s.open|
    ensures Relaxes(g, s.open[i].tile, s.open[i].g + 1, Neighbors(s.open[i].tile, g.rows, g.cols), Visit(s, i), r)
  {
    Relax(g, s.open[i].tile, s.open[i].g + 1, Neighbors(s.open[i].tile, g.rows, g.cols), Visit(s, i))
  }

  /** The index of an entry of least priority: the entry `PriorityQueue.poll` removes. */
  method MinIndex(open: seq<Node>) returns (i: nat)
    requires open != []
    ensures i < |open| && forall k :: 0 <= k < |open| ==> open[i].f <= open[k].f
  {
    i := 0;
    var k := 1;
    while k < |open|
      invariant i < k <= |open|
      invariant forall m :: 0 <= m < k ==> open[i].f <= open[m].f
    {
      if open[k].f < open[i].f {
        i := k;
      }
      k := k + 1;
    }
  }

  /** `curr.tile` is never among its own neighbours. */
  lemma NotOwnNeighbor(t: Tile, rows: int, cols: int)
    ensures t !in Neighbors(t, rows, cols)
  {
  }

  /** Every entry of a prefix-extended sequence is still there. */
  lemma PrefixKeeps(a: seq<Node>, b: seq<Node>)
    requires |a| <= |b| && b[..|a|] == a
    ensures forall x :: x in a ==> x in b
  {
    forall x | x in a
      ensures x in b
    {
      var m :| 0 <= m < |a| && a[m] == x;
      assert b[m] == x;
    }
  }

  /**
   * The best costs: `start` at cost 0, every other key an unblocked tile of
   * the board, and every cost below the number of tiles with a cost.
   */
  ghost predicate Costs(g: Grid, start: Tile, cost: map<Tile, nat>)
  {
    start in cost && cost[start] == 0 &&
    forall t :: t in cost ==> g.InBounds(t) && (t == start || !g.IsBlocked(t)) && cost[t] < |cost.Keys|
  }

  /** Each open entry is a `Node` built for a tile with a best cost of at most the entry's cost. */
  ghost predicate OpenOk(g: Grid, cost: map<Tile, nat>, open: seq<Node>)
  {
    forall e :: e in open ==> e.tile in cost && cost[e.tile] <= e.g && e == MakeNode(e.tile, e.g, g.rows, g.cols)
  }

  /** Every passable neighbour of `t` has a best cost at most one above `t`'s. */
  ghost predicate Relaxed(g: Grid, cost: map<Tile, nat>, t: Tile)
  {
    t in cost && forall w :: g.Adj(t, w) && g.Passable(w) ==> w in cost && cost[w] <= cost[t] + 1
  }

  /**
   * Every tile with a best cost either still has an open entry at that cost
   * or has been expanded with its neighbours relaxed.
   */
  ghost predicate Settled(g: Grid, s: State)
  {
    forall t :: t in s.cost ==> MakeNode(t, s.cost[t], g.rows, g.cols) in s.open || (t in s.order && Relaxed(g, s.cost, t))
  }

  /** The visited order so far: it starts at `start` and holds no border tile. */
  ghost predicate Trail(g: Grid, start: Tile, s: State)
  {
    (s.order == [] ==> s.open == [MakeNode(start, 0, g.rows, g.cols)]) &&
    (s.order != [] ==> s.order[0] == start) &&
    forall t :: t in s.order ==> !g.Border(t)
  }

  /** The loop invariant of `findPath`. */
  ghost predicate Inv(g: Grid, start: Tile, s: State)
  {
    g.Valid() && g.InBounds(start) && Costs(g, start, s.cost) && OpenOk(g, s.cost, s.open) &&
    SearchTree(g, start, s.parent, s.cost, s.order) && Trail(g, start, s) && Settled(g, s)
  }

  /**
   * The (tile, cost) pairs that could still lower a best cost: the loop's
   * termination measure, together with the size of the open set.
   */
  ghost function Avail(g: Grid, cost: map<Tile, nat>): set<(Tile, int)>
  {
    set t, c | t in AllTiles(g.rows, g.cols) && 0 <= c < g.rows * g.cols && Improves(cost, t, c) :: (t, c)
  }

  function Initial(start: Tile, rows: int, cols: int): (s: State)
    ensures s.cost == map[start := 0] && s.order == []
  {
    State([MakeNode(start, 0, rows, cols)], map[start := 0], map[], [])
  }

  lemma InitInv(g: Grid, start: Tile)
    requires g.Valid() && g.InBounds(start)
    ensures Inv(g, start, Initial(start, g.rows, g.cols))
  {
    var s := Initial(start, g.rows, g.cols);
    assert s.cost.Keys == {start};
  }

  /** Dropping a stale entry keeps the invariant and shrinks the open set. */
  lemma StaleStep(g: Grid, start: Tile, s: State, i: nat)
    requires Inv(g, start, s) && i < |s.open| && s.open[i].tile in s.cost
    requires s.cost[s.open[i].tile] < s.open[i].g
    ensures Inv(g, start, s.(open := Remove(s.open, i)))
    ensures Decreased(g, s, s.(open := Remove(s.open, i)))
  {
    var r := s.(open := Remove(s.open, i));
    forall t | t in r.cost && MakeNode(t, r.cost[t], g.rows, g.cols) in s.open
      ensures MakeNode(t, r.cost[t], g.rows, g.cols) in r.open
    {
      assert MakeNode(t, r.cost[t], g.rows, g.cols) != s.open[i];
    }
  }

  /** Relaxing keeps the best costs well formed and bounded. */
  lemma CostsStep(g: Grid, start: Tile, cur: Tile, c: nat, nbrs: seq<Tile>, v: State, r: State)
    requires Costs(g, start, v.cost) && cur in v.cost && c == v.cost[cur] + 1
    requires forall t :: t in nbrs ==> g.InBounds(t)
    requires LowersCosts(g, c, nbrs, v, r)
    ensures Costs(g, start, r.cost)
  {
    assert v.cost.Keys <= r.cost.Keys;
    SubsetCard(v.cost.Keys, r.cost.Keys);
    forall t | t in r.cost
      ensures r.cost[t] < |r.cost.Keys|
    {
      if Lowered(g, nbrs, v.cost, c, t) && t !in v.cost {
        assert v.cost.Keys + {t} <= r.cost.Keys;
        SubsetCard(v.cost.Keys + {t}, r.cost.Keys);
      }
    }
  }

  /** Relaxing keeps every open entry consistent with the best costs. */
  lemma OpenStep(g: Grid, c: nat, nbrs: seq<Tile>, v: State, r: State)
    requires OpenOk(g, v.cost, v.open)
    requires LowersCosts(g, c, nbrs, v, r) && PushesEntries(g, c, nbrs, v, r)
    ensures OpenOk(g, r.cost, r.open)
  {
    forall e | e in r.open
      ensures e.tile in r.cost && r.cost[e.tile] <= e.g && e == MakeNode(e.tile, e.g, g.rows, g.cols)
    {
      var m :| 0 <= m < |r.open| && r.open[m] == e;
      if m < |v.open| {
        assert v.open[m] == e;
      }
    }
  }

  /**
   * Relaxing keeps the parent map a search tree ranked by best cost: a new
   * parent link goes from `cur`, at cost `c - 1`, to a tile at cost `c`,
   * and lowering a parent's cost keeps it below its children's.
   */
  lemma TreeStep(g: Grid, start: Tile, cur: Tile, c: nat, nbrs: seq<Tile>, v: State, r: State, order: seq<Tile>)
    requires SearchTree(g, start, v.parent, v.cost, order) && v.cost[start] == 0
    requires cur in v.cost && c == v.cost[cur] + 1 && cur !in nbrs
    requires forall t :: t in nbrs ==> g.Adj(cur, t)
    requires LowersCosts(g, c, nbrs, v, r) && SetsParents(g, cur, c, nbrs, v, r)
    ensures SearchTree(g, start, r.parent, r.cost, order + [cur])
  {
    RankStep(g, cur, c, nbrs, v, r);
    LinkStep(g, cur, c, nbrs, v, r, order);
  }

  lemma RankStep(g: Grid, cur: Tile, c: nat, nbrs: seq<Tile>, v: State, r: State)
    requires Ranked(v.parent, v.cost)
    requires cur in v.cost && c == v.cost[cur] + 1 && cur !in nbrs
    requires LowersCosts(g, c, nbrs, v, r) && SetsParents(g, cur, c, nbrs, v, r)
    ensures Ranked(r.parent, r.cost)
  {
    forall k | k in r.parent
      ensures k in r.cost && r.parent[k] in r.cost && r.cost[r.parent[k]] < r.cost[k]
    {
      if !Lowered(g, nbrs, v.cost, c, k) {
        assert v.parent[k] in v.cost && v.cost[v.parent[k]] < v.cost[k];
      }
    }
  }

  lemma LinkStep(g: Grid, cur: Tile, c: nat, nbrs: seq<Tile>, v: State, r: State, order: seq<Tile>)
    requires Links(g, v.parent, order)
    requires forall t :: t in nbrs ==> g.Adj(cur, t)
    requires SetsParents(g, cur, c, nbrs, v, r)
    ensures Links(g, r.parent, order + [cur])
  {
    forall k | k in r.parent
      ensures g.Passable(k) && g.Adj(r.parent[k], k) && r.parent[k] in order + [cur]
    {
      if !Lowered(g, nbrs, v.cost, c, k) {
        assert g.Passable(k) && g.Adj(v.parent[k], k) && v.parent[k] in order;
      }
    }
  }

  /**
   * Expanding `cur` keeps every tile with a best cost either open at that
   * cost or relaxed: the lowered neighbours get fresh entries, `cur` itself
   * is now relaxed, and every other tile keeps its entry or its relaxation.
   */
  lemma SettledStep(g: Grid, cur: Tile, c: nat, nbrs: seq<Tile>, s: State, i: nat, v: State, r: State)
    requires Settled(g, s) && cur in s.cost && c == s.cost[cur] + 1 && cur !in nbrs
    requires i < |s.open| && s.open[i] == MakeNode(cur, s.cost[cur], g.rows, g.cols)
    requires forall w :: g.Adj(cur, w) ==> w in nbrs
    requires v.cost == s.cost && v.order == s.order + [cur]
    requires forall x :: x in s.open && x != s.open[i] ==> x in v.open
    requires r.order == v.order && LowersCosts(g, c, nbrs, v, r) && PushesEntries(g, c, nbrs, v, r)
    ensures Settled(g, r)
  {
    PrefixKeeps(v.open, r.open);
    forall t | t in r.cost && !Lowered(g, nbrs, v.cost, c, t)
      ensures MakeNode(t, r.cost[t], g.rows, g.cols) in r.open || (t in r.order && Relaxed(g, r.cost, t))
    {
      if t == cur {
        assert Relaxed(g, r.cost, t);
      } else if MakeNode(t, s.cost[t], g.rows, g.cols) in s.open {
        assert MakeNode(t, s.cost[t], g.rows, g.cols) in v.open;
      } else {
        assert Relaxed(g, s.cost, t);
        assert Relaxed(g, r.cost, t);
      }
    }
  }

  /**
   * Relaxing removes from `Avail` the pair of every lowered tile; when no
   * tile is lowered, nothing changes but the polled entry.
   */
  lemma AvailStep(g: Grid, start: Tile, cur: Tile, c: nat, nbrs: seq<Tile>, s: State, v: State, r: State)
    requires g.Valid() && Costs(g, start, v.cost) && cur in v.cost && c == v.cost[cur] + 1
    requires forall t :: t in nbrs ==> g.InBounds(t)
    requires v.cost == s.cost && |v.open| < |s.open|
    requires LowersCosts(g, c, nbrs, v, r) && PushesEntries(g, c, nbrs, v, r)
    ensures Avail(g, r.cost) < Avail(g, s.cost) || (r.cost == s.cost && |r.open| < |s.open|)
  {
    assert Avail(g, r.cost) <= Avail(g, s.cost);
    if t :| Lowered(g, nbrs, v.cost, c, t) {
      var all := AllTiles(g.rows, g.cols);
      assert v.cost.Keys <= all;
      AllTilesCard(g.rows, g.cols);
      if t in v.cost {
        SubsetCard(v.cost.Keys, all);
      } else {
        assert v.cost.Keys + {t} <= all;
        SubsetCard(v.cost.Keys + {t}, all);
      }
      assert (t, c as int) in Avail(g, s.cost);
      assert (t, c as int) !in Avail(g, r.cost);
    } else {
      assert r.cost == s.cost;
      assert |v.open| < |r.open| ==> Lowered(g, nbrs, v.cost, c, r.open[|v.open|].tile);
    }
  }

  /** Expanding a non-border tile extends a visited order that starts at `start` and holds no border tile. */
  lemma TrailStep(g: Grid, start: Tile, s: State, i: nat, r: State)
    requires Trail(g, start, s) && i < |s.open| && !g.Border(s.open[i].tile)
    requires r.order == s.order + [s.open[i].tile]
    ensures Trail(g, start, r)
  {
    if s.order == [] {
      assert s.open[i] == MakeNode(start, 0, g.rows, g.cols);
    }
  }

  /**
   * Expanding a non-stale, non-border entry keeps the invariant, and either
   * some best cost drops or the open set shrinks.
   */
  lemma ExpandStep(g: Grid, start: Tile, s: State, i: nat, r: State)
    requires Inv(g, start, s) && i < |s.open|
    requires s.open[i].tile in s.cost && s.open[i].g <= s.cost[s.open[i].tile]
    requires !g.Border(s.open[i].tile)
    requires r == Expand(g, s, i)
    ensures Inv(g, start, r) && Decreased(g, s, r)
  {
    var cur, c := s.open[i].tile, s.open[i].g + 1;
    var nbrs, v := Neighbors(cur, g.rows, g.cols), Visit(s, i);
    assert s.open[i] in s.open;
    assert s.open[i] == MakeNode(cur, s.cost[cur], g.rows, g.cols);
    NotOwnNeighbor(cur, g.rows, g.cols);
    assert OpenOk(g, v.cost, v.open);
    CostsStep(g, start, cur, c, nbrs, v, r);
    OpenStep(g, c, nbrs, v, r);
    TreeStep(g, start, cur, c, nbrs, v, r, s.order);
    SettledStep(g, cur, c, nbrs, s, i, v, r);
    AvailStep(g, start, cur, c, nbrs, s, v, r);
    TrailStep(g, start, s, i, r);
  }

  /**
   * Along an escape route from `start`, some tile `p[k]` has an open entry
   * at a best cost of at most `k`: a relaxed tile passes its bound on to the
   * next tile of the route, and the route's last tile, on the border, has
   * never been expanded.
   */
  lemma {:induction false} OnRoute(g: Grid, start: Tile, s: State, p: seq<Tile>, j: nat) returns (k: nat)
    requires Settled(g, s) && Trail(g, start, s)
    requires EscapeWalk(g, start, p) && j < |p| && p[j] in s.cost && s.cost[p[j]] <= j
    ensures j <= k < |p| && p[k] in s.cost && s.cost[p[k]] <= k
    ensures MakeNode(p[k], s.cost[p[k]], g.rows, g.cols) in s.open
    decreases |p| - j
  {
    if MakeNode(p[j], s.cost[p[j]], g.rows, g.cols) in s.open {
      k := j;
    } else {
      assert p[j] in s.order && Relaxed(g, s.cost, p[j]);
      assert j < |p| - 1;
      assert g.Adj(p[j], p[j + 1]) && g.Passable(p[j + 1]);
      k := OnRoute(g, start, s, p, j + 1);
    }
  }

  /**
   * A non-stale border entry of least priority is as close as a border tile
   * can be: every escape route has more tiles than its best cost. Its
   * priority is its cost, and the open entry `OnRoute` finds on any route
   * has a priority no larger than the route's number of steps.
   */
  lemma ExitNearest(g: Grid, start: Tile, s: State, i: nat)
    requires Inv(g, start, s) && i < |s.open|
    requires forall k :: 0 <= k < |s.open| ==> s.open[i].f <= s.open[k].f
    requires s.open[i].tile in s.cost && s.open[i].g <= s.cost[s.open[i].tile]
    requires g.Border(s.open[i].tile)
    ensures Nearest(g, start, s.cost, Some(s.open[i].tile))
  {
    var b := s.open[i].tile;
    assert s.open[i] in s.open;
    assert s.open[i].f == s.cost[b];
    forall p | EscapeWalk(g, start, p)
      ensures s.cost[b] < |p|
    {
      var k := OnRoute(g, start, s, p, 0);
      var m :| 0 <= m < |s.open| && s.open[m] == MakeNode(p[k], s.cost[p[k]], g.rows, g.cols);
      RoutePriority(g, start, p, k, s.cost[p[k]]);
    }
  }

  /** Stopping at a non-stale border entry: the visited order ends at it and the search tree reaches it. */
  lemma ExitFound(g: Grid, start: Tile, s: State, i: nat)
    requires Inv(g, start, s) && i < |s.open|
    requires s.open[i].tile in s.cost && s.open[i].g <= s.cost[s.open[i].tile]
    requires g.Border(s.open[i].tile)
    ensures Visits(g, start, s.order + [s.open[i].tile])
    ensures Outcome(g, start, s.order + [s.open[i].tile], Some(s.open[i].tile), s.parent, s.cost)
  {
    var b := s.open[i].tile;
    var order := s.order + [b];
    if s.order == [] {
      assert s.open[i] == MakeNode(start, 0, g.rows, g.cols);
    }
    SearchTreeGrow(g, start, s.parent, s.cost, s.order, order);
    TreePath(g, start, s.parent, s.cost, order, b);
    assert EscapeWalk(g, start, ReconstructPath(Some(b), s.parent, s.cost));
  }

  /** An empty open set: every tile with a cost was expanded and relaxed, so the region traps the cat. */
  lemma Exhausted(g: Grid, start: Tile, s: State)
    requires Inv(g, start, s) && s.open == []
    ensures Visits(g, start, s.order)
    ensures Outcome(g, start, s.order, None, s.parent, s.cost)
  {
    assert Enclosed(g, s.cost.Keys) by {
      forall u | u in s.cost.Keys
        ensures !g.Border(u) && forall w :: g.Adj(u, w) && g.Passable(w) ==> w in s.cost.Keys
      {
        assert u in s.order && Relaxed(g, s.cost, u);
      }
    }
    EnclosedTraps(g, start, s.cost.Keys);
  }

  /** What the main loop returns: the visited order, and an exit that is a nearest border tile exactly when one is reachable. */
  ghost predicate Done(g: Grid, start: Tile, order: seq<Tile>, exit: Option<Tile>, parent: map<Tile, Tile>, cost: map<Tile, nat>)
  {
    Visits(g, start, order) && Outcome(g, start, order, exit, parent, cost) && Nearest(g, start, cost, exit)
  }

  /** The termination measure of the main loop went down. */
  ghost predicate Decreased(g: Grid, s: State, r: State)
  {
    Avail(g, r.cost) < Avail(g, s.cost) || (r.cost == s.cost && |r.open| < |s.open|)
  }

  /**
   * The main loop of `findPath`: poll an entry of least priority until the
   * open set runs out or a border tile is reached. It returns the visited
   * order, the border tile found, the parent map and the best costs.
   */
  method Search(g: Grid, start: Tile)
    returns (order: seq<Tile>, exit: Option<Tile>, parent: map<Tile, Tile>, cost: map<Tile, nat>)
    requires g.Valid() && g.InBounds(start)
    ensures Done(g, start, order, exit, parent, cost)
  {
    var s := Initial(start, g.rows, g.cols);
    InitInv(g, start);
    while s.open != []
      invariant Inv(g, start, s)
      decreases Avail(g, s.cost), |s.open|
    {
      var i := MinIndex(s.open);
      assert s.open[i] in s.open;
      var (s', found) := Poll(g, s, i);
      if Stale(s, i) {
        StaleStep(g, start, s, i);
      } else if found.Some? {
        ExitFound(g, start, s, i);
        ExitNearest(g, start, s, i);
        return s'.order, found, s'.parent, s'.cost;
      } else {
        ExpandStep(g, start, s, i, s');
      }
      s := s';
    }
    Exhausted(g, start, s);
    return s.order, None, s.parent, s.cost;
  }

  /**
   * `findPath`: the search loop followed by `reconstructPath`. Besides the
   * common contract, a non-empty path is a shortest escape route.
   */
  method FindPath(g: Grid, start: Tile) returns (r: PathfindingResult)
    requires g.Valid() && g.InBounds(start)
    ensures Sound(g, start, r)
    ensures r.path != [] ==> Shortest(g, start, r.path)
  {
    var order, exit, parent, cost := Search(g, start);
    r := PathfindingResult(order, ReconstructPath(exit, parent, cost));
    OutcomeResult(g, start, order, exit, parent, cost);
  }
}
