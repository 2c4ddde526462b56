/**
 * The neighbour loop shared by breadth-first and depth-first search: every
 * neighbour that is neither blocked nor yet visited is marked visited, gets
 * the current tile as its parent, and is appended to the frontier (the tail
 * of the FIFO queue, or the top of the LIFO stack).
 */
module Frontier {
  import opened StrategyUtils
  import opened Board
  import opened Results

  /** The frontier sequence, the visited marks and the parent map of a search. */
  datatype Frontier = Frontier(items: seq<Tile>, visited: set<Tile>, parent: map<Tile, Tile>)

  /** The tiles `r` appended to the frontier of `f`. */
  function Added(f: Frontier, r: Frontier): seq<Tile>
    requires |f.items| <= |r.items|
  {
    r.items[|f.items|..]
  }

  /**
   * What processing the neighbours `nbrs` of `cur` does to `f`: only
   * unblocked, unvisited neighbours are appended, each once; they become
   * visited children of `cur`, everything already recorded is kept, and
   * afterwards every unblocked neighbour is visited.
   */
  ghost predicate Extends(g: Grid, cur: Tile, nbrs: seq<Tile>, f: Frontier, r: Frontier)
  {
    |f.items| <= |r.items| && r.items[..|f.items|] == f.items &&
    (forall t :: t in Added(f, r) ==> t in nbrs && !g.IsBlocked(t) && t !in f.visited) &&
    NoDup(Added(f, r)) &&
    (forall t :: t in r.visited <==> t in f.visited || t in Added(f, r)) &&
    (forall t :: t in r.parent <==> t in f.parent || t in Added(f, r)) &&
    (forall t :: t in f.parent ==> r.parent[t] == f.parent[t]) &&
    (forall t :: t in Added(f, r) ==> r.parent[t] == cur) &&
    (forall n :: n in nbrs && !g.IsBlocked(n) ==> n in r.visited)
  }

  /** One iteration of the neighbour loop. */
  function Visit(g: Grid, cur: Tile, n: Tile, f: Frontier): Frontier
  {
    if !g.IsBlocked(n) && n !in f.visited
    then Frontier(f.items + [n], f.visited + {n}, f.parent[n := cur])
    else f
  }

  /** The neighbour loop: `Visit` applied to each neighbour in table order. */
  function Discover(g: Grid, cur: Tile, nbrs: seq<Tile>, f: Frontier): (r: Frontier)
    requires f.parent.Keys <= f.visited
    ensures r.parent.Keys <= r.visited
    ensures Extends(g, cur, nbrs, f, r)
    decreases |nbrs|
  {
    if nbrs == [] then
      assert Added(f, f) == [];
      f
    else
      var f' := Visit(g, cur, nbrs[0], f);
      var r := Discover(g, cur, nbrs[1..], f');
      DiscoverStep(g, cur, nbrs, f, f', r);
      r
  }

  lemma DiscoverStep(g: Grid, cur: Tile, nbrs: seq<Tile>, f: Frontier, f': Frontier, r: Frontier)
    requires nbrs != [] && f.parent.Keys <= f.visited
    requires f' == Visit(g, cur, nbrs[0], f)
    requires Extends(g, cur, nbrs[1..], f', r)
    ensures Extends(g, cur, nbrs, f, r)
  {
    assert forall m :: m in nbrs[1..] ==> m in nbrs;
    assert r.items[..|f.items|] == f'.items[..|f.items|];
    assert Added(f, r) == Added(f, f') + Added(f', r);
    if f' != f {
      assert Added(f, f') == [nbrs[0]];
      assert forall t :: t in Added(f', r) ==> t != nbrs[0];
    } else {
      assert Added(f, f') == [];
    }
  }

  /**
   * The search-tree depths after expanding `cur`: the newly discovered
   * tiles are one level below it.
   */
  ghost function Deepen(depth: map<Tile, nat>, cur: Tile, visited: set<Tile>): map<Tile, nat>
    requires cur in depth
  {
    map t | t in visited :: if t in depth then depth[t] else depth[cur] + 1
  }

  /**
   * `d'` gives the tiles discovered before expanding `cur` their old depths
   * and the newly discovered ones the depth below `cur`.
   */
  ghost predicate Deepened(depth: map<Tile, nat>, cur: Tile, added: seq<Tile>, visited': set<Tile>, d': map<Tile, nat>)
  {
    cur in depth &&
    (forall t :: t in d' <==> t in visited') &&
    (forall t :: t in depth ==> t in d' && d'[t] == depth[t]) &&
    (forall t :: t in added ==> t in d' && d'[t] == depth[cur] + 1)
  }

  lemma DeepenFacts(depth: map<Tile, nat>, cur: Tile, added: seq<Tile>, visited: set<Tile>, visited': set<Tile>)
    requires cur in depth
    requires forall t :: t in depth <==> t in visited
    requires forall t :: t in visited' <==> t in visited || t in added
    requires forall t :: t in added ==> t !in visited
    ensures Deepened(depth, cur, added, visited', Deepen(depth, cur, visited'))
  {
  }

  /** Appending fresh, distinct tiles to a duplicate-free frontier keeps it duplicate-free. */
  lemma AppendNoDup(all: seq<Tile>, added: seq<Tile>, visited: set<Tile>, items: seq<Tile>)
    requires NoDup(all) && NoDup(added)
    requires forall t :: t in all ==> t in visited
    requires forall t :: t in added ==> t !in visited
    requires items == all + added
    ensures NoDup(items)
  {
    forall a, b | 0 <= a < b < |items|
      ensures items[a] != items[b]
    {
      if b >= |all| && a < |all| {
        assert items[b] in added;
        assert items[a] in visited;
      } else if a >= |all| {
        assert items[a] == added[a - |all|] && items[b] == added[b - |all|];
      }
    }
  }

  /** Appending unblocked neighbours of a tile keeps the frontier on the board. */
  lemma AppendInside(g: Grid, start: Tile, all: seq<Tile>, added: seq<Tile>, cur: Tile, items: seq<Tile>)
    requires forall t :: t in all ==> g.InBounds(t) && (t == start || !g.IsBlocked(t))
    requires forall t :: t in added ==> t in Neighbors(cur, g.rows, g.cols) && !g.IsBlocked(t)
    requires items == all + added
    ensures forall t :: t in items ==> g.InBounds(t) && (t == start || !g.IsBlocked(t))
  {
  }

  /** After an expansion every tile with a depth is `start` or has a parent. */
  lemma DeepenCover(start: Tile, visited: set<Tile>, parent: map<Tile, Tile>, depth: map<Tile, nat>,
                      added: seq<Tile>, visited': set<Tile>, parent': map<Tile, Tile>, d': map<Tile, nat>)
    requires forall t :: t in depth <==> t in visited
    requires forall t {:trigger t in parent} :: t in depth ==> t == start || t in parent
    requires forall t :: t in d' <==> t in visited'
    requires forall t :: t in visited' <==> t in visited || t in added
    requires forall t :: t in parent' <==> t in parent || t in added
    ensures forall t {:trigger t in parent'} :: t in d' ==> t == start || t in parent'
  {
  }

  /**
   * The parent links after expanding `cur`: the old ones are kept, the new
   * ones point from unblocked neighbours of `cur` to `cur`, and each link
   * still goes one level down.
   */
  lemma LinksGrow(g: Grid, expanded: seq<Tile>, cur: Tile, parent: map<Tile, Tile>, depth: map<Tile, nat>,
                  added: seq<Tile>, parent': map<Tile, Tile>, d': map<Tile, nat>)
    requires cur in depth && Ranked(parent, depth)
    requires Links(g, parent, expanded)
    requires forall k :: k in parent ==> depth[k] == depth[parent[k]] + 1
    requires forall t :: t in parent' <==> t in parent || t in added
    requires forall t :: t in parent ==> parent'[t] == parent[t]
    requires forall t :: t in added ==> t in Neighbors(cur, g.rows, g.cols) && !g.IsBlocked(t)
    requires forall t :: t in added ==> parent'[t] == cur
    requires forall t :: t in depth ==> t in d' && d'[t] == depth[t]
    requires forall t :: t in added ==> t in d' && d'[t] == depth[cur] + 1
    ensures Links(g, parent', expanded + [cur])
    ensures forall k :: k in parent' ==> k in d' && parent'[k] in d' && d'[k] == d'[parent'[k]] + 1
  {
    forall k | k in parent'
      ensures g.Passable(k) && g.Adj(parent'[k], k) && parent'[k] in expanded + [cur]
      ensures k in d' && parent'[k] in d' && d'[k] == d'[parent'[k]] + 1
    {
      if k in parent {
        assert parent'[k] == parent[k];
      } else {
        assert k in added;
      }
    }
  }

  /**
   * Expanding `cur` grows the search tree: with the new tiles hung below
   * `cur` one level deeper, the parent map is a tree over the expanded
   * tiles followed by `cur`.
   */
  lemma TreeGrow(g: Grid, start: Tile, expanded: seq<Tile>, cur: Tile, parent: map<Tile, Tile>, depth: map<Tile, nat>,
                 added: seq<Tile>, parent': map<Tile, Tile>, d': map<Tile, nat>)
    requires g.InBounds(start) && start in depth && start !in parent && Ranked(parent, depth)
    requires forall t {:trigger t in parent} :: t in depth ==> t == start || t in parent
    requires Links(g, parent, expanded)
    requires forall k :: k in parent ==> depth[k] == depth[parent[k]] + 1
    requires forall t :: t in expanded ==> t in depth
    requires cur in depth
    requires forall t :: t in added ==> t in Neighbors(cur, g.rows, g.cols) && !g.IsBlocked(t) && t !in depth
    requires forall t :: t in parent' <==> t in parent || t in added
    requires forall t :: t in parent ==> parent'[t] == parent[t]
    requires forall t :: t in added ==> parent'[t] == cur
    requires forall t :: t in d' <==> t in depth || t in added
    requires forall t :: t in depth ==> t in d' && d'[t] == depth[t]
    requires forall t :: t in added ==> t in d' && d'[t] == depth[cur] + 1
    ensures SearchTree(g, start, parent', d', expanded + [cur])
    ensures forall k :: k in parent' ==> d'[k] == d'[parent'[k]] + 1
  {
    LinksGrow(g, expanded, cur, parent, depth, added, parent', d');
    assert forall t {:trigger t in parent'} :: t in d' ==> t == start || t in parent';
    assert forall t :: t in expanded + [cur] ==> t in d';
    assert start !in parent';
    SearchTreeIntro(g, start, parent', d', expanded + [cur]);
  }

  /** Expanding a tile either adds nothing to the frontier or marks a new tile of the board visited. */
  lemma StepProgress(g: Grid, all: seq<Tile>, visited: set<Tile>, parent: map<Tile, Tile>, cur: Tile, f: Frontier)
    requires forall t :: t in visited ==> g.InBounds(t)
    requires Extends(g, cur, Neighbors(cur, g.rows, g.cols), Frontier(all, visited, parent), f)
    ensures |f.items| == |all| ==> f.visited == visited
    ensures |f.items| > |all| ==> AllTiles(g.rows, g.cols) - f.visited < AllTiles(g.rows, g.cols) - visited
  {
    var added := Added(Frontier(all, visited, parent), f);
    FreshProgress(g, visited, cur, added, f.visited);
  }

  /** Marking fresh neighbours visited shrinks the set of unvisited board tiles. */
  lemma FreshProgress(g: Grid, visited: set<Tile>, cur: Tile, added: seq<Tile>, visited': set<Tile>)
    requires forall t :: t in visited ==> g.InBounds(t)
    requires forall t :: t in added ==> t in Neighbors(cur, g.rows, g.cols) && !g.IsBlocked(t) && t !in visited
    requires forall t :: t in visited' <==> t in visited || t in added
    ensures added == [] ==> visited' == visited
    ensures added != [] ==> AllTiles(g.rows, g.cols) - visited' < AllTiles(g.rows, g.cols) - visited
  {
    if added != [] {
      var n := added[0];
      assert n !in visited && n in visited';
      assert n in AllTiles(g.rows, g.cols);
    }
  }

  /** The frontier after the neighbour loop is the old frontier followed by the added tiles. */
  lemma ExtendsItems(f: Frontier, r: Frontier)
    requires |f.items| <= |r.items| && r.items[..|f.items|] == f.items
    ensures r.items == f.items + Added(f, r)
  {
    assert r.items == r.items[..|f.items|] + r.items[|f.items|..];
  }
}
