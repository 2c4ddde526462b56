/**
 * Breadth-first search (the root-package `BFSStrategy`). The FIFO queue is
 * modelled by the sequence `all` of every tile ever enqueued together with
 * the index `head` of the next tile to poll: the queue is `all[head..]` and
 * the tiles polled so far, the visited order, are `all[..head]`. Tiles are
 * marked visited when enqueued.
 *
 * The ghost map `depth` gives every enqueued tile the number of steps of its
 * parent chain; it is what the shortest-path argument is about.
 */
module BfsStrategy {
  import opened StrategyUtils
  import opened Board
  import opened Results
  import opened Frontier

  /** Bookkeeping: what is enqueued, visited, and recorded as parent or depth. */
  ghost predicate Shape(g: Grid, start: Tile, all: seq<Tile>, head: int, visited: set<Tile>,
                        parent: map<Tile, Tile>, depth: map<Tile, nat>)
  {
    0 <= head <= |all| && |all| >= 1 && all[0] == start && NoDup(all) &&
    (forall t :: t in visited <==> t in all) &&
    (forall t :: t in depth <==> t in all) &&
    (forall t :: t in all ==> g.InBounds(t) && (t == start || !g.IsBlocked(t))) &&
    parent.Keys <= visited &&
    SearchTree(g, start, parent, depth, all[..head]) &&
    (forall k :: k in parent ==> depth[k] == depth[parent[k]] + 1) &&
    depth[start] == 0
  }

  /** Depths never decrease along the queue and the queue spans at most two depths. */
  ghost predicate Layered(all: seq<Tile>, head: int, depth: map<Tile, nat>)
  {
    (forall t :: t in all ==> t in depth) &&
    (forall a, b :: 0 <= a <= b < |all| ==> depth[all[a]] <= depth[all[b]]) &&
    (0 <= head < |all| ==> forall b :: head <= b < |all| ==> depth[all[b]] <= depth[all[head]] + 1)
  }

  /**
   * Every polled tile is off the border, and each of its unblocked
   * neighbours has been enqueued at most one level deeper.
   */
  ghost predicate Expanded(g: Grid, all: seq<Tile>, head: int, visited: set<Tile>, depth: map<Tile, nat>)
  {
    forall a :: 0 <= a < head && a < |all| ==>
      !g.Border(all[a]) && all[a] in depth &&
      forall w :: g.Adj(all[a], w) && g.Passable(w) ==> w in visited && w in depth && depth[w] <= depth[all[a]] + 1
  }

  /**
   * Every walk from `start` with fewer steps than the depth of the queue's
   * head ends at an already polled tile whose depth is at most the walk's
   * step count.
   */
  ghost predicate Near(g: Grid, start: Tile, all: seq<Tile>, head: int, depth: map<Tile, nat>)
  {
    0 <= head < |all| && all[head] in depth ==>
      forall p :: IsWalk(g, start, p) && |p| <= depth[all[head]] ==>
        p[|p| - 1] in all[..head] && p[|p| - 1] in depth && depth[p[|p| - 1]] < |p|
  }

  ghost predicate Inv(g: Grid, start: Tile, all: seq<Tile>, head: int, visited: set<Tile>,
                      parent: map<Tile, Tile>, depth: map<Tile, nat>)
  {
    g.Valid() && Shape(g, start, all, head, visited, parent, depth) && Layered(all, head, depth) &&
    Expanded(g, all, head, visited, depth) && Near(g, start, all, head, depth)
  }

  /** Polling a non-border tile and enqueueing its new neighbours preserves the invariant. */
  lemma StepPreserves(g: Grid, start: Tile, all: seq<Tile>, head: int, visited: set<Tile>,
                      parent: map<Tile, Tile>, depth: map<Tile, nat>, f: Frontier)
    requires Inv(g, start, all, head, visited, parent, depth)
    requires head < |all| && !g.Border(all[head])
    requires Extends(g, all[head], Neighbors(all[head], g.rows, g.cols), Frontier(all, visited, parent), f)
    ensures Inv(g, start, f.items, head + 1, f.visited, f.parent, Deepen(depth, all[head], f.visited))
  {
    var cur := all[head];
    var d' := Deepen(depth, cur, f.visited);
    var added := Added(Frontier(all, visited, parent), f);
    DeepenFacts(depth, cur, added, visited, f.visited);
    StepDepths(g, start, all, head, visited, parent, depth, f, d');
    assert f.items == all + added;
    StepShape(g, start, all, head, visited, parent, depth, f, d');
    LayeredAppend(all, added, head, depth, d');
    ExpandedAppend(g, all, added, head, visited, depth, f.visited, d');
    NearAppend(g, start, all, added, head, visited, depth, d');
  }

  lemma StepShape(g: Grid, start: Tile, all: seq<Tile>, head: int, visited: set<Tile>,
                  parent: map<Tile, Tile>, depth: map<Tile, nat>, f: Frontier, d': map<Tile, nat>)
    requires Shape(g, start, all, head, visited, parent, depth)
    requires head < |all| && !g.Border(all[head])
    requires Extends(g, all[head], Neighbors(all[head], g.rows, g.cols), Frontier(all, visited, parent), f)
    requires f.items == all + Added(Frontier(all, visited, parent), f)
    requires Deepened(depth, all[head], Added(Frontier(all, visited, parent), f), f.visited, d')
    ensures Shape(g, start, f.items, head + 1, f.visited, f.parent, d')
  {
    var added := Added(Frontier(all, visited, parent), f);
    StepLinks(g, start, all, head, visited, parent, depth, f, d');
    AppendNoDup(all, added, visited, f.items);
    AppendInside(g, start, all, added, all[head], f.items);
    assert forall t :: t in f.visited <==> t in f.items;
    assert forall t :: t in d' <==> t in f.items;
    assert f.parent.Keys <= f.visited;
    assert d'[start] == 0;
  }

  /** `StepTree` for the frontier `f` that expanding `all[head]` produced. */
  lemma StepLinks(g: Grid, start: Tile, all: seq<Tile>, head: int, visited: set<Tile>,
                  parent: map<Tile, Tile>, depth: map<Tile, nat>, f: Frontier, d': map<Tile, nat>)
    requires Shape(g, start, all, head, visited, parent, depth)
    requires head < |all|
    requires Extends(g, all[head], Neighbors(all[head], g.rows, g.cols), Frontier(all, visited, parent), f)
    requires f.items == all + Added(Frontier(all, visited, parent), f)
    requires Deepened(depth, all[head], Added(Frontier(all, visited, parent), f), f.visited, d')
    ensures SearchTree(g, start, f.parent, d', f.items[..head + 1])
    ensures forall k :: k in f.parent ==> d'[k] == d'[f.parent[k]] + 1
  {
    var added := Added(Frontier(all, visited, parent), f);
    StepTree(g, start, all, head, parent, depth, added, f.items, f.parent, d');
  }

  /** The new parent links hang the new tiles below `all[head]`, one level deeper. */
  lemma StepTree(g: Grid, start: Tile, all: seq<Tile>, head: int, parent: map<Tile, Tile>, depth: map<Tile, nat>,
                 added: seq<Tile>, items: seq<Tile>, parent': map<Tile, Tile>, d': map<Tile, nat>)
    requires 0 <= head < |all| && items == all + added
    requires g.InBounds(start) && start in depth && start !in parent && Ranked(parent, depth)
    requires forall t {:trigger t in parent} :: t in depth ==> t == start || t in parent
    requires Links(g, parent, all[..head])
    requires forall k :: k in parent ==> depth[k] == depth[parent[k]] + 1
    requires forall t :: t in all ==> t in depth
    requires forall t :: t in added ==> t in Neighbors(all[head], g.rows, g.cols) && !g.IsBlocked(t) && t !in depth
    requires forall t :: t in parent' <==> t in parent || t in added
    requires forall t :: t in parent ==> parent'[t] == parent[t]
    requires forall t :: t in added ==> parent'[t] == all[head]
    requires forall t :: t in d' <==> t in depth || t in added
    requires forall t :: t in depth ==> t in d' && d'[t] == depth[t]
    requires forall t :: t in added ==> t in d' && d'[t] == depth[all[head]] + 1
    ensures SearchTree(g, start, parent', d', items[..head + 1])
    ensures forall k :: k in parent' ==> d'[k] == d'[parent'[k]] + 1
  {
    assert forall t :: t in all[..head] ==> t in depth;
    TreeGrow(g, start, all[..head], all[head], parent, depth, added, parent', d');
    assert items[..head + 1] == all[..head] + [all[head]];
  }

  /**
   * What expanding `cur` does to the depths: enqueued tiles keep theirs, the
   * new ones are one level below `cur`, and every unblocked neighbour of
   * `cur` ends up enqueued at most one level below it.
   */
  lemma StepDepths(g: Grid, start: Tile, all: seq<Tile>, head: int, visited: set<Tile>,
                   parent: map<Tile, Tile>, depth: map<Tile, nat>, f: Frontier, d': map<Tile, nat>)
    requires 0 <= head < |all| && Layered(all, head, depth)
    requires forall t :: t in visited <==> t in all
    requires Extends(g, all[head], Neighbors(all[head], g.rows, g.cols), Frontier(all, visited, parent), f)
    requires Deepened(depth, all[head], Added(Frontier(all, visited, parent), f), f.visited, d')
    ensures f.items == all + Added(Frontier(all, visited, parent), f)
    ensures forall t :: t in all ==> t in d' && d'[t] == depth[t]
    ensures forall t :: t in visited ==> t in f.visited
    ensures forall w :: g.Adj(all[head], w) && g.Passable(w) ==>
              w in f.visited && w in d' && d'[w] <= depth[all[head]] + 1
  {
    var cur := all[head];
    var added := Added(Frontier(all, visited, parent), f);
    assert f.items == all + added;
    NeighborDepths(g, all, head, visited, depth, added, f.visited, d');
  }

  /** Every unblocked neighbour of `all[head]` is enqueued at most one level below it. */
  lemma NeighborDepths(g: Grid, all: seq<Tile>, head: int, visited: set<Tile>, depth: map<Tile, nat>,
                       added: seq<Tile>, visited': set<Tile>, d': map<Tile, nat>)
    requires 0 <= head < |all|
    requires forall t :: t in all ==> t in depth
    requires forall a, b :: 0 <= a <= b < |all| ==> depth[all[a]] <= depth[all[b]]
    requires forall b :: head <= b < |all| ==> depth[all[b]] <= depth[all[head]] + 1
    requires forall t :: t in visited <==> t in all
    requires forall n :: n in Neighbors(all[head], g.rows, g.cols) && !g.IsBlocked(n) ==> n in visited'
    requires forall t :: t in visited' <==> t in visited || t in added
    requires forall t :: t in depth ==> t in d' && d'[t] == depth[t]
    requires forall t :: t in added ==> t in d' && d'[t] == depth[all[head]] + 1
    ensures forall w :: g.Adj(all[head], w) && g.Passable(w) ==>
              w in visited' && w in d' && d'[w] <= depth[all[head]] + 1
  {
    var cur := all[head];
    forall w | g.Adj(cur, w) && g.Passable(w)
      ensures w in visited' && w in d' && d'[w] <= depth[cur] + 1
    {
      assert w in Neighbors(cur, g.rows, g.cols);
      if w in visited {
        var i :| 0 <= i < |all| && all[i] == w;
        if i < head {
          assert depth[all[i]] <= depth[all[head]];
        }
      }
    }
  }


  lemma LayeredAppend(all: seq<Tile>, added: seq<Tile>, head: int, depth: map<Tile, nat>, d': map<Tile, nat>)
    requires Layered(all, head, depth) && 0 <= head < |all|
    requires forall t :: t in all ==> t in d' && d'[t] == depth[t]
    requires forall t :: t in added ==> t in d' && d'[t] == depth[all[head]] + 1
    ensures Layered(all + added, head + 1, d')
  {
    var d := depth[all[head]];
    var all' := all + added;
    assert forall a :: 0 <= a < |all| ==> depth[all[a]] <= d + 1 by {
      forall a | 0 <= a < |all|
        ensures depth[all[a]] <= d + 1
      {
        if a < head {
          assert depth[all[a]] <= depth[all[head]];
        }
      }
    }
    forall t | t in all'
      ensures t in d'
    {
      if t !in all { assert t in added; }
    }
    forall a, b | 0 <= a <= b < |all'|
      ensures d'[all'[a]] <= d'[all'[b]]
    {
      if b >= |all| {
        assert all'[b] == added[b - |all|];
        if a >= |all| {
          assert all'[a] == added[a - |all|];
        } else {
          assert all'[a] == all[a];
        }
      } else {
        assert all'[a] == all[a] && all'[b] == all[b];
      }
    }
    if head + 1 < |all'| {
      forall b | head + 1 <= b < |all'|
        ensures d'[all'[b]] <= d'[all'[head + 1]] + 1
      {
        if b >= |all| {
          assert all'[b] == added[b - |all|];
        } else {
          assert all'[b] == all[b];
        }
        if head + 1 >= |all| {
          assert all'[head + 1] == added[head + 1 - |all|];
        } else {
          assert all'[head + 1] == all[head + 1];
          assert depth[all[head]] <= depth[all[head + 1]];
        }
      }
    }
  }

  lemma ExpandedAppend(g: Grid, all: seq<Tile>, added: seq<Tile>, head: int, visited: set<Tile>,
                       depth: map<Tile, nat>, visited': set<Tile>, d': map<Tile, nat>)
    requires Expanded(g, all, head, visited, depth)
    requires 0 <= head < |all| && !g.Border(all[head]) && all[head] in depth
    requires forall t :: t in visited ==> t in visited'
    requires forall t :: t in depth ==> t in d' && d'[t] == depth[t]
    requires forall w :: g.Adj(all[head], w) && g.Passable(w) ==>
               w in visited' && w in d' && d'[w] <= depth[all[head]] + 1
    ensures Expanded(g, all + added, head + 1, visited', d')
  {
    var all' := all + added;
    forall a | 0 <= a < head + 1 && a < |all'|
      ensures !g.Border(all'[a]) && all'[a] in d'
      ensures forall w :: g.Adj(all'[a], w) && g.Passable(w) ==> w in visited' && w in d' && d'[w] <= d'[all'[a]] + 1
    {
      assert all'[a] == all[a];
    }
  }

  lemma NearAppend(g: Grid, start: Tile, all: seq<Tile>, added: seq<Tile>, head: int, visited: set<Tile>,
                   depth: map<Tile, nat>, d': map<Tile, nat>)
    requires Near(g, start, all, head, depth) && Expanded(g, all, head, visited, depth)
    requires Layered(all, head, depth)
    requires 0 <= head < |all| && all[0] == start && all[head] in depth
    requires start in depth && depth[start] == 0
    requires forall t :: t in visited <==> t in all
    requires forall t :: t in depth ==> t in d' && d'[t] == depth[t]
    requires Layered(all + added, head + 1, d')
    requires forall t :: t in added ==> t in d' && d'[t] == depth[all[head]] + 1
    ensures Near(g, start, all + added, head + 1, d')
  {
    var d := depth[all[head]];
    var all' := all + added;
    if head + 1 < |all'| {
      var D := d'[all'[head + 1]];
      assert all'[head] == all[head] && d'[all'[head]] == d;
      if head + 1 < |all| {
        assert all'[head + 1] == all[head + 1];
      } else {
        assert all'[head + 1] == added[head + 1 - |all|];
      }
      assert D <= d + 1;
      forall b | head + 1 <= b < |all|
        ensures all[b] in depth && D <= depth[all[b]]
      {
        assert all'[b] == all[b];
      }
      forall p | IsWalk(g, start, p) && |p| <= D
        ensures p[|p| - 1] in all'[..head + 1] && p[|p| - 1] in d' && d'[p[|p| - 1]] < |p|
      {
        NearWalk(g, start, all, added, head, visited, depth, d', p);
      }
    }
  }

  /** One walk of the `NearAppend` argument: its last step leaves a tile polled earlier. */
  lemma NearWalk(g: Grid, start: Tile, all: seq<Tile>, added: seq<Tile>, head: int, visited: set<Tile>,
                 depth: map<Tile, nat>, d': map<Tile, nat>, p: seq<Tile>)
    requires Near(g, start, all, head, depth) && Expanded(g, all, head, visited, depth)
    requires 0 <= head < |all| && all[0] == start && all[head] in depth
    requires forall t :: t in visited <==> t in all
    requires forall t :: t in depth ==> t in d' && d'[t] == depth[t]
    requires head + 1 < |all + added| && (all + added)[head + 1] in d'
    requires d'[(all + added)[head + 1]] <= depth[all[head]] + 1
    requires forall b :: head + 1 <= b < |all| ==> all[b] in depth && d'[(all + added)[head + 1]] <= depth[all[b]]
    requires IsWalk(g, start, p) && |p| <= d'[(all + added)[head + 1]]
    requires start in depth && depth[start] == 0
    ensures p[|p| - 1] in (all + added)[..head + 1] && p[|p| - 1] in d' && d'[p[|p| - 1]] < |p|
  {
    var all' := all + added;
    assert all'[0] == start;
    if |p| > 1 {
      var pre := p[..|p| - 1];
      assert IsWalk(g, start, pre);
      assert |pre| <= depth[all[head]];
      assert pre[|pre| - 1] in all[..head] && depth[pre[|pre| - 1]] < |pre|;
      var u := pre[|pre| - 1];
      var a :| 0 <= a < head && all[a] == u;
      var w := p[|p| - 1];
      assert g.Adj(p[|p| - 2], p[|p| - 1]) && g.Passable(w);
      assert w in visited && depth[w] <= depth[u] + 1;
      var i :| 0 <= i < |all| && all[i] == w;
      assert depth[all[i]] < |p|;
      assert i < head + 1;
      assert all'[i] == w;
      assert w in all'[..head + 1];
    }
  }

  /** Stopping at a border tile: it joins the expanded tiles, and its parent chain is an escape route. */
  lemma ExitFound(g: Grid, start: Tile, all: seq<Tile>, head: int, parent: map<Tile, Tile>, depth: map<Tile, nat>)
    requires 0 <= head < |all| && g.Border(all[head]) && all[head] in depth
    requires SearchTree(g, start, parent, depth, all[..head])
    ensures SearchTree(g, start, parent, depth, all[..head + 1])
    ensures EscapeWalk(g, start, ReconstructPath(Some(all[head]), parent, depth))
  {
    var cur := all[head];
    var order := all[..head + 1];
    assert order == all[..head] + [cur];
    SearchTreeGrow(g, start, parent, depth, all[..head], order);
    TreePath(g, start, parent, depth, order, cur);
  }

  /** No escape route is shorter than the depth of the first border tile polled. */
  lemma ExitNearest(g: Grid, start: Tile, all: seq<Tile>, head: int, depth: map<Tile, nat>)
    requires Near(g, start, all, head, depth)
    requires forall a :: 0 <= a < head && a < |all| ==> !g.Border(all[a])
    requires 0 <= head < |all| && all[head] in depth
    ensures forall p :: EscapeWalk(g, start, p) ==> depth[all[head]] < |p|
  {
    forall p | EscapeWalk(g, start, p)
      ensures depth[all[head]] < |p|
    {
      if |p| <= depth[all[head]] {
        assert false;
      }
    }
  }

  /** An emptied queue leaves an enclosed region around `start`: no escape route exists. */
  lemma QueueExhausted(g: Grid, start: Tile, all: seq<Tile>, visited: set<Tile>,
                       parent: map<Tile, Tile>, depth: map<Tile, nat>)
    requires Shape(g, start, all, |all|, visited, parent, depth) && Expanded(g, all, |all|, visited, depth)
    ensures !CanEscape(g, start)
  {
    assert Enclosed(g, visited);
    EnclosedTraps(g, start, visited);
  }

  /** Before the first poll the queue holds just `start`, at depth 0. */
  lemma InitInv(g: Grid, start: Tile)
    requires g.Valid() && g.InBounds(start)
    ensures Inv(g, start, [start], 0, {start}, map[], map[start := 0])
  {
    var all, depth: map<Tile, nat> := [start], map[start := 0];
    assert SearchTree(g, start, map[], depth, all[..0]);
    assert Shape(g, start, all, 0, {start}, map[], depth);
    assert Layered(all, 0, depth);
    forall p | IsWalk(g, start, p) && |p| <= depth[start]
      ensures false
    {
    }
    assert Near(g, start, all, 0, depth);
  }

  /**
   * One iteration of the polling loop for a non-border tile: enqueue its
   * unvisited, unblocked neighbours with it as their parent.
   */
  method Expand(g: Grid, start: Tile, all: seq<Tile>, head: int, visited: set<Tile>,
                parent: map<Tile, Tile>, ghost depth: map<Tile, nat>)
    returns (all': seq<Tile>, head': int, visited': set<Tile>, parent': map<Tile, Tile>, ghost depth': map<Tile, nat>)
    requires Inv(g, start, all, head, visited, parent, depth)
    requires head < |all| && !g.Border(all[head])
    ensures Inv(g, start, all', head', visited', parent', depth')
    ensures head' == head + 1 && |all'| >= |all|
    ensures |all'| == |all| ==> visited' == visited
    ensures |all'| > |all| ==> AllTiles(g.rows, g.cols) - visited' < AllTiles(g.rows, g.cols) - visited
  {
    var cur := all[head];
    var f := Discover(g, cur, Neighbors(cur, g.rows, g.cols), Frontier(all, visited, parent));
    StepPreserves(g, start, all, head, visited, parent, depth, f);
    StepProgress(g, all, visited, parent, cur, f);
    all', head', visited', parent' := f.items, head + 1, f.visited, f.parent;
    depth' := Deepen(depth, cur, f.visited);
  }

  /** The visited order when the search stops at the border tile `all[head]`. */
  lemma ExitOrder(g: Grid, start: Tile, all: seq<Tile>, head: int, order: seq<Tile>)
    requires 0 <= head < |all| && order == all[..head + 1]
    requires all[0] == start && NoDup(all)
    requires forall t :: t in all ==> g.InBounds(t) && (t == start || !g.IsBlocked(t))
    requires forall a :: 0 <= a < head && a < |all| ==> !g.Border(all[a])
    ensures Polled(g, start, order)
  {
    forall k | 0 <= k < |order| - 1
      ensures !g.Border(order[k])
    {
      assert order[k] == all[k];
    }
  }

  /** The tree and the escape route when the search stops at the border tile `all[head]`. */
  lemma ExitTree(g: Grid, start: Tile, all: seq<Tile>, head: int, parent: map<Tile, Tile>,
                 depth: map<Tile, nat>, order: seq<Tile>)
    requires 0 <= head < |all| && g.Border(all[head]) && all[head] in depth && order == all[..head + 1]
    requires SearchTree(g, start, parent, depth, all[..head])
    requires forall a :: 0 <= a < head && a < |all| ==> !g.Border(all[a])
    requires Near(g, start, all, head, depth)
    ensures Outcome(g, start, order, Some(all[head]), parent, depth)
    ensures Nearest(g, start, depth, Some(all[head]))
  {
    ExitFound(g, start, all, head, parent, depth);
    ExitNearest(g, start, all, head, depth);
    assert order[|order| - 1] == all[head];
  }

  /** The outcome of the search when the queue runs empty. */
  lemma FinishEmpty(g: Grid, start: Tile, all: seq<Tile>, visited: set<Tile>,
                    parent: map<Tile, Tile>, depth: map<Tile, nat>)
    requires Shape(g, start, all, |all|, visited, parent, depth) && Expanded(g, all, |all|, visited, depth)
    ensures Polled(g, start, all)
    ensures Outcome(g, start, all, None, parent, depth)
  {
    assert all[..|all|] == all;
    QueueExhausted(g, start, all, visited, parent, depth);
  }

  /**
   * The polling loop of `findPath`: poll the queue until it is empty or the
   * polled tile is on the border, enqueueing the unvisited, unblocked
   * neighbours of every other polled tile. On return `all[head]`, if it
   * exists, is the border tile the loop stopped at.
   */
  method Poll(g: Grid, start: Tile)
    returns (all: seq<Tile>, head: int, visited: set<Tile>, parent: map<Tile, Tile>, ghost depth: map<Tile, nat>)
    requires g.Valid() && g.InBounds(start)
    ensures Shape(g, start, all, head, visited, parent, depth)
    ensures Expanded(g, all, head, visited, depth) && Near(g, start, all, head, depth)
    ensures head < |all| ==> g.Border(all[head])
  {
    all, head, visited := [start], 0, {start};
    parent := map[];
    depth := map[start := 0];
    InitInv(g, start);
    while head < |all| && !g.Border(all[head])
      invariant Inv(g, start, all, head, visited, parent, depth)
      decreases AllTiles(g.rows, g.cols) - visited, |all| - head
    {
      all, head, visited, parent, depth := Expand(g, start, all, head, visited, parent, depth);
    }
  }

  /**
   * The search proper: the polled tiles in order, the border tile the search
   * stopped at (if any), the parent map, and, as a ghost, the depth of every
   * enqueued tile.
   */
  method Search(g: Grid, start: Tile)
    returns (order: seq<Tile>, exit: Option<Tile>, parent: map<Tile, Tile>, ghost depth: map<Tile, nat>)
    requires g.Valid() && g.InBounds(start)
    ensures Polled(g, start, order)
    ensures Outcome(g, start, order, exit, parent, depth)
    ensures Nearest(g, start, depth, exit)
  {
    var all, head, visited;
    all, head, visited, parent, depth := Poll(g, start);
    if head < |all| {
      exit := Some(all[head]);
      order := all[..head + 1];
      ExitOrder(g, start, all, head, order);
      ExitTree(g, start, all, head, parent, depth, order);
    } else {
      exit := None;
      order := all;
      FinishEmpty(g, start, all, visited, parent, depth);
    }
  }

  /**
   * `findPath`: the polling loop followed by `reconstructPath`. Besides the
   * common contract, the visited order has no repeats and at most
   * `rows * cols` tiles, and a non-empty path is a shortest escape route.
   */
  method FindPath(g: Grid, start: Tile) returns (r: PathfindingResult)
    requires g.Valid() && g.InBounds(start)
    ensures Sound(g, start, r)
    ensures NoDup(r.visitedOrder) && r.NodesExplored() <= g.rows * g.cols
    ensures r.path != [] ==> Shortest(g, start, r.path)
  {
    var order, exit, parent, depth := Search(g, start);
    r := PathfindingResult(order, ReconstructPath(exit, parent, depth));
    OutcomeResult(g, start, order, exit, parent, depth);
    TileSeqBound(g, order);
  }
}
