/**
 * `DFSStrategy.findPath`: depth-first search with an explicit stack. A tile
 * is marked visited when it is pushed and joins the visited order when it is
 * popped; the search stops at the first popped tile on the border.
 *
 * The stack is a sequence whose last element is the top. The Java loop pops
 * a tile, records it, and breaks if it is on the border; the model's loop
 * runs while the top is off the border and pops the border tile after the
 * loop, which records the same tiles in the same order.
 */
module DfsStrategy {
  import opened StrategyUtils
  import opened Board
  import opened Results
  import opened Frontier

  /**
   * Bookkeeping: the popped tiles and the stack never repeat a tile and
   * together make up the visited tiles; every visited tile has a tree depth;
   * the parent map is a search tree over the popped tiles.
   */
  ghost predicate Shape(g: Grid, start: Tile, order: seq<Tile>, stack: seq<Tile>, visited: set<Tile>,
                        parent: map<Tile, Tile>, depth: map<Tile, nat>)
  {
    NoDup(order) && NoDup(stack) && (forall t :: t in order ==> t !in stack) &&
    (forall t :: t in visited <==> t in order || t in stack) &&
    (forall t :: t in depth <==> t in visited) &&
    (forall t :: t in visited ==> g.InBounds(t) && (t == start || !g.IsBlocked(t))) &&
    parent.Keys <= visited &&
    SearchTree(g, start, parent, depth, order) &&
    (forall k :: k in parent ==> depth[k] == depth[parent[k]] + 1) &&
    (order == [] ==> stack == [start]) &&
    (order != [] ==> order[0] == start)
  }

  /** Every popped tile is off the border and all its unblocked neighbours are marked visited. */
  ghost predicate Expanded(g: Grid, order: seq<Tile>, visited: set<Tile>)
  {
    forall t :: t in order ==> !g.Border(t) && forall w :: g.Adj(t, w) && g.Passable(w) ==> w in visited
  }

  ghost predicate Inv(g: Grid, start: Tile, order: seq<Tile>, stack: seq<Tile>, visited: set<Tile>,
                      parent: map<Tile, Tile>, depth: map<Tile, nat>)
  {
    g.Valid() && Shape(g, start, order, stack, visited, parent, depth) && Expanded(g, order, visited)
  }

  /** Before the first pop the stack holds just `start`. */
  lemma InitInv(g: Grid, start: Tile)
    requires g.Valid() && g.InBounds(start)
    ensures Inv(g, start, [], [start], {start}, map[], map[start := 0])
  {
    assert SearchTree(g, start, map[], map[start := 0], []);
  }

  /** A non-empty stack is the stack below its top followed by the top. */
  lemma PopLast(stack: seq<Tile>)
    requires stack != []
    ensures stack == stack[..|stack| - 1] + [stack[|stack| - 1]]
  {
  }

  /**
   * Popping `cur` off `rest + [cur]` and pushing the unvisited neighbours
   * `added` keeps the popped tiles and the stack duplicate-free, disjoint,
   * and together equal to the visited tiles.
   */
  lemma PushPop(order: seq<Tile>, rest: seq<Tile>, cur: Tile, visited: set<Tile>, added: seq<Tile>,
                visited': set<Tile>, order': seq<Tile>, stack': seq<Tile>)
    requires NoDup(order) && NoDup(rest + [cur]) && NoDup(added)
    requires forall t :: t in order ==> t !in rest + [cur]
    requires forall t :: t in visited <==> t in order || t in rest + [cur]
    requires forall t :: t in added ==> t !in visited
    requires forall t :: t in visited' <==> t in visited || t in added
    requires order' == order + [cur] && stack' == rest + added
    ensures NoDup(order') && NoDup(stack')
    ensures forall t :: t in order' ==> t !in stack'
    ensures forall t :: t in visited' <==> t in order' || t in stack'
  {
    assert forall t :: t in rest ==> t in rest + [cur];
    assert forall t :: t in rest ==> t in visited;
    assert NoDup(rest) by {
      forall a, b | 0 <= a < b < |rest|
        ensures rest[a] != rest[b]
      {
        assert (rest + [cur])[a] == rest[a] && (rest + [cur])[b] == rest[b];
      }
    }
    AppendNoDup(rest, added, visited, stack');
    forall a, b | 0 <= a < b < |order'|
      ensures order'[a] != order'[b]
    {
      if b == |order| {
        assert order'[a] in order;
      }
    }
    forall i | 0 <= i < |rest|
      ensures rest[i] != cur
    {
      assert (rest + [cur])[i] == rest[i] && (rest + [cur])[|rest|] == cur;
    }
  }

  /** The depth-first counterpart of `TreeGrow`, stated for the frontier `f`. */
  lemma StepLinks(g: Grid, start: Tile, order: seq<Tile>, stack: seq<Tile>, visited: set<Tile>,
                  parent: map<Tile, Tile>, depth: map<Tile, nat>, f: Frontier, d': map<Tile, nat>)
    requires Shape(g, start, order, stack, visited, parent, depth) && stack != []
    requires Extends(g, stack[|stack| - 1], Neighbors(stack[|stack| - 1], g.rows, g.cols),
                     Frontier(stack[..|stack| - 1], visited, parent), f)
    requires Deepened(depth, stack[|stack| - 1], Added(Frontier(stack[..|stack| - 1], visited, parent), f), f.visited, d')
    ensures SearchTree(g, start, f.parent, d', order + [stack[|stack| - 1]])
    ensures forall k :: k in f.parent ==> d'[k] == d'[f.parent[k]] + 1
  {
    var added := Added(Frontier(stack[..|stack| - 1], visited, parent), f);
    TreeGrow(g, start, order, stack[|stack| - 1], parent, depth, added, f.parent, d');
  }

  /** Popping a tile off the border and pushing its new neighbours preserves `Shape`. */
  lemma StepShape(g: Grid, start: Tile, order: seq<Tile>, stack: seq<Tile>, visited: set<Tile>,
                  parent: map<Tile, Tile>, depth: map<Tile, nat>, f: Frontier, d': map<Tile, nat>)
    requires Shape(g, start, order, stack, visited, parent, depth) && stack != []
    requires Extends(g, stack[|stack| - 1], Neighbors(stack[|stack| - 1], g.rows, g.cols),
                     Frontier(stack[..|stack| - 1], visited, parent), f)
    requires f.parent.Keys <= f.visited
    requires Deepened(depth, stack[|stack| - 1], Added(Frontier(stack[..|stack| - 1], visited, parent), f), f.visited, d')
    ensures Shape(g, start, order + [stack[|stack| - 1]], f.items, f.visited, f.parent, d')
  {
    var cur, rest := stack[|stack| - 1], stack[..|stack| - 1];
    var added := Added(Frontier(rest, visited, parent), f);
    StepLinks(g, start, order, stack, visited, parent, depth, f, d');
    ExtendsItems(Frontier(rest, visited, parent), f);
    PopLast(stack);
    PushPop(order, rest, cur, visited, added, f.visited, order + [cur], f.items);
    AppendInside(g, start, [cur], added, cur, [cur] + added);
    assert order == [] ==> cur == start;
    var order' := order + [cur];
    assert forall t :: t in f.visited ==> g.InBounds(t) && (t == start || !g.IsBlocked(t));
    assert forall t :: t in d' <==> t in f.visited;
    assert order'[0] == start;
    assert order' != [];
    assert Shape(g, start, order', f.items, f.visited, f.parent, d');
  }

  /** Popping a tile off the border keeps every popped tile expanded. */
  lemma StepExpanded(g: Grid, order: seq<Tile>, cur: Tile, visited: set<Tile>, visited': set<Tile>)
    requires Expanded(g, order, visited) && !g.Border(cur)
    requires forall t :: t in visited ==> t in visited'
    requires forall n :: n in Neighbors(cur, g.rows, g.cols) && !g.IsBlocked(n) ==> n in visited'
    ensures Expanded(g, order + [cur], visited')
  {
    forall t, w | t in order + [cur] && g.Adj(t, w) && g.Passable(w)
      ensures w in visited'
    {
      if t == cur {
        assert w in Neighbors(cur, g.rows, g.cols);
      }
    }
  }

  /** Popping a tile off the border and pushing its new neighbours preserves the invariant. */
  lemma StepPreserves(g: Grid, start: Tile, order: seq<Tile>, stack: seq<Tile>, visited: set<Tile>,
                      parent: map<Tile, Tile>, depth: map<Tile, nat>, f: Frontier)
    requires Inv(g, start, order, stack, visited, parent, depth)
    requires stack != [] && !g.Border(stack[|stack| - 1])
    requires Extends(g, stack[|stack| - 1], Neighbors(stack[|stack| - 1], g.rows, g.cols),
                     Frontier(stack[..|stack| - 1], visited, parent), f)
    requires f.parent.Keys <= f.visited
    ensures Inv(g, start, order + [stack[|stack| - 1]], f.items, f.visited, f.parent,
                Deepen(depth, stack[|stack| - 1], f.visited))
  {
    var cur := stack[|stack| - 1];
    var d' := Deepen(depth, cur, f.visited);
    var added := Added(Frontier(stack[..|stack| - 1], visited, parent), f);
    assert cur in visited;
    DeepenFacts(depth, cur, added, visited, f.visited);
    StepShape(g, start, order, stack, visited, parent, depth, f, d');
    StepExpanded(g, order, cur, visited, f.visited);
  }

  /**
   * One iteration of the loop for a top tile off the border: pop it, record
   * it, and push its unvisited, unblocked neighbours with it as their parent.
   */
  method Expand(g: Grid, start: Tile, order: seq<Tile>, stack: seq<Tile>, visited: set<Tile>,
                parent: map<Tile, Tile>, ghost depth: map<Tile, nat>)
    returns (order': seq<Tile>, stack': seq<Tile>, visited': set<Tile>, parent': map<Tile, Tile>,
             ghost depth': map<Tile, nat>)
    requires Inv(g, start, order, stack, visited, parent, depth)
    requires stack != [] && !g.Border(stack[|stack| - 1])
    ensures Inv(g, start, order', stack', visited', parent', depth')
    ensures order' == order + [stack[|stack| - 1]]
    ensures visited' == visited ==> |stack'| < |stack|
    ensures visited' != visited ==> AllTiles(g.rows, g.cols) - visited' < AllTiles(g.rows, g.cols) - visited
  {
    var cur := stack[|stack| - 1];
    var rest := stack[..|stack| - 1];
    var f := Discover(g, cur, Neighbors(cur, g.rows, g.cols), Frontier(rest, visited, parent));
    StepPreserves(g, start, order, stack, visited, parent, depth, f);
    StepProgress(g, rest, visited, parent, cur, f);
    order', stack', visited', parent' := order + [cur], f.items, f.visited, f.parent;
    depth' := Deepen(depth, cur, f.visited);
  }

  /** The visited order when the search stops at the border tile `cur`. */
  lemma ExitOrder(g: Grid, start: Tile, order: seq<Tile>, cur: Tile, order': seq<Tile>)
    requires NoDup(order) && cur !in order && order' == order + [cur]
    requires order == [] ==> cur == start
    requires order != [] ==> order[0] == start
    requires forall t :: t in order' ==> g.InBounds(t) && (t == start || !g.IsBlocked(t))
    requires forall t :: t in order ==> !g.Border(t)
    ensures Polled(g, start, order')
  {
    forall a, b | 0 <= a < b < |order'|
      ensures order'[a] != order'[b]
    {
      if b == |order| {
        assert order'[a] in order;
      }
    }
    forall k | 0 <= k < |order'| - 1
      ensures !g.Border(order'[k])
    {
      assert order'[k] in order;
    }
  }

  /** The tree and the escape route when the search stops at the border tile `cur`. */
  lemma ExitTree(g: Grid, start: Tile, order: seq<Tile>, cur: Tile, parent: map<Tile, Tile>,
                 depth: map<Tile, nat>, order': seq<Tile>)
    requires SearchTree(g, start, parent, depth, order) && cur in depth && g.Border(cur)
    requires order' == order + [cur]
    ensures Outcome(g, start, order', Some(cur), parent, depth)
  {
    SearchTreeGrow(g, start, parent, depth, order, order');
    TreePath(g, start, parent, depth, order', cur);
    assert EscapeWalk(g, start, ReconstructPath(Some(cur), parent, depth));
  }

  /** Stopping at the border tile on top of the stack: the search has found an escape route. */
  lemma ExitFound(g: Grid, start: Tile, order: seq<Tile>, stack: seq<Tile>, visited: set<Tile>,
                  parent: map<Tile, Tile>, depth: map<Tile, nat>)
    requires Inv(g, start, order, stack, visited, parent, depth)
    requires stack != [] && g.Border(stack[|stack| - 1])
    ensures Polled(g, start, order + [stack[|stack| - 1]])
    ensures Outcome(g, start, order + [stack[|stack| - 1]], Some(stack[|stack| - 1]), parent, depth)
  {
    var cur := stack[|stack| - 1];
    assert cur in stack && cur in visited;
    ExitOrder(g, start, order, cur, order + [cur]);
    ExitTree(g, start, order, cur, parent, depth, order + [cur]);
  }

  /** An empty stack leaves an enclosed region around `start`: no escape route exists. */
  lemma StackEmptied(g: Grid, start: Tile, order: seq<Tile>, visited: set<Tile>,
                     parent: map<Tile, Tile>, depth: map<Tile, nat>)
    requires Inv(g, start, order, [], visited, parent, depth)
    ensures Polled(g, start, order)
    ensures Outcome(g, start, order, None, parent, depth)
  {
    assert Enclosed(g, visited);
    EnclosedTraps(g, start, visited);
  }

  /**
   * The search proper: the popped tiles in order, the border tile the
   * search stopped at (if any), the parent map, and, as a ghost, the depth
   * of every visited tile in the search tree.
   */
  method Search(g: Grid, start: Tile)
    returns (order: seq<Tile>, exit: Option<Tile>, parent: map<Tile, Tile>, ghost depth: map<Tile, nat>)
    requires g.Valid() && g.InBounds(start)
    ensures Polled(g, start, order)
    ensures Outcome(g, start, order, exit, parent, depth)
  {
    var stack, visited := [start], {start};
    order, parent := [], map[];
    depth := map[start := 0];
    InitInv(g, start);
    while stack != [] && !g.Border(stack[|stack| - 1])
      invariant Inv(g, start, order, stack, visited, parent, depth)
      decreases AllTiles(g.rows, g.cols) - visited, |stack|
    {
      order, stack, visited, parent, depth := Expand(g, start, order, stack, visited, parent, depth);
    }
    if stack != [] {
      var cur := stack[|stack| - 1];
      ExitFound(g, start, order, stack, visited, parent, depth);
      order, exit := order + [cur], Some(cur);
    } else {
      StackEmptied(g, start, order, visited, parent, depth);
      exit := None;
    }
  }

  /**
   * `findPath`: the stack loop followed by `reconstructPath`. Besides the
   * common contract, the visited order has no repeats and at most
   * `rows * cols` tiles.
   */
  method FindPath(g: Grid, start: Tile) returns (r: PathfindingResult)
    requires g.Valid() && g.InBounds(start)
    ensures Sound(g, start, r)
    ensures NoDup(r.visitedOrder) && r.NodesExplored() <= g.rows * g.cols
  {
    var order, exit, parent, depth := Search(g, start);
    r := PathfindingResult(order, ReconstructPath(exit, parent, depth));
    OutcomeResult(g, start, order, exit, parent, depth);
    TileSeqBound(g, order);
  }
}
