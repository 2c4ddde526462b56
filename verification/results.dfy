/**
 * `PathfindingResult` and the contract every search strategy meets: the
 * visited order starts at the start tile and stops at the first border tile
 * expanded, and the path is empty exactly when the border is unreachable,
 * otherwise an escape route through expanded tiles.
 */
module Results {
  import opened StrategyUtils
  import opened Board

  /** The immutable pair a search returns. */
  datatype PathfindingResult = PathfindingResult(visitedOrder: seq<Tile>, path: seq<Tile>)
  {
    /** `getNodesExplored`. */
    function NodesExplored(): nat
    {
      |visitedOrder|
    }

    /** `getPathLength`: counts tiles, not steps, so a path `[start]` has length 1. */
    function PathLength(): nat
    {
      |path|
    }
  }

  /**
   * The parent map a search builds: every ranked tile other than `start` has
   * a parent, each child is passable and a hex neighbour of its parent, and
   * every parent is a tile the search has already expanded.
   */
  ghost predicate SearchTree(g: Grid, start: Tile, parent: map<Tile, Tile>, rank: map<Tile, nat>, expanded: seq<Tile>)
  {
    g.InBounds(start) && Ranked(parent, rank) && start in rank && start !in parent &&
    (forall t {:trigger t in parent} :: t in rank ==> t == start || t in parent) &&
    Links(g, parent, expanded) &&
    (forall t :: t in expanded ==> t in rank)
  }

  /** Each child is passable and a hex neighbour of its parent, and each parent has been expanded. */
  ghost predicate Links(g: Grid, parent: map<Tile, Tile>, expanded: seq<Tile>)
  {
    forall k :: k in parent ==> g.Passable(k) && g.Adj(parent[k], k) && parent[k] in expanded
  }

  /** A parent map whose links each go one rank down is a search tree. */
  lemma SearchTreeIntro(g: Grid, start: Tile, parent: map<Tile, Tile>, rank: map<Tile, nat>, expanded: seq<Tile>)
    requires g.InBounds(start) && start in rank && start !in parent
    requires Links(g, parent, expanded)
    requires forall k :: k in parent ==> k in rank && parent[k] in rank && rank[k] == rank[parent[k]] + 1
    requires forall t {:trigger t in parent} :: t in rank ==> t == start || t in parent
    requires forall t :: t in expanded ==> t in rank
    ensures SearchTree(g, start, parent, rank, expanded)
  {
  }

  /**
   * Reconstructing from an expanded tile yields a walk from `start` to it,
   * through expanded tiles only, with at most `rank[end] + 1` tiles.
   */
  lemma TreePath(g: Grid, start: Tile, parent: map<Tile, Tile>, rank: map<Tile, nat>, expanded: seq<Tile>, end: Tile)
    requires SearchTree(g, start, parent, rank, expanded) && end in expanded
    ensures IsWalk(g, start, ReconstructPath(Some(end), parent, rank))
    ensures forall t :: t in ReconstructPath(Some(end), parent, rank) ==> t in expanded
    ensures |ReconstructPath(Some(end), parent, rank)| <= rank[end] + 1
  {
    var path := ReconstructPath(Some(end), parent, rank);
    assert path[0] in rank && path[0] !in parent;
    forall k | 1 <= k < |path|
      ensures g.Passable(path[k]) && g.Adj(path[k - 1], path[k])
    {
      assert path[k] in parent && parent[path[k]] == path[k - 1];
    }
    forall k | 0 <= k < |path|
      ensures path[k] in expanded
    {
      if k < |path| - 1 {
        assert path[k + 1] in parent && parent[path[k + 1]] == path[k];
      }
    }
  }

  /**
   * The visited order of a search: it starts at `start`, holds only `start`
   * and unblocked tiles of the board, and only its last tile may lie on the
   * border.
   */
  ghost predicate Visits(g: Grid, start: Tile, order: seq<Tile>)
  {
    |order| >= 1 && order[0] == start &&
    (forall t :: t in order ==> g.InBounds(t) && (t == start || !g.IsBlocked(t))) &&
    (forall k :: 0 <= k < |order| - 1 ==> !g.Border(order[k]))
  }

  /** The visited order of a search that marks tiles when it first reaches them: no tile twice. */
  ghost predicate Polled(g: Grid, start: Tile, order: seq<Tile>)
  {
    Visits(g, start, order) && NoDup(order)
  }

  /**
   * What a search finds: a search tree over the polled tiles, and a border
   * tile exactly when an escape route exists, namely the last tile polled.
   */
  ghost predicate Outcome(g: Grid, start: Tile, order: seq<Tile>, exit: Option<Tile>,
                          parent: map<Tile, Tile>, rank: map<Tile, nat>)
  {
    |order| >= 1 && SearchTree(g, start, parent, rank, order) &&
    (exit.Some? <==> CanEscape(g, start)) &&
    (exit.Some? ==> exit.value == order[|order| - 1] && g.Border(exit.value))
  }

  /** No escape route has `rank[exit]` steps or fewer: the exit is as close as a border tile can be. */
  ghost predicate Nearest(g: Grid, start: Tile, rank: map<Tile, nat>, exit: Option<Tile>)
  {
    exit.Some? ==> exit.value in rank && forall p :: EscapeWalk(g, start, p) ==> rank[exit.value] < |p|
  }

  /** The search visits `start` first and stops at the first border tile it expands. */
  ghost predicate Explores(g: Grid, start: Tile, r: PathfindingResult)
  {
    Visits(g, start, r.visitedOrder)
  }

  /**
   * The path is empty exactly when no escape route exists, and then no
   * visited tile lies on the border; otherwise it is a duplicate-free escape
   * route through visited tiles ending at the last visited tile.
   */
  ghost predicate FindsEscape(g: Grid, start: Tile, r: PathfindingResult)
  {
    (r.path == [] <==> !CanEscape(g, start)) &&
    (r.path == [] ==> forall t :: t in r.visitedOrder ==> !g.Border(t)) &&
    (r.path != [] ==>
       |r.visitedOrder| >= 1 &&
       EscapeWalk(g, start, r.path) && NoDup(r.path) &&
       r.path[|r.path| - 1] == r.visitedOrder[|r.visitedOrder| - 1] &&
       forall t :: t in r.path ==> t in r.visitedOrder)
  }

  /**
   * The result a search returns: its visited order, and the path
   * `reconstructPath` builds from the exit it found. It meets the common
   * contract, and its path is a shortest escape route when the exit is a
   * nearest border tile.
   */
  lemma OutcomeResult(g: Grid, start: Tile, order: seq<Tile>, exit: Option<Tile>,
                      parent: map<Tile, Tile>, rank: map<Tile, nat>)
    requires Visits(g, start, order) && Outcome(g, start, order, exit, parent, rank)
    ensures Sound(g, start, PathfindingResult(order, ReconstructPath(exit, parent, rank)))
    ensures Nearest(g, start, rank, exit) && exit.Some? ==> Shortest(g, start, ReconstructPath(exit, parent, rank))
  {
    if exit.Some? {
      TreePath(g, start, parent, rank, order, exit.value);
    } else {
      TrappedVisitsNoBorder(g, start, parent, rank, order);
    }
  }

  /**
   * Every tile of a search tree is reached by a walk from `start`, so when
   * no escape route exists none of the expanded tiles is on the border.
   */
  lemma TrappedVisitsNoBorder(g: Grid, start: Tile, parent: map<Tile, Tile>, rank: map<Tile, nat>, expanded: seq<Tile>)
    requires SearchTree(g, start, parent, rank, expanded) && !CanEscape(g, start)
    ensures forall t :: t in expanded ==> !g.Border(t)
  {
    forall t | t in expanded
      ensures !g.Border(t)
    {
      TreePath(g, start, parent, rank, expanded, t);
      var p := ReconstructPath(Some(t), parent, rank);
      if g.Border(t) {
        assert EscapeWalk(g, start, p);
        assert false;
      }
    }
  }

  /** The common contract of the three strategies. */
  ghost predicate Sound(g: Grid, start: Tile, r: PathfindingResult)
  {
    Explores(g, start, r) && FindsEscape(g, start, r)
  }

  /** A search started on the border visits only the start, and the path is just the start. */
  lemma BorderStartResult(g: Grid, start: Tile, r: PathfindingResult)
    requires g.InBounds(start) && g.Border(start)
    requires Sound(g, start, r)
    ensures r.visitedOrder == [start] && r.path == [start]
    ensures r.NodesExplored() == 1 && r.PathLength() == 1
  {
    assert EscapeWalk(g, start, [start]);
    assert r.visitedOrder == [start];
  }

  lemma {:induction false} ElemsCard(s: seq<Tile>)
    ensures |Elems(s)| <= |s|
  {
    if s != [] {
      var init := s[..|s| - 1];
      assert Elems(s) == Elems(init) + {s[|s| - 1]};
      ElemsCard(init);
    }
  }

  /** A sound result never reports a path longer than the number of tiles it explored. */
  lemma PathNoLongerThanExplored(g: Grid, start: Tile, r: PathfindingResult)
    requires FindsEscape(g, start, r)
    ensures r.PathLength() <= r.NodesExplored()
  {
    if r.path != [] {
      DistinctCard(r.path);
      ElemsCard(r.visitedOrder);
      SubsetCard(Elems(r.path), Elems(r.visitedOrder));
    }
  }

  /** A parent-map tree stays a tree when the sequence of expanded tiles grows. */
  lemma SearchTreeGrow(g: Grid, start: Tile, parent: map<Tile, Tile>, rank: map<Tile, nat>,
                       e1: seq<Tile>, e2: seq<Tile>)
    requires SearchTree(g, start, parent, rank, e1)
    requires forall t :: t in e1 ==> t in e2
    requires forall t :: t in e2 ==> t in rank
    ensures SearchTree(g, start, parent, rank, e2)
  {
  }
}
