/**
 * The `PathfindingStrategy` interface: the three strategies as the
 * constructors of one datatype, dispatched by `match`. The constructor also
 * serves as the key of the path cache, where Java uses the class's simple
 * name.
 */
module Strategies {
  import opened StrategyUtils
  import opened Board
  import opened Results
  import BfsStrategy
  import DfsStrategy
  import AStarStrategy

  datatype Strategy = BFS | DFS | AStar

  /** `strategy.findPath(grid, start, rowNum, colNum)`. */
  method FindPath(strategy: Strategy, g: Grid, start: Tile) returns (r: PathfindingResult)
    requires g.Valid() && g.InBounds(start)
    ensures Sound(g, start, r)
    ensures strategy != DFS && r.path != [] ==> Shortest(g, start, r.path)
    ensures strategy != AStar ==> NoDup(r.visitedOrder) && r.NodesExplored() <= g.rows * g.cols
  {
    match strategy
    case BFS => r := BfsStrategy.FindPath(g, start);
    case DFS => r := DfsStrategy.FindPath(g, start);
    case AStar => r := AStarStrategy.FindPath(g, start);
  }

  /**
   * Two sound results whose non-empty paths are shortest escape routes have
   * paths of the same length: both are empty when the cat is trapped, and
   * two shortest routes are equally long otherwise.
   */
  lemma SameLength(g: Grid, start: Tile, a: PathfindingResult, b: PathfindingResult)
    requires Sound(g, start, a) && (a.path != [] ==> Shortest(g, start, a.path))
    requires Sound(g, start, b) && (b.path != [] ==> Shortest(g, start, b.path))
    ensures a.PathLength() == b.PathLength()
  {
    if a.path != [] {
      ShortestUnique(g, start, a.path, b.path);
    }
  }

  /** A* and breadth-first search find escape routes of the same length, whatever A*'s tie-breaking. */
  method AStarMatchesBfs(g: Grid, start: Tile) returns (a: PathfindingResult, b: PathfindingResult)
    requires g.Valid() && g.InBounds(start)
    ensures Sound(g, start, a) && Sound(g, start, b)
    ensures a.PathLength() == b.PathLength()
  {
    a := AStarStrategy.FindPath(g, start);
    b := BfsStrategy.FindPath(g, start);
    SameLength(g, start, a, b);
  }

  /**
   * On an empty 5 x 5 board, a search from the centre tile (2, 2) by
   * breadth-first search or A* finds a path of three tiles, two steps away
   * from the nearest edge; breadth-first search explores at most the 25
   * tiles of the board.
   */
  method CentreOfFive(strategy: Strategy) returns (r: PathfindingResult)
    requires strategy != DFS
    ensures r.PathLength() == 3
    ensures strategy == BFS ==> r.NodesExplored() <= 25
  {
    var g := Grid(5, 5, seq(5, i => seq(5, j => false)));
    var centre := Tile(2, 2);
    r := FindPath(strategy, g, centre);
    assert EscapeWalk(g, centre, [centre, Tile(1, 2), Tile(0, 2)]);
    AStarStrategy.HeuristicAdmissible(g, centre, r.path);
  }
}
