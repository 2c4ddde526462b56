/**
 * The state rules of `Game`: a click blocks a free tile and costs a move,
 * then the cat takes one step along a shortest escape route, and the game
 * ends when the cat is trapped or reaches the border. Obstacle placement
 * draws random tiles; the draws are an input here, and only its acceptance
 * guard is modelled.
 *
 * The breadth-first loop of `moveCatOneStep` is the polling loop of
 * `BFSStrategy.findPath` (tiles are marked when first reached, the parent
 * map doubling as the mark, and the loop stops at the first border tile
 * polled), so it is modelled by `BfsStrategy.Search`.
 */
module HexGame {
  import opened StrategyUtils
  import opened Board
  import opened Results
  import BfsStrategy

  /** The number of obstacles `placeObstacles` places. */
  const Obstacles := 15

  /** The game state: the board, the cat's tile, whether the game is over, and the number of moves. */
  datatype GameState = GameState(g: Grid, cat: Tile, gameOver: bool, moves: int)

  /**
   * The states play reaches: the cat stands on an unblocked tile of the
   * board, and off the border while the game goes on.
   */
  ghost predicate Playable(s: GameState)
  {
    s.g.Valid() && s.g.InBounds(s.cat) && !s.g.IsBlocked(s.cat) && (!s.gameOver ==> !s.g.Border(s.cat))
  }

  /** `getDirections` of `Game`: Java's `row % 2 == 0` picks the even table. */
  function GameDirections(row: int): (dirs: seq<Offset>)
    ensures dirs == Directions(row)
  {
    if JavaParity(row) == 0 then EvenDirs else OddDirs
  }

  /**
   * `getNeighbors` of `Game`: the loop over the row's offset table that
   * keeps the tiles inside the board. It returns the list
   * `StrategyUtils.getNeighbors` returns.
   */
  method GameNeighbors(t: Tile, rows: int, cols: int) returns (r: seq<Tile>)
    ensures r == Neighbors(t, rows, cols)
  {
    r := KeepInBounds(t, GameDirections(t.i), rows, cols);
  }

  /** The loop body of `getNeighbors`: each offset's tile, in table order, when it lies inside the board. */
  method KeepInBounds(t: Tile, dirs: seq<Offset>, rows: int, cols: int) returns (r: seq<Tile>)
    ensures r == Shift(t, dirs, rows, cols)
  {
    r := [];
    var k := 0;
    while k < |dirs|
      invariant 0 <= k <= |dirs|
      invariant r == Shift(t, dirs[..k], rows, cols)
    {
      var n := Step(t, dirs[k]);
      ShiftPrefix(t, dirs, k, rows, cols);
      if InBounds(n, rows, cols) {
        r := r + [n];
      }
      k := k + 1;
    }
    assert dirs[..k] == dirs;
  }

  /**
   * The first-step walk of `moveCatOneStep`: from the exit tile, follow
   * parent links until the parent is the cat. The tile reached is the
   * second tile of the reconstructed path to the exit. The exit must not be
   * the cat itself: from there the Java walk never ends.
   */
  method FirstStep(exit: Tile, parent: map<Tile, Tile>, ghost rank: map<Tile, nat>, cat: Tile) returns (next: Tile)
    requires Ranked(parent, rank) && exit in rank && cat in rank && cat !in parent && exit != cat
    requires forall t {:trigger t in parent} :: t in rank ==> t == cat || t in parent
    ensures next in parent && parent[next] == cat
    ensures |ReconstructPath(Some(exit), parent, rank)| >= 2
    ensures ReconstructPath(Some(exit), parent, rank)[1] == next
  {
    next := exit;
    ReconstructStep(exit, parent, rank);
    while parent[next] != cat
      invariant next in rank && next in parent
      invariant |ReconstructPath(Some(next), parent, rank)| >= 2
      invariant |ReconstructPath(Some(exit), parent, rank)| >= 2
      invariant ReconstructPath(Some(next), parent, rank)[1] == ReconstructPath(Some(exit), parent, rank)[1]
      decreases rank[next]
    {
      var up := parent[next];
      assert up in parent;
      ReconstructStep(next, parent, rank);
      ReconstructStep(up, parent, rank);
      next := up;
    }
    ReconstructStep(next, parent, rank);
    ReconstructRoot(cat, parent, rank);
  }

  /**
   * `moveCatOneStep`, for a cat off the border (on the border the Java
   * first-step walk would not end). With no escape route the cat stays and
   * the game is over (the player wins). Otherwise the cat steps to an
   * unblocked neighbour, the second tile of a shortest escape route, and the
   * game becomes over when that tile is on the border (the cat escapes). The
   * flag is only ever set, never cleared.
   */
  method MoveCatOneStep(s: GameState) returns (r: GameState, ghost route: seq<Tile>)
    requires s.g.Valid() && s.g.InBounds(s.cat) && !s.g.Border(s.cat)
    ensures r.g == s.g && r.moves == s.moves
    ensures !CanEscape(s.g, s.cat) ==> r == s.(gameOver := true)
    ensures CanEscape(s.g, s.cat) ==>
              s.g.Adj(s.cat, r.cat) && s.g.Passable(r.cat) && (r.gameOver <==> s.gameOver || s.g.Border(r.cat))
    ensures CanEscape(s.g, s.cat) ==>
              EscapeWalk(s.g, s.cat, route) && Shortest(s.g, s.cat, route) && |route| >= 2 && route[1] == r.cat
  {
    var order, exit, parent, depth := BfsStrategy.Search(s.g, s.cat);
    if exit.None? {
      return s.(gameOver := true), [];
    }
    var e := exit.value;
    TreePath(s.g, s.cat, parent, depth, order, e);
    route := ReconstructPath(exit, parent, depth);
    var next := FirstStep(e, parent, depth, s.cat);
    assert s.g.Passable(route[1]) && s.g.Adj(route[0], route[1]);
    r := s.(cat := next, gameOver := s.gameOver || IsAtBorder(next, s.g.rows, s.g.cols));
  }

  /**
   * `handleTileClick`: ignored once the game is over, and ignored on a
   * blocked tile or the cat's tile. Otherwise the tile is blocked, the move
   * counter goes up by one and the cat moves on the new board, to the second
   * tile of a shortest escape route (the ghost `route`) when it has one. The
   * cat's tile is never blocked, and play stays in a playable state.
   */
  method HandleTileClick(s: GameState, t: Tile) returns (r: GameState, ghost route: seq<Tile>)
    requires Playable(s) && s.g.InBounds(t)
    ensures Playable(r)
    ensures s.gameOver || s.g.IsBlocked(t) || t == s.cat ==> r == s
    ensures !s.gameOver && !s.g.IsBlocked(t) && t != s.cat ==>
              r.moves == s.moves + 1 && r.g == s.g.Block(t) &&
              (!CanEscape(r.g, s.cat) ==> r.cat == s.cat && r.gameOver) &&
              (CanEscape(r.g, s.cat) ==> r.g.Adj(s.cat, r.cat) && (r.gameOver <==> r.g.Border(r.cat)))
    ensures !s.gameOver && !s.g.IsBlocked(t) && t != s.cat && CanEscape(r.g, s.cat) ==>
              EscapeWalk(r.g, s.cat, route) && Shortest(r.g, s.cat, route) && |route| >= 2 && route[1] == r.cat
  {
    if s.gameOver || s.g.IsBlocked(t) || t == s.cat {
      return s, [];
    }
    var blocked := s.(g := s.g.Block(t), moves := s.moves + 1);
    r, route := MoveCatOneStep(blocked);
  }

  /** `nearCat` of `placeObstacles`: within two rows and two columns of the board's centre, where the cat starts. */
  predicate NearCentre(g: Grid, t: Tile)
  {
    -2 <= t.i - g.rows / 2 <= 2 && -2 <= t.j - g.cols / 2 <= 2
  }

  /** The acceptance guard of `placeObstacles`: a free tile that is neither the cat's nor near the centre. */
  predicate Accepts(g: Grid, cat: Tile, t: Tile)
  {
    !g.IsBlocked(t) && t != cat && !NearCentre(g, t)
  }

  /**
   * The tiles `placeObstacles` blocks, as a reference definition: the draws
   * taken in order, each one accepted when the guard holds on the board as
   * it stands (the original board plus the tiles `placed` so far), until 15
   * are placed or the draws run out.
   */
  function Accepted(g: Grid, cat: Tile, draws: seq<Tile>, placed: seq<Tile>): seq<Tile>
    decreases |draws|
  {
    if draws == [] || |placed| >= Obstacles then placed
    else if Accepts(g, cat, draws[0]) && draws[0] !in placed then Accepted(g, cat, draws[1..], placed + [draws[0]])
    else Accepted(g, cat, draws[1..], placed)
  }

  /**
   * `placeObstacles` over a given sequence of draws: each draw the guard
   * accepts is blocked, until 15 are placed or the draws run out. It places
   * exactly the accepted draws, in draw order, never the cat's tile or a
   * tile near the centre, and no tile twice.
   */
  method PlaceObstacles(g: Grid, cat: Tile, draws: seq<Tile>) returns (r: Grid, placed: seq<Tile>)
    requires g.Valid() && forall k :: 0 <= k < |draws| ==> g.InBounds(draws[k])
    ensures placed == Accepted(g, cat, draws, [])
    ensures forall t :: t in placed ==> t in draws
    ensures r.Valid() && r.rows == g.rows && r.cols == g.cols
    ensures |placed| <= Obstacles && NoDup(placed)
    ensures forall t :: r.IsBlocked(t) <==> g.IsBlocked(t) || t in placed
    ensures forall t :: t in placed ==> Accepts(g, cat, t)
    ensures !r.IsBlocked(cat) <==> !g.IsBlocked(cat)
    ensures forall t :: NearCentre(g, t) ==> (r.IsBlocked(t) <==> g.IsBlocked(t))
    ensures |placed| < Obstacles ==> forall k :: 0 <= k < |draws| ==> r.IsBlocked(draws[k]) || !Accepts(g, cat, draws[k])
  {
    r, placed := g, [];
    var k := 0;
    while k < |draws| && |placed| < Obstacles
      invariant 0 <= k <= |draws|
      invariant Accepted(g, cat, draws[k..], placed) == Accepted(g, cat, draws, [])
      invariant forall t :: t in placed ==> t in draws[..k]
      invariant r.Valid() && r.rows == g.rows && r.cols == g.cols
      invariant |placed| <= Obstacles && NoDup(placed)
      invariant forall t :: r.IsBlocked(t) <==> g.IsBlocked(t) || t in placed
      invariant forall t :: t in placed ==> Accepts(g, cat, t)
      invariant forall m :: 0 <= m < k ==> r.IsBlocked(draws[m]) || !Accepts(g, cat, draws[m])
    {
      var t := draws[k];
      assert draws[k..][0] == t && draws[k..][1..] == draws[k + 1..];
      if Accepts(r, cat, t) {
        r, placed := r.Block(t), placed + [t];
      }
      k := k + 1;
    }
    if k == |draws| {
      assert draws[k..] == [] && draws[..k] == draws;
    }
  }
}
