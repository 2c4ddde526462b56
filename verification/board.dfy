/**
 * The board the searches read: its dimensions and the blocked flag of every
 * tile, together with the walks a cat can take over it. Reachability of the
 * border is defined here independently of any search, so that each search
 * can be proved against it.
 */
module Board {
  import opened StrategyUtils

  /** A `rows` x `cols` board; `blocked[i][j]` is the blocked flag of tile (i, j). */
  datatype Grid = Grid(rows: int, cols: int, blocked: seq<seq<bool>>)
  {
    predicate Valid()
    {
      rows >= 1 && cols >= 1 && |blocked| == rows &&
      forall i :: 0 <= i < rows ==> |blocked[i]| == cols
    }

    predicate InBounds(t: Tile)
    {
      StrategyUtils.InBounds(t, rows, cols)
    }

    predicate IsBlocked(t: Tile)
    {
      0 <= t.i < |blocked| && 0 <= t.j < |blocked[t.i]| && blocked[t.i][t.j]
    }

    /** A tile a search may step onto: inside the board and not blocked. */
    predicate Passable(t: Tile)
    {
      InBounds(t) && !IsBlocked(t)
    }

    predicate Border(t: Tile)
    {
      IsAtBorder(t, rows, cols)
    }

    predicate Adj(a: Tile, b: Tile)
    {
      Adjacent(a, b, rows, cols)
    }

    /** The board with tile `t` blocked and every other flag as before. */
    function Block(t: Tile): (g: Grid)
      requires Valid() && InBounds(t)
      ensures g.Valid() && g.rows == rows && g.cols == cols
      ensures g.IsBlocked(t)
      ensures forall u :: u != t ==> (g.IsBlocked(u) <==> IsBlocked(u))
    {
      Grid(rows, cols, blocked[t.i := blocked[t.i][t.j := true]])
    }
  }

  /**
   * A walk from `start`: consecutive tiles are hex neighbours and every tile
   * after the first is passable (the start tile itself, the cat's tile, is
   * never checked for a block by the searches).
   */
  ghost predicate IsWalk(g: Grid, start: Tile, p: seq<Tile>)
  {
    |p| >= 1 && p[0] == start && g.InBounds(start) &&
    (forall k :: 1 <= k < |p| ==> g.Passable(p[k])) &&
    (forall k :: 0 <= k < |p| - 1 ==> g.Adj(p[k], p[k + 1]))
  }

  /** A walk from `start` that ends on a border tile: an escape route. */
  ghost predicate EscapeWalk(g: Grid, start: Tile, p: seq<Tile>)
  {
    IsWalk(g, start, p) && g.Border(p[|p| - 1])
  }

  ghost predicate CanEscape(g: Grid, start: Tile)
  {
    exists p :: EscapeWalk(g, start, p)
  }

  /** No escape route has fewer tiles than `path`. */
  ghost predicate Shortest(g: Grid, start: Tile, path: seq<Tile>)
  {
    forall p :: EscapeWalk(g, start, p) ==> |path| <= |p|
  }

  /**
   * A set of non-border tiles that contains every passable neighbour of each
   * of its members: the region a fully explored, unsuccessful search leaves.
   */
  ghost predicate Enclosed(g: Grid, s: set<Tile>)
  {
    forall u :: u in s ==> !g.Border(u) && forall w :: g.Adj(u, w) && g.Passable(w) ==> w in s
  }

  lemma {:induction false} WalkStaysInside(g: Grid, start: Tile, s: set<Tile>, p: seq<Tile>)
    requires start in s && Enclosed(g, s) && IsWalk(g, start, p)
    ensures forall k :: 0 <= k < |p| ==> p[k] in s
  {
    if |p| > 1 {
      var q := p[..|p| - 1];
      assert IsWalk(g, start, q);
      WalkStaysInside(g, start, s, q);
      forall k | 0 <= k < |p|
        ensures p[k] in s
      {
        if k < |p| - 1 {
          assert p[k] == q[k];
        } else {
          assert p[k - 1] == q[k - 1];
          assert g.Adj(p[k - 1], p[k]) && g.Passable(p[k]);
        }
      }
    }
  }

  /** A start tile inside an enclosed region has no escape route. */
  lemma EnclosedTraps(g: Grid, start: Tile, s: set<Tile>)
    requires start in s && Enclosed(g, s)
    ensures !CanEscape(g, start)
  {
    forall p | IsWalk(g, start, p)
      ensures !g.Border(p[|p| - 1])
    {
      WalkStaysInside(g, start, s, p);
    }
  }

  /** Two shortest escape routes from the same tile have the same length. */
  lemma ShortestUnique(g: Grid, start: Tile, p: seq<Tile>, q: seq<Tile>)
    requires EscapeWalk(g, start, p) && Shortest(g, start, p)
    requires EscapeWalk(g, start, q) && Shortest(g, start, q)
    ensures |p| == |q|
  {
  }

  /** Every tile of a `rows` x `cols` board. */
  function AllTiles(rows: int, cols: int): set<Tile>
  {
    set i, j | 0 <= i < rows && 0 <= j < cols :: Tile(i, j)
  }

  function RowTiles(i: int, cols: int): set<Tile>
  {
    set j | 0 <= j < cols :: Tile(i, j)
  }

  lemma {:induction false} RowTilesCard(i: int, cols: nat)
    ensures |RowTiles(i, cols)| == cols
  {
    if cols > 0 {
      assert RowTiles(i, cols) == RowTiles(i, cols - 1) + {Tile(i, cols - 1)};
      RowTilesCard(i, cols - 1);
    } else {
      assert RowTiles(i, cols) == {};
    }
  }

  /** The board has exactly `rows * cols` tiles. */
  lemma {:induction false} AllTilesCard(rows: nat, cols: nat)
    ensures |AllTiles(rows, cols)| == rows * cols
  {
    if rows > 0 {
      var prev, last := AllTiles(rows - 1, cols), RowTiles(rows - 1, cols);
      forall t | t in AllTiles(rows, cols)
        ensures t in prev + last
      {
        if t.i < rows - 1 { assert t in prev; } else { assert t in last; }
      }
      assert AllTiles(rows, cols) == prev + last;
      assert prev !! last;
      AllTilesCard(rows - 1, cols);
      RowTilesCard(rows - 1, cols);
      assert |prev + last| == |prev| + |last|;
      assert (rows - 1) * cols + cols == rows * cols;
    } else {
      assert AllTiles(rows, cols) == {};
    }
  }

  /** The set of elements of a sequence. */
  function Elems(s: seq<Tile>): (r: set<Tile>)
    ensures forall x :: x in r <==> x in s
  {
    set x | x in s
  }

  lemma {:induction false} DistinctCard(s: seq<Tile>)
    requires NoDup(s)
    ensures |Elems(s)| == |s|
  {
    if s != [] {
      var init := s[..|s| - 1];
      assert Elems(s) == Elems(init) + {s[|s| - 1]};
      assert s[|s| - 1] !in init;
      DistinctCard(init);
    }
  }

  /** A duplicate-free sequence drawn from a set is no longer than the set is large. */
  lemma DistinctBound(s: seq<Tile>, S: set<Tile>)
    requires NoDup(s)
    requires forall x :: x in s ==> x in S
    ensures |s| <= |S|
  {
    DistinctCard(s);
    assert Elems(s) <= S;
    SubsetCard(Elems(s), S);
  }

  lemma SubsetCard(a: set<Tile>, b: set<Tile>)
    requires a <= b
    ensures |a| <= |b|
  {
    assert b == a + (b - a);
  }

  /** A duplicate-free sequence of board tiles has at most `rows * cols` elements. */
  lemma TileSeqBound(g: Grid, s: seq<Tile>)
    requires g.Valid() && NoDup(s)
    requires forall t :: t in s ==> g.InBounds(t)
    ensures |s| <= g.rows * g.cols
  {
    assert forall t :: t in s ==> t in AllTiles(g.rows, g.cols);
    DistinctBound(s, AllTiles(g.rows, g.cols));
    AllTilesCard(g.rows, g.cols);
  }
}
