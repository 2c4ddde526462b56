/**
 * Tiles, the "odd-row offset" hex adjacency on a square array, the border
 * test, and reconstruction of a start-to-end path from a parent map.
 *
 * Both copies of the Java utility class (the packaged one, which indexes a
 * two-entry table `DIR_CACHE` by row parity, and the root-package one, which
 * calls `getDirections`) are modelled here; `CachedNeighbors` is the former
 * and `Neighbors` the latter.
 */
module StrategyUtils {

  /** A tile is identified by its row `i` and column `j`. */
  datatype Tile = Tile(i: int, j: int)

  /** One row/column displacement of an offset table. */
  datatype Offset = Offset(di: int, dj: int)

  /** `None` stands for a Java `null` tile. */
  datatype Option<T> = None | Some(value: T)

  /** True iff no element of `s` occurs twice. */
  predicate NoDup<T(==)>(s: seq<T>)
  {
    forall a, b :: 0 <= a < b < |s| ==> s[a] != s[b]
  }

  /** Offsets of an even row: the four orthogonal moves, then the two left diagonals. */
  const EvenDirs: seq<Offset> :=
    [Offset(-1, 0), Offset(1, 0), Offset(0, -1), Offset(0, 1), Offset(-1, -1), Offset(1, -1)]

  /** Offsets of an odd row: the four orthogonal moves, then the two right diagonals. */
  const OddDirs: seq<Offset> :=
    [Offset(-1, 0), Offset(1, 0), Offset(0, -1), Offset(0, 1), Offset(-1, 1), Offset(1, 1)]

  /** The parity-indexed table of the packaged utility class. */
  const DirCache: seq<seq<Offset>> := [EvenDirs, OddDirs]

  /**
   * The offset table of a row. Java's `row % 2 == 0` and Dafny's agree for
   * every integer (both test evenness), and for a non-negative row the
   * result is the entry of the parity-indexed table.
   */
  function Directions(row: int): (dirs: seq<Offset>)
    ensures row >= 0 ==> dirs == DirCache[row % 2]
  {
    if row % 2 == 0 then EvenDirs else OddDirs
  }

  /**
   * Java's `a % 2`, which truncates toward zero, so that a negative odd `a`
   * gives -1. It is zero exactly when Dafny's Euclidean remainder is, so a
   * Java parity test `a % 2 == 0` picks the same table as `Directions`.
   */
  function JavaParity(a: int): (r: int)
    ensures -2 < r < 2 && (r == 0 <==> a % 2 == 0)
    ensures a >= 0 ==> r == a % 2
    ensures a < 0 ==> r <= 0
  {
    if a >= 0 then a % 2 else -((-a) % 2)
  }

  function Step(t: Tile, d: Offset): Tile
  {
    Tile(t.i + d.di, t.j + d.dj)
  }

  predicate InBounds(t: Tile, rows: int, cols: int)
  {
    0 <= t.i < rows && 0 <= t.j < cols
  }

  /**
   * The tiles reached from `t` by the offsets of `dirs`, in table order,
   * keeping only those inside the grid.
   */
  function Shift(t: Tile, dirs: seq<Offset>, rows: int, cols: int): (r: seq<Tile>)
    ensures |r| <= |dirs|
    ensures forall n :: n in r <==> InBounds(n, rows, cols) && exists d :: d in dirs && n == Step(t, d)
    ensures (forall d :: d in dirs ==> InBounds(Step(t, d), rows, cols)) ==> |r| == |dirs|
  {
    if dirs == [] then []
    else
      var n := Step(t, dirs[0]);
      var rest := Shift(t, dirs[1..], rows, cols);
      assert forall d :: d in dirs <==> d == dirs[0] || d in dirs[1..];
      if InBounds(n, rows, cols) then [n] + rest else rest
  }

  /**
   * One more offset at the end of the table: its tile, if inside the grid,
   * comes after everything the earlier offsets produce.
   */
  lemma {:induction false} ShiftSnoc(t: Tile, dirs: seq<Offset>, d: Offset, rows: int, cols: int)
    ensures Shift(t, dirs + [d], rows, cols) ==
            Shift(t, dirs, rows, cols) + (if InBounds(Step(t, d), rows, cols) then [Step(t, d)] else [])
    decreases |dirs|
  {
    if dirs == [] {
      assert [] + [d] == [d] && [d][1..] == [];
    } else {
      assert (dirs + [d])[0] == dirs[0] && (dirs + [d])[1..] == dirs[1..] + [d];
      ShiftSnoc(t, dirs[1..], d, rows, cols);
    }
  }

  /** `ShiftSnoc` for a prefix of a table, the form a loop over the table uses. */
  lemma ShiftPrefix(t: Tile, dirs: seq<Offset>, k: nat, rows: int, cols: int)
    requires k < |dirs|
    ensures Shift(t, dirs[..k + 1], rows, cols) ==
            Shift(t, dirs[..k], rows, cols) + (if InBounds(Step(t, dirs[k]), rows, cols) then [Step(t, dirs[k])] else [])
  {
    assert dirs[..k + 1] == dirs[..k] + [dirs[k]];
    ShiftSnoc(t, dirs[..k], dirs[k], rows, cols);
  }

  /** `getNeighbors` of the root-package utility class (and of `Game`). */
  function Neighbors(t: Tile, rows: int, cols: int): (r: seq<Tile>)
    ensures |r| <= 6
    ensures forall n :: n in r <==> Adjacent(t, n, rows, cols)
  {
    var dirs := Directions(t.i);
    var r := Shift(t, dirs, rows, cols);
    assert forall n :: n in r <==> Adjacent(t, n, rows, cols) by {
      forall n
        ensures n in r <==> Adjacent(t, n, rows, cols)
      {
        if Adjacent(t, n, rows, cols) {
          assert n == Step(t, Offset(n.i - t.i, n.j - t.j));
        }
      }
    }
    r
  }

  /**
   * `getNeighbors` of the packaged utility class, which indexes `DIR_CACHE`
   * by Java's `tile.i % 2`. That index is -1 for a negative odd row, where
   * Java throws, hence the precondition; every other row, negative even rows
   * included, gets the same list as `Neighbors`.
   */
  function CachedNeighbors(t: Tile, rows: int, cols: int): (r: seq<Tile>)
    requires JavaParity(t.i) >= 0
    ensures r == Neighbors(t, rows, cols)
  {
    Shift(t, DirCache[JavaParity(t.i)], rows, cols)
  }

  /**
   * `b` is a hex neighbour of `a`: it lies inside the grid and is reached
   * from `a` by one of the offsets of `a`'s row.
   */
  predicate Adjacent(a: Tile, b: Tile, rows: int, cols: int)
  {
    InBounds(b, rows, cols) && Offset(b.i - a.i, b.j - a.j) in Directions(a.i)
  }

  /**
   * `isAtBorder`: the tile lies in the first or last row or column. A tile of
   * the grid is on the border exactly when it is not strictly inside it.
   */
  function IsAtBorder(t: Tile, rows: int, cols: int): (b: bool)
    ensures InBounds(t, rows, cols) ==> (b <==> !(1 <= t.i < rows - 1 && 1 <= t.j < cols - 1))
  {
    t.i == 0 || t.i == rows - 1 || t.j == 0 || t.j == cols - 1
  }

  /** A tile off the border has all six neighbours, in table order. */
  lemma InteriorHasSixNeighbors(t: Tile, rows: int, cols: int)
    requires InBounds(t, rows, cols) && !IsAtBorder(t, rows, cols)
    ensures |Neighbors(t, rows, cols)| == 6
    ensures forall k :: 0 <= k < 6 ==> Neighbors(t, rows, cols)[k] == Step(t, Directions(t.i)[k])
  {
    var dirs := Directions(t.i);
    assert forall d :: d in dirs ==> -1 <= d.di <= 1 && -1 <= d.dj <= 1;
    assert forall d :: d in dirs ==> InBounds(Step(t, d), rows, cols);
    ShiftAllInBounds(t, dirs, rows, cols);
  }

  lemma {:induction false} ShiftAllInBounds(t: Tile, dirs: seq<Offset>, rows: int, cols: int)
    requires forall d :: d in dirs ==> InBounds(Step(t, d), rows, cols)
    ensures |Shift(t, dirs, rows, cols)| == |dirs|
    ensures forall k :: 0 <= k < |dirs| ==> Shift(t, dirs, rows, cols)[k] == Step(t, dirs[k])
  {
    if dirs != [] {
      assert dirs[0] in dirs;
      assert forall d :: d in dirs[1..] ==> d in dirs;
      ShiftAllInBounds(t, dirs[1..], rows, cols);
    }
  }

  /** Reversing an offset flips the row parity exactly when it moves diagonally. */
  lemma ReverseOffset(row: int, d: Offset, next: int)
    requires d in Directions(row) && next == row + d.di
    ensures Offset(-d.di, -d.dj) in Directions(next)
  {
    if row % 2 == 0 {
      assert d in EvenDirs;
      if d.di != 0 { assert next % 2 == 1; }
    } else {
      assert d in OddDirs;
      if d.di != 0 { assert next % 2 == 0; }
    }
  }

  /** Hex adjacency is symmetric between tiles of the grid. */
  lemma AdjacentSymmetric(a: Tile, b: Tile, rows: int, cols: int)
    requires InBounds(a, rows, cols)
    requires Adjacent(a, b, rows, cols)
    ensures Adjacent(b, a, rows, cols)
  {
    ReverseOffset(a.i, Offset(b.i - a.i, b.j - a.j), b.i);
  }

  /** A strictly decreasing rank along every parent link; it makes the parent map acyclic. */
  ghost predicate Ranked(parent: map<Tile, Tile>, rank: map<Tile, nat>)
  {
    forall k :: k in parent ==> k in rank && parent[k] in rank && rank[parent[k]] < rank[k]
  }

  /**
   * The tiles met when following parent links from `t` until a tile with no
   * parent, in that order (the list `reconstructPath` builds before
   * reversing it).
   */
  function Walkback(t: Tile, parent: map<Tile, Tile>, ghost rank: map<Tile, nat>): (w: seq<Tile>)
    requires Ranked(parent, rank) && t in rank
    ensures |w| >= 1 && w[0] == t && w[|w| - 1] !in parent
    ensures forall k :: 0 <= k < |w| - 1 ==> w[k] in parent && parent[w[k]] == w[k + 1]
    ensures forall k :: 0 <= k < |w| ==> w[k] in rank
    ensures forall a, b :: 0 <= a < b < |w| ==> rank[w[b]] < rank[w[a]]
    ensures |w| <= rank[t] + 1
    decreases rank[t]
  {
    if t in parent then [t] + Walkback(parent[t], parent, rank) else [t]
  }

  function Reverse<T>(s: seq<T>): (r: seq<T>)
    ensures |r| == |s|
    ensures forall k :: 0 <= k < |s| ==> r[k] == s[|s| - 1 - k]
  {
    if s == [] then [] else Reverse(s[1..]) + [s[0]]
  }

  /**
   * `reconstructPath`: empty for a null end; otherwise the parent chain of
   * `end`, start first. Its first tile has no parent, it ends at `end`, each
   * tile is the parent of the next, and ranks strictly increase along it
   * (so no tile repeats).
   */
  function ReconstructPath(end: Option<Tile>, parent: map<Tile, Tile>, ghost rank: map<Tile, nat>): (path: seq<Tile>)
    requires Ranked(parent, rank)
    requires end.Some? ==> end.value in rank
    ensures end.None? ==> path == []
    ensures end.Some? ==> |path| >= 1 && path[|path| - 1] == end.value && path[0] !in parent
    ensures forall k :: 1 <= k < |path| ==> path[k] in parent && parent[path[k]] == path[k - 1]
    ensures forall k :: 0 <= k < |path| ==> path[k] in rank
    ensures forall a, b :: 0 <= a < b < |path| ==> rank[path[a]] < rank[path[b]]
    ensures NoDup(path)
    ensures end.Some? ==> |path| <= rank[end.value] + 1
  {
    match end
    case None => []
    case Some(e) =>
      var w := Walkback(e, parent, rank);
      ReversedWalkback(w, parent, rank);
      Reverse(w)
  }

  /** Reading a parent chain backwards turns child-to-parent links into parent-to-child ones. */
  lemma ReversedWalkback(w: seq<Tile>, parent: map<Tile, Tile>, rank: map<Tile, nat>)
    requires forall k :: 0 <= k < |w| - 1 ==> w[k] in parent && parent[w[k]] == w[k + 1]
    requires forall k :: 0 <= k < |w| ==> w[k] in rank
    requires forall a, b :: 0 <= a < b < |w| ==> rank[w[b]] < rank[w[a]]
    ensures forall k :: 1 <= k < |w| ==> Reverse(w)[k] in parent && parent[Reverse(w)[k]] == Reverse(w)[k - 1]
    ensures forall a, b :: 0 <= a < b < |w| ==> rank[Reverse(w)[a]] < rank[Reverse(w)[b]]
    ensures NoDup(Reverse(w))
  {
    var r := Reverse(w);
    forall k | 1 <= k < |w|
      ensures r[k] in parent && parent[r[k]] == r[k - 1]
    {
      assert r[k] == w[|w| - 1 - k] && r[k - 1] == w[|w| - 1 - k + 1];
    }
    forall a, b | 0 <= a < b < |w|
      ensures rank[r[a]] < rank[r[b]]
    {
      assert r[a] == w[|w| - 1 - a] && r[b] == w[|w| - 1 - b];
    }
  }

  /** A tile without a parent reconstructs to itself alone. */
  lemma ReconstructRoot(t: Tile, parent: map<Tile, Tile>, rank: map<Tile, nat>)
    requires Ranked(parent, rank) && t in rank && t !in parent
    ensures ReconstructPath(Some(t), parent, rank) == [t]
  {
  }

  /** The path to a tile with a parent is the path to that parent, then the tile. */
  lemma ReconstructStep(t: Tile, parent: map<Tile, Tile>, rank: map<Tile, nat>)
    requires Ranked(parent, rank) && t in rank && t in parent
    ensures ReconstructPath(Some(t), parent, rank) == ReconstructPath(Some(parent[t]), parent, rank) + [t]
  {
    var w := Walkback(parent[t], parent, rank);
    assert Walkback(t, parent, rank) == [t] + w;
    assert ([t] + w)[1..] == w;
  }
}
