/**
 * The tile list of components/PuzzleBoard.js: grid construction (`createTiles`, lines 78-104),
 * lookup by id (`findIndex`/`find`), `swapTiles` (lines 160-176) and the completion test of
 * `checkCompletion` (lines 139-141).
 */
module Grid {
  import opened Options
  import opened TileIds
  import opened Permutations

  /** A grid cell, (row, col). */
  datatype Cell = Cell(row: int, col: int)

  /** A puzzle piece: its id, the cell it belongs in, and the cell it currently occupies. */
  datatype Tile = Tile(id: string, correctRow: nat, correctCol: nat, row: int, col: int) {
    function Position(): Cell {
      Cell(row, col)
    }

    function Home(): Cell {
      Cell(correctRow, correctCol)
    }
  }

  predicate InSquare(c: Cell, n: nat) {
    0 <= c.row < n && 0 <= c.col < n
  }

  /** The cells of an n-by-n grid in the order the nested loops of `createTiles` visit them. */
  function GridCells(n: nat): (cells: seq<Cell>)
    ensures |cells| == n * n
  {
    seq(n * n, k requires 0 <= k < n * n => Cell(k / n, k % n))
  }

  lemma MulLe(a: int, b: int, n: nat)
    ensures a <= b ==> a * n <= b * n
  {
  }

  lemma DivModUnique(k: int, n: int, q: int, m: int)
    requires n > 0 && 0 <= m < n && k == q * n + m
    ensures k / n == q && k % n == m
  {
    var q', m' := k / n, k % n;
    assert k == q' * n + m' && 0 <= m' < n;
    MulLe(q' + 1, q, n);
    MulLe(q + 1, q', n);
  }

  /** Cell (r, c) is the one visited at step r * n + c. */
  lemma CellIndex(n: nat, r: int, c: int)
    requires 0 <= r < n && 0 <= c < n
    ensures 0 <= r * n + c < n * n
    ensures GridCells(n)[r * n + c] == Cell(r, c)
  {
    MulLe(r + 1, n, n);
    assert r * n + c < (r + 1) * n == r * n + n;
    DivModUnique(r * n + c, n, r, c);
  }

  /** The grid lists every cell of the square, each exactly once, and nothing else. */
  lemma GridCellsExactlyOnce(n: nat)
    ensures forall k :: 0 <= k < n * n ==> InSquare(GridCells(n)[k], n)
    ensures Distinct(GridCells(n))
    ensures forall c :: InSquare(c, n) ==> c in GridCells(n)
  {
    var cells := GridCells(n);
    forall k | 0 <= k < n * n
      ensures InSquare(cells[k], n)
    {
      MulLe(n, k / n, n);
    }
    forall i, j | 0 <= i < j < n * n
      ensures cells[i] != cells[j]
    {
      assert i == (i / n) * n + i % n && j == (j / n) * n + j % n;
    }
    forall c | InSquare(c, n)
      ensures c in cells
    {
      CellIndex(n, c.row, c.col);
    }
  }

  function Positions(tiles: seq<Tile>): (cells: seq<Cell>)
    ensures |cells| == |tiles|
  {
    seq(|tiles|, k requires 0 <= k < |tiles| => tiles[k].Position())
  }

  function Homes(tiles: seq<Tile>): (cells: seq<Cell>)
    ensures |cells| == |tiles|
  {
    seq(|tiles|, k requires 0 <= k < |tiles| => tiles[k].Home())
  }

  function Ids(tiles: seq<Tile>): (ids: seq<string>)
    ensures |ids| == |tiles|
  {
    seq(|tiles|, k requires 0 <= k < |tiles| => tiles[k].id)
  }

  /**
   * The invariant of a session's tile list: tile k belongs in the k-th grid cell and is
   * named after it, and the current cells are a permutation of the grid cells.
   */
  predicate WellFormed(tiles: seq<Tile>, n: nat) {
    && Homes(tiles) == GridCells(n)
    && (forall k :: 0 <= k < |tiles| ==> tiles[k].id == TileId(tiles[k].correctRow, tiles[k].correctCol))
    && multiset(Positions(tiles)) == multiset(GridCells(n))
  }

  predicate DistinctIds(tiles: seq<Tile>) {
    forall i, j :: 0 <= i < j < |tiles| ==> tiles[i].id != tiles[j].id
  }

  /** Tiles named after distinct cells have distinct ids. */
  lemma WellFormedIdsDistinct(tiles: seq<Tile>, n: nat)
    requires WellFormed(tiles, n)
    ensures DistinctIds(tiles)
  {
    GridCellsExactlyOnce(n);
    forall i, j | 0 <= i < j < |tiles|
      ensures tiles[i].id != tiles[j].id
    {
      assert Homes(tiles)[i] != Homes(tiles)[j];
      if tiles[i].id == tiles[j].id {
        TileIdInjective(tiles[i].correctRow, tiles[i].correctCol, tiles[j].correctRow, tiles[j].correctCol);
      }
    }
  }

  /** Every tile is on the board, and every cell of the board holds some tile. */
  lemma WellFormedCovers(tiles: seq<Tile>, n: nat)
    requires WellFormed(tiles, n)
    ensures forall k :: 0 <= k < |tiles| ==> InSquare(tiles[k].Position(), n)
    ensures forall c :: InSquare(c, n) ==> exists k :: 0 <= k < |tiles| && tiles[k].Position() == c
  {
    GridCellsExactlyOnce(n);
    var cells, positions := GridCells(n), Positions(tiles);
    forall k | 0 <= k < |tiles|
      ensures InSquare(tiles[k].Position(), n)
    {
      assert positions[k] in multiset(positions);
      var m :| 0 <= m < |cells| && cells[m] == positions[k];
    }
    forall c | InSquare(c, n)
      ensures exists k :: 0 <= k < |tiles| && tiles[k].Position() == c
    {
      assert c in multiset(cells);
      assert c in positions;
      var k :| 0 <= k < |tiles| && positions[k] == c;
    }
  }

  /**
   * What the invariant guarantees: N*N tiles with distinct ids, and every cell of the
   * square occupied by exactly one tile.
   */
  lemma WellFormedMeaning(tiles: seq<Tile>, n: nat)
    requires WellFormed(tiles, n)
    ensures |tiles| == n * n
    ensures DistinctIds(tiles)
    ensures forall k :: 0 <= k < |tiles| ==> InSquare(tiles[k].Position(), n)
    ensures Distinct(Positions(tiles))
    ensures forall c :: InSquare(c, n) ==> exists k :: 0 <= k < |tiles| && tiles[k].Position() == c
  {
    WellFormedIdsDistinct(tiles, n);
    WellFormedCovers(tiles, n);
    GridCellsExactlyOnce(n);
    PermutationKeepsDistinct(Positions(tiles), GridCells(n));
  }

  /** `createTiles`' nested loops (lines 78-89): every tile starts in its correct cell. */
  method BuildTiles(n: nat) returns (tiles: seq<Tile>)
    ensures Homes(tiles) == GridCells(n) && Positions(tiles) == GridCells(n)
    ensures forall k :: 0 <= k < |tiles| ==> tiles[k].id == TileId(tiles[k].correctRow, tiles[k].correctCol)
    ensures WellFormed(tiles, n) && IsSolved(tiles)
  {
    tiles := [];
    ghost var cells := GridCells(n);
    var row := 0;
    while row < n
      invariant 0 <= row <= n && |tiles| == row * n <= n * n
      invariant forall k :: 0 <= k < |tiles| ==> tiles[k].Home() == cells[k] == tiles[k].Position()
      invariant forall k :: 0 <= k < |tiles| ==> tiles[k].id == TileId(tiles[k].correctRow, tiles[k].correctCol)
    {
      var col := 0;
      while col < n
        invariant 0 <= col <= n && |tiles| == row * n + col <= n * n
        invariant forall k :: 0 <= k < |tiles| ==> tiles[k].Home() == cells[k] == tiles[k].Position()
        invariant forall k :: 0 <= k < |tiles| ==> tiles[k].id == TileId(tiles[k].correctRow, tiles[k].correctCol)
      {
        CellIndex(n, row, col);
        tiles := tiles + [Tile(TileId(row, col), row, col, row, col)];
        col := col + 1;
      }
      MulLe(row + 1, n, n);
      assert row * n + n == (row + 1) * n;
      row := row + 1;
    }
    assert Homes(tiles) == cells;
    assert Positions(tiles) == cells;
    assert forall k :: 0 <= k < |tiles| ==> tiles[k].Position() == tiles[k].Home();
  }

  /**
   * Lines 97-104: tile k keeps its identity and takes the k-th cell of `cells`.
   */
  function Assign(tiles: seq<Tile>, cells: seq<Cell>): (r: seq<Tile>)
    requires |cells| == |tiles|
    ensures Positions(r) == cells && Homes(r) == Homes(tiles) && Ids(r) == Ids(tiles)
  {
    seq(|tiles|, k requires 0 <= k < |tiles| => tiles[k].(row := cells[k].row, col := cells[k].col))
  }

  /** Giving a well-formed list any permutation of the grid cells keeps it well-formed. */
  lemma AssignPermutation(tiles: seq<Tile>, cells: seq<Cell>, n: nat)
    requires WellFormed(tiles, n) && |cells| == |tiles|
    requires multiset(cells) == multiset(GridCells(n))
    ensures WellFormed(Assign(tiles, cells), n)
  {
    var r := Assign(tiles, cells);
    forall k | 0 <= k < |r|
      ensures r[k].id == TileId(r[k].correctRow, r[k].correctCol)
    {
      assert Ids(r)[k] == Ids(tiles)[k] && Homes(r)[k] == Homes(tiles)[k];
    }
  }

  /** `Array.prototype.findIndex`: the first index whose tile satisfies `p`. */
  function FindFirst(tiles: seq<Tile>, p: Tile -> bool): (r: Option<nat>)
    ensures r.Some? ==> r.value < |tiles| && p(tiles[r.value]) && forall k :: 0 <= k < r.value ==> !p(tiles[k])
    ensures r.None? ==> forall k :: 0 <= k < |tiles| ==> !p(tiles[k])
    decreases |tiles|
  {
    if |tiles| == 0 then None
    else if p(tiles[0]) then Some(0)
    else match FindFirst(tiles[1..], p)
      case None => None
      case Some(k) => Some(k + 1)
  }

  function FindIndex(tiles: seq<Tile>, id: string): (r: Option<nat>)
    ensures r.Some? ==> r.value < |tiles| && tiles[r.value].id == id && forall k :: 0 <= k < r.value ==> tiles[k].id != id
    ensures r.None? ==> forall k :: 0 <= k < |tiles| ==> tiles[k].id != id
  {
    FindFirst(tiles, (t: Tile) => t.id == id)
  }

  function FindAt(tiles: seq<Tile>, cell: Cell): (r: Option<nat>)
    ensures r.Some? ==> r.value < |tiles| && tiles[r.value].Position() == cell
                        && forall k :: 0 <= k < r.value ==> tiles[k].Position() != cell
    ensures r.None? ==> forall k :: 0 <= k < |tiles| ==> tiles[k].Position() != cell
  {
    FindFirst(tiles, (t: Tile) => t.Position() == cell)
  }

  /** Lookups by id see only the ids. */
  lemma FindIndexReadsIds(tiles: seq<Tile>, tiles': seq<Tile>, id: string)
    requires Ids(tiles) == Ids(tiles')
    ensures FindIndex(tiles, id) == FindIndex(tiles', id)
  {
    assert forall k :: 0 <= k < |tiles| ==> tiles[k].id == Ids(tiles)[k] == tiles'[k].id;
  }

  /** Under distinct ids, looking a tile's id up finds that tile. */
  lemma FindIndexOfDistinct(tiles: seq<Tile>, k: nat)
    requires DistinctIds(tiles) && k < |tiles|
    ensures FindIndex(tiles, tiles[k].id) == Some(k)
  {
    assert FindIndex(tiles, tiles[k].id).Some?;
  }

  /**
   * `swapTiles` on the tile list: `None` when either id is missing (the source then keeps
   * the list it was given and skips all side effects), otherwise the copy in which the two
   * tiles found have exchanged their current cells.
   */
  function SwapTiles(tiles: seq<Tile>, id1: string, id2: string): (r: Option<seq<Tile>>)
    ensures r.None? <==> (forall k :: 0 <= k < |tiles| ==> tiles[k].id != id1) ||
                         (forall k :: 0 <= k < |tiles| ==> tiles[k].id != id2)
    ensures r.Some? ==> Ids(r.value) == Ids(tiles) && Homes(r.value) == Homes(tiles)
  {
    match (FindIndex(tiles, id1), FindIndex(tiles, id2))
    case (Some(i), Some(j)) =>
      var tile1, tile2 := tiles[i], tiles[j];
      Some(tiles[i := tile1.(row := tile2.row, col := tile2.col)][j := tile2.(row := tile1.row, col := tile1.col)])
    case _ => None
  }

  /** A successful swap permutes the current cells by exchanging those of the two tiles found. */
  lemma SwapExchanges(tiles: seq<Tile>, id1: string, id2: string)
    requires SwapTiles(tiles, id1, id2).Some?
    ensures var i, j := FindIndex(tiles, id1).value, FindIndex(tiles, id2).value;
            var r := SwapTiles(tiles, id1, id2).value;
            && tiles[i].id == id1 && tiles[j].id == id2
            && Positions(r) == Exchange(Positions(tiles), i, j)
            && (forall k :: 0 <= k < |tiles| && k != i && k != j ==> r[k] == tiles[k])
  {
    var i, j := FindIndex(tiles, id1).value, FindIndex(tiles, id2).value;
    var r := SwapTiles(tiles, id1, id2).value;
    assert forall k :: 0 <= k < |tiles| ==> Positions(r)[k] == Exchange(Positions(tiles), i, j)[k];
  }

  /**
   * With distinct ids, swapping the tiles at i and j exchanges exactly their cells: ids,
   * correct cells and every other tile stay as they were.
   */
  lemma SwapExactlyTwo(tiles: seq<Tile>, i: nat, j: nat)
    requires DistinctIds(tiles) && i < |tiles| && j < |tiles|
    ensures SwapTiles(tiles, tiles[i].id, tiles[j].id).Some?
    ensures var r := SwapTiles(tiles, tiles[i].id, tiles[j].id).value;
            && |r| == |tiles|
            && r[i] == tiles[i].(row := tiles[j].row, col := tiles[j].col)
            && r[j] == tiles[j].(row := tiles[i].row, col := tiles[i].col)
            && (forall k :: 0 <= k < |tiles| && k != i && k != j ==> r[k] == tiles[k])
  {
    FindIndexOfDistinct(tiles, i);
    FindIndexOfDistinct(tiles, j);
  }

  /** A swap keeps the invariant: the cells are still a permutation of the grid. */
  lemma SwapPreservesWellFormed(tiles: seq<Tile>, n: nat, id1: string, id2: string)
    requires WellFormed(tiles, n) && SwapTiles(tiles, id1, id2).Some?
    ensures WellFormed(SwapTiles(tiles, id1, id2).value, n)
  {
    SwapExchanges(tiles, id1, id2);
    var i, j := FindIndex(tiles, id1).value, FindIndex(tiles, id2).value;
    ExchangeKeepsElements(Positions(tiles), i, j);
    var r := SwapTiles(tiles, id1, id2).value;
    forall k | 0 <= k < |r|
      ensures r[k].id == TileId(r[k].correctRow, r[k].correctCol)
    {
      assert Ids(r)[k] == Ids(tiles)[k] && Homes(r)[k] == Homes(tiles)[k];
    }
  }

  /** Applying the same swap twice restores the list. */
  lemma SwapTwiceRestores(tiles: seq<Tile>, id1: string, id2: string)
    requires SwapTiles(tiles, id1, id2).Some?
    ensures SwapTiles(SwapTiles(tiles, id1, id2).value, id1, id2) == Some(tiles)
  {
    var r := SwapTiles(tiles, id1, id2).value;
    FindIndexReadsIds(tiles, r, id1);
    FindIndexReadsIds(tiles, r, id2);
    var i, j := FindIndex(tiles, id1).value, FindIndex(tiles, id2).value;
    var r' := SwapTiles(r, id1, id2).value;
    if i == j {
      assert r == tiles;
    } else {
      assert FindIndex(r, id1) == Some(i) && FindIndex(r, id2) == Some(j);
      assert r'[i] == tiles[i] && r'[j] == tiles[j];
      assert forall k :: 0 <= k < |tiles| ==> r'[k] == tiles[k];
      assert r' == tiles;
    }
  }

  /** `checkCompletion`'s test (lines 139-141): every tile sits in its correct cell. */
  predicate IsSolved(tiles: seq<Tile>): (b: bool)
    ensures b <==> Positions(tiles) == Homes(tiles)
  {
    assert forall k :: 0 <= k < |tiles| ==> Positions(tiles)[k] == tiles[k].Position() && Homes(tiles)[k] == tiles[k].Home();
    assert (forall k :: 0 <= k < |tiles| ==> Positions(tiles)[k] == Homes(tiles)[k]) ==> Positions(tiles) == Homes(tiles);
    forall k :: 0 <= k < |tiles| ==> tiles[k].row == tiles[k].correctRow && tiles[k].col == tiles[k].correctCol
  }

  /** On a well-formed list, solved means the arrangement is the grid order itself. */
  lemma SolvedIffIdentity(tiles: seq<Tile>, n: nat)
    requires WellFormed(tiles, n)
    ensures IsSolved(tiles) <==> Positions(tiles) == GridCells(n)
  {
    if Positions(tiles) == GridCells(n) {
      forall k | 0 <= k < |tiles|
        ensures tiles[k].row == tiles[k].correctRow && tiles[k].col == tiles[k].correctCol
      {
        assert Positions(tiles)[k] == GridCells(n)[k] == Homes(tiles)[k];
      }
    }
    if IsSolved(tiles) {
      assert forall k :: 0 <= k < |tiles| ==> Positions(tiles)[k] == Homes(tiles)[k];
    }
  }

  /** From a solved board, exchanging any two different tiles leaves it unsolved. */
  lemma SwapUnsolves(tiles: seq<Tile>, n: nat, id1: string, id2: string)
    requires WellFormed(tiles, n) && IsSolved(tiles) && id1 != id2
    requires SwapTiles(tiles, id1, id2).Some?
    ensures !IsSolved(SwapTiles(tiles, id1, id2).value)
  {
    SwapExchanges(tiles, id1, id2);
    GridCellsExactlyOnce(n);
    var i, j := FindIndex(tiles, id1).value, FindIndex(tiles, id2).value;
    var r := SwapTiles(tiles, id1, id2).value;
    assert i != j;
    assert tiles[i].Home() == GridCells(n)[i];
    assert tiles[j].Home() == GridCells(n)[j];
    if i < j {
      assert GridCells(n)[i] != GridCells(n)[j];
    } else {
      assert GridCells(n)[j] != GridCells(n)[i];
    }
    assert Positions(r)[i] == tiles[j].Position() == tiles[j].Home();
    assert Homes(r)[i] == tiles[i].Home();
  }
}
