/**
 * The drop-target rule of `DraggableTile`'s release handler (components/PuzzleBoard.js:245-287).
 *
 * Screen geometry is integral: the tile size `size` is a positive whole number of pixels and
 * the drag offsets `dx`, `dy` are whole pixels. The centre `col * size + size / 2 + dx` may
 * fall on a half pixel, so it is handled doubled: `Centre2` is twice the centre, and
 * `floor(centre / size)` is `Centre2 / (2 * size)` (Dafny's `/` floors for a positive divisor).
 */
module DropTarget {
  import opened Options
  import opened Grid

  /** Twice the pixel coordinate of the dragged tile's centre along one axis. */
  function Centre2(index: int, size: nat, offset: int): int {
    2 * index * size + size + 2 * offset
  }

  /** `Math.floor(tileCenter / TILE_SIZE)`: the cell whose pixel span holds the centre. */
  function AxisTarget(index: int, size: nat, offset: int): (t: int)
    requires size > 0
    ensures 2 * size * t <= Centre2(index, size, offset) < 2 * size * t + 2 * size
  {
    Centre2(index, size, offset) / (2 * size)
  }

  /** The cell whose span holds the centre is unique: `AxisTarget` is the only candidate. */
  lemma AxisTargetUnique(index: int, size: nat, offset: int, t: int)
    requires size > 0
    requires 2 * size * t <= Centre2(index, size, offset) < 2 * size * t + 2 * size
    ensures AxisTarget(index, size, offset) == t
  {
    var t' := AxisTarget(index, size, offset);
    MulLe(t + 1, t', 2 * size);
    MulLe(t' + 1, t, 2 * size);
  }

  /** Releasing within half a tile of the start snaps back to the same cell. */
  lemma SmallOffsetStays(index: int, size: nat, offset: int)
    requires size > 0 && -(size as int) <= 2 * offset < size
    ensures AxisTarget(index, size, offset) == index
  {
    AxisTargetUnique(index, size, offset, index);
  }

  /** Dragging by k whole tiles moves the target by exactly k cells. */
  lemma WholeTilesShift(index: int, size: nat, k: int)
    requires size > 0
    ensures AxisTarget(index, size, k * size) == index + k
  {
    assert Centre2(index, size, k * size) == 2 * size * (index + k) + size;
    AxisTargetUnique(index, size, k * size, index + k);
  }

  /** `Math.max(0, Math.min(GRID_SIZE - 1, t))`. */
  function Clamp(t: int, n: nat): (c: int)
    ensures 0 <= c && (n > 0 ==> c < n)
    ensures 0 <= t < n ==> c == t
    ensures t < 0 ==> c == 0
    ensures n > 0 && t >= n ==> c == n - 1
  {
    var low := if n - 1 < t then n - 1 else t;
    if 0 < low then low else 0
  }

  /** The clamped cell the dragged tile's centre points at. */
  function TargetCell(current: Cell, dx: int, dy: int, size: nat, n: nat): (target: Cell)
    requires size > 0
    ensures n > 0 ==> InSquare(target, n)
  {
    Cell(Clamp(AxisTarget(current.row, size, dy), n), Clamp(AxisTarget(current.col, size, dx), n))
  }

  /** A zero offset maps a tile on the board back to its own cell. */
  lemma ZeroOffsetStays(current: Cell, size: nat, n: nat)
    requires size > 0 && InSquare(current, n)
    ensures TargetCell(current, 0, 0, size, n) == current
  {
    SmallOffsetStays(current.row, size, 0);
    SmallOffsetStays(current.col, size, 0);
  }

  /**
   * The swap the release handler asks for: the id of the tile to exchange with the dragged
   * tile `id`, or `None` when no swap is requested (the dragged tile is not found, the
   * clamped target is its own cell, or no tile is found at the target).
   */
  function Request(tiles: seq<Tile>, id: string, dx: int, dy: int, size: nat, n: nat): (r: Option<string>)
    requires size > 0
    ensures r.Some? ==>
              exists k, m :: && 0 <= k < |tiles| && 0 <= m < |tiles|
                             && tiles[k].id == id && tiles[m].id == r.value
                             && tiles[m].Position() == TargetCell(tiles[k].Position(), dx, dy, size, n)
                             && tiles[m].Position() != tiles[k].Position()
  {
    match FindIndex(tiles, id)
    case None => None
    case Some(k) =>
      var current := tiles[k].Position();
      var target := TargetCell(current, dx, dy, size, n);
      if target == current then None
      else match FindAt(tiles, target)
        case None => None
        case Some(m) => Some(tiles[m].id)
  }

  /**
   * On a well-formed board the rule is exact: a swap is requested if and only if the clamped
   * target differs from the dragged tile's cell, and then it names the one tile occupying
   * the target, which is not the dragged tile.
   */
  lemma RequestOnWellFormed(tiles: seq<Tile>, n: nat, k: nat, dx: int, dy: int, size: nat)
    requires WellFormed(tiles, n) && size > 0 && k < |tiles|
    ensures var current := tiles[k].Position();
            var target := TargetCell(current, dx, dy, size, n);
            var r := Request(tiles, tiles[k].id, dx, dy, size, n);
            && (r.Some? <==> target != current)
            && (r.Some? ==> r.value != tiles[k].id)
            && (forall m :: 0 <= m < |tiles| && tiles[m].Position() == target ==> r.Some? ==> r.value == tiles[m].id)
  {
    WellFormedMeaning(tiles, n);
    FindIndexOfDistinct(tiles, k);
    var current := tiles[k].Position();
    var target := TargetCell(current, dx, dy, size, n);
    assert n > 0;
    if target != current {
      assert InSquare(target, n);
      var m :| 0 <= m < |tiles| && tiles[m].Position() == target;
      var found := FindAt(tiles, target);
      assert found.Some?;
      forall m' | 0 <= m' < |tiles| && tiles[m'].Position() == target
        ensures m' == found.value
      {
        assert Positions(tiles)[m'] == Positions(tiles)[found.value];
      }
      assert found.value != k;
    }
  }

  /** A release with zero offset never requests a swap. */
  lemma ZeroOffsetNoSwap(tiles: seq<Tile>, n: nat, id: string, size: nat)
    requires WellFormed(tiles, n) && size > 0
    ensures Request(tiles, id, 0, 0, size, n) == None
  {
    var found := FindIndex(tiles, id);
    if found.Some? {
      WellFormedMeaning(tiles, n);
      ZeroOffsetStays(tiles[found.value].Position(), size, n);
    }
  }
}
