/**
 * One puzzle session of the `PuzzleBoard` component (components/PuzzleBoard.js:28-184):
 * the tile list, the move and time counters, the score and the completion flag, updated by
 * `createTiles`, `swapTiles` (with `incrementMove` and `checkCompletion`), the timer tick and
 * the release handler of `DraggableTile`.
 *
 * The snap sound and the completion dialog are foreign calls; they are recorded as a count
 * of sounds played and a log of the summaries shown.
 */
module Session {
  import opened Options
  import opened TileIds
  import Grid
  import Shuffle
  import Scoring
  import DropTarget
  import Timer

  /** What the completion dialog reports (lines 151-156). */
  datatype Summary = Summary(moves: nat, seconds: nat, score: int)

  /** `createTiles` shuffles the positions with three passes (line 94). */
  const SHUFFLE_PASSES: nat := 3

  class PuzzleBoard {
    /** `GRID_SIZE`: the board has gridSize * gridSize tiles. */
    const gridSize: nat
    /** `TILE_SIZE`, as a whole number of pixels. */
    const tileSize: nat

    var tiles: seq<Grid.Tile>
    var moveCount: nat
    var seconds: nat
    var score: int
    var completed: bool
    /** Whether the one-second interval is scheduled. */
    var timerRunning: bool
    /** How many times the snap sound was played. */
    var snaps: nat
    /** The completion dialogs shown, oldest first. */
    var alerts: seq<Summary>

    /**
     * The session invariant: the tiles are a permutation of the grid, the score is the
     * formula of the counters, and a completed session has stopped its timer and shown
     * its dialog.
     */
    ghost predicate Valid()
      reads this
    {
      && tileSize > 0
      && Grid.WellFormed(tiles, gridSize)
      && score == Scoring.Score(moveCount, seconds)
      && (completed ==> !timerRunning && |alerts| > 0)
    }

    function Clock(): Timer.Clock
      reads this
    {
      Timer.Clock(seconds, timerRunning)
    }

    /** Mounting the component: its first effect runs `createTiles` (lines 71-73). */
    constructor (gridSize: nat, tileSize: nat, draws: seq<seq<nat>>)
      requires tileSize > 0
      requires Shuffle.ValidDraws(draws, gridSize * gridSize, SHUFFLE_PASSES)
      ensures Valid()
      ensures this.gridSize == gridSize && this.tileSize == tileSize
      ensures Grid.Positions(tiles) == Shuffle.ShuffleMultiple(Grid.GridCells(gridSize), SHUFFLE_PASSES, draws)
      ensures moveCount == 0 && seconds == 0 && score == Scoring.BASE_POINTS && !completed
      ensures timerRunning == (gridSize > 0) && snaps == 0 && alerts == []
    {
      this.gridSize := gridSize;
      this.tileSize := tileSize;
      new;
      snaps := 0;
      alerts := [];
      CreateTiles(draws);
    }

    /**
     * `createTiles` (lines 75-113), also run by the Shuffle button: a fresh list with tile k
     * named after and belonging in the k-th grid cell, placed at the k-th shuffled cell,
     * and all counters reset. The timer effect then restarts the clock.
     */
    method CreateTiles(draws: seq<seq<nat>>)
      requires tileSize > 0
      requires Shuffle.ValidDraws(draws, gridSize * gridSize, SHUFFLE_PASSES)
      modifies this
      ensures Valid()
      ensures Grid.Homes(tiles) == Grid.GridCells(gridSize)
      ensures forall k :: 0 <= k < |tiles| ==> tiles[k].id == TileId(tiles[k].correctRow, tiles[k].correctCol)
      ensures Grid.Positions(tiles) == Shuffle.ShuffleMultiple(Grid.GridCells(gridSize), SHUFFLE_PASSES, draws)
      ensures moveCount == 0 && seconds == 0 && score == Scoring.BASE_POINTS && !completed
      ensures Clock() == Timer.Start(|tiles| > 0) && |tiles| == gridSize * gridSize
      ensures snaps == old(snaps) && alerts == old(alerts)
    {
      completed := false;
      var newTiles := Grid.BuildTiles(gridSize);
      var shuffledPositions := Shuffle.ShuffleArrayMultiple(Grid.Positions(newTiles), SHUFFLE_PASSES, draws);
      var shuffledTiles := Grid.Assign(newTiles, shuffledPositions);
      Grid.AssignPermutation(newTiles, shuffledPositions, gridSize);
      assert Grid.WellFormed(shuffledTiles, gridSize);
      assert Grid.Homes(shuffledTiles) == Grid.GridCells(gridSize);
      tiles := shuffledTiles;
      moveCount := 0;
      seconds := 0;
      score := Scoring.BASE_POINTS;
      timerRunning := |tiles| > 0;
    }

    /** One firing of the interval (lines 58-64): a second more, and the score recomputed. */
    method Tick()
      requires Valid()
      modifies this
      ensures Valid()
      ensures Clock() == Timer.Advance(old(Clock()))
      ensures score == Scoring.Score(moveCount, seconds)
      ensures tiles == old(tiles) && moveCount == old(moveCount) && completed == old(completed)
      ensures snaps == old(snaps) && alerts == old(alerts)
    {
      if timerRunning {
        seconds := seconds + 1;
        score := Scoring.Score(moveCount, seconds);
      }
    }

    /** `incrementMove` (lines 115-122): one move more, and the score recomputed. */
    method IncrementMove()
      requires Valid()
      modifies this
      ensures Valid()
      ensures moveCount == old(moveCount) + 1 && score == Scoring.Score(moveCount, seconds)
      ensures tiles == old(tiles) && seconds == old(seconds) && timerRunning == old(timerRunning)
      ensures completed == old(completed) && snaps == old(snaps) && alerts == old(alerts)
    {
      moveCount := moveCount + 1;
      score := Scoring.Score(moveCount, seconds);
    }

    /**
     * `checkCompletion` (lines 138-158): when every tile of `updatedTiles` is in its
     * correct cell and the session is not yet completed, stop the timer, record completion
     * and show the dialog once with the final counters.
     */
    method CheckCompletion(updatedTiles: seq<Grid.Tile>)
      requires Valid()
      modifies this
      ensures Valid()
      ensures var recorded := Grid.IsSolved(updatedTiles) && !old(completed);
              && completed == (old(completed) || recorded)
              && timerRunning == (old(timerRunning) && !recorded)
              && alerts == old(alerts) + (if recorded then [Summary(moveCount, seconds, Scoring.FinalScore(moveCount, seconds))] else [])
      ensures tiles == old(tiles) && moveCount == old(moveCount) && seconds == old(seconds)
      ensures score == old(score) && snaps == old(snaps)
    {
      if Grid.IsSolved(updatedTiles) && !completed {
        timerRunning := false;
        completed := true;
        alerts := alerts + [Summary(moveCount, seconds, Scoring.FinalScore(moveCount, seconds))];
      }
    }

    /**
     * `swapTiles` (lines 160-184): when both ids are found, exchange the two tiles' cells,
     * play the sound, count the move and check for completion; otherwise change nothing.
     */
    method SwapTiles(id1: string, id2: string)
      requires Valid()
      modifies this
      ensures Valid()
      ensures match Grid.SwapTiles(old(tiles), id1, id2)
        case None =>
          && tiles == old(tiles) && moveCount == old(moveCount) && score == old(score)
          && Clock() == old(Clock()) && completed == old(completed)
          && snaps == old(snaps) && alerts == old(alerts)
        case Some(newTiles) =>
          var recorded := Grid.IsSolved(newTiles) && !old(completed);
          && tiles == newTiles
          && moveCount == old(moveCount) + 1
          && Clock() == Timer.AfterSwap(old(Clock()), recorded)
          && score == Scoring.Score(moveCount, seconds)
          && snaps == old(snaps) + 1
          && completed == (old(completed) || recorded)
          && alerts == old(alerts) + (if recorded then [Summary(moveCount, seconds, score)] else [])
    {
      var swapped := Grid.SwapTiles(tiles, id1, id2);
      if swapped.Some? {
        var newTiles := swapped.value;
        Grid.SwapPreservesWellFormed(tiles, gridSize, id1, id2);
        snaps := snaps + 1;
        IncrementMove();
        CheckCompletion(newTiles);
        Scoring.FinalScoreIsScore(moveCount, seconds);
        tiles := newTiles;
      }
    }

    /**
     * The release of a drag on tile `id` by (dx, dy) pixels (lines 237 and 245-287). Once
     * the session is completed no drag starts, so nothing changes. Otherwise the tile swaps
     * with the tile at the clamped target cell when that cell is not its own.
     */
    method Release(id: string, dx: int, dy: int)
      requires Valid()
      modifies this
      ensures Valid()
      ensures old(completed) ==>
                && tiles == old(tiles) && moveCount == old(moveCount) && score == old(score)
                && Clock() == old(Clock()) && completed && alerts == old(alerts) && snaps == old(snaps)
      ensures !old(completed) ==>
                match DropTarget.Request(old(tiles), id, dx, dy, tileSize, gridSize)
                case None =>
                  && tiles == old(tiles) && moveCount == old(moveCount) && score == old(score)
                  && Clock() == old(Clock()) && !completed && alerts == old(alerts) && snaps == old(snaps)
                case Some(other) =>
                  && other != id
                  && Grid.SwapTiles(old(tiles), id, other) == Some(tiles)
                  && moveCount == old(moveCount) + 1
                  && score == Scoring.Score(moveCount, seconds)
                  && (completed <==> Grid.IsSolved(tiles))
                  && Clock() == Timer.AfterSwap(old(Clock()), completed)
                  && snaps == old(snaps) + 1
                  && alerts == old(alerts) + (if completed then [Summary(moveCount, seconds, score)] else [])
    {
      if completed {
        return;
      }
      var request := DropTarget.Request(tiles, id, dx, dy, tileSize, gridSize);
      if request.Some? {
        var other := request.value;
        assert Grid.SwapTiles(tiles, id, other).Some?;
        Grid.WellFormedIdsDistinct(tiles, gridSize);
        SwapTiles(id, other);
      }
    }
  }
}
