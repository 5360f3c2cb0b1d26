/**
 * The score of components/PuzzleBoard.js: 1000 points less 10 per move and 2 per second,
 * never below zero (constants at lines 24-26).
 */
module Scoring {

  const BASE_POINTS: int := 1000
  const MOVE_PENALTY: int := 10
  const TIME_PENALTY: int := 2

  /** `updateScore` (lines 124-128): the raw score, replaced by 0 when negative. */
  function Score(moves: nat, seconds: nat): (r: int)
    ensures 0 <= r <= BASE_POINTS
    ensures r == 0 <==> MOVE_PENALTY * moves + TIME_PENALTY * seconds >= BASE_POINTS
    ensures r > 0 ==> r == BASE_POINTS - MOVE_PENALTY * moves - TIME_PENALTY * seconds
  {
    var newScore := BASE_POINTS - MOVE_PENALTY * moves - TIME_PENALTY * seconds;
    if newScore < 0 then 0 else newScore
  }

  function Max(a: int, b: int): int {
    if a < b then b else a
  }

  /** The final score of `checkCompletion` (lines 146-149), written with `Math.max`. */
  function FinalScore(moves: nat, seconds: nat): (r: int)
    ensures r == Score(moves, seconds)
  {
    Max(BASE_POINTS - MOVE_PENALTY * moves - TIME_PENALTY * seconds, 0)
  }

  /** The final score shown on completion is the score the counters already show. */
  lemma FinalScoreIsScore(moves: nat, seconds: nat)
    ensures FinalScore(moves, seconds) == Score(moves, seconds)
  {
  }

  /** The score is never negative and never above the base. */
  lemma ScoreBounds(moves: nat, seconds: nat)
    ensures 0 <= Score(moves, seconds) <= BASE_POINTS
  {
  }

  /** The score is the linear formula exactly until it reaches zero, and zero from then on. */
  lemma ScoreShape(moves: nat, seconds: nat)
    ensures Score(moves, seconds) == 0 <==> MOVE_PENALTY * moves + TIME_PENALTY * seconds >= BASE_POINTS
    ensures Score(moves, seconds) > 0 ==>
              Score(moves, seconds) == BASE_POINTS - MOVE_PENALTY * moves - TIME_PENALTY * seconds
  {
  }

  /** More moves or more time never raise the score. */
  lemma ScoreAntitone(moves: nat, seconds: nat, moves': nat, seconds': nat)
    requires moves <= moves' && seconds <= seconds'
    ensures Score(moves', seconds') <= Score(moves, seconds)
  {
  }

  lemma ScoreExamples()
    ensures Score(0, 0) == 1000
    ensures Score(50, 0) == 500
    ensures Score(100, 0) == 0
    ensures Score(0, 1000) == 0
    ensures Score(3, 20) == 930
  {
  }
}
