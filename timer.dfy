/**
 * The elapsed-time counter of components/PuzzleBoard.js as a discrete clock: `seconds` and
 * whether an interval is scheduled. Each firing of the one-second interval is one `Tick`.
 *
 * The source schedules the interval in an effect that depends on the tile list
 * (lines 51-68), so the effect re-runs after every committed swap; `AfterSwapAsWritten`
 * models that, `AfterSwap` the evidently intended behaviour the session uses.
 */
module Timer {

  datatype Clock = Clock(seconds: nat, running: bool)

  /** A new tile list (lines 52-58, after `createTiles`): counting from 0, scheduled if there are tiles. */
  function Start(hasTiles: bool): Clock {
    Clock(0, hasTiles)
  }

  /** One firing of the interval (lines 58-64); nothing fires once it is cleared. */
  function Advance(c: Clock): (r: Clock)
    ensures r.running == c.running
    ensures r.seconds == if c.running then c.seconds + 1 else c.seconds
  {
    if c.running then Clock(c.seconds + 1, true) else c
  }

  /** A committed swap, as intended: the count carries on; recording completion clears the interval (line 143). */
  function AfterSwap(c: Clock, completes: bool): (r: Clock)
    ensures r.seconds == c.seconds
    ensures r.running == (c.running && !completes)
  {
    if completes then Clock(c.seconds, false) else c
  }

  /**
   * A committed swap as written: after the swap's own effects the tile-list effect re-runs,
   * setting seconds back to 0 and scheduling a new interval, even when `checkCompletion`
   * has just cleared the old one. `completes` is unused, because the effect re-runs whether
   * or not the swap completes the puzzle; it is there only to match `AfterSwap`.
   */
  function AfterSwapAsWritten(c: Clock, completes: bool): (r: Clock)
    ensures r == Start(true)
  {
    Clock(0, true)
  }

  datatype Event = Tick | Swap(completes: bool)

  function Run(c: Clock, events: seq<Event>): Clock
    decreases |events|
  {
    if events == [] then c
    else
      var c' := match events[0]
        case Tick => Advance(c)
        case Swap(completes) => AfterSwap(c, completes);
      Run(c', events[1..])
  }

  function RunAsWritten(c: Clock, events: seq<Event>): Clock
    decreases |events|
  {
    if events == [] then c
    else
      var c' := match events[0]
        case Tick => Advance(c)
        case Swap(completes) => AfterSwapAsWritten(c, completes);
      RunAsWritten(c', events[1..])
  }

  /** Whether some swap in `events` records completion. */
  predicate Completes(events: seq<Event>) {
    exists k :: 0 <= k < |events| && events[k] == Swap(true)
  }

  /** The ticks that happen before the first completing swap: the reference count of elapsed time. */
  function TicksUntilCompletion(events: seq<Event>): nat
    decreases |events|
  {
    if events == [] then 0
    else match events[0]
      case Tick => 1 + TicksUntilCompletion(events[1..])
      case Swap(completes) => if completes then 0 else TicksUntilCompletion(events[1..])
  }

  /** A stopped clock stays as it is. */
  lemma {:induction false} StoppedStaysStopped(c: Clock, events: seq<Event>)
    requires !c.running
    ensures Run(c, events) == c
    decreases |events|
  {
    if events != [] {
      StoppedStaysStopped(c, events[1..]);
    }
  }

  /**
   * As intended, a running clock counts every tick up to the swap that completes the puzzle
   * and none after it, and it is stopped exactly when such a swap happened.
   */
  lemma {:induction false} RunCountsTicks(s: nat, events: seq<Event>)
    ensures Run(Clock(s, true), events) ==
            Clock(s + TicksUntilCompletion(events), !Completes(events))
    decreases |events|
  {
    if events != [] {
      var rest := events[1..];
      assert forall k :: 0 <= k < |rest| ==> rest[k] == events[k + 1];
      match events[0]
      case Tick =>
        RunCountsTicks(s + 1, rest);
        assert Completes(events) <==> Completes(rest);
      case Swap(completes) =>
        if completes {
          StoppedStaysStopped(Clock(s, false), rest);
          assert events[0] == Swap(true);
        } else {
          RunCountsTicks(s, rest);
          assert Completes(events) <==> Completes(rest);
        }
    }
  }

  /** As written, a swap throws away the time counted so far. */
  lemma AsWrittenForgetsTime()
    ensures Run(Start(true), [Tick, Tick, Tick, Swap(false)]).seconds == 3
    ensures RunAsWritten(Start(true), [Tick, Tick, Tick, Swap(false)]).seconds == 0
  {
  }

  /** As written, the clock keeps running after the completing swap. */
  lemma AsWrittenRunsAfterCompletion()
    ensures Run(Start(true), [Tick, Swap(true), Tick]) == Clock(1, false)
    ensures RunAsWritten(Start(true), [Tick, Swap(true), Tick]) == Clock(1, true)
  {
  }
}
