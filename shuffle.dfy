/**
 * `shuffleArrayMultiple` (components/PuzzleBoard.js:346-355): `times` Fisher-Yates passes
 * over a copy of the input, each pass running `i` from the last index down to 1 and
 * exchanging slot `i` with slot `j = Math.floor(Math.random() * (i + 1))`.
 *
 * The random source is made explicit: `draws[p][q]` is the index `j` that step `q` of
 * pass `p` picks, where that step handles `i = n - 1 - q`. `Pick` shows that every value
 * `Math.random()` can return yields such an index and that every such index is reachable,
 * so the sequences of choices accepted here are exactly those the source can make.
 */
module Shuffle {
  import opened Permutations

  /** `Math.floor(r * (i + 1))`: the slot step `i` exchanges with, always within [0, i]. */
  function Pick(r: real, i: nat): (j: nat)
    requires 0.0 <= r < 1.0
    ensures j <= i
  {
    var m := (i + 1) as real;
    assert 0.0 <= r * m < m by {
      assert r * m == m - (1.0 - r) * m;
      assert (1.0 - r) * m > 0.0;
    }
    (r * m).Floor
  }

  /** Each index in [0, i] is picked by some value `Math.random()` can return. */
  lemma PickReaches(i: nat, j: nat)
    requires j <= i
    ensures 0.0 <= j as real / (i + 1) as real < 1.0
    ensures Pick(j as real / (i + 1) as real, i) == j
  {
    var m := (i + 1) as real;
    var r := j as real / m;
    assert r * m == j as real;
  }

  /** Choices for the steps `i = |d|, |d| - 1, ..., 1`: the choice of each step lies in [0, i]. */
  predicate ValidChoices(d: seq<nat>) {
    forall q :: 0 <= q < |d| ==> d[q] <= |d| - q
  }

  /** The number of steps of one pass over `n` elements (`i` from `n - 1` down to 1). */
  function Steps(n: nat): nat {
    if n == 0 then 0 else n - 1
  }

  /** One row of draws per pass, one draw per step. */
  predicate ValidDraws(draws: seq<seq<nat>>, n: nat, times: nat) {
    |draws| == times &&
    forall p :: 0 <= p < |draws| ==> |draws[p]| == Steps(n) && ValidChoices(draws[p])
  }

  /** The steps `i`, `i - 1`, ..., 1 of a pass, consuming one draw per step. */
  function PassFrom<T>(s: seq<T>, i: nat, d: seq<nat>): seq<T>
    requires i < |s| && |d| == i && ValidChoices(d)
    decreases i
  {
    if i == 0 then s
    else PassFrom(Exchange(s, i, d[0]), i - 1, d[1..])
  }

  lemma PassFromStep<T>(s: seq<T>, i: nat, d: seq<nat>)
    requires 0 < i < |s| && |d| == i && ValidChoices(d)
    ensures ValidChoices(d[1..])
    ensures PassFrom(s, i, d) == PassFrom(Exchange(s, i, d[0]), i - 1, d[1..])
  {
  }

  /** One full pass of the inner loop. */
  function Pass<T>(s: seq<T>, d: seq<nat>): seq<T>
    requires |d| == Steps(|s|) && ValidChoices(d)
  {
    if |s| == 0 then s else PassFrom(s, |s| - 1, d)
  }

  /** The array `shuffleArrayMultiple(s, times)` returns when `Math.random()` yields `draws`. */
  function ShuffleMultiple<T>(s: seq<T>, times: nat, draws: seq<seq<nat>>): seq<T>
    requires ValidDraws(draws, |s|, times)
    decreases times
  {
    if times == 0 then s
    else
      var s' := Pass(s, draws[0]);
      PassKeepsElements(s, draws[0]);
      ShuffleMultiple(s', times - 1, draws[1..])
  }

  lemma {:induction false} PassFromKeepsElements<T>(s: seq<T>, i: nat, d: seq<nat>)
    requires i < |s| && |d| == i && ValidChoices(d)
    ensures |PassFrom(s, i, d)| == |s| && multiset(PassFrom(s, i, d)) == multiset(s)
    decreases i
  {
    if i > 0 {
      ExchangeKeepsElements(s, i, d[0]);
      PassFromKeepsElements(Exchange(s, i, d[0]), i - 1, d[1..]);
    }
  }

  lemma PassKeepsElements<T>(s: seq<T>, d: seq<nat>)
    requires |d| == Steps(|s|) && ValidChoices(d)
    ensures |Pass(s, d)| == |s| && multiset(Pass(s, d)) == multiset(s)
  {
    if |s| > 0 {
      PassFromKeepsElements(s, |s| - 1, d);
    }
  }

  /** The shuffle only rearranges: same length, same elements with the same multiplicities. */
  lemma {:induction false} ShuffleIsPermutation<T>(s: seq<T>, times: nat, draws: seq<seq<nat>>)
    requires ValidDraws(draws, |s|, times)
    ensures |ShuffleMultiple(s, times, draws)| == |s|
    ensures multiset(ShuffleMultiple(s, times, draws)) == multiset(s)
    decreases times
  {
    if times > 0 {
      PassKeepsElements(s, draws[0]);
      ShuffleIsPermutation(Pass(s, draws[0]), times - 1, draws[1..]);
    }
  }

  /** The inner loop of the source: one pass in place over `arr`. */
  method PassInPlace<T>(arr: array<T>, d: seq<nat>)
    requires |d| == Steps(arr.Length) && ValidChoices(d)
    modifies arr
    ensures arr[..] == Pass(old(arr[..]), d)
  {
    if arr.Length == 0 {
      return;  // `i` starts at -1: the loop does not run
    }
    var i := arr.Length - 1;
    ghost var rest := d;
    ghost var goal := Pass(arr[..], d);
    while i > 0
      invariant 0 <= i < arr.Length
      invariant |rest| == i && ValidChoices(rest) && rest == d[arr.Length - 1 - i..]
      invariant PassFrom(arr[..], i, rest) == goal
    {
      var j := d[arr.Length - 1 - i];
      ghost var before := arr[..];
      arr[i], arr[j] := arr[j], arr[i];
      assert arr[..] == Exchange(before, i, j);
      PassFromStep(before, i, rest);
      rest := rest[1..];
      i := i - 1;
    }
  }

  /** The source's loops, in place on a fresh array holding a copy of `input`. */
  method ShuffleArrayMultiple<T>(input: seq<T>, times: nat, draws: seq<seq<nat>>) returns (r: seq<T>)
    requires ValidDraws(draws, |input|, times)
    ensures r == ShuffleMultiple(input, times, draws)
    ensures |r| == |input| && multiset(r) == multiset(input)
  {
    var arr := new T[|input|](k requires 0 <= k < |input| => input[k]);
    var k := 0;
    assert draws[k..] == draws && arr[..] == input;
    while k < times
      invariant 0 <= k <= times && arr.Length == |input|
      invariant ShuffleMultiple(arr[..], times - k, draws[k..]) == ShuffleMultiple(input, times, draws)
    {
      PassInPlace(arr, draws[k]);
      assert draws[k..][1..] == draws[k + 1..];
      k := k + 1;
    }
    assert draws[times..] == [];
    r := arr[..];
    ShuffleIsPermutation(input, times, draws);
  }
}
