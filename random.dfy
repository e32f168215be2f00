/** What the components ask of `Math.random()` and `Math.floor`.

    The model does not draw random numbers. The index that
    `Math.floor(Math.random() * n)` produces is passed in by the caller, and the
    shuffles and the padding are proved for every sequence of such indices.
    `RandomIndex` shows which indices those are. */
module Random {

  /** A value `Math.random()` can return. */
  predicate IsDraw(x: real)
  {
    0.0 <= x < 1.0
  }

  /** `Math.floor(Math.random() * bound)`: an index below `bound`, or 0 when
      `bound` is 0. */
  function RandomIndex(roll: real, bound: nat): (j: nat)
    requires IsDraw(roll)
    ensures bound > 0 ==> j < bound
    ensures bound == 0 ==> j == 0
  {
    ScaledDraw(roll, bound);
    (roll * bound as real).Floor
  }

  /** A draw scaled by `bound` lies in [0, bound), or is 0 when `bound` is 0. */
  lemma ScaledDraw(roll: real, bound: nat)
    requires IsDraw(roll)
    ensures 0.0 <= roll * bound as real
    ensures bound > 0 ==> roll * bound as real < bound as real
    ensures bound == 0 ==> roll * bound as real == 0.0
  {
    var b := bound as real;
    assert b - roll * b == (1.0 - roll) * b;
  }

  /** Swap indices for a Fisher-Yates loop: `picks[i]` is the `j` of the
      iteration for `i`, `Math.floor(Math.random() * (i + 1))`. */
  predicate AreSwapPicks(picks: seq<nat>)
  {
    forall i :: 0 <= i < |picks| ==> picks[i] <= i
  }

  /** The swap indices a Fisher-Yates loop computes from the draws `rolls`. */
  function SwapPicksOf(rolls: seq<real>): (picks: seq<nat>)
    requires forall k :: 0 <= k < |rolls| ==> IsDraw(rolls[k])
    ensures |picks| == |rolls| && AreSwapPicks(picks)
  {
    seq(|rolls|, k requires 0 <= k < |rolls| => RandomIndex(rolls[k], k + 1))
  }

  /** Indices for the padding loop: `picks[n]` is the index
      `Math.floor(Math.random() * n)` read while the deck holds `n` cards. */
  predicate ArePadPicks(picks: seq<nat>)
  {
    forall n :: 0 <= n < |picks| ==> (if n == 0 then picks[n] == 0 else picks[n] < n)
  }

  /** The padding indices computed from the draws `rolls`. */
  function PadPicksOf(rolls: seq<real>): (picks: seq<nat>)
    requires forall k :: 0 <= k < |rolls| ==> IsDraw(rolls[k])
    ensures |picks| == |rolls| && ArePadPicks(picks)
  {
    seq(|rolls|, k requires 0 <= k < |rolls| => RandomIndex(rolls[k], k))
  }
}
