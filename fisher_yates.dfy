/** The Fisher-Yates shuffle `shuffleArray`, of which the repository holds two
    identical copies (magicalcards/src/components/cardsPage.jsx and
    magicalcards/src/components/SelectStackPage.jsx). Both copy their argument,
    walk `i` down from the last index to 1, and swap position `i` with a random
    position `j` in `[0, i]`. */
module FisherYates {
  import opened Random

  /** The destructuring swap `[a[i], a[j]] = [a[j], a[i]]`: both right-hand
      values are read before either position is written. */
  function Swap<T>(s: seq<T>, i: nat, j: nat): (r: seq<T>)
    requires i < |s| && j < |s|
    ensures |r| == |s| && r[i] == s[j] && r[j] == s[i]
    ensures forall k :: 0 <= k < |s| && k != i && k != j ==> r[k] == s[k]
  {
    s[i := s[j]][j := s[i]]
  }

  /** A swap is a permutation. */
  lemma SwapPermutes<T>(s: seq<T>, i: nat, j: nat)
    requires i < |s| && j < |s|
    ensures multiset(Swap(s, i, j)) == multiset(s)
  {
  }

  /** The sequence after the loop iterations for `i`, `i - 1`, ..., 1 have run
      on `s`; `picks[k]` is the swap index `j` of the iteration for `k`. */
  function ShuffleFrom<T>(s: seq<T>, i: nat, picks: seq<nat>): (r: seq<T>)
    requires i < |s| && i < |picks| && AreSwapPicks(picks)
    ensures |r| == |s|
    decreases i
  {
    if i == 0 then s
    else ShuffleFrom(Swap(s, i, picks[i]), i - 1, picks)
  }

  /** Every iteration only swaps, so the loop neither loses nor adds a card. */
  lemma {:induction false} ShuffleFromPermutes<T>(s: seq<T>, i: nat, picks: seq<nat>)
    requires i < |s| && i < |picks| && AreSwapPicks(picks)
    ensures |ShuffleFrom(s, i, picks)| == |s|
    ensures multiset(ShuffleFrom(s, i, picks)) == multiset(s)
    decreases i
  {
    if i > 0 {
      SwapPermutes(s, i, picks[i]);
      ShuffleFromPermutes(Swap(s, i, picks[i]), i - 1, picks);
    }
  }

  /** The iterations still to run (`i` down to 1) never write above `i`: once the
      loop counter has passed a position, that position holds its final card. */
  lemma {:induction false} ShuffleFromKeepsSuffix<T>(s: seq<T>, i: nat, picks: seq<nat>)
    requires i < |s| && i < |picks| && AreSwapPicks(picks)
    ensures |ShuffleFrom(s, i, picks)| == |s|
    ensures ShuffleFrom(s, i, picks)[i + 1..] == s[i + 1..]
    decreases i
  {
    ShuffleFromPermutes(s, i, picks);
    if i > 0 {
      var t := Swap(s, i, picks[i]);
      ShuffleFromKeepsSuffix(t, i - 1, picks);
      assert t[i + 1..] == s[i + 1..];
    }
  }

  /** What `shuffleArray(cards)` returns when the iteration for `i` swaps with
      `picks[i]`: a permutation of its argument. */
  function Shuffled<T>(cards: seq<T>, picks: seq<nat>): (r: seq<T>)
    requires |cards| <= |picks| && AreSwapPicks(picks)
    ensures |r| == |cards|
    ensures multiset(r) == multiset(cards)
  {
    if |cards| == 0 then cards
    else
      ShuffleFromPermutes(cards, |cards| - 1, picks);
      ShuffleFrom(cards, |cards| - 1, picks)
  }

  /** `shuffleArray`: copies its argument into a fresh array and swaps in place
      from the last index down to 1. The argument is a value, so the caller's
      deck is left as it was. */
  method ShuffleArray<T>(cards: seq<T>, picks: seq<nat>) returns (shuffled: seq<T>)
    requires |cards| <= |picks| && AreSwapPicks(picks)
    ensures shuffled == Shuffled(cards, picks)
    ensures |shuffled| == |cards| && multiset(shuffled) == multiset(cards)
  {
    var arr := new T[|cards|](k requires 0 <= k < |cards| => cards[k]);
    assert arr[..] == cards;
    var i := arr.Length - 1;
    while i > 0
      invariant -1 <= i < arr.Length && (arr.Length > 0 ==> i >= 0)
      invariant i >= 0 ==> ShuffleFrom(arr[..], i, picks) == Shuffled(cards, picks)
      invariant arr.Length == 0 ==> arr[..] == cards
    {
      var j := picks[i];
      ghost var before := arr[..];
      arr[i], arr[j] := arr[j], arr[i];
      assert arr[..] == Swap(before, i, j);
      assert ShuffleFrom(arr[..], i - 1, picks) == ShuffleFrom(before, i, picks);
      i := i - 1;
    }
    shuffled := arr[..];
  }
}
