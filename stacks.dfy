/** Dealing and recombining, the "21-card trick" half of
    magicalcards/src/components/SelectStackPage.jsx. */
module Stacks {

  /** How many of `n` cards dealt round-robin into `k` stacks land in stack `m`:
      the indices `j < n` with `j % k == m`. */
  function StackSize(n: nat, k: nat, m: nat): nat
    requires m < k
  {
    if m < n then (n - 1 - m) / k + 1 else 0
  }

  /** Quotient and remainder are determined by any decomposition `x == k * q + r`
      with `0 <= r < k`. */
  lemma DivModOf(x: int, k: int, q: int, r: int)
    requires k > 0 && 0 <= r < k && x == k * q + r
    ensures x / k == q && x % k == r
  {
    var d := x / k - q;
    assert k * d == r - x % k;
  }

  /** The deal index of the card at position `p` (counted from the top) of
      stack `m`: it belongs to that stack, and the later a card is dealt the
      nearer the top it lies. */
  function DealtIndex(n: nat, k: nat, m: nat, p: nat): (j: nat)
    requires 0 < k && m < k && p < StackSize(n, k, m)
    ensures j < n && j % k == m && j / k == StackSize(n, k, m) - 1 - p
  {
    var q := StackSize(n, k, m) - 1 - p;
    DivModOf(n - 1 - m, k, (n - 1 - m) / k, (n - 1 - m) % k);
    assert k * q <= k * ((n - 1 - m) / k);
    DivModOf(m + k * q, k, q, m);
    m + k * q
  }

  /** What `dealIntoStacksReversePositions(cards, k)` returns: `k` stacks, stack
      `m` holding the cards whose index is `m` modulo `k`, last dealt on top. */
  function Deal<T>(cards: seq<T>, k: nat): (stacks: seq<seq<T>>)
    requires k > 0
    ensures |stacks| == k
    ensures forall m :: 0 <= m < k ==> |stacks[m]| == StackSize(|cards|, k, m)
  {
    seq(k, m requires 0 <= m < k =>
      seq(StackSize(|cards|, k, m), p requires 0 <= p < StackSize(|cards|, k, m) =>
        cards[DealtIndex(|cards|, k, m, p)]))
  }

  /** Dealing one more card adds it to the stack its index selects, and only there. */
  lemma StackSizeStep(n: nat, k: nat, m: nat)
    requires m < k
    ensures StackSize(n + 1, k, m) == StackSize(n, k, m) + (if m == n % k then 1 else 0)
  {
    if m < n {
      var q, r := (n - m) / k, (n - m) % k;
      if r == 0 {
        DivModOf(n, k, q, m);
        DivModOf(n - 1 - m, k, q - 1, k - 1);
      } else {
        DivModOf(n - 1 - m, k, q, r - 1);
        if r + m < k {
          DivModOf(n, k, q, r + m);
        } else {
          DivModOf(n, k, q + 1, r + m - k);
        }
      }
    } else {
      DivModOf(n, k, 0, n);
    }
  }

  /** `x <= y` gives `k * x <= k * y` for `k >= 0`. */
  lemma MulMonotonic(k: nat, x: int, y: int)
    requires x <= y
    ensures k * x <= k * y
  {
    assert k * y - k * x == k * (y - x);
  }

  /** `a <= b` gives `a / k <= b / k`. */
  lemma DivMonotonic(a: nat, b: nat, k: nat)
    requires a <= b && k > 0
    ensures a / k <= b / k
  {
    if a / k > b / k {
      MulMonotonic(k, b / k + 1, a / k);
    }
  }

  /** `dealIntoStacksReversePositions` puts the card at index `i` into stack
      `i % k`, at position `i / k` counted from the bottom of that stack. */
  lemma DealPlacesCard<T>(cards: seq<T>, k: nat, i: nat)
    requires k > 0 && i < |cards|
    ensures i / k < StackSize(|cards|, k, i % k)
    ensures Deal(cards, k)[i % k][StackSize(|cards|, k, i % k) - 1 - i / k] == cards[i]
  {
    var n, m := |cards|, i % k;
    DivModOf(i - m, k, i / k, 0);
    DivMonotonic(i - m, n - 1 - m, k);
    var p := StackSize(n, k, m) - 1 - i / k;
    var j := DealtIndex(n, k, m, p);
    assert j == i;
  }

  /** Two indices with the same remainder are ordered as their quotients. */
  lemma QuotientIncreases(i: nat, i': nat, k: nat)
    requires k > 0 && i < i' && i % k == i' % k
    ensures i / k < i' / k
  {
    if i / k >= i' / k {
      MulMonotonic(k, i' / k, i / k);
    }
  }

  /** Cards dealt later lie nearer the top of their stack: the deal order
      within each stack is reversed. */
  lemma DealReversesOrder<T>(cards: seq<T>, k: nat, i: nat, i': nat)
    requires k > 0 && i < i' < |cards| && i % k == i' % k
    ensures i / k < StackSize(|cards|, k, i % k)
    ensures i' / k < StackSize(|cards|, k, i % k)
    ensures StackSize(|cards|, k, i % k) - 1 - i' / k < StackSize(|cards|, k, i % k) - 1 - i / k
    ensures Deal(cards, k)[i % k][StackSize(|cards|, k, i % k) - 1 - i / k] == cards[i]
    ensures Deal(cards, k)[i % k][StackSize(|cards|, k, i % k) - 1 - i' / k] == cards[i']
  {
    DealPlacesCard(cards, k, i);
    DealPlacesCard(cards, k, i');
    QuotientIncreases(i, i', k);
  }

  /** The card dealt as number `n` lies on top of stack `n % k`. */
  lemma NewestOnTop(n: nat, k: nat)
    requires k > 0
    ensures StackSize(n + 1, k, n % k) > 0
    ensures DealtIndex(n + 1, k, n % k, 0) == n
  {
    var m := n % k;
    StackSizeStep(n, k, m);
    var j := DealtIndex(n + 1, k, m, 0);
    DivModOf(n, k, n / k, m);
    if m < n {
      DivModOf(n - 1 - m, k, n / k - 1, k - 1);
    }
    DivModOf(j, k, j / k, m);
  }

  /** Dealing the card at index `n` prepends it to stack `n % k`, as `unshift` does. */
  lemma DealStep<T>(cards: seq<T>, k: nat, n: nat)
    requires k > 0 && n < |cards|
    ensures Deal(cards[..n + 1], k)
         == Deal(cards[..n], k)[n % k := [cards[n]] + Deal(cards[..n], k)[n % k]]
  {
    var a, b := Deal(cards[..n], k), Deal(cards[..n + 1], k);
    var m0 := n % k;
    forall m | 0 <= m < k
      ensures b[m] == if m == m0 then [cards[n]] + a[m] else a[m]
    {
      StackSizeStep(n, k, m);
      if m == m0 {
        forall p | 0 <= p < |b[m]|
          ensures b[m][p] == ([cards[n]] + a[m])[p]
        {
          if p == 0 {
            NewestOnTop(n, k);
          }
        }
      }
    }
  }

  /** The cards of all stacks, read stack after stack. */
  function Concat<T>(stacks: seq<seq<T>>): seq<T>
  {
    if |stacks| == 0 then [] else stacks[0] + Concat(stacks[1..])
  }

  lemma {:induction false} ConcatOfEmpty<T>(stacks: seq<seq<T>>)
    requires forall m :: 0 <= m < |stacks| ==> stacks[m] == []
    ensures Concat(stacks) == []
    decreases |stacks|
  {
    if |stacks| > 0 {
      ConcatOfEmpty(stacks[1..]);
    }
  }

  /** Prepending a card to one stack adds exactly that card to the whole. */
  lemma {:induction false} ConcatPrepend<T>(stacks: seq<seq<T>>, m: nat, x: T)
    requires m < |stacks|
    ensures multiset(Concat(stacks[m := [x] + stacks[m]]))
         == multiset(Concat(stacks)) + multiset{x}
    decreases |stacks|
  {
    var updated := stacks[m := [x] + stacks[m]];
    if m == 0 {
      assert updated[1..] == stacks[1..];
    } else {
      assert updated[1..] == stacks[1..][m - 1 := [x] + stacks[m]];
      ConcatPrepend(stacks[1..], m - 1, x);
    }
  }

  /** Dealing neither loses nor duplicates a card: the stacks together hold
      exactly the dealt cards. */
  lemma {:induction false} DealPermutes<T>(cards: seq<T>, k: nat)
    requires k > 0
    ensures multiset(Concat(Deal(cards, k))) == multiset(cards)
    decreases |cards|
  {
    if |cards| == 0 {
      ConcatOfEmpty(Deal(cards, k));
    } else {
      var n := |cards| - 1;
      DealStep(cards, k, n);
      assert cards[..n + 1] == cards;
      DealPermutes(cards[..n], k);
      ConcatPrepend(Deal(cards[..n], k), n % k, cards[n]);
      assert cards == cards[..n] + [cards[n]];
    }
  }

  /** `dealIntoStacksReversePositions`: starts from `numStacks` empty stacks and
      `unshift`s every card, in order, onto the stack its index selects. */
  method DealIntoStacksReversePositions<T>(cards: seq<T>, numStacks: nat) returns (stacks: seq<seq<T>>)
    requires numStacks > 0
    ensures stacks == Deal(cards, numStacks)
    ensures |stacks| == numStacks && multiset(Concat(stacks)) == multiset(cards)
  {
    stacks := seq(numStacks, _ => []);
    var idx := 0;
    while idx < |cards|
      invariant idx <= |cards|
      invariant stacks == Deal(cards[..idx], numStacks)
    {
      var m := idx % numStacks;
      stacks := stacks[m := [cards[idx]] + stacks[m]];
      DealStep(cards, numStacks, idx);
      idx := idx + 1;
    }
    assert cards[..idx] == cards;
    DealPermutes(cards, numStacks);
  }

  lemma ConcatOfThree<T>(stacks: seq<seq<T>>)
    requires |stacks| == 3
    ensures Concat(stacks) == stacks[0] + stacks[1] + stacks[2]
  {
    assert Concat(stacks[2..]) == stacks[2] + Concat(stacks[3..]);
    assert Concat(stacks[1..]) == stacks[1] + Concat(stacks[2..]);
  }

  /** `leftIndex`, the stack put before the selected one: `(selected + 2) % 3`. */
  function Before(selected: nat): (left: nat)
    requires selected < 3
    ensures left < 3 && left == (selected + 2) % 3
  {
    if selected == 0 then 2 else selected - 1
  }

  /** `rightIndex`, the stack put after the selected one: `(selected + 1) % 3`. */
  function After(selected: nat): (right: nat)
    requires selected < 3
    ensures right < 3 && right == (selected + 1) % 3
  {
    if selected == 2 then 0 else selected + 1
  }

  /** The recombination in `handleConfirmSelection`: the stack before the
      selected one, then the selected stack, then the stack after it. The
      result holds the cards of the three stacks, with the selected stack as
      the middle block. */
  function Recombine<T>(stacks: seq<seq<T>>, selected: nat): (combined: seq<T>)
    requires |stacks| == 3 && selected < 3
    ensures multiset(combined) == multiset(Concat(stacks))
    ensures |combined| == |stacks[0]| + |stacks[1]| + |stacks[2]|
    ensures var before := |stacks[Before(selected)]|;
            combined[before..before + |stacks[selected]|] == stacks[selected]
  {
    RotationPermutes(stacks, selected);
    stacks[Before(selected)] + stacks[selected] + stacks[After(selected)]
  }

  /** The three stacks in the rotated order hold the same cards as in their
      own order, and as many. */
  lemma RotationPermutes<T>(stacks: seq<seq<T>>, selected: nat)
    requires |stacks| == 3 && selected < 3
    ensures var rotated := stacks[Before(selected)] + stacks[selected] + stacks[After(selected)];
            && multiset(rotated) == multiset(Concat(stacks))
            && |rotated| == |stacks[0]| + |stacks[1]| + |stacks[2]|
  {
    ConcatOfThree(stacks);
    var a, b, c := multiset(stacks[0]), multiset(stacks[1]), multiset(stacks[2]);
    if selected == 0 {
      assert multiset(stacks[2] + stacks[0] + stacks[1]) == c + a + b;
    } else if selected == 1 {
      assert multiset(stacks[0] + stacks[1] + stacks[2]) == a + b + c;
    } else {
      assert multiset(stacks[1] + stacks[2] + stacks[0]) == b + c + a;
    }
  }

  /** The card at position `p` of the selected stack follows the stack put
      before it. */
  lemma RecombineMiddleAt<T>(stacks: seq<seq<T>>, selected: nat, p: nat)
    requires |stacks| == 3 && selected < 3 && p < |stacks[selected]|
    ensures |stacks[Before(selected)]| + p < |Recombine(stacks, selected)|
    ensures Recombine(stacks, selected)[|stacks[Before(selected)]| + p] == stacks[selected][p]
  {
  }

  /** Dealing a multiple of three cards into three stacks gives each stack a
      third of them: 18 each for the 54-card deck. */
  lemma DealIntoThirds<T>(cards: seq<T>)
    requires |cards| % 3 == 0
    ensures forall m :: 0 <= m < 3 ==> |Deal(cards, 3)[m]| == |cards| / 3
  {
    var n := |cards|;
    assert StackSize(n, 3, 0) == n / 3 && StackSize(n, 3, 1) == n / 3 && StackSize(n, 3, 2) == n / 3;
  }

  /** One round of the trick: deal into three stacks, then recombine with the
      `selected` stack in the middle. */
  function Round<T>(cards: seq<T>, selected: nat): (next: seq<T>)
    requires selected < 3
    ensures |next| == |cards| && multiset(next) == multiset(cards)
  {
    var stacks := Deal(cards, 3);
    DealPermutes(cards, 3);
    assert |multiset(Concat(stacks))| == |multiset(cards)|;
    ConcatOfThree(stacks);
    Recombine(stacks, selected)
  }

  /** Where a round moves the card at index `i` of `n` cards (`n` a multiple
      of 3) when the stack holding it is selected: into the middle third. */
  function NextIndex(n: nat, i: nat): (next: nat)
    requires n % 3 == 0 && i < n
    ensures n / 3 <= next < 2 * (n / 3)
  {
    2 * (n / 3) - 1 - i / 3
  }

  /** With `3 * q` cards every stack holds `q` of them, and selecting the stack
      holding the card at index `i` moves it to `NextIndex(3 * q, i)`. */
  lemma RoundMovesCard<T>(cards: seq<T>, i: nat)
    requires |cards| % 3 == 0 && i < |cards|
    ensures Round(cards, i % 3)[NextIndex(|cards|, i)] == cards[i]
  {
    var n, q, m := |cards|, |cards| / 3, i % 3;
    var stacks := Deal(cards, 3);
    assert |stacks| == 3;
    DealIntoThirds(cards);
    assert |stacks[Before(m)]| == q;
    DealPlacesCard(cards, 3, i);
    assert |stacks[m]| == StackSize(n, 3, m) == q;
    var p := q - 1 - i / 3;
    assert stacks[m][p] == cards[i];
    var combined := Recombine(stacks, m);
    RecombineMiddleAt(stacks, m, p);
    assert NextIndex(n, i) == q + p;
    assert Round(cards, m) == combined;
  }

  /** The deck after the three rounds of the trick on 54 cards, the user always
      selecting the stack that holds the card that began at index `i`. */
  function ThreeRounds<T>(deck: seq<T>, i: nat): (final: seq<T>)
    requires |deck| == 54 && i < 54
    ensures |final| == 54 && multiset(final) == multiset(deck)
  {
    var i1 := NextIndex(54, i);
    var i2 := NextIndex(54, i1);
    Round(Round(Round(deck, i % 3), i1 % 3), i2 % 3)
  }

  /** The trick works: after three rounds the card that began in the first 27
      positions lies at index 27, and any other card at index 26. */
  lemma ThreeRoundsConverge<T>(deck: seq<T>, i: nat)
    requires |deck| == 54 && i < 54
    ensures ThreeRounds(deck, i)[if i < 27 then 27 else 26] == deck[i]
  {
    var i1 := NextIndex(54, i);
    var i2 := NextIndex(54, i1);
    var d1 := Round(deck, i % 3);
    var d2 := Round(d1, i1 % 3);
    RoundMovesCard(deck, i);
    RoundMovesCard(d1, i1);
    RoundMovesCard(d2, i2);
    NextIndexThrice(i);
  }

  /** The arithmetic of the trick: three moves take every index of the first
      27 to 27 and every other index to 26. */
  lemma NextIndexThrice(i: nat)
    requires i < 54
    ensures NextIndex(54, NextIndex(54, NextIndex(54, i))) == if i < 27 then 27 else 26
  {
  }
}
