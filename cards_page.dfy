/** The deck shuffler of magicalcards/src/components/cardsPage.jsx: the card
    images are shuffled on mount and again on every click of the shuffle
    button. */
module Cards {
  import opened Random
  import FisherYates

  /** Swap indices for shuffling `n` cards once per entry of `rounds`. */
  predicate AreRounds(n: nat, rounds: seq<seq<nat>>)
  {
    forall r :: 0 <= r < |rounds| ==> n <= |rounds[r]| && AreSwapPicks(rounds[r])
  }

  /** The deck after `cards` has been shuffled once with each entry of
      `rounds`, in order. However often it is shuffled, it holds the same cards. */
  function Reshuffled<T>(cards: seq<T>, rounds: seq<seq<nat>>): (r: seq<T>)
    requires AreRounds(|cards|, rounds)
    ensures |r| == |cards| && multiset(r) == multiset(cards)
    decreases |rounds|
  {
    if rounds == [] then cards
    else Reshuffled(FisherYates.Shuffled(cards, rounds[0]), rounds[1..])
  }

  /** One more shuffle on top of a history of shuffles. */
  lemma {:induction false} ReshuffledThenShuffled<T>(cards: seq<T>, rounds: seq<seq<nat>>, picks: seq<nat>)
    requires AreRounds(|cards|, rounds)
    requires |cards| <= |picks| && AreSwapPicks(picks)
    ensures AreRounds(|cards|, rounds + [picks])
    ensures Reshuffled(cards, rounds + [picks])
         == FisherYates.Shuffled(Reshuffled(cards, rounds), picks)
    decreases |rounds|
  {
    if rounds != [] {
      assert (rounds + [picks])[1..] == rounds[1..] + [picks];
      ReshuffledThenShuffled(FisherYates.Shuffled(cards, rounds[0]), rounds[1..], picks);
    }
  }

  /** The component's state: `shuffledCards` is the source images after the
      mount shuffle and every button shuffle since, which the ghost `rounds`
      records. */
  class CardsPage<Image> {
    const cardImages: seq<Image>
    var shuffledCards: seq<Image>
    ghost var rounds: seq<seq<nat>>

    ghost predicate Valid()
      reads this
    {
      && AreRounds(|cardImages|, rounds)
      && shuffledCards == Reshuffled(cardImages, rounds)
    }

    /** The initial state and the mount effect, which shuffles the images. */
    constructor (images: seq<Image>, picks: seq<nat>)
      requires |images| <= |picks| && AreSwapPicks(picks)
      ensures Valid() && cardImages == images && rounds == [picks]
      ensures shuffledCards == FisherYates.Shuffled(images, picks)
      ensures multiset(shuffledCards) == multiset(images)
    {
      cardImages := images;
      rounds := [picks];
      new;
      shuffledCards := FisherYates.ShuffleArray(cardImages, picks);
    }

    /** `handleShuffle`: replace the deck by a shuffle of it. */
    method HandleShuffle(picks: seq<nat>)
      requires Valid() && |shuffledCards| <= |picks| && AreSwapPicks(picks)
      modifies this`shuffledCards, this`rounds
      ensures Valid() && rounds == old(rounds) + [picks]
      ensures shuffledCards == FisherYates.Shuffled(old(shuffledCards), picks)
      ensures multiset(shuffledCards) == multiset(cardImages)
    {
      ReshuffledThenShuffled(cardImages, rounds, picks);
      shuffledCards := FisherYates.ShuffleArray(shuffledCards, picks);
      rounds := rounds + [picks];
    }
  }
}
