/** The page state of magicalcards/src/components/SelectStackPage.jsx: the
    deck prepared on mount, the stage machine
    chooseMood -> imagineCards -> stackSelection -> preReveal -> revealCard,
    and the click handlers that drive it. */
module SelectStack {
  import opened Wrappers
  import opened Random
  import FisherYates
  import opened Stacks

  /** One slot of the page's deck: a card image, or JavaScript's `undefined`,
      which is what the padding loop reads from an empty deck. */
  datatype Card<Image> = Img(src: Image) | Undefined

  /** The values of the `stage` state. */
  datatype Stage = ChooseMood | ImagineCards | StackSelection | PreReveal | RevealCard

  /** The two mood buttons. */
  datatype Mood = Green | Red

  /** The shuffled images as deck slots. */
  function Lift<Image>(images: seq<Image>): (cards: seq<Card<Image>>)
    ensures |cards| == |images|
    ensures forall k :: 0 <= k < |images| ==> cards[k] == Img(images[k])
  {
    seq(|images|, k requires 0 <= k < |images| => Img(images[k]))
  }

  /** `shuffled[k]`: the card at `k`, or `undefined` past the end. */
  function At<Image>(deck: seq<Card<Image>>, k: nat): Card<Image>
  {
    if k < |deck| then deck[k] else Undefined
  }

  /** The deck after the padding loop of the mount effect: while it holds fewer
      than 54 cards, push the card at the random index `picks[n]`, `n` being the
      current length. The deck keeps its cards, reaches 54 cards, and every card
      pushed is one it already held (or `undefined` when it started empty). */
  function Padded<Image>(deck: seq<Card<Image>>, picks: seq<nat>): (r: seq<Card<Image>>)
    requires |picks| >= 54 && ArePadPicks(picks)
    ensures |r| == if |deck| < 54 then 54 else |deck|
    ensures r[..|deck|] == deck
    ensures forall k :: |deck| <= k < |r| ==> r[k] in (if deck == [] then [Undefined] else deck)
    decreases 54 - |deck|
  {
    if |deck| >= 54 then deck
    else Padded(deck + [At(deck, picks[|deck|])], picks)
  }

  /** The padding loop of the mount effect, pushing onto the shuffled deck. */
  method PadDeck<Image>(shuffled: seq<Image>, picks: seq<nat>) returns (deck: seq<Card<Image>>)
    requires |picks| >= 54 && ArePadPicks(picks)
    ensures deck == Padded(Lift(shuffled), picks)
  {
    deck := Lift(shuffled);
    while |deck| < 54
      invariant Padded(deck, picks) == Padded(Lift(shuffled), picks)
      decreases 54 - |deck|
    {
      deck := deck + [At(deck, picks[|deck|])];
    }
  }

  /** The deck the mount effect prepares from the source images: at least 54
      cards, exactly 54 when there are at most 54 images, the shuffled images
      first, and every card one of the images (all `undefined` when there are
      none). */
  lemma MountedDeck<Image>(images: seq<Image>, swapPicks: seq<nat>, padPicks: seq<nat>)
    requires |images| <= |swapPicks| && AreSwapPicks(swapPicks)
    requires |padPicks| >= 54 && ArePadPicks(padPicks)
    ensures var deck := Padded(Lift(FisherYates.Shuffled(images, swapPicks)), padPicks);
            && |deck| == (if |images| < 54 then 54 else |images|)
            && forall k :: 0 <= k < |deck| ==>
                 if images == [] then deck[k] == Undefined
                 else deck[k].Img? && deck[k].src in images
  {
    var shuffled := FisherYates.Shuffled(images, swapPicks);
    var lifted := Lift(shuffled);
    var deck := Padded(lifted, padPicks);
    forall k | 0 <= k < |deck|
      ensures if images == [] then deck[k] == Undefined
              else deck[k].Img? && deck[k].src in images
    {
      if images != [] {
        var k' :| 0 <= k' < |lifted| && deck[k] == lifted[k'];
        assert shuffled[k'] in multiset(images);
      }
    }
  }

  /** Whether the imagine stage shows deck position `i`: the first 27 positions
      (the green half) for mood green, the others otherwise. Exactly the
      shown positions are those whose cards three rounds bring to the
      highlighted index. */
  predicate Shown(mood: Option<Mood>, i: nat): (shown: bool)
    ensures mood != None ==> (shown <==> RevealIndex(mood) == (if i < 27 then 27 else 26))
  {
    match mood
    case Some(Green) => i < 27
    case _ => !(i < 27)
  }

  /** `revealIndex`, the position highlighted in the reveal stage. */
  function RevealIndex(mood: Option<Mood>): (index: nat)
    ensures index == 26 <==> mood == Some(Red)
    ensures index == 26 || index == 27
  {
    if mood == Some(Red) then 26 else 27
  }

  /** The trick reveals the imagined card: whatever the deck, a card the
      imagine stage showed for the chosen mood ends, after three rounds in which
      the stack holding it is selected, at the highlighted position. */
  lemma ImaginedCardRevealed<Image>(deck: seq<Card<Image>>, mood: Mood, i: nat)
    requires |deck| == 54 && i < 54 && Shown(Some(mood), i)
    ensures ThreeRounds(deck, i)[RevealIndex(Some(mood))] == deck[i]
  {
    ThreeRoundsConverge(deck, i);
  }

  /** Dealing into three stacks puts the card at `position` into stack
      `position % 3`, the stack a user following the card clicks. */
  lemma ClickedStackHoldsCard<T>(cards: seq<T>, position: nat)
    requires position < |cards|
    ensures cards[position] in Deal(cards, 3)[position % 3]
  {
    DealPlacesCard(cards, 3, position);
  }

  /** The component's state. Between events it satisfies `Valid()`: the deck
      has at least 54 cards, a mood is chosen once the first stage is over,
      at most two rounds have been confirmed, and the stacks and the final deck
      hold exactly the cards of the deck. */
  class SelectStackPage<Image> {
    var deck: seq<Card<Image>>
    var stacks: seq<seq<Card<Image>>>
    var selectedIndex: Option<nat>
    var selectionCount: nat
    var finalDeck: seq<Card<Image>>
    var revealCard: bool
    var stage: Stage
    var moodSelection: Option<Mood>

    ghost predicate Valid()
      reads this
    {
      && |deck| >= 54
      && selectionCount <= 2
      && (moodSelection == None <==> stage == ChooseMood)
      && (revealCard <==> stage == RevealCard)
      && (stage == StackSelection ==>
            && |stacks| == 3
            && multiset(Concat(stacks)) == multiset(deck)
            && (selectedIndex.Some? ==> selectedIndex.value < 3))
      && (stage == PreReveal || stage == RevealCard ==>
            multiset(finalDeck) == multiset(deck))
    }

    /** The initial state and the mount effect: shuffle the source images, then
        pad the deck to 54 cards. */
    constructor (cardImages: seq<Image>, swapPicks: seq<nat>, padPicks: seq<nat>)
      requires |cardImages| <= |swapPicks| && AreSwapPicks(swapPicks)
      requires |padPicks| >= 54 && ArePadPicks(padPicks)
      ensures Valid()
      ensures deck == Padded(Lift(FisherYates.Shuffled(cardImages, swapPicks)), padPicks)
      ensures stacks == [] && selectedIndex == None && selectionCount == 0
      ensures finalDeck == [] && !revealCard
      ensures stage == ChooseMood && moodSelection == None
    {
      var shuffled := FisherYates.ShuffleArray(cardImages, swapPicks);
      var padded := PadDeck(shuffled, padPicks);
      deck := padded;
      stacks := [];
      selectedIndex := None;
      selectionCount := 0;
      finalDeck := [];
      revealCard := false;
      stage := ChooseMood;
      moodSelection := None;
    }

    /** The two mood buttons of the chooseMood stage. */
    method SelectMood(mood: Mood)
      requires Valid() && stage == ChooseMood
      modifies this`moodSelection, this`stage
      ensures Valid()
      ensures moodSelection == Some(mood) && stage == ImagineCards
    {
      moodSelection := Some(mood);
      stage := ImagineCards;
    }

    /** `startTrick`, the button of the imagineCards stage: deal the deck into
        three stacks and reset the round state. */
    method StartTrick()
      requires Valid() && stage == ImagineCards
      modifies this`stacks, this`stage, this`selectionCount, this`selectedIndex,
               this`finalDeck, this`revealCard
      ensures Valid()
      ensures stacks == Deal(deck, 3) && stage == StackSelection
      ensures selectionCount == 0 && selectedIndex == None
      ensures finalDeck == [] && !revealCard
    {
      stacks := DealIntoStacksReversePositions(deck, 3);
      stage := StackSelection;
      selectionCount := 0;
      selectedIndex := None;
      finalDeck := [];
      revealCard := false;
    }

    /** `handleStackClick(idx)`, a click on one of the rendered stacks: select
        it, unless three rounds are done. */
    method HandleStackClick(idx: nat)
      requires Valid() && stage == StackSelection && !revealCard && idx < |stacks|
      modifies this`selectedIndex
      ensures Valid()
      ensures selectedIndex == if selectionCount >= 3 then old(selectedIndex) else Some(idx)
    {
      if selectionCount >= 3 {
        return;
      }
      selectedIndex := Some(idx);
    }

    /** `handleConfirmSelection`: ignored while no stack is selected; otherwise
        recombine the stacks with the selected one in the middle, and either
        finish (third confirmation) or deal the result again. */
    method HandleConfirmSelection()
      requires Valid() && stage == StackSelection && !revealCard
      modifies this`stacks, this`selectionCount, this`selectedIndex, this`finalDeck,
               this`stage
      ensures Valid()
      ensures old(selectedIndex) == None ==>
                && stacks == old(stacks) && selectionCount == old(selectionCount)
                && selectedIndex == None && finalDeck == old(finalDeck)
                && stage == old(stage)
      ensures old(selectedIndex).Some? && old(selectionCount) == 2 ==>
                && finalDeck == Recombine(old(stacks), old(selectedIndex).value)
                && stage == PreReveal
                && stacks == old(stacks) && selectionCount == 2
                && selectedIndex == old(selectedIndex)
      ensures old(selectedIndex).Some? && old(selectionCount) < 2 ==>
                && stacks == Deal(Recombine(old(stacks), old(selectedIndex).value), 3)
                && selectionCount == old(selectionCount) + 1
                && selectedIndex == None
                && finalDeck == old(finalDeck) && stage == StackSelection
    {
      if selectedIndex == None {
        return;
      }
      var selected := selectedIndex.value;
      var combined := Recombine(stacks, selected);
      if selectionCount == 2 {
        finalDeck := combined;
        stage := PreReveal;
        return;
      }
      stacks := DealIntoStacksReversePositions(combined, 3);
      selectionCount := selectionCount + 1;
      selectedIndex := None;
    }

    /** `handleMagicReveal`, the button of the preReveal stage, taken as one
        step: the timer's callback reveals the card. */
    method HandleMagicReveal()
      requires Valid() && stage == PreReveal
      modifies this`revealCard, this`stage
      ensures Valid()
      ensures revealCard && stage == RevealCard
    {
      revealCard := true;
      stage := RevealCard;
    }
  }

  /** One round of a performance: the user clicks stack `selected` of the
      stacks dealt from `cards` and confirms. Before the third round this
      deals the recombined cards anew. A user following a card clicks the
      stack `ClickedStackHoldsCard` names. */
  method PlayRound<Image>(page: SelectStackPage<Image>, ghost cards: seq<Card<Image>>, selected: nat)
    requires page.Valid() && page.stage == StackSelection && page.selectionCount < 2
    requires page.stacks == Deal(cards, 3) && selected < 3
    modifies page
    ensures page.Valid() && page.stage == StackSelection
    ensures page.selectionCount == old(page.selectionCount) + 1
    ensures page.stacks == Deal(Round(cards, selected), 3)
    ensures page.deck == old(page.deck) && page.moodSelection == old(page.moodSelection)
  {
    page.HandleStackClick(selected);
    page.HandleConfirmSelection();
  }

  /** The last round of a performance and the reveal: the third confirmation
      makes the recombined cards the final deck. */
  method FinishTrick<Image>(page: SelectStackPage<Image>, ghost cards: seq<Card<Image>>, selected: nat)
    requires page.Valid() && page.stage == StackSelection && page.selectionCount == 2
    requires page.stacks == Deal(cards, 3) && selected < 3
    modifies page
    ensures page.Valid() && page.stage == RevealCard
    ensures page.finalDeck == Round(cards, selected)
    ensures page.deck == old(page.deck) && page.moodSelection == old(page.moodSelection)
  {
    page.HandleStackClick(selected);
    page.HandleConfirmSelection();
    assert page.finalDeck == Recombine(Deal(cards, 3), selected);
    page.HandleMagicReveal();
  }

  /** A whole performance on a 54-card deck: the user picks a mood, imagines a
      card the page shows for it, and in each round selects the stack that
      holds that card. The card is then the one at `revealIndex`. */
  method PerformTrick<Image>(page: SelectStackPage<Image>, mood: Mood, imagined: nat)
    requires page.Valid() && page.stage == ChooseMood
    requires |page.deck| == 54 && imagined < 54 && Shown(Some(mood), imagined)
    modifies page
    ensures page.Valid() && page.stage == RevealCard && page.deck == old(page.deck)
    ensures page.moodSelection == Some(mood)
    ensures page.finalDeck == ThreeRounds(page.deck, imagined)
    ensures page.finalDeck[RevealIndex(page.moodSelection)] == page.deck[imagined]
  {
    ghost var deck := page.deck;
    page.SelectMood(mood);
    page.StartTrick();
    // position: where the imagined card lies in the cards last dealt
    var position := imagined;
    PlayRound(page, deck, position % 3);
    ghost var d1 := Round(deck, position % 3);
    position := NextIndex(54, position);
    PlayRound(page, d1, position % 3);
    ghost var d2 := Round(d1, position % 3);
    position := NextIndex(54, position);
    FinishTrick(page, d2, position % 3);
    ImaginedCardRevealed(page.deck, mood, imagined);
  }
}
