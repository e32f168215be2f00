# magicCards card trick, modelled in Dafny

This project models the logic of the two card pages of the magicCards web app.

- The deck shuffler (`magicalcards/src/components/cardsPage.jsx`) shuffles the
  card images on mount. It shuffles them again on every click of its button.
- The stack trick (`magicalcards/src/components/SelectStackPage.jsx`) runs a
  variant of the 21-card trick. On mount it shuffles the images and pads the
  deck to 54 cards. The user picks a mood (green or red) and imagines a card
  from the half of the deck shown for that mood. The page then runs three
  rounds. Each round deals the deck into three stacks, the user selects the
  stack holding their card, and the stacks are recombined with that stack in
  the middle. Finally the page highlights `revealIndex`: 26 for red, 27
  otherwise.

The headline result is `SelectStack.ImaginedCardRevealed`. Take any 54-card
deck, and a card at an index the imagine stage shows for the chosen mood. If
each round selects the stack holding that card, the card ends at
`revealIndex`. One round moves the card at index `i` to `35 - i / 3`. Three
rounds take every index below 27 to 27 and every other index to 26.
`SelectStack.PerformTrick` plays the whole trick through the page's own
handlers and reaches the same result.

Files and modules:

- `wrappers.dfy`, module `Wrappers`: the `Option` used for the page's
  `null`-initialised state.
- `random.dfy`, module `Random`: what `Math.floor(Math.random() * n)` can
  return. Callers pass these indices in.
- `fisher_yates.dfy`, module `FisherYates`: `shuffleArray`. The two source
  files hold identical copies; one method models both.
- `stacks.dfy`, module `Stacks`: `dealIntoStacksReversePositions`, the
  recombination, and the arithmetic of the trick.
- `select_stack_page.dfy`, module `SelectStack`: the mount-time padding, the
  page state as a class with one method per handler, and the whole trick
  played through those handlers.
- `cards_page.dfy`, module `Cards`: the shuffler page as a class.

How the code behaves where one might expect otherwise (the model follows the
code):

- The deck has exactly 54 cards only when there are at most 54 images. With
  more images, the padding loop does nothing and the deck keeps them all.
- With no images, the padding loop reads `shuffled[0]`, which is `undefined`.
  It pushes `undefined` until the deck holds 54 entries. The model keeps this
  case with the `Card` datatype (`Img(src)` or `Undefined`).
- `handleConfirmSelection` has no `selectionCount >= 3` guard. It only tests
  `selectionCount === 2`, and on the third confirmation it moves the page to
  `preReveal` without incrementing the counter. So `selectionCount` never exceeds 2, and the `selectionCount >= 3`
  guard in `handleStackClick` never fires. `SelectStackPage.Valid()` states
  this bound.
- After three rounds, the card that began at index 26 lies at index 27, not
  26, because 26 is in the first 27 positions. Index 26 is in the green half,
  and green reveals 27.
- `revealIndex` is 27 when no mood is chosen. The imagine stage then shows the
  second half, whose cards end at 26. The page never gets there: a mood is
  always chosen before the imagine stage (`Valid()`).

## Model

| member | source | states |
|---|---|---|
| `Random.RandomIndex` | magicalcards/src/components/SelectStackPage.jsx:48 | `Math.floor(Math.random() * bound)` is below `bound`, and 0 when `bound` is 0 |
| `Random.SwapPicksOf` | magicalcards/src/components/cardsPage.jsx:19 | the swap index each iteration computes from its draw lies in `[0, i]`, so no access leaves the array |
| `Random.PadPicksOf` | magicalcards/src/components/SelectStackPage.jsx:48 | the padding index read while the deck holds `n` cards is below `n`, or 0 on an empty deck |
| `FisherYates.Swap` | magicalcards/src/components/cardsPage.jsx:20 | the destructuring swap puts the old `j` card at `i` and the old `i` card at `j`; every other position is unchanged |
| `FisherYates.ShuffleFrom` | magicalcards/src/components/SelectStackPage.jsx:17-20 | the loop iterations for the counter `i` down to 1, each swapping position `k` with its pick `j <= k`, keep the length of the sequence |
| `FisherYates.ShuffleFromPermutes` | magicalcards/src/components/SelectStackPage.jsx:17-20 | running the loop from any counter keeps the length and the multiset of cards |
| `FisherYates.ShuffleFromKeepsSuffix` | magicalcards/src/components/cardsPage.jsx:18-21 | the remaining iterations never write above the loop counter, so every position the counter has passed is final |
| `FisherYates.Shuffled` | magicalcards/src/components/SelectStackPage.jsx:15-22 | `shuffleArray` returns a sequence of the same length and the same multiset as its argument |
| `FisherYates.ShuffleArray` | magicalcards/src/components/cardsPage.jsx:16-23 | the in-place loop on a fresh copy computes `Shuffled`, a permutation of the argument; the argument is a value and stays unchanged |
| `Stacks.DealtIndex` | magicalcards/src/components/SelectStackPage.jsx:27-29 | position `p` of stack `m` holds a card whose index is `m` modulo `k`; the later it was dealt, the nearer the top |
| `Stacks.Deal` | magicalcards/src/components/SelectStackPage.jsx:25-31 | dealing gives exactly `k` stacks; stack `m` holds as many cards as there are indices equal to `m` modulo `k` |
| `Stacks.DealPlacesCard` | magicalcards/src/components/SelectStackPage.jsx:28 | the card at index `i` lands in stack `i % k`, `i / k` positions from the bottom |
| `Stacks.DealReversesOrder` | magicalcards/src/components/SelectStackPage.jsx:27-28 | of two cards dealt to the same stack, each lies at position `StackSize - 1 - i / k` of `Deal`, so the one dealt later lies nearer the top |
| `Stacks.NewestOnTop` | magicalcards/src/components/SelectStackPage.jsx:28 | the card just dealt lies on top of stack `n % k`, as `unshift` puts it |
| `Stacks.DealStep` | magicalcards/src/components/SelectStackPage.jsx:27-29 | dealing one more card prepends it to stack `n % k` and changes no other stack |
| `Stacks.DealPermutes` | magicalcards/src/components/SelectStackPage.jsx:25-31 | the stacks together hold exactly the dealt cards: nothing lost, nothing duplicated |
| `Stacks.DealIntoStacksReversePositions` | magicalcards/src/components/SelectStackPage.jsx:25-31 | the `unshift` loop computes `Deal`: `numStacks` stacks that together hold exactly the input's cards |
| `Stacks.DealIntoThirds` | magicalcards/src/components/SelectStackPage.jsx:54 | dealing a multiple of three cards into three stacks gives each stack a third: 18 each for 54 cards |
| `Stacks.Before` | magicalcards/src/components/SelectStackPage.jsx:70 | `leftIndex` is a stack index, equal to `(selected + 2) % 3` |
| `Stacks.After` | magicalcards/src/components/SelectStackPage.jsx:71 | `rightIndex` is a stack index, equal to `(selected + 1) % 3` |
| `Stacks.RotationPermutes` | magicalcards/src/components/SelectStackPage.jsx:72-76 | the rotated concatenation holds the same cards as the three stacks, and as many |
| `Stacks.Recombine` | magicalcards/src/components/SelectStackPage.jsx:72-76 | the recombined deck is a permutation of the three stacks, with the selected stack as its middle block |
| `Stacks.RecombineMiddleAt` | magicalcards/src/components/SelectStackPage.jsx:74 | card `p` of the selected stack lands right after the whole left stack |
| `Stacks.Round` | magicalcards/src/components/SelectStackPage.jsx:70-85 | one round (deal into three, recombine) keeps the length and the multiset of the deck |
| `Stacks.NextIndex` | magicalcards/src/components/SelectStackPage.jsx:72-76 | after one round the tracked card lies in the middle third of the deck |
| `Stacks.RoundMovesCard` | magicalcards/src/components/SelectStackPage.jsx:70-76 | with `3q` cards, selecting the stack holding card `i` moves it to index `2q - 1 - i / 3` (35 - i / 3 for 54 cards) |
| `Stacks.ThreeRounds` | magicalcards/src/components/SelectStackPage.jsx:78-85 | the deck after three rounds has 54 cards and the same multiset |
| `Stacks.ThreeRoundsConverge` | magicalcards/src/components/SelectStackPage.jsx:78-83 | after three rounds a card that began below index 27 lies at 27, any other at 26 |
| `Stacks.NextIndexThrice` | magicalcards/src/components/SelectStackPage.jsx:102 | three moves take every index below 27 to 27 and every other index to 26 |
| `SelectStack.Padded` | magicalcards/src/components/SelectStackPage.jsx:47-49 | padding keeps the deck as a prefix and reaches 54 cards (or keeps a longer deck); every pushed card is already in the deck, or `undefined` when the deck was empty |
| `SelectStack.PadDeck` | magicalcards/src/components/SelectStackPage.jsx:46-49 | the `while`/`push` loop computes `Padded` of the shuffled images |
| `SelectStack.MountedDeck` | magicalcards/src/components/SelectStackPage.jsx:45-51 | the mounted deck has at least 54 cards, exactly 54 for at most 54 images; every card is a source image, or all are `undefined` when there are none |
| `SelectStack.Shown` | magicalcards/src/components/SelectStackPage.jsx:139-140 | the imagine stage shows position `i`: the first 27 for green, the rest otherwise; a card is shown exactly when the highlighted index is the one its position converges to |
| `SelectStack.RevealIndex` | magicalcards/src/components/SelectStackPage.jsx:102 | the highlighted index is 26 exactly when the mood is red, otherwise 27 |
| `SelectStack.ImaginedCardRevealed` | magicalcards/src/components/SelectStackPage.jsx:138-140 | a card the imagine stage shows for the chosen mood ends at `revealIndex` after three rounds that select its stack |
| `SelectStack.ClickedStackHoldsCard` | magicalcards/src/components/SelectStackPage.jsx:25-31 | the card at `position` of the dealt cards lies in stack `position % 3`, the stack a user following it clicks |
| `SelectStack.SelectStackPage.constructor` | magicalcards/src/components/SelectStackPage.jsx:34-51 | initial state, then the mount effect: the deck is the padded shuffle of the images; stage `chooseMood`, nothing selected |
| `SelectStack.SelectStackPage.SelectMood` | magicalcards/src/components/SelectStackPage.jsx:111-128 | in `chooseMood`, a mood button stores the mood and moves to `imagineCards` |
| `SelectStack.SelectStackPage.StartTrick` | magicalcards/src/components/SelectStackPage.jsx:53-60 | deals the deck into three stacks, moves to `stackSelection`, and resets count, selection, final deck and reveal flag |
| `SelectStack.SelectStackPage.HandleStackClick` | magicalcards/src/components/SelectStackPage.jsx:62-65 | selects the clicked stack unless `selectionCount >= 3`; nothing else changes |
| `SelectStack.SelectStackPage.HandleConfirmSelection` | magicalcards/src/components/SelectStackPage.jsx:67-89 | no stack selected: nothing changes; third confirmation: final deck is the recombination, stage `preReveal`, no re-deal, stacks and count unchanged; earlier: re-deals the recombination, increments the count, clears the selection; the stacks and final deck always hold the deck's cards |
| `SelectStack.SelectStackPage.HandleMagicReveal` | magicalcards/src/components/SelectStackPage.jsx:91-99 | from `preReveal`, sets `revealCard` and moves to `revealCard` |
| `SelectStack.PlayRound` | magicalcards/src/components/SelectStackPage.jsx:170-194 | clicking a stack and confirming in round one or two deals the round's recombination anew |
| `SelectStack.FinishTrick` | magicalcards/src/components/SelectStackPage.jsx:78-98 | the third click-and-confirm and the reveal leave the round's recombination as the final deck, in stage `revealCard` |
| `SelectStack.PerformTrick` | magicalcards/src/components/SelectStackPage.jsx:232 | played through the handlers, the trick keeps the chosen mood and ends with the imagined card at the highlighted index (26 for red, 27 for green) |
| `Cards.Reshuffled` | magicalcards/src/components/cardsPage.jsx:29-36 | however often the deck is shuffled, it keeps its length and its multiset of card images |
| `Cards.ReshuffledThenShuffled` | magicalcards/src/components/cardsPage.jsx:35 | one more shuffle extends the shuffle history by one step |
| `Cards.CardsPage.constructor` | magicalcards/src/components/cardsPage.jsx:26-31 | on mount the deck becomes a shuffle of the card images |
| `Cards.CardsPage.HandleShuffle` | magicalcards/src/components/cardsPage.jsx:34-36 | the deck becomes a shuffle of the current deck and still holds the multiset of the card images |

## Left out

- Rendering, CSS classes, `<img>` elements and layout are not modelled. The
  only logic in them is which stage renders which button; each handler's
  `requires` states that stage.
- Image loading (`import.meta.glob` and the file-name sort) is not modelled.
  It depends on the bundler. The images are a given sequence of an opaque type.
- The distribution of `Math.random` is not modelled. Each index
  `Math.floor(Math.random() * n)` is a parameter, and the properties hold for
  every admissible choice. Uniformity is a probabilistic claim.
- The 1000 ms `setTimeout`, `isAnimatingShuffle` and `isShuffling` are
  cosmetic and not modelled. The reveal is one atomic step. Clicking the
  reveal button again before the timer fires schedules the same state update
  again, which changes nothing.
- React applies a handler's state updates together; each handler method does
  its updates as one step.
- `magicalcards/src/App.jsx` only composes the pages and is not part of this model.
- `unshift` mutates the inner stack arrays in place; the model updates a
  sequence of sequences instead. No stack array is shared, so no aliasing is lost.
- Stacks.DealIntoStacksReversePositions: requires `numStacks > 0`. With 0
  stacks and a non-empty deck, the JavaScript throws a `TypeError`. The only
  callers pass 3.
- The trick's convergence is proved for a 54-card deck. With more than 54
  images the deck is longer, and the code makes no promise about where the
  card ends.
