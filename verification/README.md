# Klondike Solitaire rules engine, modelled in Dafny

This project models the rules engine of a JavaFX Klondike Solitaire game
(`Card`, `Pile`, `Game` and `Score`), with the rendering and the mouse
geometry stripped away, and proves properties of it.

The game state is the 13-pile table, the `numMoves` counter and the
`Score` object. The piles are numbered as follows:

- 0 is the stock;
- 1 is the discard ("waste") pile;
- 2..5 are the four foundations, in list order;
- 6..12 are the seven tableaus, in list order.

A multi-card drop appends a `HIDDEN` scratch pile at index 13 and removes
it again once it is empty.

Cards are immutable values `Card(suit, rank, faceDown)`. A card's
identity is its `(suit, rank)` key, which a full deck holds exactly once.
A card on the table is named by its pile and its position in the pile.
The Java `containingPile` back-pointer is implicit: it is the pile the
card sits in.

The modules follow the Java classes:

- `Cards`: `Card.java`'s colour, rank and suit tests, `flip` and `getShortName`.
- `Deck`: `createNewDeck`.
- `Piles`: `Pile.java`, and `Card.moveToPile` with its auto-flip, on the whole table.
- `Rules`: `isMoveValid`, `possibleMove`, `getValidIntersectingPile` and `isGameWon`.
- `Deal`: the `dealCards` loop, and a closed-form reference deal.
- `Scoring`: `Score.java`.
- `Solitaire`: the `Game` handlers:
  - the stock draw and `refillStockFromDiscard`;
  - the double-click auto-move;
  - the drag-and-release of one card or of a tableau run, including the `HIDDEN` round trip;
  - `handleValidMove`;
  - restart.
- `Decimal`: the decimal text of an `int`, for `"Score: " + n` and `getShortName`.
- `Wrappers`: `Option`.

Java's `null` becomes `None`.

Card conservation is stated with counts. `TableCount(t, k)` is how many
cards with key `k` lie anywhere on the table. `SameCards(t, u)` says two
tables agree on every count. Every handler except restart keeps
`SameCards`; restart deals a full table from a new deck. So any sequence
of player actions keeps each of the 52 cards on the table exactly once
(`Solitaire.NewGamePlay`).

Literal behaviours of the source that the model reproduces rather than
fixes:

- **Win threshold.** The game counts as won as soon as 3 of the 4
  foundations hold 13 cards (`Rules.IsGameWon`).
- **Restart score.** `restart` builds the new score from `numMoves`, which
  is never reset. The restart score is therefore the number of successful
  double-click auto-moves made so far (`Solitaire.Restart`).
- **`slideToDest` argument.** `handleValidMove` passes the move type it
  computed as the `slideToDest` argument. This cannot change the result
  (`Scoring.MoveTypeFeedback`).
- **No null drop target.** The drop-target search defaults to the card's
  own pile and never returns null, so the `slideBack` branch of the
  release handler is dead. The event model (`Solitaire.Step`) runs the
  handler as written; the corrected handler is stated beside it. See
  Findings.
- **Redeal.** The stock pile's live click handler re-adds the whole
  reshuffled deck to the stock, duplicating every card still on the
  table. The model keeps that handler's "only when the stock is empty"
  guard and redeals with `refillStockFromDiscard`, which conserves cards.
- **Multi-card drops.** A multi-card drop is not scored, and it only
  considers tableaus as targets.

## Model

| member | source | states |
|---|---|---|
| Cards.CardColor | CST8334SolitaireGameGroup6/src/solitaire/Card.java:116-121 | suits 1 and 2 are red; every other suit value is black |
| Cards.OppositeColorIffDifferentSuitGroup | CST8334SolitaireGameGroup6/src/solitaire/Card.java:108-113 | two cards have opposite colours iff exactly one of them has suit 1 or 2 |
| Cards.OppositeColorSymmetricIrreflexive | CST8334SolitaireGameGroup6/src/solitaire/Card.java:108-113 | `isOppositeColor` is symmetric and false for a card compared with itself |
| Cards.HigherRankAsymmetric | CST8334SolitaireGameGroup6/src/solitaire/Card.java:123-125 | "one rank higher" never holds in both directions, nor for a card with itself |
| Cards.SameSuitEquivalence | CST8334SolitaireGameGroup6/src/solitaire/Card.java:127-129 | `isSameSuit` is reflexive, symmetric and transitive |
| Cards.Flip | CST8334SolitaireGameGroup6/src/solitaire/Card.java:98-101 | flipping keeps suit and rank and toggles the orientation |
| Cards.FlipTwice | CST8334SolitaireGameGroup6/src/solitaire/Card.java:98-101 | flipping twice restores the card |
| Cards.ShortNameInjective | CST8334SolitaireGameGroup6/src/solitaire/Card.java:58-60 | for valid cards, "S"+suit+"R"+rank names are equal iff the cards have the same suit and rank, so the image-map key is unambiguous |
| Decimal.ParseIntToString | CST8334SolitaireGameGroup6/src/solitaire/Score.java:44 | the decimal text of an integer parses back to that integer |
| Decimal.IntToStringInjective | CST8334SolitaireGameGroup6/src/solitaire/Score.java:44 | different integers have different decimal texts |
| Deck.OrderedCardPosition | CST8334SolitaireGameGroup6/src/solitaire/Card.java:133-138 | the unshuffled deck holds the face-down card (s, r) at position 13(s-1)+(r-1) |
| Deck.OrderedCardsDistinct | CST8334SolitaireGameGroup6/src/solitaire/Card.java:133-138 | the unshuffled deck has no repeated (suit, rank) |
| Deck.CreateNewDeck | CST8334SolitaireGameGroup6/src/solitaire/Card.java:131-141 | for any permutation, the shuffled deck has 52 valid face-down cards, each (suit, rank) exactly once, and is the ordered deck permuted |
| Piles.IsEmptyIffNoCards | CST8334SolitaireGameGroup6/src/solitaire/Pile.java:50-56 | `isEmpty` holds iff `numOfCards() == 0` |
| Piles.TopCard | CST8334SolitaireGameGroup6/src/solitaire/Pile.java:77-82 | the top is the last card, and it is absent exactly when the pile is empty |
| Piles.Clear | CST8334SolitaireGameGroup6/src/solitaire/Pile.java:58-60 | clearing empties the pile and keeps its type |
| Piles.AddCard | CST8334SolitaireGameGroup6/src/solitaire/Pile.java:62-67 | with no precondition, the size grows by one, the card becomes the top, the earlier cards stay in order, and the type is unchanged |
| Piles.RemoveCardAt | CST8334SolitaireGameGroup6/src/solitaire/Card.java:78 | on a pile with no repeated card, removing a card by identity (`List.remove(Object)`) removes it at its position |
| Piles.Expose | CST8334SolitaireGameGroup6/src/solitaire/Card.java:81-87 | only the top card may change orientation, and it ends face up iff it was face up or the pile is a non-empty tableau and the destination is not `HIDDEN` |
| Piles.MoveToPile | CST8334SolitaireGameGroup6/src/solitaire/Card.java:74-88 | the card is appended to the destination, the source loses it and has its new top exposed, every other pile is unchanged and no pile changes type |
| Piles.MoveToPileSameCards | CST8334SolitaireGameGroup6/src/solitaire/Card.java:74-88 | a move loses, adds or duplicates no card on the table |
| Piles.MoveToPileRelocates | CST8334SolitaireGameGroup6/src/solitaire/Card.java:74-80 | on a table with no repeated card, after the move the card lies in the destination and nowhere else, which is its new containing pile |
| Piles.MoveRunToTop | CST8334SolitaireGameGroup6/src/solitaire/Game.java:262-266 | moving a run card by card with nothing flipping on the way appends the run in order and exposes the source's new top once |
| Piles.MoveRunSameCards | CST8334SolitaireGameGroup6/src/solitaire/Game.java:262-266 | moving a run card by card keeps the cards on the table |
| Piles.FlipTop | CST8334SolitaireGameGroup6/src/solitaire/Card.java:98-101 | flipping a pile's top card changes that card's orientation only and keeps the cards |
| Rules.InitPilesLayout | CST8334SolitaireGameGroup6/src/solitaire/Game.java:425-486 | the initial table is 13 empty piles: stock, discard, 4 foundations and 7 tableaus |
| Rules.IsMoveValidCases | CST8334SolitaireGameGroup6/src/solitaire/Game.java:314-331 | an empty tableau accepts only a King; a non-empty one accepts exactly an opposite-colour card one rank below its top. An empty foundation accepts only an Ace; a non-empty one accepts exactly a same-suit card one rank above its top. Every other pile rejects |
| Rules.NotOntoItself | CST8334SolitaireGameGroup6/src/solitaire/Game.java:314-331 | no pile accepts its own top card |
| Rules.FoundationGrows | CST8334SolitaireGameGroup6/src/solitaire/Game.java:322-328 | a same-suit run Ace, 2, …, k stays one when a card `isMoveValid` accepts is added |
| Rules.AcceptedFoundation | CST8334SolitaireGameGroup6/src/solitaire/Game.java:322-328 | a foundation built only from accepted cards is a same-suit run from Ace, and of valid cards it holds at most 13 |
| Rules.PossibleMove | CST8334SolitaireGameGroup6/src/solitaire/Game.java:557-567 | returns the first pile, foundations then tableaus in list order, that accepts the card; none iff no foundation or tableau accepts it |
| Rules.PossibleMoveNotOwnPile | CST8334SolitaireGameGroup6/src/solitaire/Game.java:557-567 | the auto-move never sends a pile's top card back to that pile |
| Rules.ValidIntersectingPile | CST8334SolitaireGameGroup6/src/solitaire/Game.java:333-342 | the result is the default or a listed pile, and a listed pile is chosen only if the card overlaps it, it accepts the card, and it is not the card's own pile |
| Rules.ValidIntersectingPileIsLast | CST8334SolitaireGameGroup6/src/solitaire/Game.java:333-342 | the search returns the last listed candidate, which the reference `LastCandidate` finds by scanning from the end, or the card's own pile when there is none; starting from the own pile it stays there iff there is no candidate |
| Rules.IsGameWon | CST8334SolitaireGameGroup6/src/solitaire/Game.java:268-275 | the early-exit scan answers true iff at least 3 foundations hold exactly 13 cards |
| Deal.RowStartClosedForm | CST8334SolitaireGameGroup6/src/solitaire/Game.java:488-522 | row r of the triangular deal starts at deck index 7r − r(r−1)/2 |
| Deal.DealtPositionsDistinct | CST8334SolitaireGameGroup6/src/solitaire/Game.java:488-522 | no deck index is dealt to two tableau positions |
| Deal.DealtTableShape | CST8334SolitaireGameGroup6/src/solitaire/Game.java:488-522 | tableau i holds i+1 cards, with card r from deck index start_r + (i − r); the stock holds deck[28..] in order; the discard pile and the foundations are empty |
| Deal.DealtFaces | CST8334SolitaireGameGroup6/src/solitaire/Game.java:514-518 | from a face-down deck, only the last card of each tableau is face up, and the stock is all face down |
| Deal.DealCards | CST8334SolitaireGameGroup6/src/solitaire/Game.java:488-522 | the loop over the deck, one `DealNext` pass per card, builds exactly the reference deal, and every card of the deck lands on the table once |
| Deal.DealNext | CST8334SolitaireGameGroup6/src/solitaire/Game.java:499-520 | one pass of the loop body (stock past card 27, otherwise the current tableau, then the pile counter moves on and wraps to the next row's start; the card is turned up when it opens a row or is card 27) keeps the deal state: the counters stay in their row, each tableau holds its first dealt rows, the stock the cards past the tableaus, and the table holds exactly the cards dealt so far |
| Deal.DealtTableCounts | CST8334SolitaireGameGroup6/src/solitaire/Game.java:488-522 | the reference deal holds each card exactly as often as the deck does |
| Scoring.ScoreTextRoundTrip | CST8334SolitaireGameGroup6/src/solitaire/Score.java:44 | "Score: " + n reads back as n, and different scores give different texts |
| Scoring.NewScore | CST8334SolitaireGameGroup6/src/solitaire/Score.java:33-38 | a new score holds the initial value and its text shows it |
| Scoring.CreateScoreText | CST8334SolitaireGameGroup6/src/solitaire/Score.java:43-49 | the value is kept and the text is resynchronised to show it |
| Scoring.DisplayScore | CST8334SolitaireGameGroup6/src/solitaire/Score.java:112-118 | the value is kept and the text is resynchronised to show it |
| Scoring.AddScore | CST8334SolitaireGameGroup6/src/solitaire/Score.java:56-58 | adds exactly the amount and leaves the text as it was |
| Scoring.UpdateScoreBy | CST8334SolitaireGameGroup6/src/solitaire/Score.java:96-98 | `updateScore(int)` behaves as `addScore`: the amount is added and the text is left unchanged |
| Scoring.SetScore | CST8334SolitaireGameGroup6/src/solitaire/Score.java:64-66 | sets the value only |
| Scoring.SetCurrentScore | CST8334SolitaireGameGroup6/src/solitaire/Score.java:80-83 | sets the value and the text "Score: n" |
| Scoring.ClearScore | CST8334SolitaireGameGroup6/src/solitaire/Score.java:88-90 | sets the value to 0 only |
| Scoring.StaleText | CST8334SolitaireGameGroup6/src/test/ScoreTest.java:60-67 | from a score whose text shows its value, `addScore` leaves the text showing the old value, and stays in step iff it adds 0; `setScore` and `clearScore` likewise stay in step only when they do not change the value; `setCurrentScore` equals `setScore` followed by a resync |
| Scoring.AddScoreAccumulates | CST8334SolitaireGameGroup6/src/test/ScoreTest.java:51-58 | two additions equal one addition of the sum, and clearing after an addition equals clearing |
| Scoring.CalculateScore | CST8334SolitaireGameGroup6/src/solitaire/Score.java:105-107 | 32-bit `10000 / (moves + 10)` throws exactly at moves = −10; otherwise it is 10000 divided by moves + 10 and truncated towards zero, where moves + 10 wraps to a negative divisor past the `int` range; for moves ≥ 0 the result lies in 0..1000 |
| Scoring.CalculateScoreExamples | CST8334SolitaireGameGroup6/src/test/ScoreTest.java:69-73 | 90 moves give 100, 40 give 200, and 0 give 1000 |
| Scoring.CalculateScoreNonIncreasing | CST8334SolitaireGameGroup6/src/solitaire/Score.java:105-107 | for non-negative move counts, more moves never give a higher score |
| Scoring.GetMoveType | CST8334SolitaireGameGroup6/src/solitaire/Score.java:148-168 | a missing pile gives `INVALID_MOVE`; each of T→T, Discard→T, Discard→F and F→T gives its type iff the kinds are that pair; `TABLEAU_TO_FOUNDATION` is given iff the pair is T→F, or another pair has a foundation destination and `slideToDest` is 1 |
| Scoring.MovePoints | CST8334SolitaireGameGroup6/src/solitaire/Score.java:122-143 | types 1 and 4 are worth 10, types 3 and 5 are worth 5, and every other type is worth 0 |
| Scoring.UpdateScore | CST8334SolitaireGameGroup6/src/solitaire/Score.java:122-145 | the score grows by 10 for tableau or discard onto a foundation, by 5 for tableau or discard onto a tableau, and by 0 with no source, onto any other kind, or from any other kind onto a tableau; from any other kind onto a foundation it grows by 10 exactly when `slideToDest` is 1; the text is resynchronised |
| Scoring.MoveTypeFeedback | CST8334SolitaireGameGroup6/src/solitaire/Game.java:408-416 | passing the computed move type back in as `slideToDest` gives the same classification |
| Scoring.UpdateAllAdds | CST8334SolitaireGameGroup6/src/solitaire/Score.java:122-145 | a sequence of move updates adds the sum of their points, never lowers the score, and adds at most 10 per move |
| Solitaire.NewGame | CST8334SolitaireGameGroup6/src/solitaire/Game.java:62-70 | a new game puts exactly the `dealCards` table of the deck on the table (`Deal.DealtTable`), with zero moves and score 0, shown in the score text |
| Solitaire.NewGameCards | CST8334SolitaireGameGroup6/src/solitaire/Game.java:62-70 | a fresh deal holds each of the 52 cards exactly once |
| Solitaire.Restart | CST8334SolitaireGameGroup6/src/solitaire/Game.java:538-546 | a restart puts exactly the `dealCards` table of the new deck on the table (`Deal.DealtTable`), keeps `numMoves`, and starts the score at `numMoves` |
| Solitaire.RestartVersusNewGame | CST8334SolitaireGameGroup6/src/solitaire/Game.java:538-546 | a restart deals like a new game, and it scores like one iff no auto-move has been made |
| Solitaire.UpdateGameScore | CST8334SolitaireGameGroup6/src/solitaire/Game.java:98-102 | sets the score value and its text |
| Solitaire.DrawFromStock | CST8334SolitaireGameGroup6/src/solitaire/Game.java:133-141 | a stock click moves the stock's top card onto the discard pile face up and changes nothing else |
| Solitaire.DrawFromStockSameCards | CST8334SolitaireGameGroup6/src/solitaire/Game.java:133-141 | a stock draw keeps the cards |
| Solitaire.RefillStockFromDiscard | CST8334SolitaireGameGroup6/src/solitaire/Game.java:298-312 | the stock becomes the discard pile reversed, all face down, the discard pile is emptied, and nothing else changes |
| Solitaire.RefillSameCards | CST8334SolitaireGameGroup6/src/solitaire/Game.java:298-312 | with the stock empty, the redeal loses and adds no card |
| Solitaire.RefillThenDrawAll | CST8334SolitaireGameGroup6/src/solitaire/Game.java:298-312 | with an empty stock and a face-up discard pile, redealing and then drawing every card back gives the same game |
| Solitaire.StockPileClicked | CST8334SolitaireGameGroup6/src/solitaire/Game.java:146-147 | a click on the stock pile redeals when the stock is empty and does nothing otherwise |
| Solitaire.HandleValidMove | CST8334SolitaireGameGroup6/src/solitaire/Game.java:351-422 | the card is appended to the destination, the source loses it and exposes its new top when it is a tableau (a drop on its own pile puts the card back on top), every other pile is unchanged, `numMoves` is kept, and the score grows by the points for the source and destination kinds, with its text resynchronised |
| Solitaire.HandleValidMoveSameCards | CST8334SolitaireGameGroup6/src/solitaire/Game.java:351-422 | the move keeps the cards |
| Solitaire.CardClicked | CST8334SolitaireGameGroup6/src/solitaire/Game.java:110-142 | a double click on a top card outside the stock moves it to the auto-move target, a valid pile other than its own, exactly as `handleValidMove` does (source, destination, other piles and score), and counts one move; with no target nothing changes; a click on a stock card draws; any other click does nothing |
| Solitaire.CardClickedSameCards | CST8334SolitaireGameGroup6/src/solitaire/Game.java:110-142 | a card click keeps the cards |
| Solitaire.DragCount | CST8334SolitaireGameGroup6/src/solitaire/Game.java:187-219 | nothing is dragged from the stock, from below the top of the discard pile or a foundation, or from a face-down card; a face-up tableau card drags itself and everything above it; otherwise one card |
| Solitaire.MultiDropAccepted | CST8334SolitaireGameGroup6/src/solitaire/Game.java:236-238 | a run whose first card fits the target, and in which nothing flips on the way (a face-up run, or one not taken from a tableau), is appended there in order; the source keeps the cards below the run, with its new top exposed once; other piles are unchanged |
| Solitaire.MultiDropRejected | CST8334SolitaireGameGroup6/src/solitaire/Game.java:239-244 | a run that does not fit its own pile goes through `HIDDEN` and back, and the table is exactly as before, with no flip |
| Solitaire.MultiDropSameCards | CST8334SolitaireGameGroup6/src/solitaire/Game.java:236-245 | the multi-card drop keeps the cards, whether it is accepted or rolled back |
| Solitaire.HiddenDetourSameCards | CST8334SolitaireGameGroup6/src/solitaire/Game.java:239-244 | the round trip through the `HIDDEN` pile, towards any target, keeps the cards |
| Solitaire.Released | CST8334SolitaireGameGroup6/src/solitaire/Game.java:230-260 | the literal release handler keeps the table layout and does not touch the move counter; what it does to the piles and the score is stated by the release lemmas below |
| Solitaire.ReleasedSameCards | CST8334SolitaireGameGroup6/src/solitaire/Game.java:230-260 | every release keeps the cards |
| Solitaire.ReleasedRunAccepted | CST8334SolitaireGameGroup6/src/solitaire/Game.java:233-238 | a face-up run goes to the last listed tableau that it overlaps and fits on, other than its own, and lands there in order |
| Solitaire.RunNotOntoOwnPile | CST8334SolitaireGameGroup6/src/solitaire/Game.java:315-321 | a built-down run of two or more cards never fits onto its own tableau |
| Solitaire.ReleasedRunRejected | CST8334SolitaireGameGroup6/src/solitaire/Game.java:239-244 | a built-down run that overlaps no tableau it fits on leaves the game unchanged |
| Solitaire.SingleDropOnOwnPileScores | CST8334SolitaireGameGroup6/src/solitaire/Game.java:246-254 | as written, a face-up tableau top card released over no accepting pile leaves the table unchanged yet scores +5 |
| Solitaire.SingleDropCounterexample | CST8334SolitaireGameGroup6/src/solitaire/Game.java:246-254 | a concrete table on which the rejected drop scores 5 |
| Solitaire.ReleasedCheckedSingle | CST8334SolitaireGameGroup6/src/solitaire/Game.java:246-254 | corrected: a single card with no accepting pile leaves the game unchanged; otherwise it moves to the last accepting pile, tableaus then foundations, which is valid and not its own, and the move is scored |
| Solitaire.ReleasedCheckedVersusReleased | CST8334SolitaireGameGroup6/src/solitaire/Game.java:246-254 | the corrected handler differs from the literal one only on a single card with no accepting pile |
| Solitaire.ReleasedCheckedSameCards | CST8334SolitaireGameGroup6/src/solitaire/Game.java:230-260 | the corrected release keeps the cards |
| Solitaire.Step | CST8334SolitaireGameGroup6/src/solitaire/Game.java:110-142 | a handler run, with releases through the handler as written, keeps the table layout, never lowers `numMoves`, and keeps the score text in step with the value |
| Solitaire.StepSameCards | CST8334SolitaireGameGroup6/src/solitaire/Game.java:110-142 | every handler except restart keeps the cards |
| Solitaire.PlayFullTable | CST8334SolitaireGameGroup6/src/solitaire/Game.java:110-142 | any sequence of player actions keeps each of the 52 cards on the table exactly once and the score text in step |
| Solitaire.NewGamePlay | CST8334SolitaireGameGroup6/src/solitaire/Game.java:62-70 | from a fresh deal, whatever the player does, every card is on the table exactly once and the score text shows the score |

## Left out

- **JavaFX presentation.** Images, drop shadows, layout coordinates, gaps,
  buttons, the modal dialog and `Main.java` are rendering only.
- **Mouse geometry.** The drag offsets and the bounds-intersection test
  `isOverPile` are not modelled. The piles a released card overlaps are an
  input, the `over` set.
- **`MouseUtil.slideToDest` and `slideBack`.** MouseUtil is not part of this
  model. The relocation is modelled as one `moveToPile` per dragged card,
  as `moveCardsToPile` does.
- **Randomness.** `Collections.shuffle` becomes an arbitrary permutation
  passed to `Deck.CreateNewDeck`. `restart` and a new game take the
  shuffled deck as an input.
- **The stock pile's live handler** (`Game.java` lines 146-162) is left
  out. It re-adds the whole reshuffled deck to the stock and so duplicates
  cards. Only its empty-stock guard is kept, and the redeal is
  `refillStockFromDiscard`.
- **Dead stubs and scaffolding.** This covers:
  - `Score.move`, the boolean `getMoveType` and the `move*` stubs, which
    always return false or 0;
  - the singleton `getInstance`;
  - the empty `initialize`;
  - console messages;
  - the unused pile name;
  - the `numOfCards() == 12` modal check after a release.

  None of them has a state effect.
- **The win dialog.** The `isGameWon` modal after a foundation move is
  not modelled; `Rules.IsGameWon` models the test itself.
- Scoring.AddScore: the Java `int` score wraps at 32 bits. The model's
  score is unbounded. Only `calculateScore` models 32-bit arithmetic,
  because its test values and division depend on it.
- Scoring.UpdateScore: the same 32-bit wrap-around is not modelled.
- Solitaire.HandleValidMove: scores by the explicit kinds of the source
  and destination piles. It does not model the source lookup over the
  tableau tops and the discard top, because that lookup's outcome depends
  on when `MouseUtil` moves the card. The two can differ. A foundation's
  top card dropped back on its own foundation scores +10 by the explicit
  kinds. A lookup made before the card moves finds no source and scores 0.
  A lookup made after the card has moved no longer finds it where it came
  from. The double-click auto-move shows the same gap: it can carry a
  foundation's lone Ace to another, empty foundation, which the explicit
  kinds score +10 per click, while the lookup, which searches only the
  tableau tops and the discard top, finds no source and scores 0 at any
  timing.
- Solitaire.MultiDropAccepted: requires that nothing flips while the run
  moves card by card, which holds for a face-up tableau run. A tableau run
  with a face-down card inside it would have that card flipped part-way by
  `moveToPile`. Reachable tableaus never hold such a run, because every
  card above a face-up tableau card is face up, but the model does not
  prove that reachability invariant.
- Solitaire.ReleasedRunAccepted: requires the dragged run to be face up.
  Reachable tableaus always satisfy this, but the model does not prove
  that reachability invariant.
- Solitaire.ReleasedRunRejected: requires the run to be built down
  (each card one rank below the one under it). Reachable tableaus always
  satisfy this, but the model does not prove that reachability invariant.
- Events name a card by pile and position. An event that names no card,
  which the user interface cannot produce, does nothing.

## Findings

| source | as written | input that shows it | evidently intended | confidence | as-written member | corrected member |
|---|---|---|---|---|---|---|
| CST8334SolitaireGameGroup6/src/solitaire/Game.java:246-254 | a single dragged card released over no pile that accepts it is passed to `handleValidMove` with its own pile, because the drop-target search defaults to the card's own pile and never returns null; the move is then scored, tableau to tableau +5 | a face-up 5 of suit 1 alone on the first tableau, released over no pile: the table is unchanged and the score rises from 0 to 5 | the card slides back and no move is scored (the `else` branch with `slideBack`) | not executed; high, since the default is set on the line before the loop | Solitaire.Released (counterexample: Solitaire.SingleDropCounterexample) | Solitaire.ReleasedChecked (property: Solitaire.ReleasedCheckedSingle) |
