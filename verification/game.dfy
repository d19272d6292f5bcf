/**
 * The event handlers of `Game`: the stock draw and the redeal from the
 * discard pile, the double-click auto-move, the drag-and-release of one
 * card or of a tableau run (with the HIDDEN round trip that undoes a
 * rejected run drop), the score update of `handleValidMove`, and restart.
 * The game state is the table, the `numMoves` counter and the score.
 */
module Solitaire {
  import opened Wrappers
  import opened Cards
  import opened Deck
  import opened Piles
  import opened Rules
  import opened Deal
  import opened Scoring

  datatype Game = Game(piles: seq<Pile>, numMoves: int, score: Score)

  /** The `Game()` constructor: deal a fresh deck, zero moves, score 0. */
  function NewGame(deck: seq<Card>): (g: Game)
    requires IsFullDeck(deck)
    ensures Layout(g.piles) && g.numMoves == 0
    ensures g.piles == DealtTable(deck)
    ensures GetCurrentScore(g.score) == 0 && InSync(g.score)
  {
    Game(DealtTable(deck), 0, NewScore(0))
  }

  /**
   * `restart`: a new deal, and a score built from `numMoves`, which is
   * kept, so the restart score is the number of auto-moves made so far.
   */
  function Restart(g: Game, deck: seq<Card>): (r: Game)
    requires IsFullDeck(deck)
    ensures Layout(r.piles) && r.numMoves == g.numMoves
    ensures r.piles == DealtTable(deck)
    ensures GetCurrentScore(r.score) == g.numMoves && InSync(r.score)
  {
    Game(DealtTable(deck), g.numMoves, NewScore(g.numMoves))
  }

  /** A restart deals like a new game but scores like one only when no auto-move was made. */
  lemma RestartVersusNewGame(g: Game, deck: seq<Card>)
    requires IsFullDeck(deck)
    ensures Restart(g, deck).piles == NewGame(deck).piles
    ensures Restart(g, deck).score == NewGame(deck).score <==> g.numMoves == 0
  {
  }

  /** A fresh deal holds each of the 52 cards exactly once. */
  lemma NewGameCards(deck: seq<Card>)
    requires IsFullDeck(deck)
    ensures UniqueCards(NewGame(deck).piles)
    ensures forall s, r :: 1 <= s <= 4 && 1 <= r <= 13 ==> TableCount(NewGame(deck).piles, (s, r)) == 1
  {
    DealtTableCounts(deck);
    forall k ensures TableCount(NewGame(deck).piles, k) <= 1 {
      DistinctCount(deck, k);
    }
    forall s, r | 1 <= s <= 4 && 1 <= r <= 13
      ensures TableCount(NewGame(deck).piles, (s, r)) == 1
    {
      assert HasCard(deck, s, r);
      var j :| 0 <= j < |deck| && Key(deck[j]) == (s, r);
      CountIn(deck, j);
      DistinctCount(deck, (s, r));
    }
  }

  /** `Game.updateScore(newScore)`: the score object is never null after construction. */
  function UpdateGameScore(g: Game, newScore: int): (r: Game)
    ensures GetCurrentScore(r.score) == newScore && InSync(r.score)
    ensures r.piles == g.piles && r.numMoves == g.numMoves
  {
    g.(score := SetCurrentScore(g.score, newScore))
  }

  /** The card turned face up; the identity is unchanged. */
  function FaceUp(c: Card): Card {
    c.(faceDown := false)
  }

  /**
   * A click on a stock card: the stock's top card moves to the discard
   * pile (no auto-flip, the stock is not a tableau) and is turned face up if
   * it was face down.
   */
  function DrawFromStock(g: Game): (r: Game)
    requires Layout(g.piles) && g.piles[STOCK_PILE].cards != []
    ensures Layout(r.piles)
    ensures var stock := g.piles[STOCK_PILE].cards;
      && r.piles[STOCK_PILE].cards == stock[..|stock| - 1]
      && r.piles[DISCARD_PILE].cards == g.piles[DISCARD_PILE].cards + [FaceUp(stock[|stock| - 1])]
    ensures forall j :: 2 <= j < PILE_COUNT ==> r.piles[j] == g.piles[j]
    ensures r.score == g.score && r.numMoves == g.numMoves
  {
    var t := g.piles;
    var n := |t[STOCK_PILE].cards| - 1;
    var t1 := MoveToPile(t, STOCK_PILE, n, DISCARD_PILE);
    var card := t1[DISCARD_PILE].cards[|t1[DISCARD_PILE].cards| - 1];
    var t2 := if card.faceDown then t1[DISCARD_PILE := FlipTop(t1[DISCARD_PILE])] else t1;
    assert RemoveAt(t[STOCK_PILE].cards, n) == t[STOCK_PILE].cards[..n];
    g.(piles := t2)
  }

  /** A draw moves a card and changes no card's identity. */
  lemma DrawFromStockSameCards(g: Game)
    requires Layout(g.piles) && g.piles[STOCK_PILE].cards != []
    ensures SameCards(DrawFromStock(g).piles, g.piles)
  {
    var t := g.piles;
    var n := |t[STOCK_PILE].cards| - 1;
    var t1 := MoveToPile(t, STOCK_PILE, n, DISCARD_PILE);
    MoveToPileSameCards(t, STOCK_PILE, n, DISCARD_PILE);
    if t1[DISCARD_PILE].cards[|t1[DISCARD_PILE].cards| - 1].faceDown {
      FlipTopSameCards(t1, DISCARD_PILE);
    }
  }

  /** Java's `if (!card.isFaceDown()) card.flip()`: the card ends face down. */
  function FaceDown(c: Card): (r: Card)
    ensures Key(r) == Key(c) && r.faceDown
  {
    if !c.faceDown then Flip(c) else c
  }

  function Reverse(s: seq<Card>): (r: seq<Card>)
    ensures |r| == |s|
    ensures forall j :: 0 <= j < |s| ==> r[j] == s[|s| - 1 - j]
  {
    if s == [] then [] else [s[|s| - 1]] + Reverse(s[..|s| - 1])
  }

  /** Every card of `s`, in order, turned face down. */
  function FaceDownAll(s: seq<Card>): seq<Card> {
    seq(|s|, j requires 0 <= j < |s| => FaceDown(s[j]))
  }

  /** The refill loop: add each card to `p` and turn it face down if it is face up. */
  function AddAllFaceDown(p: Pile, cs: seq<Card>): (r: Pile)
    ensures r.kind == p.kind
    ensures r.cards == p.cards + FaceDownAll(cs)
    decreases |cs|
  {
    if cs == [] then p
    else
      var q := AddCard(p, cs[0]);
      var q' := if !cs[0].faceDown then FlipTop(q) else q;
      AddFaceDownStep(p, cs);
      AddAllFaceDown(q', cs[1..])
  }

  /** One pass of the refill loop adds the first card face down; the rest then follow it. */
  lemma AddFaceDownStep(p: Pile, cs: seq<Card>)
    requires cs != []
    ensures var q := AddCard(p, cs[0]);
      && (if !cs[0].faceDown then FlipTop(q) else q) == Pile(p.kind, p.cards + [FaceDown(cs[0])])
      && (p.cards + [FaceDown(cs[0])]) + FaceDownAll(cs[1..]) == p.cards + FaceDownAll(cs)
  {
    var q := AddCard(p, cs[0]);
    var n := |p.cards|;
    if !cs[0].faceDown {
      var f := FlipTop(q);
      assert f.cards[..n] == p.cards && f.cards[n] == FaceDown(cs[0]);
      assert f.cards == f.cards[..n] + [f.cards[n]];
    }
    assert [FaceDown(cs[0])] + FaceDownAll(cs[1..]) == FaceDownAll(cs);
  }

  /**
   * `refillStockFromDiscard`: the stock is cleared, the discard pile
   * reversed and added to the stock card by card, each turned face down,
   * and the discard pile cleared.
   */
  function RefillStockFromDiscard(g: Game): (r: Game)
    requires Layout(g.piles)
    ensures Layout(r.piles)
    ensures var d := g.piles[DISCARD_PILE].cards; var s := r.piles[STOCK_PILE].cards;
      && |s| == |d|
      && (forall j :: 0 <= j < |s| ==> Key(s[j]) == Key(d[|d| - 1 - j]) && s[j].faceDown)
    ensures r.piles[DISCARD_PILE].cards == []
    ensures forall j :: 2 <= j < PILE_COUNT ==> r.piles[j] == g.piles[j]
    ensures r.score == g.score && r.numMoves == g.numMoves
  {
    var t := g.piles;
    var stock := AddAllFaceDown(Clear(t[STOCK_PILE]), Reverse(t[DISCARD_PILE].cards));
    g.(piles := t[STOCK_PILE := stock][DISCARD_PILE := Clear(t[DISCARD_PILE])])
  }

  /** The stock pile's own click handler: redeal only when the stock is empty. */
  function StockPileClicked(g: Game): (r: Game)
    requires Layout(g.piles)
    ensures Layout(r.piles)
    ensures g.piles[STOCK_PILE].cards != [] ==> r == g
    ensures g.piles[STOCK_PILE].cards == [] ==> r == RefillStockFromDiscard(g)
  {
    if IsEmpty(g.piles[STOCK_PILE]) then RefillStockFromDiscard(g) else g
  }

  /** `n` successive stock draws. */
  function DrawN(g: Game, n: nat): (r: Game)
    requires Layout(g.piles) && n <= |g.piles[STOCK_PILE].cards|
    ensures Layout(r.piles)
    ensures forall j :: 2 <= j < PILE_COUNT ==> r.piles[j] == g.piles[j]
    ensures r.score == g.score && r.numMoves == g.numMoves
    decreases n
  {
    if n == 0 then g else DrawN(DrawFromStock(g), n - 1)
  }

  lemma {:induction false} CountReverse(s: seq<Card>, k: (int, int))
    ensures Count(Reverse(s), k) == Count(s, k)
  {
    if s != [] {
      var n := |s| - 1;
      CountReverse(s[..n], k);
      CountAppend([s[n]], Reverse(s[..n]), k);
      CountSingle(s[n], k);
    }
  }

  /** With the stock empty, as the stock handler ensures, the redeal loses and adds no card. */
  lemma RefillSameCards(g: Game)
    requires Layout(g.piles) && g.piles[STOCK_PILE].cards == []
    ensures SameCards(RefillStockFromDiscard(g).piles, g.piles)
  {
    var t := g.piles;
    var d := t[DISCARD_PILE].cards;
    var stock := AddAllFaceDown(Clear(t[STOCK_PILE]), Reverse(d));
    var t2 := t[STOCK_PILE := stock][DISCARD_PILE := Clear(t[DISCARD_PILE])];
    assert RefillStockFromDiscard(g).piles == t2;
    forall k ensures TableCount(t2, k) == TableCount(t, k) {
      RefillCount(t, stock, k);
    }
  }

  lemma RefillCount(t: seq<Pile>, stock: Pile, k: (int, int))
    requires Layout(t) && t[STOCK_PILE].cards == []
    requires stock.cards == FaceDownAll(Reverse(t[DISCARD_PILE].cards))
    ensures TableCount(t[STOCK_PILE := stock][DISCARD_PILE := Clear(t[DISCARD_PILE])], k) == TableCount(t, k)
  {
    var d := t[DISCARD_PILE].cards;
    var t1 := t[STOCK_PILE := stock];
    TableCountUpdate(t, STOCK_PILE, stock, k);
    TableCountUpdate(t1, DISCARD_PILE, Clear(t[DISCARD_PILE]), k);
    CountSameKeys(FaceDownAll(Reverse(d)), Reverse(d), k);
    CountReverse(d, k);
  }

  lemma FaceDownAllReverseTop(d: seq<Card>, k: nat)
    requires k < |d|
    ensures var s := FaceDownAll(Reverse(d[k..]));
      && s != [] && s[|s| - 1] == FaceDown(d[k])
      && s[..|s| - 1] == FaceDownAll(Reverse(d[k + 1..]))
  {
    var s := FaceDownAll(Reverse(d[k..]));
    var s' := FaceDownAll(Reverse(d[k + 1..]));
    assert |s'| == |s| - 1;
    forall j | 0 <= j < |s'|
      ensures s[..|s| - 1][j] == s'[j]
    {
      assert Reverse(d[k..])[j] == d[|d| - 1 - j];
      assert Reverse(d[k + 1..])[j] == d[|d| - 1 - j];
    }
  }

  /**
   * Drawing from a stock that holds the rest of a face-up discard sequence
   * `d` (reversed and face down) puts `d` back on the discard pile in order.
   */
  lemma {:induction false} DrawBack(g: Game, d: seq<Card>, k: nat)
    requires Layout(g.piles) && k <= |d| && FaceUpFrom(d, 0)
    requires g.piles[STOCK_PILE].cards == FaceDownAll(Reverse(d[k..]))
    requires g.piles[DISCARD_PILE].cards == d[..k]
    ensures var r := DrawN(g, |d| - k);
      r.piles[STOCK_PILE].cards == [] && r.piles[DISCARD_PILE].cards == d
    decreases |d| - k
  {
    if k == |d| {
      assert d[..k] == d;
    } else {
      DrawBackStep(g, d, k);
      var g1 := DrawFromStock(g);
      var m := |d| - k;
      assert DrawN(g, m) == DrawN(g1, m - 1);
      DrawBack(g1, d, k + 1);
    }
  }

  /** One draw moves the next card of `d` from the stock back onto the discard pile, face up. */
  lemma DrawBackStep(g: Game, d: seq<Card>, k: nat)
    requires Layout(g.piles) && k < |d| && FaceUpFrom(d, 0)
    requires g.piles[STOCK_PILE].cards == FaceDownAll(Reverse(d[k..]))
    requires g.piles[DISCARD_PILE].cards == d[..k]
    ensures g.piles[STOCK_PILE].cards != []
    ensures var g1 := DrawFromStock(g);
      && g1.piles[STOCK_PILE].cards == FaceDownAll(Reverse(d[k + 1..]))
      && g1.piles[DISCARD_PILE].cards == d[..k + 1]
  {
    FaceDownAllReverseTop(d, k);
    assert FaceUp(FaceDown(d[k])) == d[k];
    assert d[..k] + [d[k]] == d[..k + 1];
  }

  /**
   * The redeal followed by as many draws as the discard pile held restores
   * the game exactly: with the stock empty and the discard pile face up,
   * a full pass through the stock is the identity.
   */
  lemma RefillThenDrawAll(g: Game)
    requires Layout(g.piles) && g.piles[STOCK_PILE].cards == []
    requires FaceUpFrom(g.piles[DISCARD_PILE].cards, 0)
    ensures DrawN(RefillStockFromDiscard(g), |g.piles[DISCARD_PILE].cards|) == g
  {
    var d := g.piles[DISCARD_PILE].cards;
    var g1 := RefillStockFromDiscard(g);
    RefillShape(g);
    DrawBack(g1, d, 0);
    SameGame(DrawN(g1, |d|), g);
  }

  lemma RefillShape(g: Game)
    requires Layout(g.piles)
    ensures var d := g.piles[DISCARD_PILE].cards; var g1 := RefillStockFromDiscard(g);
      && g1.piles[STOCK_PILE].cards == FaceDownAll(Reverse(d[0..]))
      && g1.piles[DISCARD_PILE].cards == d[..0]
  {
    var d := g.piles[DISCARD_PILE].cards;
    assert d[0..] == d;
  }

  /** Two games that agree pile by pile, in score and in moves are equal. */
  lemma SameGame(r: Game, g: Game)
    requires Layout(r.piles) && Layout(g.piles)
    requires r.piles[STOCK_PILE].cards == g.piles[STOCK_PILE].cards
    requires r.piles[DISCARD_PILE].cards == g.piles[DISCARD_PILE].cards
    requires forall j :: 2 <= j < PILE_COUNT ==> r.piles[j] == g.piles[j]
    requires r.score == g.score && r.numMoves == g.numMoves
    ensures r == g
  {
    assert r.piles == g.piles by {
      forall j | 0 <= j < PILE_COUNT
        ensures r.piles[j] == g.piles[j]
      {
        assert r.piles[j].kind == g.piles[j].kind;
      }
    }
  }

  /** A card of the table named by pile and position. */
  predicate IsCard(g: Game, src: nat, i: nat) {
    src < |g.piles| && i < |g.piles[src].cards|
  }

  /** The points `handleValidMove` awards for a move between piles of these kinds. */
  function MovePointsByKind(src: PileType, dst: PileType): int {
    if dst == FOUNDATION then 10
    else if dst == TABLEAU && (src == TABLEAU || src == DISCARD) then 5
    else 0
  }

  /**
   * `handleValidMove(card, destPile)`: the card moves onto `dst` (the
   * slide of the source relocates it, as `moveToPile` does), the move is
   * classified with `slideToDest = 1`, and the score is updated with the
   * move type passed as `slideToDest`, which resyncs the text.
   */
  function HandleValidMove(g: Game, src: nat, i: nat, dst: nat): (r: Game)
    requires Layout(g.piles) && IsCard(g, src, i) && dst < PILE_COUNT
    ensures Layout(r.piles) && r.numMoves == g.numMoves
    ensures GetCurrentScore(r.score) == GetCurrentScore(g.score) + MovePointsByKind(g.piles[src].kind, g.piles[dst].kind)
    ensures InSync(r.score)
    ensures src != dst ==> r.piles[dst].cards == g.piles[dst].cards + [g.piles[src].cards[i]]
    ensures src != dst ==> r.piles[src] == Expose(Pile(g.piles[src].kind, RemoveAt(g.piles[src].cards, i)), g.piles[dst].kind)
    ensures src == dst ==> r.piles[src] == Expose(Pile(g.piles[src].kind, RemoveAt(g.piles[src].cards, i) + [g.piles[src].cards[i]]), g.piles[src].kind)
    ensures forall j :: 0 <= j < PILE_COUNT && j != src && j != dst ==> r.piles[j] == g.piles[j]
  {
    var t := g.piles;
    var srcKind, dstKind := Some(t[src].kind), Some(t[dst].kind);
    var moveType := GetMoveType(srcKind, dstKind, 1);
    MoveTypeFeedback(srcKind, dstKind);
    var s := DisplayScore(UpdateScore(g.score, srcKind, dstKind, moveType));
    g.(piles := MoveToPile(t, src, i, dst), score := s)
  }

  lemma HandleValidMoveSameCards(g: Game, src: nat, i: nat, dst: nat)
    requires Layout(g.piles) && IsCard(g, src, i) && dst < PILE_COUNT
    ensures SameCards(HandleValidMove(g, src, i, dst).piles, g.piles)
  {
    MoveToPileSameCards(g.piles, src, i, dst);
  }

  /** The double-click test: a click count of 2 on the top card of a non-stock pile. */
  predicate IsDoubleClickOnTop(g: Game, src: nat, i: nat, clickCount: int)
    requires IsCard(g, src, i)
  {
    clickCount == 2 && i == |g.piles[src].cards| - 1 && g.piles[src].kind != STOCK
  }

  /**
   * The card click handler: a double click on a top card moves it to the
   * pile `possibleMove` finds, if any, and counts the move; any click on a
   * stock card draws the stock's top card; any other click does nothing.
   */
  function CardClicked(g: Game, src: nat, i: nat, clickCount: int): (r: Game)
    requires Layout(g.piles) && IsCard(g, src, i)
    ensures Layout(r.piles)
    ensures r.numMoves == g.numMoves + (if IsDoubleClickOnTop(g, src, i, clickCount)
      && PossibleMove(g.piles, g.piles[src].cards[i]).Some? then 1 else 0)
    ensures IsDoubleClickOnTop(g, src, i, clickCount) ==>
      match PossibleMove(g.piles, g.piles[src].cards[i])
      case Some(dst) => dst != src && IsMoveValid(g.piles[src].cards[i], g.piles[dst])
        && r.piles[dst].cards == g.piles[dst].cards + [g.piles[src].cards[i]]
        && r == HandleValidMove(g, src, i, dst).(numMoves := g.numMoves + 1)
      case None => r == g
    ensures !IsDoubleClickOnTop(g, src, i, clickCount) && g.piles[src].kind == STOCK ==> r == DrawFromStock(g)
    ensures !IsDoubleClickOnTop(g, src, i, clickCount) && g.piles[src].kind != STOCK ==> r == g
  {
    var t := g.piles;
    var card := t[src].cards[i];
    if IsDoubleClickOnTop(g, src, i, clickCount) then
      match PossibleMove(t, card)
      case Some(dst) =>
        PossibleMoveNotOwnPile(t, src);
        var r := HandleValidMove(g, src, i, dst);
        r.(numMoves := r.numMoves + 1)
      case None => g
    else if t[src].kind == STOCK then
      DrawFromStock(g)
    else g
  }

  /**
   * The drag handler's selection, as a count: nothing from the stock or
   * from below the top of the discard pile or a foundation, the face-up card
   * and every card above it from a tableau, a face-up card alone from
   * anywhere else, and nothing when the card is face down.
   */
  function DragCount(p: Pile, k: nat): (n: nat)
    requires k < |p.cards|
    ensures n <= |p.cards| - k
    ensures n > 0 ==> !p.cards[k].faceDown && p.kind != STOCK
    ensures n > 1 ==> p.kind == TABLEAU && n == |p.cards| - k
    ensures p.kind != TABLEAU && p.kind != STOCK ==> (n == 1 <==> !p.cards[k].faceDown && (k == |p.cards| - 1 || p.kind == HIDDEN))
    ensures p.kind == TABLEAU ==> (n == |p.cards| - k <==> !p.cards[k].faceDown)
  {
    if p.kind == STOCK then 0
    else if (p.kind == DISCARD || p.kind == FOUNDATION) && k != |p.cards| - 1 then 0
    else if p.kind == TABLEAU && !p.cards[k].faceDown then |p.cards| - k
    else if !p.cards[k].faceDown then
      assert p.kind == TABLEAU || p.kind == HIDDEN || k == |p.cards| - 1;
      1
    else 0
  }

  /**
   * The multi-card drop of the run from position `k` of `src` on `target`:
   * if the run's first card fits, `moveCardsToPile(target)`; otherwise the
   * run goes card by card to a fresh HIDDEN pile (appended after the
   * table) and from there card by card to `target`, and the HIDDEN pile,
   * empty again, is dropped.
   */
  function MultiDrop(t: seq<Pile>, src: nat, k: nat, target: nat): (r: seq<Pile>)
    requires src < |t| && target < |t| && k < |t[src].cards|
    ensures |r| == |t|
  {
    var m := |t[src].cards| - k;
    if IsMoveValid(t[src].cards[k], t[target]) then MoveRun(t, src, k, target, m)
    else HiddenDetour(t, src, k, target)
  }

  /** The HIDDEN round trip inside the table `t`, with `hidden` the scratch pile. */
  function HiddenDetour(t: seq<Pile>, src: nat, k: nat, target: nat): (r: seq<Pile>)
    requires src < |t| && target < |t| && k < |t[src].cards|
    ensures |r| == |t|
  {
    Detour(t + [Pile(HIDDEN, [])], src, k, |t[src].cards| - k, |t|, target)[..|t|]
  }

  /**
   * The `m` cards from position `k` of `src` (the rest of that pile) move
   * card by card to `hidden`, then from there to `target`.
   */
  function Detour(t1: seq<Pile>, src: nat, k: nat, m: nat, hidden: nat, target: nat): (r: seq<Pile>)
    requires src < |t1| && hidden < |t1| && target < |t1| && src != hidden && k + m == |t1[src].cards| && m >= 1
    ensures |r| == |t1|
  {
    MoveRun(MoveRun(t1, src, k, hidden, m), hidden, 0, target, m)
  }


  /**
   * A run whose first card fits on `target` lands there in order, and the
   * source keeps the cards below it with its new top exposed once.
   */
  lemma MultiDropAccepted(t: seq<Pile>, src: nat, k: nat, target: nat)
    requires src < |t| && target < |t| && k < |t[src].cards| && src != target
    requires IsMoveValid(t[src].cards[k], t[target])
    requires NoFlipOnTheWay(t, src, target, t[src].cards[k..])
    ensures var r := MultiDrop(t, src, k, target);
      && r[target].cards == t[target].cards + t[src].cards[k..]
      && r[src] == Expose(Pile(t[src].kind, t[src].cards[..k]), t[target].kind)
      && forall j :: 0 <= j < |t| && j != src && j != target ==> r[j] == t[j]
  {
    MoveRunFrom(t, src, k, target);
  }

  /** The run from position `k` goes to an empty HIDDEN pile and back, card by card, and nothing flips. */
  lemma DetourHome(t1: seq<Pile>, src: nat, hidden: nat, k: nat, m: nat)
    requires src < |t1| && hidden < |t1| && src != hidden && k + m == |t1[src].cards| && m >= 1
    requires t1[hidden] == Pile(HIDDEN, [])
    ensures Detour(t1, src, k, m, hidden, src) == t1
  {
    var base, run := SplitAt(t1[src].cards, k);
    RunThereAndBack(t1, src, hidden, base, run, k, m);
    DetourUnfold(t1, src, k, m, hidden, src);
  }

  /** Cuts `s` before position `k`, keeping the slices out of the caller's context. */
  lemma SplitAt(s: seq<Card>, k: nat) returns (base: seq<Card>, run: seq<Card>)
    requires k < |s|
    ensures s == base + run && |base| == k && |run| == |s| - k
  {
    base, run := s[..k], s[k..];
    assert |base| == k && |run| == |s| - k;
    assert base + run == s;
  }

  /** Moving a run onto the empty HIDDEN buffer and back restores every pile. */
  lemma RunThereAndBack(t1: seq<Pile>, src: nat, hidden: nat, base: seq<Card>, run: seq<Card>, k: nat, m: nat)
    requires src < |t1| && hidden < |t1| && src != hidden
    requires t1[src].cards == base + run && |run| >= 1 && k == |base| && m == |run|
    requires t1[hidden] == Pile(HIDDEN, [])
    ensures MoveRun(MoveRun(t1, src, k, hidden, m), hidden, 0, src, m) == t1
  {
    MoveRunToTop(t1, src, hidden, base, run);
    var t2 := MoveRun(t1, src, |base|, hidden, |run|);
    assert t2[src] == Pile(t1[src].kind, base);
    assert t2[hidden] == Pile(HIDDEN, run);
    MoveWholePile(t2, hidden, src);
    var t3 := MoveRun(t2, hidden, 0, src, |run|);
    assert t3[src] == Pile(t1[src].kind, base + run);
    assert t3[hidden] == Pile(HIDDEN, []);
    TwoMovesFrame(t1, t2, t3, src, hidden);
  }

  /** Two moves between `a` and `b` that restore both piles restore the table. */
  lemma TwoMovesFrame(t1: seq<Pile>, t2: seq<Pile>, t3: seq<Pile>, a: nat, b: nat)
    requires |t2| == |t1| && |t3| == |t2| && a < |t1| && b < |t1|
    requires forall j :: 0 <= j < |t1| && j != a && j != b ==> t2[j] == t1[j]
    requires forall j :: 0 <= j < |t2| && j != b && j != a ==> t3[j] == t2[j]
    requires t3[a] == t1[a] && t3[b] == t1[b]
    ensures t3 == t1
  {
    forall j | 0 <= j < |t1|
      ensures t3[j] == t1[j]
    {
      if j != a && j != b {
        assert t3[j] == t2[j];
      }
    }
    SamePiles(t3, t1);
  }

  /** Tables that agree pile by pile are equal. */
  lemma SamePiles(u: seq<Pile>, t: seq<Pile>)
    requires |u| == |t| && forall j :: 0 <= j < |t| ==> u[j] == t[j]
    ensures u == t
  {
  }

  lemma DetourUnfold(t1: seq<Pile>, src: nat, k: nat, m: nat, hidden: nat, target: nat)
    requires src < |t1| && hidden < |t1| && target < |t1| && src != hidden && k + m == |t1[src].cards| && m >= 1
    ensures Detour(t1, src, k, m, hidden, target) == MoveRun(MoveRun(t1, src, k, hidden, m), hidden, 0, target, m)
  {
  }

  /** A run that does not fit on its own pile comes back from the HIDDEN round trip unchanged, unflipped. */
  lemma MultiDropRejected(t: seq<Pile>, src: nat, k: nat)
    requires src < |t| && k < |t[src].cards|
    requires !IsMoveValid(t[src].cards[k], t[src])
    ensures MultiDrop(t, src, k, src) == t
  {
    HiddenDetourHome(t, src, k);
  }

  lemma HiddenDetourHome(t: seq<Pile>, src: nat, k: nat)
    requires src < |t| && k < |t[src].cards|
    ensures HiddenDetour(t, src, k, src) == t
  {
    var t1 := t + [Pile(HIDDEN, [])];
    assert t1[src] == t[src] && t1[|t|] == Pile(HIDDEN, []);
    DetourHome(t1, src, |t|, k, |t[src].cards| - k);
    assert t1[..|t|] == t;
  }

  lemma {:induction false} TableCountTruncate(t: seq<Pile>)
    requires t != [] && t[|t| - 1].cards == []
    ensures forall k :: TableCount(t[..|t| - 1], k) == TableCount(t, k)
  {
  }

  /** The HIDDEN round trip towards any target keeps the cards. */
  lemma HiddenDetourSameCards(t: seq<Pile>, src: nat, k: nat, target: nat)
    requires src < |t| && target < |t| && k < |t[src].cards|
    ensures SameCards(HiddenDetour(t, src, k, target), t)
  {
    var m := |t[src].cards| - k;
    var t1 := t + [Pile(HIDDEN, [])];
    assert t1[..|t1| - 1] == t;
    assert t1[src] == t[src];
    TableCountTruncate(t1);
    var t2 := MoveRun(t1, src, k, |t|, m);
    MoveRunSameCards(t1, src, k, |t|, m);
    var t3 := MoveRun(t2, |t|, 0, target, m);
    MoveRunSameCards(t2, |t|, 0, target, m);
    assert t3 == Detour(t1, src, k, m, |t|, target);
    assert |t2[|t|].cards| == m;
    assert t3[|t|].cards == [];
    assert t3[..|t3| - 1] == t3[..|t|];
    TableCountTruncate(t3);
    forall key ensures TableCount(t3[..|t|], key) == TableCount(t, key) {
      assert TableCount(t3[..|t|], key) == TableCount(t3, key);
      assert TableCount(t3, key) == TableCount(t2, key) == TableCount(t1, key);
    }
  }

  lemma MultiDropSameCards(t: seq<Pile>, src: nat, k: nat, target: nat)
    requires src < |t| && target < |t| && k < |t[src].cards|
    ensures SameCards(MultiDrop(t, src, k, target), t)
  {
    var m := |t[src].cards| - k;
    if IsMoveValid(t[src].cards[k], t[target]) {
      MoveRunSameCards(t, src, k, target, m);
    } else {
      HiddenDetourSameCards(t, src, k, target);
    }
  }

  /** The `over` set: the piles the released card overlaps (geometry in the source). */
  type Overlap = set<nat>

  lemma LayoutInTable(t: seq<Pile>)
    requires Layout(t)
    ensures InTable(t, TABLEAUS) && InTable(t, TABLEAUS + FOUNDATIONS)
  {
  }

  lemma TableauKinds(t: seq<Pile>)
    requires Layout(t)
    ensures forall j :: 0 <= j < |TABLEAUS| ==> TABLEAUS[j] < |t| && t[TABLEAUS[j]].kind == TABLEAU
  {
  }

  /** The pile a single released card goes to: tableaus first, then foundations, in list order. */
  function SingleTarget(t: seq<Pile>, src: nat, k: nat, over: Overlap): (p: nat)
    requires Layout(t) && src < PILE_COUNT && k < |t[src].cards|
    ensures p < PILE_COUNT
  {
    LayoutInTable(t);
    ValidIntersectingPile(t, src, t[src].cards[k], TABLEAUS + FOUNDATIONS, over, src)
  }

  /** The pile a released run goes to: tableaus only. */
  function RunTarget(t: seq<Pile>, src: nat, k: nat, over: Overlap): (p: nat)
    requires Layout(t) && src < PILE_COUNT && k < |t[src].cards|
    ensures p < PILE_COUNT
  {
    LayoutInTable(t);
    ValidIntersectingPile(t, src, t[src].cards[k], TABLEAUS, over, src)
  }

  /**
   * The release handler for a drag that started on the card at position `k`
   * of `src`: a run is dropped with `MultiDrop` on the tableau the drop rule
   * picks, unscored; a single card goes through `handleValidMove` to the
   * tableau or foundation the drop rule picks, which is its own pile when
   * none accepts it.
   */
  function Released(g: Game, src: nat, k: nat, over: Overlap): (r: Game)
    requires Layout(g.piles) && IsCard(g, src, k)
    ensures Layout(r.piles) && r.numMoves == g.numMoves
  {
    var t := g.piles;
    var n := DragCount(t[src], k);
    if n == 0 then g
    else if n > 1 then g.(piles := MultiDrop(t, src, k, RunTarget(t, src, k, over)))
    else HandleValidMove(g, src, k, SingleTarget(t, src, k, over))
  }

  /** Every release keeps the cards: the single-card move, the accepted run and the HIDDEN round trip alike. */
  lemma ReleasedSameCards(g: Game, src: nat, k: nat, over: Overlap)
    requires Layout(g.piles) && IsCard(g, src, k)
    ensures SameCards(Released(g, src, k, over).piles, g.piles)
  {
    var t := g.piles;
    var n := DragCount(t[src], k);
    if n > 1 {
      MultiDropSameCards(t, src, k, RunTarget(t, src, k, over));
    } else if n == 1 {
      HandleValidMoveSameCards(g, src, k, SingleTarget(t, src, k, over));
    }
  }

  /**
   * A dragged run goes to the last tableau of the list that it overlaps and
   * fits on, other than its own; and it lands there, in order, with the
   * source's new top turned face up.
   */
  lemma ReleasedRunAccepted(g: Game, src: nat, k: nat, over: Overlap, p: nat)
    requires Layout(g.piles) && IsCard(g, src, k) && DragCount(g.piles[src], k) > 1
    requires LastCandidate(g.piles, src, g.piles[src].cards[k], TABLEAUS, over) == Some(p)
    requires FaceUpFrom(g.piles[src].cards, k)
    ensures var r := Released(g, src, k, over).piles; var t := g.piles;
      && p != src && p in over && t[p].kind == TABLEAU && IsMoveValid(t[src].cards[k], t[p])
      && r[p].cards == t[p].cards + t[src].cards[k..]
      && r[src] == Expose(Pile(TABLEAU, t[src].cards[..k]), TABLEAU)
      && forall j :: 0 <= j < PILE_COUNT && j != src && j != p ==> r[j] == t[j]
  {
    var t := g.piles;
    RunTargetIsLast(t, src, k, over, p);
    FaceUpRun(t[src].cards, k);
    MultiDropAccepted(t, src, k, p);
  }

  lemma RunTargetIsLast(t: seq<Pile>, src: nat, k: nat, over: Overlap, p: nat)
    requires Layout(t) && src < PILE_COUNT && k < |t[src].cards|
    requires LastCandidate(t, src, t[src].cards[k], TABLEAUS, over) == Some(p)
    ensures RunTarget(t, src, k, over) == p
    ensures p != src && p in over && t[p].kind == TABLEAU && IsMoveValid(t[src].cards[k], t[p])
  {
    var c := t[src].cards[k];
    LayoutInTable(t);
    ValidIntersectingPileIsLast(t, src, c, TABLEAUS, over, src);
    var j :| 0 <= j < |TABLEAUS| && TABLEAUS[j] == p && IsLastCandidate(t, src, c, TABLEAUS, j, over);
    TableauKinds(t);
  }

  /** Each card sits one rank below the card under it, from position `k` up to the top. */
  predicate BuiltDown(s: seq<Card>, k: nat) {
    forall j :: k <= j && j + 1 < |s| ==> IsHigherRank(s[j], s[j + 1])
  }

  lemma {:induction false} BuiltDownRank(s: seq<Card>, k: nat, d: nat)
    requires BuiltDown(s, k) && k + d < |s|
    ensures s[k + d].rank == s[k].rank - d
    decreases d
  {
    if d > 0 {
      BuiltDownRank(s, k, d - 1);
      assert IsHigherRank(s[k + d - 1], s[k + d]);
    }
  }

  /** A built-down run of two or more cards never fits back onto its own tableau. */
  lemma RunNotOntoOwnPile(p: Pile, k: nat)
    requires p.kind == TABLEAU && k + 1 < |p.cards| && BuiltDown(p.cards, k)
    ensures !IsMoveValid(p.cards[k], p)
  {
    BuiltDownRank(p.cards, k, |p.cards| - 1 - k);
  }

  /**
   * A dragged run that overlaps no tableau it fits on makes the HIDDEN round
   * trip and back to its own pile, and the table is as before; a built-down
   * run always qualifies.
   */
  lemma ReleasedRunRejected(g: Game, src: nat, k: nat, over: Overlap)
    requires Layout(g.piles) && IsCard(g, src, k) && DragCount(g.piles[src], k) > 1
    requires forall j :: 0 <= j < |TABLEAUS| ==> !DropCandidate(g.piles, src, g.piles[src].cards[k], TABLEAUS[j], over)
    requires BuiltDown(g.piles[src].cards, k)
    ensures Released(g, src, k, over) == g
  {
    var t := g.piles;
    LayoutInTable(t);
    ValidIntersectingPileIsLast(t, src, t[src].cards[k], TABLEAUS, over, src);
    RunNotOntoOwnPile(t[src], k);
    MultiDropRejected(t, src, k);
  }

  /** Taking the top card off a pile and putting it back changes nothing when it is face up. */
  lemma TopBackInPlace(t: seq<Pile>, src: nat)
    requires src < |t| && t[src].cards != [] && !t[src].cards[|t[src].cards| - 1].faceDown
    ensures MoveToPile(t, src, |t[src].cards| - 1, src) == t
  {
    var cards := t[src].cards;
    var n := |cards| - 1;
    assert RemoveAt(cards, n) + [cards[n]] == cards;
    var r := MoveToPile(t, src, n, src);
    assert r[src] == t[src];
  }

  /**
   * As written, a single face-up tableau top card released over no pile
   * that accepts it is handed to `handleValidMove` with its own pile as the
   * destination: the table is unchanged, yet the move is scored as
   * tableau to tableau, +5.
   */
  lemma SingleDropOnOwnPileScores(g: Game, src: nat, over: Overlap)
    requires Layout(g.piles) && src < PILE_COUNT && g.piles[src].kind == TABLEAU
    requires g.piles[src].cards != [] && !g.piles[src].cards[|g.piles[src].cards| - 1].faceDown
    requires var c := g.piles[src].cards[|g.piles[src].cards| - 1];
      forall j :: 0 <= j < |TABLEAUS + FOUNDATIONS| ==> !DropCandidate(g.piles, src, c, (TABLEAUS + FOUNDATIONS)[j], over)
    ensures var r := Released(g, src, |g.piles[src].cards| - 1, over);
      r.piles == g.piles && GetCurrentScore(r.score) == GetCurrentScore(g.score) + 5
  {
    var t := g.piles;
    var k := |t[src].cards| - 1;
    LayoutInTable(t);
    ValidIntersectingPileIsLast(t, src, t[src].cards[k], TABLEAUS + FOUNDATIONS, over, src);
    assert SingleTarget(t, src, k, over) == src;
    TopBackInPlace(t, src);
  }

  /** The smallest such table: one five of suit 1 alone on the first tableau, released over nothing. */
  lemma SingleDropCounterexample()
    ensures var g := Game(InitPiles()[6 := Pile(TABLEAU, [Card(1, 5, false)])], 0, NewScore(0));
      var r := Released(g, 6, 0, {});
      r.piles == g.piles && GetCurrentScore(r.score) == 5
  {
    var g := Game(InitPiles()[6 := Pile(TABLEAU, [Card(1, 5, false)])], 0, NewScore(0));
    InitPilesLayout();
    SingleDropOnOwnPileScores(g, 6, {});
  }

  /**
   * The release handler as evidently intended: a single card that no other
   * pile accepts slides back without a move being scored; everything else
   * is as `Released`.
   */
  function ReleasedChecked(g: Game, src: nat, k: nat, over: Overlap): (r: Game)
    requires Layout(g.piles) && IsCard(g, src, k)
    ensures Layout(r.piles) && r.numMoves == g.numMoves
  {
    if DragCount(g.piles[src], k) == 1 && SingleTarget(g.piles, src, k, over) == src then g
    else Released(g, src, k, over)
  }

  /**
   * The corrected single-card release: with no accepting pile the game is
   * unchanged; otherwise the card goes to the last accepting pile of the
   * list, tableaus then foundations, and the move is scored.
   */
  lemma ReleasedCheckedSingle(g: Game, src: nat, k: nat, over: Overlap)
    requires Layout(g.piles) && IsCard(g, src, k) && DragCount(g.piles[src], k) == 1
    ensures var t := g.piles; var c := t[src].cards[k]; var r := ReleasedChecked(g, src, k, over);
      match LastCandidate(t, src, c, TABLEAUS + FOUNDATIONS, over)
      case None => r == g
      case Some(p) =>
        && p != src && p in over && IsMoveValid(c, t[p])
        && r.piles[p].cards == t[p].cards + [c]
        && GetCurrentScore(r.score) == GetCurrentScore(g.score) + MovePointsByKind(t[src].kind, t[p].kind)
  {
    var t := g.piles;
    var c := t[src].cards[k];
    LayoutInTable(t);
    ValidIntersectingPileIsLast(t, src, c, TABLEAUS + FOUNDATIONS, over, src);
    match LastCandidate(t, src, c, TABLEAUS + FOUNDATIONS, over)
    case None =>
    case Some(p) =>
      var j :| 0 <= j < |TABLEAUS + FOUNDATIONS| && (TABLEAUS + FOUNDATIONS)[j] == p
        && IsLastCandidate(t, src, c, TABLEAUS + FOUNDATIONS, j, over);
      assert SingleTarget(t, src, k, over) == p;
      assert ReleasedChecked(g, src, k, over) == HandleValidMove(g, src, k, p);
  }

  /** The corrected handler differs from the literal one exactly on the rejected single card. */
  lemma ReleasedCheckedVersusReleased(g: Game, src: nat, k: nat, over: Overlap)
    requires Layout(g.piles) && IsCard(g, src, k)
    ensures var c := g.piles[src].cards[k];
      || (&& DragCount(g.piles[src], k) == 1
          && forall j :: 0 <= j < |TABLEAUS + FOUNDATIONS| ==> !DropCandidate(g.piles, src, c, (TABLEAUS + FOUNDATIONS)[j], over))
      || ReleasedChecked(g, src, k, over) == Released(g, src, k, over)
  {
    var t := g.piles;
    LayoutInTable(t);
    ValidIntersectingPileIsLast(t, src, t[src].cards[k], TABLEAUS + FOUNDATIONS, over, src);
  }

  lemma ReleasedCheckedSameCards(g: Game, src: nat, k: nat, over: Overlap)
    requires Layout(g.piles) && IsCard(g, src, k)
    ensures SameCards(ReleasedChecked(g, src, k, over).piles, g.piles)
  {
    ReleasedSameCards(g, src, k, over);
  }

  lemma CardClickedSameCards(g: Game, src: nat, i: nat, clickCount: int)
    requires Layout(g.piles) && IsCard(g, src, i)
    ensures SameCards(CardClicked(g, src, i, clickCount).piles, g.piles)
  {
    var t := g.piles;
    if IsDoubleClickOnTop(g, src, i, clickCount) {
      match PossibleMove(t, t[src].cards[i])
      case Some(dst) => HandleValidMoveSameCards(g, src, i, dst);
      case None =>
    } else if t[src].kind == STOCK {
      DrawFromStockSameCards(g);
    }
  }

  lemma StockPileClickedSameCards(g: Game)
    requires Layout(g.piles)
    ensures SameCards(StockPileClicked(g).piles, g.piles)
  {
    if g.piles[STOCK_PILE].cards == [] {
      RefillSameCards(g);
    }
  }

  /** What the player can do: click a card, click the stock pile, release a dragged card, or restart. */
  datatype Event =
    | CardClick(src: nat, i: nat, clickCount: int)
    | StockClick
    | Release(src: nat, k: nat, over: Overlap)
    | NewDeal(deck: seq<Card>)

  /**
   * One handler run. A card event names a card by pile and position and
   * does nothing when there is no card there; a restart takes the next
   * shuffled deck. Releases go through the handler as written, including
   * the scored drop of a single card back onto its own pile.
   */
  function Step(g: Game, e: Event): (r: Game)
    requires Layout(g.piles)
    ensures Layout(r.piles)
    ensures r.numMoves >= g.numMoves
    ensures InSync(g.score) ==> InSync(r.score)
  {
    match e
    case CardClick(src, i, clickCount) =>
      if IsCard(g, src, i) then CardClicked(g, src, i, clickCount) else g
    case StockClick => StockPileClicked(g)
    case Release(src, k, over) =>
      if IsCard(g, src, k) then Released(g, src, k, over) else g
    case NewDeal(deck) =>
      if IsFullDeck(deck) then Restart(g, deck) else g
  }

  function Play(g: Game, es: seq<Event>): (r: Game)
    requires Layout(g.piles)
    ensures Layout(r.piles)
    decreases |es|
  {
    if es == [] then g else Play(Step(g, es[0]), es[1..])
  }

  /** Every card of the deck is on the table exactly once, and no other card is. */
  ghost predicate FullTable(t: seq<Pile>) {
    && UniqueCards(t)
    && forall s, r :: 1 <= s <= 4 && 1 <= r <= 13 ==> TableCount(t, (s, r)) == 1
  }

  /** Apart from a restart, which deals a new table, no handler loses, adds or duplicates a card. */
  lemma StepSameCards(g: Game, e: Event)
    requires Layout(g.piles) && !e.NewDeal?
    ensures SameCards(Step(g, e).piles, g.piles)
  {
    match e
    case CardClick(src, i, clickCount) =>
      if IsCard(g, src, i) {
        CardClickedSameCards(g, src, i, clickCount);
      }
    case StockClick => StockPileClickedSameCards(g);
    case Release(src, k, over) =>
      if IsCard(g, src, k) {
        ReleasedSameCards(g, src, k, over);
      }
  }

  /** Every handler, restart included, keeps each of the 52 cards on the table exactly once. */
  lemma StepFullTable(g: Game, e: Event)
    requires Layout(g.piles) && FullTable(g.piles)
    ensures FullTable(Step(g, e).piles)
  {
    if e.NewDeal? {
      if IsFullDeck(e.deck) {
        NewGameCards(e.deck);
        assert Step(g, e).piles == NewGame(e.deck).piles;
      }
    } else {
      StepSameCards(g, e);
    }
  }

  /** Any sequence of player actions keeps the full deck on the table and the score text in step. */
  lemma {:induction false} PlayFullTable(g: Game, es: seq<Event>)
    requires Layout(g.piles) && FullTable(g.piles)
    ensures FullTable(Play(g, es).piles)
    ensures InSync(g.score) ==> InSync(Play(g, es).score)
    ensures Play(g, es).numMoves >= g.numMoves
    decreases |es|
  {
    if es != [] {
      StepFullTable(g, es[0]);
      PlayFullTable(Step(g, es[0]), es[1..]);
    }
  }

  /** From a fresh deal, whatever the player does, each card is on the table exactly once. */
  lemma NewGamePlay(deck: seq<Card>, es: seq<Event>)
    requires IsFullDeck(deck)
    ensures var r := Play(NewGame(deck), es);
      && FullTable(r.piles) && InSync(r.score) && r.numMoves >= 0
  {
    NewGameCards(deck);
    PlayFullTable(NewGame(deck), es);
  }
}
