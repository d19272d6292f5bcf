/**
 * The triangular deal of `Game.dealCards`: the first 28 deck cards go to the
 * seven tableaus row by row (row r deals one card to each of tableaus
 * r..6), the last card of each tableau is flipped, and the rest of the deck
 * goes to the stock in order.
 */
module Deal {
  import opened Cards
  import opened Piles
  import opened Rules

  /** Cards dealt to the tableaus: 7 + 6 + ... + 1. */
  const TABLEAU_CARDS: nat := 28

  /** Deck position of the first card of row `r`: 7 + 6 + ... + (8 - r). */
  function RowStart(r: nat): nat
    requires r <= 7
  {
    if r == 0 then 0 else RowStart(r - 1) + 7 - (r - 1)
  }

  lemma RowStartValues()
    ensures RowStart(0) == 0 && RowStart(1) == 7 && RowStart(2) == 13 && RowStart(3) == 18
    ensures RowStart(4) == 22 && RowStart(5) == 25 && RowStart(6) == 27 && RowStart(7) == 28
  {
  }

  /** The closed form start_r = 7r - r(r-1)/2. */
  lemma {:induction false} RowStartClosedForm(r: nat)
    requires r <= 7
    ensures 2 * RowStart(r) == 14 * r - r * (r - 1)
  {
    if r > 0 {
      RowStartClosedForm(r - 1);
      assert (r - 1) * (r - 2) == r * (r - 1) - 2 * (r - 1);
    }
  }

  /** Row `r` of tableau `i` (r <= i) holds a deck card from the first 28. */
  lemma DealtIndexBound(i: nat, r: nat)
    requires r <= i < 7
    ensures RowStart(r) + i - r < TABLEAU_CARDS
  {
    RowStartValues();
  }

  /** The card row `r` puts on tableau `i`: face flipped only on the last row of that tableau. */
  function DealtCard(deck: seq<Card>, i: nat, r: nat): (c: Card)
    requires r <= i < 7 && |deck| >= TABLEAU_CARDS
    ensures RowStart(r) + i - r < TABLEAU_CARDS
    ensures Key(c) == Key(deck[RowStart(r) + i - r])
    ensures c.faceDown == (deck[RowStart(r) + i - r].faceDown != (r == i))
  {
    DealtIndexBound(i, r);
    var c := deck[RowStart(r) + i - r];
    if r == i then Flip(c) else c
  }

  /** The first `m` cards tableau `i` receives. */
  function Partial(deck: seq<Card>, i: nat, m: nat): seq<Card>
    requires m <= i + 1 && i < 7 && |deck| >= TABLEAU_CARDS
  {
    seq(m, r requires 0 <= r < m => DealtCard(deck, i, r))
  }

  /** Reference definition of tableau `i` after the deal: rows 0..i. */
  function DealtTableau(deck: seq<Card>, i: nat): seq<Card>
    requires i < 7 && |deck| >= TABLEAU_CARDS
  {
    Partial(deck, i, i + 1)
  }

  /** Reference definition of the whole table after the deal. */
  function DealtTable(deck: seq<Card>): (t: seq<Pile>)
    requires |deck| >= TABLEAU_CARDS
    ensures Layout(t)
    ensures forall j :: 6 <= j < PILE_COUNT ==> |t[j].cards| == j - 5
  {
    seq(PILE_COUNT, j requires 0 <= j < PILE_COUNT =>
      if j == STOCK_PILE then Pile(STOCK, deck[TABLEAU_CARDS..])
      else if j < 6 then Pile(KindAt(j), [])
      else Pile(TABLEAU, DealtTableau(deck, j - 6)))
  }

  /**
   * Tableau j - 6 holds its dealt cards (row r of it is the deck card
   * `DealtCard` names); the stock holds the cards after the first 28 in deck
   * order; every other pile is empty.
   */
  lemma DealtTableShape(deck: seq<Card>)
    requires |deck| >= TABLEAU_CARDS
    ensures forall j, r :: 6 <= j < PILE_COUNT && 0 <= r <= j - 6 ==> DealtTable(deck)[j].cards[r] == DealtCard(deck, j - 6, r)
    ensures DealtTable(deck)[STOCK_PILE].cards == deck[TABLEAU_CARDS..]
    ensures forall j :: 1 <= j < 6 ==> DealtTable(deck)[j].cards == []
  {
  }

  /** Dealt from a deck of face-down cards, exactly the top card of each tableau is face up. */
  lemma DealtFaces(deck: seq<Card>)
    requires |deck| >= TABLEAU_CARDS
    requires forall j :: 0 <= j < |deck| ==> deck[j].faceDown
    ensures forall j, r :: 6 <= j < PILE_COUNT && 0 <= r < j - 5 ==>
      (DealtTable(deck)[j].cards[r].faceDown <==> r < j - 6)
    ensures forall j :: 0 <= j < |DealtTable(deck)[STOCK_PILE].cards| ==> DealtTable(deck)[STOCK_PILE].cards[j].faceDown
  {
    DealtTableShape(deck);
    forall j, r | 6 <= j < PILE_COUNT && 0 <= r < j - 5
      ensures DealtTable(deck)[j].cards[r].faceDown <==> r < j - 6
    {
      assert DealtTable(deck)[j].cards[r] == DealtCard(deck, j - 6, r);
    }
  }

  /** The tableau card positions of the deal cover deck positions 0..27 exactly once. */
  lemma DealtPositionsDistinct(i1: nat, r1: nat, i2: nat, r2: nat)
    requires r1 <= i1 < 7 && r2 <= i2 < 7
    requires RowStart(r1) + i1 - r1 == RowStart(r2) + i2 - r2
    ensures i1 == i2 && r1 == r2
  {
    RowStartValues();
  }

  /** How many cards tableau `i` holds while row `sp` is being dealt and the next card goes to tableau `np`. */
  function DealtCount(i: nat, sp: nat, np: nat): nat {
    if i < sp then i + 1 else if i < np then sp + 1 else sp
  }

  lemma PartialSnoc(deck: seq<Card>, i: nat, m: nat)
    requires m < i + 1 && i < 7 && |deck| >= TABLEAU_CARDS
    ensures Partial(deck, i, m + 1) == Partial(deck, i, m) + [DealtCard(deck, i, m)]
  {
  }

  lemma CountSnoc(s: seq<Card>, n: nat, k: (int, int))
    requires n < |s|
    ensures Count(s[..n + 1], k) == Count(s[..n], k) + (if Key(s[n]) == k then 1 else 0)
  {
    assert s[..n + 1][..n] == s[..n];
  }

  /** One card placed on pile `dest` (and possibly turned over) adds that card's identity once. */
  lemma PlaceCount(t: seq<Pile>, dest: nat, c: Card, flip: bool, k: (int, int))
    requires dest < |t|
    ensures var p := AddCard(t[dest], c);
      var q := if flip then FlipTop(p) else p;
      TableCount(t[dest := q], k) == TableCount(t, k) + (if Key(c) == k then 1 else 0)
  {
    var p := AddCard(t[dest], c);
    var q := if flip then FlipTop(p) else p;
    TableCountUpdate(t, dest, q, k);
    CountAppend(t[dest].cards, [c], k);
  }

  /**
   * The state of `dealCards` after `n` cards: `sp` is the row being dealt
   * (`startPile`), `np` the tableau the next card goes to (`numberOfPile`).
   */
  ghost predicate DealInv(deck: seq<Card>, t: seq<Pile>, n: nat, sp: nat, np: nat) {
    && |deck| >= TABLEAU_CARDS && n <= |deck|
    && Layout(t)
    && CountersAt(n, sp, np)
    && DealtSoFar(deck, t, n, sp, np)
    && (forall k :: TableCount(t, k) == Count(deck[..n], k))
  }

  /** The counters after `n` cards: `np` runs from `sp` to 6 within row `sp`, and both stop at 7. */
  ghost predicate CountersAt(n: nat, sp: nat, np: nat) {
    && sp <= np <= 7
    && (n < TABLEAU_CARDS ==> np < 7)
    && (n <= TABLEAU_CARDS ==> n == RowStart(sp) + np - sp)
    && (n >= TABLEAU_CARDS ==> sp == 7 && np == 7)
    && (forall i :: 0 <= i < 7 ==> DealtCount(i, sp, np) <= i + 1)
  }

  /** The piles after `n` cards: each tableau holds its first dealt rows, the stock the cards past the tableaus. */
  ghost predicate DealtSoFar(deck: seq<Card>, t: seq<Pile>, n: nat, sp: nat, np: nat)
    requires |deck| >= TABLEAU_CARDS && n <= |deck| && Layout(t) && CountersAt(n, sp, np)
  {
    && (forall j :: 1 <= j < 6 ==> t[j].cards == [])
    && (forall i :: 0 <= i < 7 ==> t[6 + i].cards == Partial(deck, i, DealtCount(i, sp, np)))
    && (n <= TABLEAU_CARDS ==> t[STOCK_PILE].cards == [])
    && (n >= TABLEAU_CARDS ==> t[STOCK_PILE].cards == deck[TABLEAU_CARDS..n])
  }

  /**
   * `dealCards`, with its counters: `numberOfCard` walks the deck,
   * `numberOfPile` is the tableau receiving the next card, `startPile` the
   * current row. It produces the reference deal, and every deck card lands
   * on the table exactly as often as it occurs in the deck.
   */
  method DealCards(deck: seq<Card>) returns (t: seq<Pile>)
    requires |deck| >= TABLEAU_CARDS
    ensures t == DealtTable(deck)
    ensures forall k :: TableCount(t, k) == Count(deck, k)
  {
    t := InitPiles();
    var numberOfPile: nat, numberOfCard: nat, startPile: nat := 0, 0, 0;
    DealInvInit(deck);
    while numberOfCard < |deck|
      invariant DealInv(deck, t, numberOfCard, startPile, numberOfPile)
    {
      var next := DealNext(deck, t, numberOfCard, startPile, numberOfPile);
      t, startPile, numberOfPile := next.0, next.1, next.2;
      numberOfCard := numberOfCard + 1;
    }
    DealInvFinal(deck, t, numberOfCard, startPile, numberOfPile);
  }

  lemma DealInvInit(deck: seq<Card>)
    requires |deck| >= TABLEAU_CARDS
    ensures DealInv(deck, InitPiles(), 0, 0, 0)
  {
    InitPilesLayout();
    forall k ensures TableCount(InitPiles(), k) == Count(deck[..0], k) {
      EmptyTableCount(InitPiles(), k);
    }
  }

  /**
   * One pass of the loop body of `dealCards`: card `n` goes to the stock
   * once the 28 tableau cards are dealt (`numberOfCard > countOfCardsToDeal`),
   * otherwise to tableau `np`, after which `np` moves on and wraps to the
   * next row's start; the card is turned face up when it starts a row or is
   * the last tableau card. Returns the table and the new `sp`, `np`.
   */
  function DealNext(deck: seq<Card>, t: seq<Pile>, n: nat, sp: nat, np: nat): (r: (seq<Pile>, nat, nat))
    requires DealInv(deck, t, n, sp, np) && n < |deck|
    ensures DealInv(deck, r.0, n + 1, r.1, r.2)
  {
    var countOfCardsToDeal, countOfPiles := 27, 7;
    var dest: nat := if n > countOfCardsToDeal then STOCK_PILE else 6 + np;
    var (sp', np') :=
      if n > countOfCardsToDeal then (sp, np)
      else if np + 1 == countOfPiles then (sp + 1, sp + 1)
      else (sp, np + 1);
    var flip := np' == sp' + 1 || n == countOfCardsToDeal;
    var placed := if flip then FlipTop(AddCard(t[dest], deck[n])) else AddCard(t[dest], deck[n]);
    DealInvStep(deck, t, n, sp, np, dest, sp', np', flip, placed);
    (t[dest := placed], sp', np')
  }

  /** One pass of the loop body keeps the deal state. */
  lemma DealInvStep(deck: seq<Card>, t: seq<Pile>, n: nat, sp: nat, np: nat, dest: nat, sp': nat, np': nat, flip: bool, placed: Pile)
    requires DealInv(deck, t, n, sp, np) && n < |deck|
    requires n > 27 ==> dest == STOCK_PILE && sp' == sp && np' == np
    requires n <= 27 ==> dest == 6 + np && (if np + 1 == 7 then sp' == sp + 1 && np' == sp + 1 else sp' == sp && np' == np + 1)
    requires flip == (np' == sp' + 1 || n == 27)
    requires dest < |t|
    requires placed == (var p := AddCard(t[dest], deck[n]); if flip then FlipTop(p) else p)
    ensures DealInv(deck, t[dest := placed], n + 1, sp', np')
  {
    DealCountStep(deck, t, n, dest, flip);
    if n < TABLEAU_CARDS {
      TableauCardStep(deck, t, n, sp, np, sp', np', flip, placed, t[dest := placed]);
    } else {
      StockCardStep(deck, t, n, sp, np, placed, t[dest := placed]);
    }
  }

  lemma TableauCardStep(deck: seq<Card>, t: seq<Pile>, n: nat, sp: nat, np: nat, sp': nat, np': nat, flip: bool, placed: Pile, t1: seq<Pile>)
    requires DealInv(deck, t, n, sp, np) && n < TABLEAU_CARDS
    requires if np + 1 == 7 then sp' == sp + 1 && np' == sp + 1 else sp' == sp && np' == np + 1
    requires flip == (np' == sp' + 1 || n == 27)
    requires placed == (var p := AddCard(t[6 + np], deck[n]); if flip then FlipTop(p) else p)
    requires t1 == t[6 + np := placed] && forall k :: TableCount(t1, k) == Count(deck[..n + 1], k)
    ensures DealInv(deck, t1, n + 1, sp', np')
  {
    DealStep(deck, t, sp, np, n, sp', np', flip, placed);
    DealInvIntro(deck, t1, n + 1, sp', np');
  }

  lemma StockCardStep(deck: seq<Card>, t: seq<Pile>, n: nat, sp: nat, np: nat, placed: Pile, t1: seq<Pile>)
    requires DealInv(deck, t, n, sp, np) && TABLEAU_CARDS <= n < |deck|
    requires placed == AddCard(t[STOCK_PILE], deck[n]) && t1 == t[STOCK_PILE := placed]
    requires forall k :: TableCount(t1, k) == Count(deck[..n + 1], k)
    ensures DealInv(deck, t1, n + 1, sp, np)
  {
    StockStep(deck, t, n, placed);
    DealInvIntro(deck, t1, n + 1, sp, np);
  }

  /** `DealInv`, conjunct by conjunct. */
  lemma DealInvIntro(deck: seq<Card>, t: seq<Pile>, n: nat, sp: nat, np: nat)
    requires |deck| >= TABLEAU_CARDS && n <= |deck| && Layout(t)
    requires CountersAt(n, sp, np)
    requires forall j :: 1 <= j < 6 ==> t[j].cards == []
    requires forall i :: 0 <= i < 7 ==> t[6 + i].cards == Partial(deck, i, DealtCount(i, sp, np))
    requires n <= TABLEAU_CARDS ==> t[STOCK_PILE].cards == []
    requires n >= TABLEAU_CARDS ==> t[STOCK_PILE].cards == deck[TABLEAU_CARDS..n]
    requires forall k :: TableCount(t, k) == Count(deck[..n], k)
    ensures DealInv(deck, t, n, sp, np)
  {
  }

  /** Past the tableau cards, the next card goes onto the stock, face down as it was. */
  lemma StockStep(deck: seq<Card>, t: seq<Pile>, n: nat, placed: Pile)
    requires TABLEAU_CARDS <= n < |deck| && Layout(t)
    requires t[STOCK_PILE].cards == deck[TABLEAU_CARDS..n]
    requires placed == AddCard(t[STOCK_PILE], deck[n])
    ensures placed.kind == STOCK && placed.cards == deck[TABLEAU_CARDS..n + 1]
  {
    assert deck[TABLEAU_CARDS..n + 1] == deck[TABLEAU_CARDS..n] + [deck[n]];
  }

  /** Placing the next deck card keeps the table's counts equal to those of the dealt prefix. */
  lemma DealCountStep(deck: seq<Card>, t: seq<Pile>, n: nat, dest: nat, flip: bool)
    requires n < |deck| && dest < |t|
    requires forall k :: TableCount(t, k) == Count(deck[..n], k)
    ensures var p := AddCard(t[dest], deck[n]);
      var t1 := t[dest := if flip then FlipTop(p) else p];
      forall k :: TableCount(t1, k) == Count(deck[..n + 1], k)
  {
    var p := AddCard(t[dest], deck[n]);
    var t1 := t[dest := if flip then FlipTop(p) else p];
    forall k ensures TableCount(t1, k) == Count(deck[..n + 1], k) {
      PlaceCount(t, dest, deck[n], flip, k);
      CountSnoc(deck, n, k);
    }
  }

  lemma DealInvFinal(deck: seq<Card>, t: seq<Pile>, n: nat, sp: nat, np: nat)
    requires DealInv(deck, t, n, sp, np) && n == |deck|
    ensures t == DealtTable(deck)
    ensures forall k :: TableCount(t, k) == Count(deck, k)
  {
    assert deck[..n] == deck;
    assert deck[TABLEAU_CARDS..n] == deck[TABLEAU_CARDS..];
    DealtTableByPiles(deck, t);
  }

  /** A table that agrees with the reference deal pile by pile is the reference deal. */
  lemma DealtTableByPiles(deck: seq<Card>, t: seq<Pile>)
    requires |deck| >= TABLEAU_CARDS && Layout(t)
    requires t[STOCK_PILE].cards == deck[TABLEAU_CARDS..]
    requires forall j :: 1 <= j < 6 ==> t[j].cards == []
    requires forall i :: 0 <= i < 7 ==> t[6 + i].cards == Partial(deck, i, DealtCount(i, 7, 7))
    ensures t == DealtTable(deck)
  {
    var d := DealtTable(deck);
    forall j | 0 <= j < PILE_COUNT
      ensures t[j] == d[j]
    {
      if j >= 6 {
        var i := j - 6;
        assert DealtCount(i, 7, 7) == i + 1;
        assert t[6 + i].cards == Partial(deck, i, DealtCount(i, 7, 7));
      }
    }
  }

  /** One tableau card of the deal extends exactly the tableau whose turn it is by the next dealt card. */
  lemma DealStep(deck: seq<Card>, t: seq<Pile>, sp: nat, np: nat, n: nat, sp': nat, np': nat, flip: bool, placed: Pile)
    requires |deck| >= TABLEAU_CARDS && n < TABLEAU_CARDS
    requires Layout(t) && sp <= np < 7
    requires n == RowStart(sp) + np - sp
    requires forall i :: 0 <= i < 7 ==> DealtCount(i, sp, np) <= i + 1
    requires forall i :: 0 <= i < 7 ==> t[6 + i].cards == Partial(deck, i, DealtCount(i, sp, np))
    requires if np + 1 == 7 then sp' == sp + 1 && np' == sp + 1 else sp' == sp && np' == np + 1
    requires flip == (np' == sp' + 1 || n == 27)
    requires placed == (var p := AddCard(t[6 + np], deck[n]); if flip then FlipTop(p) else p)
    ensures sp' <= np' <= 7
    ensures n + 1 < TABLEAU_CARDS ==> np' < 7
    ensures n + 1 <= TABLEAU_CARDS ==> n + 1 == RowStart(sp') + np' - sp'
    ensures n + 1 >= TABLEAU_CARDS ==> sp' == 7 && np' == 7
    ensures forall i :: 0 <= i < 7 ==> DealtCount(i, sp', np') <= i + 1
    ensures forall i :: 0 <= i < 7 ==> t[6 + np := placed][6 + i].cards == Partial(deck, i, DealtCount(i, sp', np'))
  {
    DealCounters(sp, np, n, sp', np');
    assert DealtCount(np, sp, np) == sp;
    DealPlaced(deck, t[6 + np], sp, np, n, flip, placed);
    forall i | 0 <= i < 7 && i != np
      ensures DealtCount(i, sp', np') == DealtCount(i, sp, np)
    {
    }
  }

  /** The counters `startPile` and `numberOfPile` after one tableau card. */
  lemma DealCounters(sp: nat, np: nat, n: nat, sp': nat, np': nat)
    requires n < TABLEAU_CARDS && sp <= np < 7
    requires n == RowStart(sp) + np - sp
    requires if np + 1 == 7 then sp' == sp + 1 && np' == sp + 1 else sp' == sp && np' == np + 1
    ensures sp < 7 && (np' == sp' + 1 || n == 27 <==> np == sp)
    ensures sp' <= np' <= 7
    ensures n + 1 < TABLEAU_CARDS ==> np' < 7
    ensures n + 1 <= TABLEAU_CARDS ==> n + 1 == RowStart(sp') + np' - sp'
    ensures n + 1 >= TABLEAU_CARDS ==> sp' == 7 && np' == 7
    ensures DealtCount(np, sp', np') == sp + 1
    ensures forall i :: 0 <= i < 7 ==> DealtCount(i, sp', np') <= i + 1
  {
    RowStartValues();
  }

  /** The card dealt onto tableau `np` in row `sp` extends it by the next card of the reference deal. */
  lemma DealPlaced(deck: seq<Card>, pile: Pile, sp: nat, np: nat, n: nat, flip: bool, placed: Pile)
    requires |deck| >= TABLEAU_CARDS && n < TABLEAU_CARDS && sp <= np < 7 && n == RowStart(sp) + np - sp
    requires pile.cards == Partial(deck, np, sp)
    requires flip == (np == sp)
    requires placed == (var p := AddCard(pile, deck[n]); if flip then FlipTop(p) else p)
    ensures placed.cards == Partial(deck, np, sp + 1)
  {
    PartialSnoc(deck, np, sp);
    assert DealtCard(deck, np, sp) == if flip then Flip(deck[n]) else deck[n];
  }

  /**
   * The reference deal puts every deck card on the table exactly as often as
   * it occurs in the deck: the loop of `DealCards` replayed as a proof.
   */
  lemma DealtTableCounts(deck: seq<Card>)
    requires |deck| >= TABLEAU_CARDS
    ensures forall k :: TableCount(DealtTable(deck), k) == Count(deck, k)
  {
    DealInvInit(deck);
    DealRest(deck, InitPiles(), 0, 0, 0);
  }

  /** The rest of the deal from any state the loop reaches ends on the reference deal. */
  lemma {:induction false} DealRest(deck: seq<Card>, t: seq<Pile>, n: nat, sp: nat, np: nat)
    requires DealInv(deck, t, n, sp, np)
    ensures forall k :: TableCount(DealtTable(deck), k) == Count(deck, k)
    decreases |deck| - n
  {
    if n == |deck| {
      DealInvFinal(deck, t, n, sp, np);
    } else {
      var next := DealNext(deck, t, n, sp, np);
      DealRest(deck, next.0, n + 1, next.1, next.2);
    }
  }
}
