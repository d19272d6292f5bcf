/**
 * The Klondike rules of `Game`: the table layout built by `initPiles`, the
 * placement rule `isMoveValid`, the double-click target search
 * `possibleMove`, the drop-target choice of `getValidIntersectingPile`, and
 * the win test `isGameWon`.
 */
module Rules {
  import opened Wrappers
  import opened Cards
  import opened Piles

  /** Table positions: stock, discard, four foundations, seven tableaus. */
  const STOCK_PILE: nat := 0
  const DISCARD_PILE: nat := 1
  const PILE_COUNT: nat := 13
  const FOUNDATIONS: seq<nat> := [2, 3, 4, 5]
  const TABLEAUS: seq<nat> := [6, 7, 8, 9, 10, 11, 12]

  function InitPiles(): seq<Pile> {
    [Pile(STOCK, []), Pile(DISCARD, [])]
    + seq(4, _ => Pile(FOUNDATION, []))
    + seq(7, _ => Pile(TABLEAU, []))
  }

  /** The kinds the table has at every position. */
  function KindAt(j: nat): PileType {
    if j == STOCK_PILE then STOCK
    else if j == DISCARD_PILE then DISCARD
    else if j < 6 then FOUNDATION
    else TABLEAU
  }

  predicate Layout(t: seq<Pile>) {
    |t| == PILE_COUNT && forall j :: 0 <= j < PILE_COUNT ==> t[j].kind == KindAt(j)
  }

  lemma InitPilesLayout()
    ensures Layout(InitPiles())
    ensures forall j :: 0 <= j < PILE_COUNT ==> InitPiles()[j].cards == []
  {
  }

  /**
   * `isMoveValid`: a tableau takes a King when empty, otherwise a card of the
   * opposite colour one rank below its top; a foundation takes an Ace when
   * empty, otherwise the next rank of the same suit; nothing else takes a card.
   */
  predicate IsMoveValid(c: Card, dest: Pile) {
    match dest.kind
    case TABLEAU =>
      if IsEmpty(dest) then c.rank == 13
      else var top := dest.cards[|dest.cards| - 1];
        IsOppositeColor(c, top) && IsHigherRank(top, c)
    case FOUNDATION =>
      if IsEmpty(dest) then c.rank == 1
      else var top := dest.cards[|dest.cards| - 1];
        IsSameSuit(c, top) && IsHigherRank(c, top)
    case _ => false
  }

  /** The placement rule in terms of suit and rank numbers alone. */
  lemma IsMoveValidCases(c: Card, dest: Pile)
    ensures dest.kind == TABLEAU && dest.cards == [] ==> (IsMoveValid(c, dest) <==> c.rank == 13)
    ensures dest.kind == TABLEAU && dest.cards != [] ==>
      (IsMoveValid(c, dest) <==>
        var top := dest.cards[|dest.cards| - 1];
        IsRedSuit(c.suit) != IsRedSuit(top.suit) && top.rank == c.rank + 1)
    ensures dest.kind == FOUNDATION && dest.cards == [] ==> (IsMoveValid(c, dest) <==> c.rank == 1)
    ensures dest.kind == FOUNDATION && dest.cards != [] ==>
      (IsMoveValid(c, dest) <==>
        var top := dest.cards[|dest.cards| - 1];
        c.suit == top.suit && c.rank == top.rank + 1)
    ensures dest.kind !in {TABLEAU, FOUNDATION} ==> !IsMoveValid(c, dest)
  {
  }

  /** The top card of a pile is never a valid move onto that same pile. */
  lemma NotOntoItself(p: Pile)
    requires p.cards != []
    ensures !IsMoveValid(p.cards[|p.cards| - 1], p)
  {
  }

  /** A foundation pile in order: Ace, 2, 3, ... of one suit. */
  predicate FoundationRun(s: seq<Card>) {
    forall j :: 0 <= j < |s| ==> s[j].suit == s[0].suit && s[j].rank == j + 1
  }

  /** Placing an accepted card on a foundation keeps it an ordered same-suit run. */
  lemma FoundationGrows(p: Pile, c: Card)
    requires p.kind == FOUNDATION && FoundationRun(p.cards) && IsMoveValid(c, p)
    ensures FoundationRun(p.cards + [c])
  {
    var s := p.cards + [c];
    if p.cards != [] {
      assert s[0] == p.cards[0];
    }
  }

  /**
   * A foundation built only from cards `isMoveValid` accepted, one after the
   * other, is Ace..k of one suit; with valid cards it holds at most 13.
   */
  lemma {:induction false} AcceptedFoundation(cs: seq<Card>)
    requires forall j :: 0 <= j < |cs| ==> IsMoveValid(cs[j], Pile(FOUNDATION, cs[..j]))
    ensures FoundationRun(cs)
    ensures (forall j :: 0 <= j < |cs| ==> IsValid(cs[j])) ==> |cs| <= 13
    decreases |cs|
  {
    if cs != [] {
      var n := |cs| - 1;
      AcceptedPrefix(cs, n);
      AcceptedFoundation(cs[..n]);
      FoundationGrows(Pile(FOUNDATION, cs[..n]), cs[n]);
      assert cs[..n] + [cs[n]] == cs;
    }
  }

  lemma AcceptedPrefix(cs: seq<Card>, n: nat)
    requires n <= |cs|
    requires forall j :: 0 <= j < |cs| ==> IsMoveValid(cs[j], Pile(FOUNDATION, cs[..j]))
    ensures forall j :: 0 <= j < n ==> IsMoveValid(cs[..n][j], Pile(FOUNDATION, cs[..n][..j]))
  {
    forall j | 0 <= j < n
      ensures IsMoveValid(cs[..n][j], Pile(FOUNDATION, cs[..n][..j]))
    {
      assert cs[..n][..j] == cs[..j];
    }
  }

  /** The first position in `lo..hi` (in order) whose pile accepts `c`. */
  function FirstValid(t: seq<Pile>, c: Card, lo: nat, hi: nat): (r: Option<nat>)
    requires lo <= hi <= |t|
    ensures r.Some? ==> lo <= r.value < hi && IsMoveValid(c, t[r.value])
    ensures r.Some? ==> forall j :: lo <= j < r.value ==> !IsMoveValid(c, t[j])
    ensures r.None? <==> forall j :: lo <= j < hi ==> !IsMoveValid(c, t[j])
    decreases hi - lo
  {
    if lo == hi then None
    else if IsMoveValid(c, t[lo]) then Some(lo)
    else FirstValid(t, c, lo + 1, hi)
  }

  /**
   * `possibleMove`: the first foundation that accepts `c`, else the first
   * tableau, else `None`. Foundations come before tableaus in the layout,
   * so the answer is the lowest accepting position.
   */
  function PossibleMove(t: seq<Pile>, c: Card): (r: Option<nat>)
    requires Layout(t)
    ensures r.Some? ==> 2 <= r.value < PILE_COUNT && IsMoveValid(c, t[r.value])
    ensures r.Some? ==> forall j :: 2 <= j < r.value ==> !IsMoveValid(c, t[j])
    ensures r.None? <==> forall j :: 2 <= j < PILE_COUNT ==> !IsMoveValid(c, t[j])
  {
    match FirstValid(t, c, 2, 6)
    case Some(f) => Some(f)
    case None => FirstValid(t, c, 6, PILE_COUNT)
  }

  /** The double-click target is never the pile the clicked top card already sits on. */
  lemma PossibleMoveNotOwnPile(t: seq<Pile>, src: nat)
    requires Layout(t) && src < |t| && t[src].cards != []
    ensures PossibleMove(t, t[src].cards[|t[src].cards| - 1]) != Some(src)
  {
    NotOntoItself(t[src]);
  }

  /**
   * A pile the dragged card `c` from `src` may be dropped on: another pile,
   * one the card overlaps, and one that accepts the card. Overlap is
   * geometry in the source; here it is the set `overlapping` of positions.
   */
  predicate DropCandidate(t: seq<Pile>, src: nat, c: Card, p: nat, overlapping: set<nat>)
    requires p < |t|
  {
    p != src && p in overlapping && IsMoveValid(c, t[p])
  }

  predicate InTable(t: seq<Pile>, piles: seq<nat>) {
    forall j :: 0 <= j < |piles| ==> piles[j] < |t|
  }

  /**
   * `getValidIntersectingPile`: start from `result` (the card's own pile)
   * and walk `piles` in order, switching to every drop candidate met.
   */
  function ValidIntersectingPile(t: seq<Pile>, src: nat, c: Card, piles: seq<nat>, overlapping: set<nat>, result: nat): (r: nat)
    requires InTable(t, piles) && result < |t|
    ensures r < |t|
    ensures r == result || r in piles
    ensures r != result ==> DropCandidate(t, src, c, r, overlapping)
    decreases |piles|
  {
    if piles == [] then result
    else
      var next := if DropCandidate(t, src, c, piles[0], overlapping) then piles[0] else result;
      ValidIntersectingPile(t, src, c, piles[1..], overlapping, next)
  }

  predicate IsLastCandidate(t: seq<Pile>, src: nat, c: Card, piles: seq<nat>, j: nat, overlapping: set<nat>)
    requires InTable(t, piles) && j < |piles|
  {
    && DropCandidate(t, src, c, piles[j], overlapping)
    && forall i :: j < i < |piles| ==> !DropCandidate(t, src, c, piles[i], overlapping)
  }

  /** Reference definition: the last drop candidate of `piles`, searched from the end. */
  function LastCandidate(t: seq<Pile>, src: nat, c: Card, piles: seq<nat>, overlapping: set<nat>): (r: Option<nat>)
    requires InTable(t, piles)
    ensures r.Some? ==>
      exists j :: 0 <= j < |piles| && piles[j] == r.value && IsLastCandidate(t, src, c, piles, j, overlapping)
    ensures r.None? <==> forall j :: 0 <= j < |piles| ==> !DropCandidate(t, src, c, piles[j], overlapping)
    decreases |piles|
  {
    if piles == [] then None
    else
      var n := |piles| - 1;
      if DropCandidate(t, src, c, piles[n], overlapping) then Some(piles[n])
      else
        var r := LastCandidate(t, src, c, piles[..n], overlapping);
        assert forall j :: 0 <= j < n ==> piles[..n][j] == piles[j];
        r
  }

  lemma {:induction false} ValidIntersectingPileSnoc(t: seq<Pile>, src: nat, c: Card, piles: seq<nat>, p: nat, overlapping: set<nat>, result: nat)
    requires InTable(t, piles + [p]) && result < |t|
    ensures InTable(t, piles) && p < |t|
    ensures ValidIntersectingPile(t, src, c, piles + [p], overlapping, result)
      == (if DropCandidate(t, src, c, p, overlapping) then p
          else ValidIntersectingPile(t, src, c, piles, overlapping, result))
    decreases |piles|
  {
    assert forall j :: 0 <= j < |piles| ==> (piles + [p])[j] == piles[j];
    if piles != [] {
      var next := if DropCandidate(t, src, c, piles[0], overlapping) then piles[0] else result;
      assert (piles + [p])[1..] == piles[1..] + [p];
      ValidIntersectingPileSnoc(t, src, c, piles[1..], p, overlapping, next);
    } else {
      assert piles + [p] == [p] && ([p])[1..] == [];
      assert (piles + [p])[0] == p;
      var next := if DropCandidate(t, src, c, p, overlapping) then p else result;
      assert ValidIntersectingPile(t, src, c, [p], overlapping, result) == ValidIntersectingPile(t, src, c, [], overlapping, next);
    }
  }

  /**
   * The forward scan ends on the last drop candidate, or on `result` when
   * there is none; so a drag that starts from `src` stays on `src` exactly
   * when no overlapping pile accepts the card.
   */
  lemma {:induction false} ValidIntersectingPileIsLast(t: seq<Pile>, src: nat, c: Card, piles: seq<nat>, overlapping: set<nat>, result: nat)
    requires InTable(t, piles) && result < |t|
    ensures ValidIntersectingPile(t, src, c, piles, overlapping, result)
      == match LastCandidate(t, src, c, piles, overlapping) case Some(p) => p case None => result
    ensures result == src ==>
      ((ValidIntersectingPile(t, src, c, piles, overlapping, src) == src)
       <==> forall j :: 0 <= j < |piles| ==> !DropCandidate(t, src, c, piles[j], overlapping))
    decreases |piles|
  {
    if piles != [] {
      var n := |piles| - 1;
      assert piles[..n] + [piles[n]] == piles;
      ValidIntersectingPileSnoc(t, src, c, piles[..n], piles[n], overlapping, result);
      ValidIntersectingPileIsLast(t, src, c, piles[..n], overlapping, result);
    }
  }

  /** How many of the piles hold exactly 13 cards. */
  function CompleteCount(ps: seq<Pile>): nat {
    if ps == [] then 0 else CompleteCount(ps[..|ps| - 1]) + (if |ps[|ps| - 1].cards| == 13 then 1 else 0)
  }

  /** The `isGameWon` loop over `ps` with `s` complete piles already counted. */
  function WonScan(ps: seq<Pile>, s: nat): bool
    decreases |ps|
  {
    if ps == [] then false
    else
      var s' := s + (if |ps[0].cards| == 13 then 1 else 0);
      if s' == 3 then true else WonScan(ps[1..], s')
  }

  lemma {:induction false} CompleteCountCons(ps: seq<Pile>)
    requires ps != []
    ensures CompleteCount(ps) == (if |ps[0].cards| == 13 then 1 else 0) + CompleteCount(ps[1..])
    decreases |ps|
  {
    if |ps| > 1 {
      assert ps[1..][..|ps[1..]| - 1] == ps[..|ps| - 1][1..];
      CompleteCountCons(ps[..|ps| - 1]);
    } else {
      assert ps[1..] == [];
    }
  }

  lemma {:induction false} WonScanCounts(ps: seq<Pile>, s: nat)
    requires s < 3
    ensures WonScan(ps, s) <==> s + CompleteCount(ps) >= 3
    decreases |ps|
  {
    if ps != [] {
      CompleteCountCons(ps);
      var s' := s + (if |ps[0].cards| == 13 then 1 else 0);
      if s' < 3 {
        WonScanCounts(ps[1..], s');
      }
    }
  }

  /** `isGameWon`: true once three foundations hold 13 cards each. */
  function IsGameWon(t: seq<Pile>): (r: bool)
    requires Layout(t)
    ensures r <==> CompleteCount(t[2..6]) >= 3
  {
    WonScanCounts(t[2..6], 0);
    WonScan(t[2..6], 0)
  }
}
