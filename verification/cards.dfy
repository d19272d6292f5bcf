/**
 * A playing card: its identity (suit, rank) and its orientation. Suits are
 * 1 hearts, 2 diamonds, 3 spades, 4 clubs; ranks run from 1 (Ace) to 13 (King).
 * The pile a card lies in is not stored in the card: it is the pile of the
 * table that holds the card's key (see `Piles`).
 */
module Cards {
  import Decimal

  datatype Card = Card(suit: int, rank: int, faceDown: bool)

  datatype Color = Red | Black

  /** The identity of a card; a deck holds each key exactly once. */
  function Key(c: Card): (int, int) {
    (c.suit, c.rank)
  }

  /** No two cards of `s` share an identity. */
  predicate DistinctKeys(s: seq<Card>) {
    forall a, b :: 0 <= a < b < |s| ==> Key(s[a]) != Key(s[b])
  }

  predicate IsValid(c: Card) {
    1 <= c.suit <= 4 && 1 <= c.rank <= 13
  }

  /** The suits `getColor` treats as red. */
  function IsRedSuit(suit: int): bool {
    suit == 1 || suit == 2
  }

  /** Hearts and diamonds are red; any other suit value counts as black. */
  function CardColor(c: Card): (r: Color)
    ensures r == Red <==> c.suit == 1 || c.suit == 2
  {
    if IsRedSuit(c.suit) then Red else Black
  }

  predicate IsOppositeColor(a: Card, b: Card) {
    CardColor(a) != CardColor(b)
  }

  /** `a` is exactly one rank above `b`. */
  predicate IsHigherRank(a: Card, b: Card) {
    a.rank == b.rank + 1
  }

  predicate IsSameSuit(a: Card, b: Card) {
    a.suit == b.suit
  }

  function Flip(c: Card): (r: Card)
    ensures Key(r) == Key(c)
    ensures r.faceDown != c.faceDown
  {
    c.(faceDown := !c.faceDown)
  }

  /** The image-map key of a card, "S" + suit + "R" + rank. */
  function ShortName(c: Card): string {
    "S" + Decimal.IntToString(c.suit) + "R" + Decimal.IntToString(c.rank)
  }

  lemma OppositeColorIffDifferentSuitGroup(a: Card, b: Card)
    ensures IsOppositeColor(a, b) <==> ((a.suit == 1 || a.suit == 2) != (b.suit == 1 || b.suit == 2))
  {
  }

  lemma OppositeColorSymmetricIrreflexive(a: Card, b: Card)
    ensures IsOppositeColor(a, b) <==> IsOppositeColor(b, a)
    ensures !IsOppositeColor(a, a)
  {
  }

  lemma HigherRankAsymmetric(a: Card, b: Card)
    ensures IsHigherRank(a, b) ==> !IsHigherRank(b, a)
    ensures !IsHigherRank(a, a)
  {
  }

  lemma SameSuitEquivalence(a: Card, b: Card, c: Card)
    ensures IsSameSuit(a, a)
    ensures IsSameSuit(a, b) ==> IsSameSuit(b, a)
    ensures IsSameSuit(a, b) && IsSameSuit(b, c) ==> IsSameSuit(a, c)
  {
  }

  /** Flipping changes orientation only, and flipping twice restores the card. */
  lemma FlipTwice(c: Card)
    ensures Flip(Flip(c)) == c
    ensures Flip(c).suit == c.suit && Flip(c).rank == c.rank
  {
  }

  /** A suit between 1 and 9 renders as one digit. */
  lemma OneDigit(n: int)
    requires 1 <= n <= 9
    ensures Decimal.IntToString(n) == [Decimal.DigitChar(n)]
  {
  }

  /**
   * Over valid cards the short name determines the card's identity, so the
   * 52 image keys are pairwise distinct.
   */
  lemma ShortNameInjective(a: Card, b: Card)
    requires IsValid(a) && IsValid(b)
    ensures ShortName(a) == ShortName(b) <==> Key(a) == Key(b)
  {
    if ShortName(a) == ShortName(b) {
      OneDigit(a.suit);
      OneDigit(b.suit);
      var na := ShortName(a);
      var nb := ShortName(b);
      assert na[1] == Decimal.DigitChar(a.suit);
      assert nb[1] == Decimal.DigitChar(b.suit);
      assert a.suit == b.suit;
      assert na[3..] == Decimal.IntToString(a.rank);
      assert nb[3..] == Decimal.IntToString(b.rank);
      Decimal.IntToStringInjective(a.rank, b.rank);
    }
  }
}
