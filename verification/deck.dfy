/**
 * Construction of the 52-card deck: every (suit, rank) pair in suit-major
 * order, all face down, then shuffled. The shuffle is an arbitrary
 * permutation supplied by the caller instead of a random number generator.
 */
module Deck {
  import opened Cards

  const DECK_SIZE: nat := 52

  /** The card at position `j` of the deck before shuffling. */
  function OrderedCard(j: nat): (c: Card)
    requires j < DECK_SIZE
    ensures IsValid(c) && c.faceDown
  {
    Card(j / 13 + 1, j % 13 + 1, true)
  }

  /** `perm` is a bijection on 0..n-1. */
  predicate IsPermutation(perm: seq<nat>, n: nat) {
    && |perm| == n
    && (forall j :: 0 <= j < n ==> perm[j] < n)
    && (forall j, k :: 0 <= j < k < n ==> perm[j] != perm[k])
    && (forall v :: 0 <= v < n ==> v in perm)
  }

  predicate HasCard(deck: seq<Card>, suit: int, rank: int) {
    exists j :: 0 <= j < |deck| && Key(deck[j]) == (suit, rank)
  }

  /** A full deck: 52 valid face-down cards, each (suit, rank) pair exactly once. */
  predicate IsFullDeck(deck: seq<Card>) {
    && |deck| == DECK_SIZE
    && (forall j :: 0 <= j < |deck| ==> IsValid(deck[j]) && deck[j].faceDown)
    && DistinctKeys(deck)
    && (forall s, r :: 1 <= s <= 4 && 1 <= r <= 13 ==> HasCard(deck, s, r))
  }

  lemma OrderedCardPosition(s: int, r: int)
    requires 1 <= s <= 4 && 1 <= r <= 13
    ensures 13 * (s - 1) + (r - 1) < DECK_SIZE
    ensures OrderedCard(13 * (s - 1) + (r - 1)) == Card(s, r, true)
  {
  }

  lemma OrderedCardsDistinct(j: nat, k: nat)
    requires j < k < DECK_SIZE
    ensures Key(OrderedCard(j)) != Key(OrderedCard(k))
  {
  }

  method CreateNewDeck(perm: seq<nat>) returns (deck: seq<Card>)
    requires IsPermutation(perm, DECK_SIZE)
    ensures IsFullDeck(deck)
    ensures forall j :: 0 <= j < DECK_SIZE ==> deck[j] == OrderedCard(perm[j])
  {
    var ordered: seq<Card> := [];
    var suit := 1;
    while suit < 5
      invariant 1 <= suit <= 5
      invariant |ordered| == 13 * (suit - 1)
      invariant forall j :: 0 <= j < |ordered| ==> ordered[j] == OrderedCard(j)
    {
      var rank := 1;
      while rank < 14
        invariant 1 <= rank <= 14
        invariant |ordered| == 13 * (suit - 1) + (rank - 1)
        invariant forall j :: 0 <= j < |ordered| ==> ordered[j] == OrderedCard(j)
      {
        OrderedCardPosition(suit, rank);
        ordered := ordered + [Card(suit, rank, true)];
        rank := rank + 1;
      }
      suit := suit + 1;
    }
    deck := seq(DECK_SIZE, j requires 0 <= j < DECK_SIZE => ordered[perm[j]]);
    forall j, k | 0 <= j < k < |deck|
      ensures Key(deck[j]) != Key(deck[k])
    {
      if perm[j] < perm[k] {
        OrderedCardsDistinct(perm[j], perm[k]);
      } else {
        OrderedCardsDistinct(perm[k], perm[j]);
      }
    }
    forall s, r | 1 <= s <= 4 && 1 <= r <= 13
      ensures HasCard(deck, s, r)
    {
      OrderedCardPosition(s, r);
      var v := 13 * (s - 1) + (r - 1);
      assert v in perm;
      var j :| 0 <= j < DECK_SIZE && perm[j] == v;
      assert Key(deck[j]) == (s, r);
    }
  }
}
