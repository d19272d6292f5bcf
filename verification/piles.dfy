/**
 * Piles and the table of piles. A pile is a plain ordered container whose
 * top is its last card; it validates nothing. `MoveToPile` is the card
 * relocation of `Card.moveToPile`, stated over a table `t` of piles, with
 * the card named by its pile index and position.
 */
module Piles {
  import opened Wrappers
  import opened Cards

  datatype PileType = STOCK | DISCARD | FOUNDATION | TABLEAU | HIDDEN

  /** The kind is set at construction; no operation below changes it. */
  datatype Pile = Pile(kind: PileType, cards: seq<Card>)

  function NumOfCards(p: Pile): nat {
    |p.cards|
  }

  predicate IsEmpty(p: Pile) {
    p.cards == []
  }

  lemma IsEmptyIffNoCards(p: Pile)
    ensures IsEmpty(p) <==> NumOfCards(p) == 0
  {
  }

  /** The last card, or `None` (Java's null) for an empty pile. */
  function TopCard(p: Pile): (r: Option<Card>)
    ensures r.None? <==> IsEmpty(p)
    ensures r.Some? ==> |p.cards| > 0 && r.value == p.cards[|p.cards| - 1]
  {
    if p.cards == [] then None else Some(p.cards[|p.cards| - 1])
  }

  function Clear(p: Pile): (r: Pile)
    ensures r.kind == p.kind && IsEmpty(r)
  {
    Pile(p.kind, [])
  }

  /** Appends with no check on the pile kind or the card. */
  function AddCard(p: Pile, c: Card): (r: Pile)
    ensures r.kind == p.kind
    ensures NumOfCards(r) == NumOfCards(p) + 1
    ensures TopCard(r) == Some(c)
    ensures r.cards[..NumOfCards(p)] == p.cards
  {
    Pile(p.kind, p.cards + [c])
  }

  function RemoveAt(s: seq<Card>, i: nat): (r: seq<Card>)
    requires i < |s|
    ensures |r| == |s| - 1
    ensures forall j :: 0 <= j < i ==> r[j] == s[j]
    ensures forall j :: i <= j < |r| ==> r[j] == s[j + 1]
  {
    s[..i] + s[i + 1..]
  }

  /** Java's `List.remove(card)`: drop the first card with the given identity. */
  function RemoveCard(s: seq<Card>, k: (int, int)): seq<Card> {
    if s == [] then []
    else if Key(s[0]) == k then s[1..]
    else [s[0]] + RemoveCard(s[1..], k)
  }

  /** With distinct identities, removing by identity is removing at the card's position. */
  lemma {:induction false} RemoveCardAt(s: seq<Card>, i: nat)
    requires i < |s| && DistinctKeys(s)
    ensures RemoveCard(s, Key(s[i])) == RemoveAt(s, i)
    decreases i
  {
    if i > 0 {
      assert Key(s[0]) != Key(s[i]);
      assert DistinctKeys(s[1..]) by {
        forall a, b | 0 <= a < b < |s[1..]|
          ensures Key(s[1..][a]) != Key(s[1..][b])
        {
          assert s[1..][a] == s[a + 1] && s[1..][b] == s[b + 1];
        }
      }
      assert s[1..][i - 1] == s[i];
      RemoveCardAt(s[1..], i - 1);
      assert [s[0]] + RemoveAt(s[1..], i - 1) == RemoveAt(s, i);
    }
  }

  /**
   * The auto-flip rule: after a card has left pile `p` for a pile of kind
   * `dst`, the new top of `p` turns face up when `p` is a tableau, the top is
   * face down and the destination is not the HIDDEN buffer.
   */
  predicate ExposeFlips(p: Pile, dst: PileType) {
    p.cards != [] && p.cards[|p.cards| - 1].faceDown && p.kind == TABLEAU && dst != HIDDEN
  }

  function Expose(p: Pile, dst: PileType): (r: Pile)
    ensures r.kind == p.kind && |r.cards| == |p.cards|
    ensures forall j :: 0 <= j < |p.cards| - 1 ==> r.cards[j] == p.cards[j]
    ensures forall j :: 0 <= j < |p.cards| ==> Key(r.cards[j]) == Key(p.cards[j])
    ensures p.cards != [] ==> r.cards[|p.cards| - 1].faceDown == (p.cards[|p.cards| - 1].faceDown && !ExposeFlips(p, dst))
  {
    if ExposeFlips(p, dst) then Pile(p.kind, p.cards[..|p.cards| - 1] + [Flip(p.cards[|p.cards| - 1])])
    else p
  }

  /**
   * `Card.moveToPile`: take the card at position `i` of pile `src`, append it
   * to pile `dst`, then apply the auto-flip rule to `src`.
   */
  function MoveToPile(t: seq<Pile>, src: nat, i: nat, dst: nat): (r: seq<Pile>)
    requires src < |t| && dst < |t| && i < |t[src].cards|
    ensures |r| == |t|
    ensures forall j :: 0 <= j < |t| ==> r[j].kind == t[j].kind
    ensures forall j :: 0 <= j < |t| && j != src && j != dst ==> r[j] == t[j]
    ensures src != dst ==> r[dst].cards == t[dst].cards + [t[src].cards[i]]
    ensures src != dst ==> r[src] == Expose(Pile(t[src].kind, RemoveAt(t[src].cards, i)), t[dst].kind)
    ensures src == dst ==> r[src] == Expose(Pile(t[src].kind, RemoveAt(t[src].cards, i) + [t[src].cards[i]]), t[src].kind)
    ensures |r[src].cards| == |t[src].cards| - (if src == dst then 0 else 1)
  {
    var c := t[src].cards[i];
    var t1 := t[src := Pile(t[src].kind, RemoveAt(t[src].cards, i))];
    var t2 := t1[dst := AddCard(t1[dst], c)];
    t2[src := Expose(t2[src], t2[dst].kind)]
  }

  /** `moveCardsToPile`: `m` successive moves of the card at position `k` of `src`. */
  function MoveRun(t: seq<Pile>, src: nat, k: nat, dst: nat, m: nat): (r: seq<Pile>)
    requires src < |t| && dst < |t| && k + m <= |t[src].cards|
    ensures |r| == |t|
    ensures forall j :: 0 <= j < |t| ==> r[j].kind == t[j].kind
    ensures forall j :: 0 <= j < |t| && j != src && j != dst ==> r[j] == t[j]
    ensures src != dst ==> |r[src].cards| == |t[src].cards| - m && |r[dst].cards| == |t[dst].cards| + m
    decreases m
  {
    if m == 0 then t else MoveRun(MoveToPile(t, src, k, dst), src, k, dst, m - 1)
  }

  predicate FaceUpFrom(s: seq<Card>, k: nat) {
    forall j :: k <= j < |s| ==> !s[j].faceDown
  }

  /** The face-up cards from position `k` on form a face-up run. */
  lemma FaceUpRun(s: seq<Card>, k: nat)
    requires k <= |s| && FaceUpFrom(s, k)
    ensures FaceUpFrom(s[k..], 0)
  {
    forall i | 0 <= i < |s[k..]| ensures !s[k..][i].faceDown {
      assert s[k..][i] == s[k + i];
    }
  }

  /**
   * Moving `run` card by card from `src` to `dst` flips nothing on the way:
   * the source is not a tableau, or the destination is the HIDDEN buffer,
   * or every card of the run is face up.
   */
  predicate NoFlipOnTheWay(t: seq<Pile>, src: nat, dst: nat, run: seq<Card>)
    requires src < |t| && dst < |t|
  {
    t[src].kind != TABLEAU || t[dst].kind == HIDDEN || FaceUpFrom(run, 0)
  }

  lemma MoveRunUnfold(t: seq<Pile>, src: nat, k: nat, dst: nat, m: nat)
    requires src < |t| && dst < |t| && k + m <= |t[src].cards| && m > 0
    ensures MoveRun(t, src, k, dst, m) == MoveRun(MoveToPile(t, src, k, dst), src, k, dst, m - 1)
  {
  }

  lemma RemoveRunHead(base: seq<Card>, run: seq<Card>, onto: seq<Card>)
    requires |run| >= 1
    ensures RemoveAt(base + run, |base|) == base + run[1..]
    ensures onto + [run[0]] + run[1..] == onto + run
    ensures |run| == 1 ==> base + run[1..] == base
  {
    assert [run[0]] + run[1..] == run;
  }

  /** One step of a run move: the run's first card leaves, and nothing flips while cards remain above. */
  lemma MoveFirstOfRun(t: seq<Pile>, src: nat, dst: nat, base: seq<Card>, run: seq<Card>)
    requires src < |t| && dst < |t| && src != dst
    requires t[src].cards == base + run && |run| >= 2
    requires NoFlipOnTheWay(t, src, dst, run)
    ensures var t1 := MoveToPile(t, src, |base|, dst);
      && t1[src] == Pile(t[src].kind, base + run[1..])
      && t1[dst] == Pile(t[dst].kind, t[dst].cards + [run[0]])
  {
    var rest := RemoveAt(t[src].cards, |base|);
    RemoveRunHead(base, run, []);
    assert !ExposeFlips(Pile(t[src].kind, rest), t[dst].kind);
  }

  /**
   * Moving a run that lies on top of `base` onto another pile, with nothing
   * flipping on the way, appends the run there in order and exposes the top
   * of `base` once.
   */
  lemma {:induction false} MoveRunToTop(t: seq<Pile>, src: nat, dst: nat, base: seq<Card>, run: seq<Card>)
    requires src < |t| && dst < |t| && src != dst
    requires t[src].cards == base + run && |run| >= 1
    requires NoFlipOnTheWay(t, src, dst, run)
    ensures var r := MoveRun(t, src, |base|, dst, |run|);
      && r[src] == Expose(Pile(t[src].kind, base), t[dst].kind)
      && r[dst] == Pile(t[dst].kind, t[dst].cards + run)
    decreases |run|
  {
    var t1 := MoveToPile(t, src, |base|, dst);
    MoveRunUnfold(t, src, |base|, dst, |run|);
    RemoveRunHead(base, run, t[dst].cards);
    if |run| > 1 {
      MoveFirstOfRun(t, src, dst, base, run);
      MoveRunToTop(t1, src, dst, base, run[1..]);
    }
  }

  /** `MoveRunToTop` for the run that starts at position `k` of the source. */
  lemma MoveRunFrom(t: seq<Pile>, src: nat, k: nat, dst: nat)
    requires src < |t| && dst < |t| && src != dst && k < |t[src].cards|
    requires NoFlipOnTheWay(t, src, dst, t[src].cards[k..])
    ensures var r := MoveRun(t, src, k, dst, |t[src].cards| - k);
      && r[src] == Expose(Pile(t[src].kind, t[src].cards[..k]), t[dst].kind)
      && r[dst] == Pile(t[dst].kind, t[dst].cards + t[src].cards[k..])
  {
    var cards := t[src].cards;
    var base, run := cards[..k], cards[k..];
    assert |base| == k && |run| == |cards| - k;
    assert cards == base + run;
    MoveRunToTop(t, src, dst, base, run);
  }

  /** Moving every card of a non-tableau pile onto another pile empties it and appends its cards in order. */
  lemma MoveWholePile(t: seq<Pile>, src: nat, dst: nat)
    requires src < |t| && dst < |t| && src != dst
    requires t[src].kind != TABLEAU && |t[src].cards| >= 1
    ensures var r := MoveRun(t, src, 0, dst, |t[src].cards|);
      && r[src] == Pile(t[src].kind, [])
      && r[dst] == Pile(t[dst].kind, t[dst].cards + t[src].cards)
  {
    var run := t[src].cards;
    assert [] + run == run;
    MoveRunToTop(t, src, dst, [], run);
  }

  /** How many cards of `s` have identity `k`. */
  function Count(s: seq<Card>, k: (int, int)): nat {
    if s == [] then 0 else Count(s[..|s| - 1], k) + (if Key(s[|s| - 1]) == k then 1 else 0)
  }

  /** How many cards with identity `k` lie anywhere on the table. */
  function TableCount(t: seq<Pile>, k: (int, int)): nat {
    if t == [] then 0 else TableCount(t[..|t| - 1], k) + Count(t[|t| - 1].cards, k)
  }

  /** No card identity occurs twice anywhere on the table. */
  ghost predicate UniqueCards(t: seq<Pile>) {
    forall k :: TableCount(t, k) <= 1
  }

  /** Two tables hold the same cards, each as often, whatever their places and orientations. */
  ghost predicate SameCards(t: seq<Pile>, u: seq<Pile>) {
    forall k :: TableCount(t, k) == TableCount(u, k)
  }

  lemma {:induction false} CountAppend(a: seq<Card>, b: seq<Card>, k: (int, int))
    ensures Count(a + b, k) == Count(a, k) + Count(b, k)
    decreases |b|
  {
    if b == [] {
      assert a + b == a;
    } else {
      var b' := b[..|b| - 1];
      assert (a + b)[..|a + b| - 1] == a + b';
      CountAppend(a, b', k);
    }
  }

  lemma CountSingle(c: Card, k: (int, int))
    ensures Count([c], k) == if Key(c) == k then 1 else 0
  {
    assert [c][..0] == [];
  }

  lemma CountRemoveAt(s: seq<Card>, i: nat, k: (int, int))
    requires i < |s|
    ensures Count(s, k) == Count(RemoveAt(s, i), k) + (if Key(s[i]) == k then 1 else 0)
  {
    assert s == s[..i] + [s[i]] + s[i + 1..];
    CountAppend(s[..i] + [s[i]], s[i + 1..], k);
    CountAppend(s[..i], [s[i]], k);
    CountAppend(s[..i], s[i + 1..], k);
    CountSingle(s[i], k);
  }

  lemma {:induction false} CountSameKeys(a: seq<Card>, b: seq<Card>, k: (int, int))
    requires |a| == |b|
    requires forall j :: 0 <= j < |a| ==> Key(a[j]) == Key(b[j])
    ensures Count(a, k) == Count(b, k)
    decreases |a|
  {
    if a != [] {
      CountSameKeys(a[..|a| - 1], b[..|b| - 1], k);
    }
  }

  lemma CountIn(s: seq<Card>, i: nat)
    requires i < |s|
    ensures Count(s, Key(s[i])) >= 1
  {
    CountRemoveAt(s, i, Key(s[i]));
  }

  lemma {:induction false} CountAbsent(s: seq<Card>, k: (int, int))
    requires forall j :: 0 <= j < |s| ==> Key(s[j]) != k
    ensures Count(s, k) == 0
  {
    if s != [] {
      CountAbsent(s[..|s| - 1], k);
    }
  }

  /** In a sequence of distinct identities every identity occurs at most once. */
  lemma {:induction false} DistinctCount(s: seq<Card>, k: (int, int))
    requires DistinctKeys(s)
    ensures Count(s, k) <= 1
  {
    if s != [] {
      var n := |s| - 1;
      if Key(s[n]) == k {
        CountAbsent(s[..n], k);
      } else {
        DistinctCount(s[..n], k);
      }
    }
  }

  lemma {:induction false} TableCountUpdate(t: seq<Pile>, j: nat, p: Pile, k: (int, int))
    requires j < |t|
    ensures TableCount(t[j := p], k) + Count(t[j].cards, k) == TableCount(t, k) + Count(p.cards, k)
    decreases |t|
  {
    var n := |t|;
    var u := t[j := p];
    var v := t[..n - 1];
    if j == n - 1 {
      assert u[..n - 1] == v;
    } else {
      assert u[..n - 1] == v[j := p];
      TableCountUpdate(v, j, p, k);
    }
  }

  lemma {:induction false} EmptyTableCount(t: seq<Pile>, k: (int, int))
    requires forall j :: 0 <= j < |t| ==> t[j].cards == []
    ensures TableCount(t, k) == 0
  {
    if t != [] {
      EmptyTableCount(t[..|t| - 1], k);
    }
  }

  lemma {:induction false} TableCountAtLeast(t: seq<Pile>, a: nat, k: (int, int))
    requires a < |t|
    ensures Count(t[a].cards, k) <= TableCount(t, k)
    decreases |t|
  {
    if a != |t| - 1 {
      TableCountAtLeast(t[..|t| - 1], a, k);
    }
  }

  lemma {:induction false} TableCountAtLeastTwo(t: seq<Pile>, a: nat, b: nat, k: (int, int))
    requires a < |t| && b < |t| && a != b
    ensures Count(t[a].cards, k) + Count(t[b].cards, k) <= TableCount(t, k)
    decreases |t|
  {
    var v := t[..|t| - 1];
    if a == |t| - 1 {
      TableCountAtLeast(v, b, k);
    } else if b == |t| - 1 {
      TableCountAtLeast(v, a, k);
    } else {
      TableCountAtLeastTwo(v, a, b, k);
    }
  }

  /** `card.flip()` on the top card of a pile, the card just added. */
  function FlipTop(p: Pile): (r: Pile)
    requires p.cards != []
    ensures r.kind == p.kind && |r.cards| == |p.cards|
    ensures r.cards[..|p.cards| - 1] == p.cards[..|p.cards| - 1]
    ensures r.cards[|p.cards| - 1] == Flip(p.cards[|p.cards| - 1])
    ensures forall k :: Count(r.cards, k) == Count(p.cards, k)
  {
    var n := |p.cards| - 1;
    assert p.cards == p.cards[..n] + [p.cards[n]];
    CountAppend(p.cards[..n], [p.cards[n]], Key(p.cards[n]));
    forall k ensures Count(p.cards[..n] + [Flip(p.cards[n])], k) == Count(p.cards, k) {
      CountAppend(p.cards[..n], [p.cards[n]], k);
      CountAppend(p.cards[..n], [Flip(p.cards[n])], k);
    }
    Pile(p.kind, p.cards[..n] + [Flip(p.cards[n])])
  }

  lemma ExposeCount(p: Pile, dst: PileType, k: (int, int))
    ensures Count(Expose(p, dst).cards, k) == Count(p.cards, k)
  {
    CountSameKeys(Expose(p, dst).cards, p.cards, k);
  }

  /** `moveToPile` neither loses nor duplicates a card. */
  lemma MoveToPileCount(t: seq<Pile>, src: nat, i: nat, dst: nat, k: (int, int))
    requires src < |t| && dst < |t| && i < |t[src].cards|
    ensures TableCount(MoveToPile(t, src, i, dst), k) == TableCount(t, k)
  {
    var c := t[src].cards[i];
    var t1 := t[src := Pile(t[src].kind, RemoveAt(t[src].cards, i))];
    var t2 := t1[dst := AddCard(t1[dst], c)];
    CountRemoveAt(t[src].cards, i, k);
    TableCountUpdate(t, src, t1[src], k);
    TableCountUpdate(t1, dst, t2[dst], k);
    CountAppend(t1[dst].cards, [c], k);
    CountSingle(c, k);
    ExposeCount(t2[src], t2[dst].kind, k);
    TableCountUpdate(t2, src, Expose(t2[src], t2[dst].kind), k);
  }

  /** Turning a pile's top card over changes no card's identity. */
  lemma FlipTopSameCards(t: seq<Pile>, j: nat)
    requires j < |t| && t[j].cards != []
    ensures SameCards(t[j := FlipTop(t[j])], t)
  {
    forall k ensures TableCount(t[j := FlipTop(t[j])], k) == TableCount(t, k) {
      TableCountUpdate(t, j, FlipTop(t[j]), k);
    }
  }

  lemma MoveToPileSameCards(t: seq<Pile>, src: nat, i: nat, dst: nat)
    requires src < |t| && dst < |t| && i < |t[src].cards|
    ensures SameCards(MoveToPile(t, src, i, dst), t)
  {
    forall k {
      MoveToPileCount(t, src, i, dst, k);
    }
  }

  lemma {:induction false} MoveRunSameCards(t: seq<Pile>, src: nat, k: nat, dst: nat, m: nat)
    requires src < |t| && dst < |t| && k + m <= |t[src].cards|
    ensures SameCards(MoveRun(t, src, k, dst, m), t)
    decreases m
  {
    if m > 0 {
      MoveToPileSameCards(t, src, k, dst);
      MoveRunSameCards(MoveToPile(t, src, k, dst), src, k, dst, m - 1);
    }
  }

  /**
   * On a table without duplicate cards, the moved card ends in `dst` and in
   * no other pile: its containing pile is the destination.
   */
  lemma MoveToPileRelocates(t: seq<Pile>, src: nat, i: nat, dst: nat)
    requires src < |t| && dst < |t| && i < |t[src].cards|
    requires UniqueCards(t)
    ensures var r := MoveToPile(t, src, i, dst);
      && Count(r[dst].cards, Key(t[src].cards[i])) == 1
      && forall j :: 0 <= j < |r| && j != dst ==> Count(r[j].cards, Key(t[src].cards[i])) == 0
  {
    var r := MoveToPile(t, src, i, dst);
    var key := Key(t[src].cards[i]);
    MoveToPileCount(t, src, i, dst, key);
    if src != dst {
      CountIn(r[dst].cards, |r[dst].cards| - 1);
    } else {
      var n := |t[src].cards|;
      var q := RemoveAt(t[src].cards, i) + [t[src].cards[i]];
      assert Key(r[src].cards[n - 1]) == Key(q[n - 1]);
      CountIn(r[src].cards, n - 1);
    }
    TableCountAtLeast(r, dst, key);
    forall j | 0 <= j < |r| && j != dst
      ensures Count(r[j].cards, key) == 0
    {
      TableCountAtLeastTwo(r, j, dst, key);
    }
  }
}
