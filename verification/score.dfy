/**
 * `Score`: an integer accumulator with a display text "Score: N" that some
 * operations resynchronise and others leave stale, the classification of a
 * move by the kinds of its source and destination piles, the points each
 * kind of move earns, and the formula `calculateScore`.
 */
module Scoring {
  import opened Wrappers
  import opened Decimal
  import opened Piles

  /** Move types; FLIP and INVALID_MOVE share the value 0. */
  const FLIP: int := 0
  const TABLEAU_TO_FOUNDATION: int := 1
  const FOUNDATION_TO_TABLEAU: int := 2
  const TABLEAU_TO_TABLEAU: int := 3
  const WASTE_TO_FOUNDATION: int := 4
  const WASTE_TO_TABLEAU: int := 5
  const INVALID_MOVE: int := 0

  const PREFIX: string := "Score: "

  datatype Score = Score(currentScore: int, scoreText: string)

  /** The text the display shows for value `n`: Java's `"Score: " + n`. */
  function ScoreText(n: int): string {
    PREFIX + IntToString(n)
  }

  /** The number a display text shows, if it has the score form. */
  function DisplayedValue(text: string): Option<int> {
    if |text| >= |PREFIX| && text[..|PREFIX|] == PREFIX then ParseInt(text[|PREFIX|..]) else None
  }

  /** The text shows the current value. */
  predicate InSync(s: Score) {
    s.scoreText == ScoreText(s.currentScore)
  }

  /** The display text of `n` reads back as `n`, and different values have different texts. */
  lemma ScoreTextRoundTrip(a: int, b: int)
    ensures DisplayedValue(ScoreText(a)) == Some(a)
    ensures ScoreText(a) == ScoreText(b) <==> a == b
  {
    var t := ScoreText(a);
    assert t[..|PREFIX|] == PREFIX;
    assert t[|PREFIX|..] == IntToString(a);
    ParseIntToString(a);
    IntToStringInjective(a, b);
    if ScoreText(a) == ScoreText(b) {
      assert ScoreText(b)[|PREFIX|..] == IntToString(b);
    }
  }

  /** A synchronised score displays exactly its value. */
  lemma InSyncDisplays(s: Score)
    requires InSync(s)
    ensures DisplayedValue(s.scoreText) == Some(s.currentScore)
  {
    ScoreTextRoundTrip(s.currentScore, s.currentScore);
  }

  /** `new Score(initialScore, root)`: the value and a matching text. */
  function NewScore(initialScore: int): (r: Score)
    ensures InSync(r) && DisplayedValue(r.scoreText) == Some(initialScore)
    ensures r.currentScore == initialScore
  {
    var r := Score(initialScore, ScoreText(initialScore));
    InSyncDisplays(r);
    r
  }

  /** `createScoreText`: resets the text from the current value. */
  function CreateScoreText(s: Score): (r: Score)
    ensures r.currentScore == s.currentScore && InSync(r)
    ensures DisplayedValue(r.scoreText) == Some(s.currentScore)
  {
    var r := s.(scoreText := ScoreText(s.currentScore));
    InSyncDisplays(r);
    r
  }

  /** `displayScore`: adds the text to the pane (not modelled) and recreates it. */
  function DisplayScore(s: Score): (r: Score)
    ensures r.currentScore == s.currentScore && InSync(r)
    ensures DisplayedValue(r.scoreText) == Some(s.currentScore)
  {
    CreateScoreText(s)
  }

  function GetCurrentScore(s: Score): int {
    s.currentScore
  }

  /** `addScore`: the value grows by `amount`; the text is not touched. */
  function AddScore(s: Score, amount: int): (r: Score)
    ensures GetCurrentScore(r) - GetCurrentScore(s) == amount
    ensures r.scoreText == s.scoreText
  {
    s.(currentScore := s.currentScore + amount)
  }

  /** `updateScore(int points)`: the same as `addScore`. */
  function UpdateScoreBy(s: Score, points: int): (r: Score)
    ensures r == AddScore(s, points)
  {
    s.(currentScore := s.currentScore + points)
  }

  /** `setScore`: replaces the value only. */
  function SetScore(s: Score, score: int): (r: Score)
    ensures GetCurrentScore(r) == score && r.scoreText == s.scoreText
  {
    s.(currentScore := score)
  }

  /** `setCurrentScore`: replaces the value and the text. */
  function SetCurrentScore(s: Score, newScore: int): (r: Score)
    ensures GetCurrentScore(r) == newScore && InSync(r)
    ensures DisplayedValue(r.scoreText) == Some(newScore)
  {
    var r := Score(newScore, ScoreText(newScore));
    InSyncDisplays(r);
    r
  }

  /** `clearScore`: the value becomes 0; the text is not touched. */
  function ClearScore(s: Score): (r: Score)
    ensures GetCurrentScore(r) == 0 && r.scoreText == s.scoreText
  {
    s.(currentScore := 0)
  }

  /**
   * The accumulator operations leave a synchronised text stale: after a
   * non-zero addition it still shows the old value, and likewise after
   * `setScore` or `clearScore` to a different value. `setCurrentScore` is
   * `setScore` followed by a resync.
   */
  lemma StaleText(s: Score, amount: int, n: int)
    requires InSync(s)
    ensures DisplayedValue(AddScore(s, amount).scoreText) == Some(s.currentScore)
    ensures InSync(AddScore(s, amount)) <==> amount == 0
    ensures InSync(SetScore(s, n)) <==> n == s.currentScore
    ensures InSync(ClearScore(s)) <==> s.currentScore == 0
    ensures SetCurrentScore(s, n) == CreateScoreText(SetScore(s, n))
  {
    InSyncDisplays(s);
    ScoreTextRoundTrip(s.currentScore, s.currentScore + amount);
    ScoreTextRoundTrip(s.currentScore, n);
    ScoreTextRoundTrip(s.currentScore, 0);
  }

  /** Additions accumulate, and clearing forgets everything added before. */
  lemma AddScoreAccumulates(s: Score, a: int, b: int)
    ensures AddScore(AddScore(s, a), b) == AddScore(s, a + b)
    ensures ClearScore(AddScore(s, a)) == ClearScore(s)
    ensures GetCurrentScore(AddScore(ClearScore(s), a)) == a
  {
  }

  /** Java's 32-bit `int` range and two's-complement wrap-around. */
  predicate IsInt32(x: int) {
    -0x8000_0000 <= x < 0x8000_0000
  }

  function Wrap32(x: int): (r: int)
    ensures IsInt32(r)
    ensures (r - x) % 0x1_0000_0000 == 0
    ensures IsInt32(x) ==> r == x
    ensures 0x8000_0000 <= x < 0x1_8000_0000 ==> r == x - 0x1_0000_0000
  {
    (x + 0x8000_0000) % 0x1_0000_0000 - 0x8000_0000
  }

  /** Java's `/` on `int`: the quotient truncated toward zero. */
  function JavaDiv(a: int, b: int): (q: int)
    requires b != 0
    ensures a >= 0 && b > 0 ==> q == a / b
    ensures (a >= 0 && b < 0) ==> q == -(a / -b)
  {
    var m := (if a < 0 then -a else a) / (if b < 0 then -b else b);
    if (a < 0) != (b < 0) then -m else m
  }

  /**
   * `calculateScore(moves) = 10000 / (moves + 10)` with `int` arithmetic:
   * `moves + 10` wraps, and a zero divisor (moves = -10) throws, which is
   * `None` here.
   */
  function CalculateScore(moves: int): (r: Option<int>)
    requires IsInt32(moves)
    ensures r.None? <==> moves == -10
    ensures moves >= 0 ==> r.Some? && 0 <= r.value <= 1000
    ensures -10 < moves && moves + 10 < 0x8000_0000 ==> r == Some(10000 / (moves + 10))
    ensures moves < -10 ==> r == Some(-(10000 / -(moves + 10)))
    ensures moves + 10 >= 0x8000_0000 ==> r == Some(-(10000 / (0x1_0000_0000 - (moves + 10))))
  {
    var d := Wrap32(moves + 10);
    if d == 0 then None
    else
      assert moves >= 0 ==> d >= 10 || d < -10000;
      Some(JavaDiv(10000, d))
  }

  lemma CalculateScoreExamples()
    ensures CalculateScore(90) == Some(100)
    ensures CalculateScore(40) == Some(200)
    ensures CalculateScore(0) == Some(1000)
  {
  }

  lemma DivAntitone(n: nat, x: nat, y: nat)
    requires 0 < x <= y
    ensures n / y <= n / x
  {
    var q := n / y;
    assert q * y <= n;
    MulMonotone(q, x, y);
    MulLeDiv(q, x, n);
  }

  lemma MulMonotone(q: nat, x: nat, y: nat)
    requires x <= y
    ensures q * x <= q * y
  {
    var d: nat := y - x;
    assert q * y == q * x + q * d;
  }

  lemma MulLeDiv(q: nat, x: nat, n: nat)
    requires x > 0 && q * x <= n
    ensures q <= n / x
  {
    var d := n / x;
    assert n == d * x + n % x && n % x < x;
    var e := q - d;
    assert q * x == d * x + e * x;
    MulAtLeast(e, x);
  }

  lemma MulAtLeast(e: int, x: nat)
    ensures e >= 1 ==> e * x >= x
  {
    if e >= 1 {
      var f: nat := e - 1;
      assert e * x == f * x + x;
    }
  }

  /** Over non-negative move counts the formula never increases. */
  lemma CalculateScoreNonIncreasing(a: int, b: int)
    requires IsInt32(a) && IsInt32(b) && 0 <= a <= b
    ensures CalculateScore(b).value <= CalculateScore(a).value
  {
    if b + 10 < 0x8000_0000 {
      assert CalculateScore(a) == Some(10000 / (a + 10));
      assert CalculateScore(b) == Some(10000 / (b + 10));
      DivAntitone(10000, a + 10, b + 10);
    } else {
      var d := b + 10 - 0x1_0000_0000;
      assert Wrap32(b + 10) == d && d < -10000;
      assert JavaDiv(10000, d) == 0;
    }
  }

  /**
   * `getMoveType(source, destination, slideToDest)`; a missing pile (Java's
   * null) is `None`.
   */
  function GetMoveType(src: Option<PileType>, dst: Option<PileType>, slideToDest: int): (r: int)
    ensures src.None? || dst.None? ==> r == INVALID_MOVE
    ensures r == TABLEAU_TO_TABLEAU <==> src == Some(TABLEAU) && dst == Some(TABLEAU)
    ensures r == WASTE_TO_TABLEAU <==> src == Some(DISCARD) && dst == Some(TABLEAU)
    ensures r == WASTE_TO_FOUNDATION <==> src == Some(DISCARD) && dst == Some(FOUNDATION)
    ensures r == FOUNDATION_TO_TABLEAU <==> src == Some(FOUNDATION) && dst == Some(TABLEAU)
    ensures r == TABLEAU_TO_FOUNDATION <==>
      src.Some? && dst == Some(FOUNDATION) && (src.value == TABLEAU || (slideToDest == 1 && src.value != DISCARD))
    ensures 0 <= r <= 5
  {
    if src.None? || dst.None? then INVALID_MOVE
    else
      var s, d := src.value, dst.value;
      if s == TABLEAU && d == TABLEAU then TABLEAU_TO_TABLEAU
      else if s == DISCARD && d == TABLEAU then WASTE_TO_TABLEAU
      else if s == DISCARD && d == FOUNDATION then WASTE_TO_FOUNDATION
      else if s == TABLEAU && d == FOUNDATION then TABLEAU_TO_FOUNDATION
      else if s == FOUNDATION && d == TABLEAU then FOUNDATION_TO_TABLEAU
      else if slideToDest == 1 && d == FOUNDATION then TABLEAU_TO_FOUNDATION
      else INVALID_MOVE
  }

  /** The points of the `updateScore` switch: 10 to a foundation, 5 to a tableau, else 0. */
  function MovePoints(moveType: int): (p: int)
    ensures p == 10 <==> moveType == TABLEAU_TO_FOUNDATION || moveType == WASTE_TO_FOUNDATION
    ensures p == 5 <==> moveType == TABLEAU_TO_TABLEAU || moveType == WASTE_TO_TABLEAU
    ensures p == 0 <==>
      moveType !in {TABLEAU_TO_FOUNDATION, WASTE_TO_FOUNDATION, TABLEAU_TO_TABLEAU, WASTE_TO_TABLEAU}
  {
    match moveType
    case 1 => 10
    case 4 => 10
    case 3 => 5
    case 5 => 5
    case _ => 0
  }

  /**
   * `updateScore(sourcePile, destinationPile, draggedCards, slideToDest)`:
   * adds the move's points and resyncs the text. The dragged cards are not
   * used by the source and are not a parameter here.
   */
  function UpdateScore(s: Score, src: Option<PileType>, dst: Option<PileType>, slideToDest: int): (r: Score)
    ensures GetCurrentScore(r) - GetCurrentScore(s) in {0, 5, 10}
    ensures InSync(r) && DisplayedValue(r.scoreText) == Some(r.currentScore)
    ensures dst == Some(FOUNDATION) && (src == Some(TABLEAU) || src == Some(DISCARD)) ==> GetCurrentScore(r) == GetCurrentScore(s) + 10
    ensures dst == Some(TABLEAU) && (src == Some(TABLEAU) || src == Some(DISCARD)) ==> GetCurrentScore(r) == GetCurrentScore(s) + 5
    ensures dst != Some(FOUNDATION) && dst != Some(TABLEAU) ==> GetCurrentScore(r) == GetCurrentScore(s)
    ensures src == Some(FOUNDATION) && dst == Some(TABLEAU) ==> GetCurrentScore(r) == GetCurrentScore(s)
    ensures src.None? ==> GetCurrentScore(r) == GetCurrentScore(s)
    ensures dst == Some(TABLEAU) && src != Some(TABLEAU) && src != Some(DISCARD) ==> GetCurrentScore(r) == GetCurrentScore(s)
    ensures dst == Some(FOUNDATION) && src.Some? && src != Some(TABLEAU) && src != Some(DISCARD) ==>
      GetCurrentScore(r) == GetCurrentScore(s) + (if slideToDest == 1 then 10 else 0)
  {
    var moveType := GetMoveType(src, dst, slideToDest);
    DisplayScore(AddScore(s, MovePoints(moveType)))
  }

  /**
   * `handleValidMove` passes the move type itself as `slideToDest`. That
   * quirk never changes the classification: feeding the type of a move back
   * in gives the same type.
   */
  lemma MoveTypeFeedback(src: Option<PileType>, dst: Option<PileType>)
    ensures GetMoveType(src, dst, GetMoveType(src, dst, 1)) == GetMoveType(src, dst, 1)
  {
  }

  /** The total the scores of a sequence of moves add up to. */
  function TotalPoints(moves: seq<(Option<PileType>, Option<PileType>, int)>): int {
    if moves == [] then 0
    else
      var last := moves[|moves| - 1];
      TotalPoints(moves[..|moves| - 1]) + MovePoints(GetMoveType(last.0, last.1, last.2))
  }

  function UpdateAll(s: Score, moves: seq<(Option<PileType>, Option<PileType>, int)>): Score {
    if moves == [] then s
    else
      var last := moves[|moves| - 1];
      UpdateScore(UpdateAll(s, moves[..|moves| - 1]), last.0, last.1, last.2)
  }

  /**
   * Scoring a sequence of moves adds their points to the starting value, and
   * the score never decreases along the way.
   */
  lemma {:induction false} UpdateAllAdds(s: Score, moves: seq<(Option<PileType>, Option<PileType>, int)>)
    ensures GetCurrentScore(UpdateAll(s, moves)) == GetCurrentScore(s) + TotalPoints(moves)
    ensures GetCurrentScore(UpdateAll(s, moves)) >= GetCurrentScore(s)
    ensures TotalPoints(moves) <= 10 * |moves|
  {
    if moves != [] {
      UpdateAllAdds(s, moves[..|moves| - 1]);
    }
  }
}
