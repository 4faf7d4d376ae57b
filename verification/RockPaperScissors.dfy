/**
 * 2022 day 2: a strategy guide of rock-paper-scissors rounds.  Part 1 reads
 * the second column as the shape to play, part 2 as the outcome to reach;
 * a round scores its shape (1, 2, 3) plus its outcome (0, 3, 6).
 */
module RockPaperScissors {
  import opened Common

  datatype Shape = Rock | Paper | Scissor
  datatype GameResult = Win | Draw | Lose

  predicate IsRock(ch: char) { ch == 'A' || ch == 'X' }
  predicate IsPaper(ch: char) { ch == 'B' || ch == 'Y' }
  predicate IsScissor(ch: char) { ch == 'C' || ch == 'Z' }

  /** The characters the move functions handle; any other falls off their end. */
  predicate IsMove(ch: char)
  {
    IsRock(ch) || IsPaper(ch) || IsScissor(ch)
  }

  function ShapeOf(ch: char): Shape
    requires IsMove(ch)
  {
    if IsRock(ch) then Rock else if IsPaper(ch) then Paper else Scissor
  }

  /** The result of a round for the second player, which the cyclic rule decides. */
  function GetSingleMoveResult(ch1: char, ch2: char): (r: GameResult)
    requires IsMove(ch1) && IsMove(ch2)
    ensures r == Versus(ShapeOf(ch1), ShapeOf(ch2))
  {
    if IsRock(ch1) then
      if IsRock(ch2) then Draw else if IsPaper(ch2) then Win else Lose
    else if IsPaper(ch1) then
      if IsRock(ch2) then Lose else if IsPaper(ch2) then Draw else Win
    else
      if IsRock(ch2) then Win else if IsPaper(ch2) then Lose else Draw
  }

  /** The shape played to reach `result` against the opponent's move. */
  function MoveForRoundTo(opponent: char, result: GameResult): (s: Shape)
    requires IsMove(opponent)
    ensures Versus(ShapeOf(opponent), s) == result
  {
    match result
      case Win => if IsRock(opponent) then Paper else if IsPaper(opponent) then Scissor else Rock
      case Draw => if IsRock(opponent) then Rock else if IsPaper(opponent) then Paper else Scissor
      case Lose => if IsRock(opponent) then Scissor else if IsPaper(opponent) then Rock else Paper
  }

  // ---------------------------------------------------------------------
  // Reference: the cyclic order of the shapes

  /** Rock 0, paper 1, scissors 2: each shape beats the one before it, cyclically. */
  function Rank(s: Shape): nat
  {
    match s
      case Rock => 0
      case Paper => 1
      case Scissor => 2
  }

  /** The second shape's result against the first, from the cyclic order. */
  function Versus(first: Shape, second: Shape): GameResult
  {
    var d := (Rank(second) - Rank(first)) % 3;
    if d == 0 then Draw else if d == 1 then Win else Lose
  }

  function Opposite(r: GameResult): GameResult
  {
    match r
      case Win => Lose
      case Draw => Draw
      case Lose => Win
  }

  /** The program's table is the cyclic rule: equal shapes draw and each shape beats the one before it. */
  lemma GetSingleMoveResultIsCyclic(ch1: char, ch2: char)
    requires IsMove(ch1) && IsMove(ch2)
    ensures GetSingleMoveResult(ch1, ch2) == Versus(ShapeOf(ch1), ShapeOf(ch2))
  {
  }

  /** Swapping the players swaps win and loss. */
  lemma ResultAntisymmetric(ch1: char, ch2: char)
    requires IsMove(ch1) && IsMove(ch2)
    ensures GetSingleMoveResult(ch2, ch1) == Opposite(GetSingleMoveResult(ch1, ch2))
  {
  }

  /** The chosen shape reaches exactly the requested result, and is the only shape that does. */
  lemma MoveForRoundToReaches(opponent: char, result: GameResult)
    requires IsMove(opponent)
    ensures Versus(ShapeOf(opponent), MoveForRoundTo(opponent, result)) == result
    ensures forall s: Shape :: Versus(ShapeOf(opponent), s) == result ==> s == MoveForRoundTo(opponent, result)
  {
  }

  // ---------------------------------------------------------------------
  // Scores

  function ShapeScore(s: Shape): nat
  {
    Rank(s) + 1
  }

  function OutcomeScore(r: GameResult): nat
  {
    match r
      case Lose => 0
      case Draw => 3
      case Win => 6
  }

  /** The shape table of part 1: only X, Y and Z are in it, so `.at` throws on anything else. */
  function CharToShape(ch: char): Option<Shape>
  {
    if ch == 'X' then Some(Rock) else if ch == 'Y' then Some(Paper) else if ch == 'Z' then Some(Scissor) else None
  }

  /** The outcome table of part 2: X loses, Y draws, Z wins. */
  function NeededOutcome(ch: char): Option<GameResult>
  {
    if ch == 'X' then Some(Lose) else if ch == 'Y' then Some(Draw) else if ch == 'Z' then Some(Win) else None
  }

  /** The part 1 score of a round, `None` when the table lookup throws. */
  function RoundScore1(opponent: char, mine: char): (r: Option<int>)
    requires IsMove(opponent) && IsMove(mine)
    ensures r.Some? <==> mine in "XYZ"
    ensures r.Some? ==> 1 <= r.value <= 9
  {
    match CharToShape(mine)
      case None => None
      case Some(s) => Some(ShapeScore(s) + OutcomeScore(GetSingleMoveResult(opponent, mine)))
  }

  /** The part 2 score of a round, `None` when the table lookup throws. */
  function RoundScore2(opponent: char, needed: char): (r: Option<int>)
    requires IsMove(opponent)
    ensures r.Some? <==> needed in "XYZ"
    ensures r.Some? ==> 1 <= r.value <= 9
  {
    match NeededOutcome(needed)
      case None => None
      case Some(o) => Some(OutcomeScore(o) + ShapeScore(MoveForRoundTo(opponent, o)))
  }

  /** The score in part 2 is the score of playing the chosen shape in part 1's terms. */
  lemma RoundScore2IsPlayedShape(opponent: char, needed: char)
    requires IsMove(opponent) && needed in "XYZ"
    ensures var o := NeededOutcome(needed).value; var s := MoveForRoundTo(opponent, o);
      RoundScore2(opponent, needed).value == ShapeScore(s) + OutcomeScore(Versus(ShapeOf(opponent), s))
  {
    MoveForRoundToReaches(opponent, NeededOutcome(needed).value);
  }

  /** A round's two columns. */
  datatype Round = Round(left: char, right: char)

  predicate Readable(rounds: seq<Round>)
  {
    forall k :: 0 <= k < |rounds| ==> IsMove(rounds[k].left) && IsMove(rounds[k].right)
  }

  /** Part 1's total, `None` as soon as one round throws. */
  function TotalScore1(rounds: seq<Round>): (r: Option<int>)
    requires Readable(rounds)
    ensures r.Some? ==> |rounds| <= r.value <= 9 * |rounds|
  {
    if |rounds| == 0 then Some(0)
    else match (RoundScore1(rounds[0].left, rounds[0].right), TotalScore1(rounds[1..]))
      case (Some(a), Some(b)) => Some(a + b)
      case _ => None
  }

  /** Part 2's total, `None` as soon as one round throws. */
  function TotalScore2(rounds: seq<Round>): (r: Option<int>)
    requires forall k :: 0 <= k < |rounds| ==> IsMove(rounds[k].left)
    ensures r.Some? ==> |rounds| <= r.value <= 9 * |rounds|
  {
    if |rounds| == 0 then Some(0)
    else match (RoundScore2(rounds[0].left, rounds[0].right), TotalScore2(rounds[1..]))
      case (Some(a), Some(b)) => Some(a + b)
      case _ => None
  }
}
