/** Day 2 of 2022 (2022/day2.rs): rock paper scissors scoring. Each line
    holds the opponent's shape (A rock, B paper, C scissors) and a second
    letter: in part 1 your shape (X rock, Y paper, Z scissors), in part 2
    the outcome to reach (X lose, Y draw, Z win). */
module Day2 {
  import opened TextNum

  /** get_move_value: X scores 1, Y 2, anything else 3. */
  function MoveScore(yours: string): (r: int)
    ensures 1 <= r <= 3
    ensures r == 1 <==> yours == "X"
    ensures r == 2 <==> yours == "Y"
  {
    if yours == "X" then 1 else if yours == "Y" then 2 else 3
  }

  predicate YouWin(yours: string, opponent: string) {
    || (yours == "Y" && opponent == "A")
    || (yours == "X" && opponent == "C")
    || (yours == "Z" && opponent == "B")
  }

  predicate IsEqual(yours: string, opponent: string) {
    || (yours == "X" && opponent == "A")
    || (yours == "Y" && opponent == "B")
    || (yours == "Z" && opponent == "C")
  }

  /** move_value: the value of the shape that beats the opponent's
      (should_win) or that the opponent's beats; any opponent letter other
      than A and B is treated as C. */
  function ShapeFor(opponent: string, shouldWin: bool): int {
    if opponent == "A" then (if shouldWin then 2 else 3)
    else if opponent == "B" then (if shouldWin then 3 else 1)
    else (if shouldWin then 1 else 2)
  }

  /** draw_move_value: the value of the opponent's own shape. */
  function DrawShape(opponent: string): int {
    if opponent == "A" then 1 else if opponent == "B" then 2 else 3
  }

  /** The score of one part-1 round: the shape, plus 3 for a draw or 6 for
      a win. */
  function RoundScore(opponent: string, yours: string): int {
    MoveScore(yours) + if IsEqual(yours, opponent) then 3 else if YouWin(yours, opponent) then 6 else 0
  }

  /** The score of one part-2 round, by the outcome letter. */
  function OutcomeScore(opponent: string, outcome: string): int {
    if outcome == "Z" then 6 + ShapeFor(opponent, true)
    else if outcome == "Y" then 3 + DrawShape(opponent)
    else if outcome == "X" then ShapeFor(opponent, false)
    else 0
  }

  /** Every line has at least the two letters the code indexes. */
  predicate WellFormed(lines: seq<string>) {
    forall i | 0 <= i < |lines| :: |Words(lines[i])| >= 2
  }

  function Part1Score(lines: seq<string>): int
    requires WellFormed(lines)
  {
    if lines == [] then 0
    else
      var text := Words(lines[|lines| - 1]);
      Part1Score(lines[..|lines| - 1]) + RoundScore(text[0], text[1])
  }

  function Part2Score(lines: seq<string>): int
    requires WellFormed(lines)
  {
    if lines == [] then 0
    else
      var text := Words(lines[|lines| - 1]);
      Part2Score(lines[..|lines| - 1]) + OutcomeScore(text[0], text[1])
  }

  method Part1(lines: seq<string>) returns (score: int)
    requires WellFormed(lines)
    ensures score == Part1Score(lines)
  {
    score := 0;
    for i := 0 to |lines|
      invariant score == Part1Score(lines[..i])
    {
      assert lines[..i + 1][..i] == lines[..i];
      var text := Words(lines[i]);
      var opponent, yours := text[0], text[1];
      score := score + MoveScore(yours);
      if IsEqual(yours, opponent) {
        score := score + 3;
      } else if YouWin(yours, opponent) {
        score := score + 6;
      }
    }
    assert lines[..|lines|] == lines;
  }

  method Part2(lines: seq<string>) returns (score: int)
    requires WellFormed(lines)
    ensures score == Part2Score(lines)
  {
    score := 0;
    for i := 0 to |lines|
      invariant score == Part2Score(lines[..i])
    {
      assert lines[..i + 1][..i] == lines[..i];
      var text := Words(lines[i]);
      var opponent, outcome := text[0], text[1];
      if outcome == "Z" {
        score := score + 6;
        score := score + ShapeFor(opponent, true);
      } else if outcome == "Y" {
        score := score + 3;
        score := score + DrawShape(opponent);
      } else if outcome == "X" {
        score := score + ShapeFor(opponent, false);
      }
    }
    assert lines[..|lines|] == lines;
  }

  predicate IsShape(yours: string) {
    yours == "X" || yours == "Y" || yours == "Z"
  }

  predicate IsOpponent(opponent: string) {
    opponent == "A" || opponent == "B" || opponent == "C"
  }

  /** A round is never both a draw and a win. */
  lemma DrawNotWin(yours: string, opponent: string)
    ensures !(IsEqual(yours, opponent) && YouWin(yours, opponent))
  {
  }

  /** Against a real opponent shape, move_value(opp, true) is the value of
      exactly the shape that wins, move_value(opp, false) of exactly the
      shape that loses, and draw_move_value of exactly the shape that
      draws. */
  lemma ShapeChoices(opponent: string, yours: string)
    requires IsOpponent(opponent) && IsShape(yours)
    ensures YouWin(yours, opponent) <==> MoveScore(yours) == ShapeFor(opponent, true)
    ensures IsEqual(yours, opponent) <==> MoveScore(yours) == DrawShape(opponent)
    ensures !YouWin(yours, opponent) && !IsEqual(yours, opponent)
      <==> MoveScore(yours) == ShapeFor(opponent, false)
  {
  }

  /** Part 2 scores a round as part 1 would score the shape that reaches
      the requested outcome. */
  lemma OutcomeAsRound(opponent: string, outcome: string)
    requires IsOpponent(opponent) && IsShape(outcome)
    ensures exists yours | IsShape(yours) ::
      && OutcomeScore(opponent, outcome) == RoundScore(opponent, yours)
      && (outcome == "Z" <==> YouWin(yours, opponent))
      && (outcome == "Y" <==> IsEqual(yours, opponent))
  {
    var ys := ["X", "Y", "Z"];
    var picks := [ShapeFor(opponent, false), DrawShape(opponent), ShapeFor(opponent, true)];
    var k := if outcome == "X" then 0 else if outcome == "Y" then 1 else 2;
    var yours := ys[picks[k] - 1];
    assert MoveScore(yours) == picks[k];
    ShapeChoices(opponent, yours);
  }

  /** Each part-1 round scores between 1 and 9, so the total lies between
      the number of rounds and nine times it. */
  lemma {:induction false} Part1Bounds(lines: seq<string>)
    requires WellFormed(lines)
    ensures |lines| <= Part1Score(lines) <= 9 * |lines|
  {
    if lines != [] {
      Part1Bounds(lines[..|lines| - 1]);
    }
  }
}
