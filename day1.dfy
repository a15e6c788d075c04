/** Day 1 of 2022 (2022/day1.rs): calorie counting. Lines that parse as an
    i32 add to the current elf's total; any other line (the blank line
    between elves) closes the group. The totals are sorted in descending
    order; part 1 is the largest and part 2 the sum of the first three. */
module Day1 {
  import opened Results
  import opened TextNum
  import opened Sorting

  const I32_MIN: int := -0x8000_0000
  const I32_MAX: int := 0x7FFF_FFFF

  /** `line.parse::<i32>()`. */
  function Calories(line: string): Option<int> {
    ParseInt(line, I32_MIN, I32_MAX)
  }

  /** The closed totals and the running total after reading the lines. */
  function Scan(lines: seq<string>): (seq<int>, int) {
    if lines == [] then ([], 0)
    else
      var (closed, current) := Scan(lines[..|lines| - 1]);
      match Calories(lines[|lines| - 1])
      case Some(v) => (closed, current + v)
      case None => (closed + [current], 0)
  }

  /** The group totals: the closed ones, then the last group's. */
  function Totals(lines: seq<string>): seq<int> {
    Scan(lines).0 + [Scan(lines).1]
  }

  /** The number of lines that do not parse, each of which closes a group. */
  function Separators(lines: seq<string>): nat {
    if lines == [] then 0
    else Separators(lines[..|lines| - 1]) + (if Calories(lines[|lines| - 1]).None? then 1 else 0)
  }

  /** The sum of the lines that parse. */
  function CalorieSum(lines: seq<string>): int {
    if lines == [] then 0
    else
      CalorieSum(lines[..|lines| - 1]) +
      match Calories(lines[|lines| - 1])
      case Some(v) => v
      case None => 0
  }

  /** The loop over the lines, with the final push. */
  method GroupTotals(lines: seq<string>) returns (calories: seq<int>)
    ensures calories == Totals(lines)
  {
    var current := 0;
    calories := [];
    for i := 0 to |lines|
      invariant (calories, current) == Scan(lines[..i])
    {
      assert lines[..i + 1][..i] == lines[..i];
      match Calories(lines[i])
      case Some(v) =>
        current := current + v;
      case None =>
        calories := calories + [current];
        current := 0;
    }
    assert lines[..|lines|] == lines;
    calories := calories + [current];
  }

  /** Both answers: the largest total, and the sum of the (at most) three
      largest, read off the descending sort. */
  method Solve(lines: seq<string>) returns (part1: int, part2: int)
    ensures part1 in Totals(lines)
    ensures forall k | 0 <= k < |Totals(lines)| :: Totals(lines)[k] <= part1
    ensures var sorted := SortDesc(Totals(lines));
      part2 == Sum(sorted[..if |sorted| < 3 then |sorted| else 3])
  {
    var calories := GroupTotals(lines);
    calories := SortDesc(calories);
    SortDescHead(Totals(lines));
    part1 := calories[0];
    var top := if |calories| < 3 then |calories| else 3;
    part2 := Sum(calories[..top]);
  }

  /** There is one group more than there are separating lines, and the
      groups together hold every calorie. */
  lemma {:induction false} TotalsProps(lines: seq<string>)
    ensures |Scan(lines).0| == Separators(lines)
    ensures Sum(Scan(lines).0) + Scan(lines).1 == CalorieSum(lines)
  {
    if lines != [] {
      var init := lines[..|lines| - 1];
      TotalsProps(init);
      var (closed, current) := Scan(init);
      SumSnoc(closed, current);
    }
  }

  lemma {:induction false} SumSnoc(s: seq<int>, x: int)
    ensures Sum(s + [x]) == Sum(s) + x
  {
    if s != [] {
      assert (s + [x])[1..] == s[1..] + [x];
      SumSnoc(s[1..], x);
    }
  }

  /** The totals count one group per separator plus the last, and sum to
      all the calories listed. */
  lemma TotalsCount(lines: seq<string>)
    ensures |Totals(lines)| == Separators(lines) + 1
    ensures Sum(Totals(lines)) == CalorieSum(lines)
  {
    TotalsProps(lines);
    SumSnoc(Scan(lines).0, Scan(lines).1);
  }

  /** Part 2 adds the largest totals: every total outside the first three
      of the sorted order is bounded by each of them. */
  lemma TopThree(lines: seq<string>, k: nat, j: nat)
    requires k < 3 && 3 <= j < |Totals(lines)|
    ensures SortDesc(Totals(lines))[k] >= SortDesc(Totals(lines))[j]
  {
    SortDescPrefix(Totals(lines), k, j);
  }
}
