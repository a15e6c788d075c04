/** Day 4 of 2022 (2022/day4.rs): camp cleanup. Each line holds two
    section ranges `a-b,c-d`; part 1 counts the pairs where one range
    contains the other, part 2 the pairs that overlap at all. A line
    without `,`, a range without `-`, or a bound that does not parse as an
    i32 makes the code panic; here that is the Err result. */
module Day4 {
  import opened Results
  import opened TextNum

  const I32_MIN: int := -0x8000_0000
  const I32_MAX: int := 0x7FFF_FFFF

  datatype Section = Section(start: int, end: int)

  datatype Malformed = Malformed(line: string)

  /** parse_section: split at the first `-`, parse both sides. */
  function ParseSection(range: string): Option<Section> {
    var halves := SplitOnce(range, '-');
    if halves.None? then None
    else
      var a := ParseInt(halves.value.0, I32_MIN, I32_MAX);
      var b := ParseInt(halves.value.1, I32_MIN, I32_MAX);
      if a.Some? && b.Some? then Some(Section(a.value, b.value)) else None
  }

  /** fully_overlap. */
  predicate FullyOverlap(p1: Section, p2: Section) {
    (p1.start <= p2.start && p1.end >= p2.end) || (p1.start >= p2.start && p1.end <= p2.end)
  }

  /** Part 2's test, as written: a bound of p1 lies inside p2, or one
      contains the other. */
  predicate Overlap(p1: Section, p2: Section) {
    || (p1.start >= p2.start && p1.start <= p2.end)
    || (p1.end >= p2.start && p1.end <= p2.end)
    || FullyOverlap(p1, p2)
  }

  /** The two sections of a line, or the line the code panics on. */
  function ParseLine(line: string): Result<(Section, Section), Malformed> {
    var pair := SplitOnce(line, ',');
    if pair.None? then Err(Malformed(line))
    else
      var p1 := ParseSection(pair.value.0);
      var p2 := ParseSection(pair.value.1);
      if p1.Some? && p2.Some? then Ok((p1.value, p2.value)) else Err(Malformed(line))
  }

  /** The test of part 1 (fully_overlap) or of part 2. */
  predicate Passes(p1: Section, p2: Section, part2: bool) {
    if part2 then Overlap(p1, p2) else FullyOverlap(p1, p2)
  }

  /** One line's contribution added to the count so far. */
  function Tally(sofar: Result<nat, Malformed>, parsed: Result<(Section, Section), Malformed>, part2: bool): Result<nat, Malformed> {
    match sofar
    case Err(e) => Err(e)
    case Ok(n) =>
      match parsed
      case Err(e) => Err(e)
      case Ok(pair) => Ok(n + if Passes(pair.0, pair.1, part2) then 1 else 0)
  }

  /** The number of lines whose pair passes the test, or the first line the
      code panics on. */
  function CountPairs(lines: seq<string>, part2: bool): Result<nat, Malformed> {
    if lines == [] then Ok(0)
    else Tally(CountPairs(lines[..|lines| - 1], part2), ParseLine(lines[|lines| - 1]), part2)
  }

  /** The loop body for one parsed line: the count grows by one when the
      pair passes, and a malformed line is the panic. */
  method CountLine(ans: nat, parsed: Result<(Section, Section), Malformed>, part2: bool) returns (r: Result<nat, Malformed>)
    ensures parsed.Err? ==> r == Err(parsed.error)
    ensures parsed.Ok? ==> r.Ok? && (r.value == ans + 1 <==> Passes(parsed.value.0, parsed.value.1, part2))
    ensures r == Tally(Ok(ans), parsed, part2)
  {
    if parsed.Err? {
      return Err(parsed.error);
    }
    var pair := parsed.value;
    if Passes(pair.0, pair.1, part2) {
      r := Ok(ans + 1);
    } else {
      r := Ok(ans);
    }
  }

  /** part1 (part2 = false) and part2 (part2 = true): the loop over the
      lines, stopping at the first malformed one. */
  method Count(lines: seq<string>, part2: bool) returns (r: Result<nat, Malformed>)
    ensures r == CountPairs(lines, part2)
  {
    var ans := 0;
    for i := 0 to |lines|
      invariant CountPairs(lines[..i], part2) == Ok(ans)
    {
      assert lines[..i + 1][..i] == lines[..i];
      var step := CountLine(ans, ParseLine(lines[i]), part2);
      assert CountPairs(lines[..i + 1], part2) == step;
      if step.Err? {
        CountPairsErrUp(lines, i + 1, part2);
        return step;
      }
      ans := step.value;
    }
    assert lines[..|lines|] == lines;
    r := Ok(ans);
  }

  /** An error in a prefix stays the error of every longer prefix. */
  lemma {:induction false} CountPairsErrUp(lines: seq<string>, k: nat, part2: bool)
    requires k <= |lines| && CountPairs(lines[..k], part2).Err?
    ensures CountPairs(lines, part2) == CountPairs(lines[..k], part2)
    decreases |lines| - k
  {
    if k < |lines| {
      assert lines[..k + 1][..k] == lines[..k];
      CountPairsErrUp(lines, k + 1, part2);
    } else {
      assert lines[..k] == lines;
    }
  }

  predicate Contains(p: Section, x: int) {
    p.start <= x <= p.end
  }

  /** fully_overlap is symmetric and, for proper ranges, holds exactly when
      one range's sections all lie in the other. */
  lemma FullyOverlapMeaning(p1: Section, p2: Section)
    ensures FullyOverlap(p1, p2) == FullyOverlap(p2, p1)
    ensures p1.start <= p1.end && p2.start <= p2.end ==>
      (FullyOverlap(p1, p2) <==>
        (forall x :: Contains(p1, x) ==> Contains(p2, x)) ||
        (forall x :: Contains(p2, x) ==> Contains(p1, x)))
  {
    if p1.start <= p1.end && p2.start <= p2.end && !FullyOverlap(p1, p2) {
      if p1.start < p2.start {
        assert Contains(p1, p1.start) && !Contains(p2, p1.start);
        assert Contains(p2, p2.end) && !Contains(p1, p2.end);
      } else {
        assert Contains(p2, p2.start) && !Contains(p1, p2.start);
        assert Contains(p1, p1.end) && !Contains(p2, p1.end);
      }
    }
  }

  /** For proper ranges, part 2's test is the usual interval overlap test,
      and holds exactly when the ranges share a section. */
  lemma OverlapMeaning(p1: Section, p2: Section)
    requires p1.start <= p1.end && p2.start <= p2.end
    ensures Overlap(p1, p2) <==> p1.start <= p2.end && p2.start <= p1.end
    ensures Overlap(p1, p2) <==> exists x :: Contains(p1, x) && Contains(p2, x)
  {
    if p1.start <= p2.end && p2.start <= p1.end {
      var x := if p1.start < p2.start then p2.start else p1.start;
      assert Contains(p1, x) && Contains(p2, x);
    }
  }

  /** Every pair counted in part 1 is counted in part 2. */
  lemma {:induction false} Part1WithinPart2(lines: seq<string>)
    requires CountPairs(lines, true).Ok?
    ensures CountPairs(lines, false).Ok?
    ensures CountPairs(lines, false).value <= CountPairs(lines, true).value
  {
    if lines != [] {
      Part1WithinPart2(lines[..|lines| - 1]);
    }
  }

  /** A line without `,` makes the code panic. */
  lemma NoComma(line: string)
    requires ',' !in line
    ensures ParseLine(line).Err?
  {
    SplitOnceProps(line, ',');
  }

  /** `a-b` with a and b written in decimal is the range [a, b]. */
  lemma ParseSectionDecimal(a: nat, b: nat)
    requires a <= I32_MAX && b <= I32_MAX
    ensures ParseSection(Decimal(a) + "-" + Decimal(b)) == Some(Section(a, b))
  {
    var s := Decimal(a) + "-" + Decimal(b);
    DecimalProps(a);
    DecimalProps(b);
    var d := Decimal(a);
    forall k | 0 <= k < |d|
      ensures d[k] != '-'
    {
      assert IsDigit(d[k]);
    }
    SplitOnceAt(Decimal(a), '-', Decimal(b));
    ParseIntDecimal(a, I32_MIN, I32_MAX);
    ParseIntDecimal(b, I32_MIN, I32_MAX);
  }
}
