/** The motions of day 9 of 2022 (rope bridge). 2022/day9_part1.rs and
    2022/day9_part2.rs declare the same `Dir`, `Point` and `get_move`;
    they are modelled once here. A motion line is a direction letter and a
    count separated by a space. */
module Day9Moves {
  import opened Results
  import opened TextNum

  const I32_MIN: int := -0x8000_0000
  const I32_MAX: int := 0x7FFF_FFFF

  datatype Dir = U | D | L | R

  datatype Point = Point(x: int, y: int)

  /** The letter that names a direction. */
  function Letter(d: Dir): string {
    match d
    case U => "U"
    case D => "D"
    case L => "L"
    case R => "R"
  }

  /** get_move: the line split at single spaces; the first piece is the
      direction and the second the count as an `i32`. A line with fewer
      than two pieces, a count that does not parse, or any other direction
      is a panic (None); pieces after the second are ignored. */
  function GetMove(line: string): (r: Option<(Dir, int)>)
    ensures r.Some? ==> |Split(line, ' ')| >= 2 && Split(line, ' ')[0] == Letter(r.value.0)
    ensures r.Some? ==> I32_MIN <= r.value.1 <= I32_MAX
  {
    var cmd := Split(line, ' ');
    if |cmd| < 2 then None
    else
      var cnt := ParseInt(cmd[1], I32_MIN, I32_MAX);
      if cnt.None? then None
      else if cmd[0] == "D" then Some((D, cnt.value))
      else if cmd[0] == "U" then Some((U, cnt.value))
      else if cmd[0] == "R" then Some((R, cnt.value))
      else if cmd[0] == "L" then Some((L, cnt.value))
      else None
  }

  /** The text of a motion. */
  function MoveLine(d: Dir, n: nat): string {
    Letter(d) + [' '] + Decimal(n)
  }

  /** Every motion with a count in the `i32` range reads back. */
  lemma GetMoveLine(d: Dir, n: nat)
    requires n <= I32_MAX
    ensures GetMove(MoveLine(d, n)) == Some((d, n))
  {
    DecimalNoSpace(n);
    SplitNone(Decimal(n), ' ');
    SplitAt(Letter(d), ' ', Decimal(n));
    ParseIntDecimal(n, I32_MIN, I32_MAX);
  }

  /** One unit step of a point in a direction: `U` is +1 on y, `R` +1 on x. */
  function Shift(p: Point, d: Dir): (q: Point)
    ensures (d == U || d == D) ==> q.x == p.x && (q.y - p.y == 1 || p.y - q.y == 1)
    ensures (d == L || d == R) ==> q.y == p.y && (q.x - p.x == 1 || p.x - q.x == 1)
  {
    match d
    case U => p.(y := p.y + 1)
    case D => p.(y := p.y - 1)
    case L => p.(x := p.x - 1)
    case R => p.(x := p.x + 1)
  }

  function Abs(v: int): int {
    if v < 0 then -v else v
  }

  /** Two knots are at most one unit apart on both axes. */
  predicate Touching(a: Point, b: Point) {
    Abs(a.x - b.x) <= 1 && Abs(a.y - b.y) <= 1
  }

  /** The (x, y) pair a move returns and the visited set holds. */
  function Pos(p: Point): (int, int) {
    (p.x, p.y)
  }
}
