/** Day 9 of 2022, part 2 (2022/day9_part2.rs): a rope of ten knots held
    in an array. A unit step moves knot 0; then each knot from 1 on,
    while the previous one moved, follows its predecessor when it is more
    than one unit away on some axis, stepping one unit toward it on the
    far axis and on the other axis when they differ there. The answer is
    the number of positions knot 9 visits. */
module Day9Part2 {
  import opened Results
  import opened Day9Moves

  const KNOTS: nat := 10

  /** `if d > 0 { 1 } else { -1 }`. */
  function Toward(d: int): int {
    if d > 0 then 1 else -1
  }

  /** The nonzero part of a difference's sign: -1, 0 or 1. */
  function Sign(d: int): int {
    if d > 0 then 1 else if d < 0 then -1 else 0
  }

  /** Whether traverse_knot moves a knot behind `lead`. */
  predicate Moves(lead: Point, knot: Point) {
    Abs(lead.x - knot.x) > 1 || Abs(lead.y - knot.y) > 1
  }

  /** The knot's new position in traverse_knot's two branches. */
  function KnotStep(lead: Point, knot: Point): Point {
    var dx := lead.x - knot.x;
    var dy := lead.y - knot.y;
    if Abs(dx) > 1 then
      Point(knot.x + Toward(dx), if Abs(dy) != 0 then knot.y + Toward(dy) else knot.y)
    else if Abs(dy) > 1 then
      Point(if Abs(dx) != 0 then knot.x + Toward(dx) else knot.x, knot.y + Toward(dy))
    else knot
  }

  /** traverse_knot(idx) on values: knot idx follows knot idx - 1, and the
      walk goes on to the next knot only if it moved. */
  function Follow(k: seq<Point>, idx: nat): (r: seq<Point>)
    requires |k| == KNOTS && 1 <= idx
    ensures |r| == KNOTS
    decreases KNOTS - idx
  {
    if idx > 9 then k
    else if Moves(k[idx - 1], k[idx]) then Follow(k[idx := KnotStep(k[idx - 1], k[idx])], idx + 1)
    else k
  }

  /** move_rope on values. */
  function StepRope(k: seq<Point>, d: Dir): (r: seq<Point>)
    requires |k| == KNOTS
    ensures |r| == KNOTS
  {
    Follow(k[0 := Shift(k[0], d)], 1)
  }

  class Rope {
    var points: array<Point>

    /** Rope::new(): ten knots at (0, 0). */
    constructor ()
      ensures fresh(points) && points.Length == KNOTS
      ensures forall i | 0 <= i < KNOTS :: points[i] == Point(0, 0)
    {
      points := new Point[KNOTS](_ => Point(0, 0));
    }

    /** cal_dist: knot idx1's position minus knot idx2's. */
    function CalDist(idx1: nat, idx2: nat): (dist: Point)
      reads this, points
      requires idx1 < points.Length && idx2 < points.Length
      ensures points[idx2].x + dist.x == points[idx1].x && points[idx2].y + dist.y == points[idx1].y
    {
      Point(points[idx1].x - points[idx2].x, points[idx1].y - points[idx2].y)
    }

    /** traverse_knot. */
    method TraverseKnot(idx: nat, d: Dir)
      requires points.Length == KNOTS && 1 <= idx
      modifies points
      ensures points[..] == Follow(old(points[..]), idx)
      decreases KNOTS - idx
    {
      if idx > 9 {
        return;
      }
      ghost var k := points[..];
      var dist := CalDist(idx - 1, idx);
      var isMoved := false;
      if Abs(dist.x) > 1 {
        points[idx] := points[idx].(x := points[idx].x + if dist.x > 0 then 1 else -1);
        if Abs(dist.y) != 0 {
          points[idx] := points[idx].(y := points[idx].y + if dist.y > 0 then 1 else -1);
        }
        isMoved := true;
      } else if Abs(dist.y) > 1 {
        points[idx] := points[idx].(y := points[idx].y + if dist.y > 0 then 1 else -1);
        if Abs(dist.x) != 0 {
          points[idx] := points[idx].(x := points[idx].x + if dist.x > 0 then 1 else -1);
        }
        isMoved := true;
      }
      assert isMoved == Moves(k[idx - 1], k[idx]);
      assert isMoved ==> points[..] == k[idx := KnotStep(k[idx - 1], k[idx])];
      assert !isMoved ==> points[..] == k;
      if isMoved {
        TraverseKnot(idx + 1, d);
      }
    }

    /** move_rope: one unit step of knot 0, the others following; returns
        knot 9's position. */
    method MoveRope(d: Dir) returns (t: (int, int))
      requires points.Length == KNOTS
      modifies points
      ensures points[..] == StepRope(old(points[..]), d)
      ensures t == Pos(points[9])
    {
      ghost var k := points[..];
      match d {
        case U =>
          points[0] := points[0].(y := points[0].y + 1);
        case D =>
          points[0] := points[0].(y := points[0].y - 1);
        case L =>
          points[0] := points[0].(x := points[0].x - 1);
        case R =>
          points[0] := points[0].(x := points[0].x + 1);
      }
      assert points[..] == k[0 := Shift(k[0], d)];
      TraverseKnot(1, d);
      return Pos(points[9]);
    }
  }

  // ---------------------------------------------------------------------
  // Properties of a step

  /** A knot that moves steps one unit toward its predecessor on every
      axis where they differ. */
  lemma KnotStepMeaning(lead: Point, knot: Point)
    ensures KnotStep(lead, knot) ==
      if Moves(lead, knot) then Point(knot.x + Sign(lead.x - knot.x), knot.y + Sign(lead.y - knot.y)) else knot
  {
  }

  /** Knots before idx never change. */
  lemma {:induction false} FollowKeeps(k: seq<Point>, idx: nat, j: nat)
    requires |k| == KNOTS && 1 <= idx && j < idx && j < KNOTS
    ensures Follow(k, idx)[j] == k[j]
    decreases KNOTS - idx
  {
    if idx <= 9 && Moves(k[idx - 1], k[idx]) {
      FollowKeeps(k[idx := KnotStep(k[idx - 1], k[idx])], idx + 1, j);
    }
  }

  /** Once a knot keeps its place, so does every later knot. */
  lemma {:induction false} FollowStops(k: seq<Point>, idx: nat, j: nat)
    requires |k| == KNOTS && 1 <= idx <= j < KNOTS
    requires Follow(k, idx)[j] == k[j]
    ensures forall i | j <= i < KNOTS :: Follow(k, idx)[i] == k[i]
    decreases KNOTS - idx
  {
    if idx <= 9 && Moves(k[idx - 1], k[idx]) {
      var k' := k[idx := KnotStep(k[idx - 1], k[idx])];
      if j == idx {
        FollowKeeps(k', idx + 1, idx);
        KnotStepMeaning(k[idx - 1], k[idx]);
        assert false;
      } else {
        FollowStops(k', idx + 1, j);
      }
    }
  }

  /** move_rope moves knot 0 by exactly one unit in the direction. */
  lemma HeadStep(k: seq<Point>, d: Dir)
    requires |k| == KNOTS
    ensures StepRope(k, d)[0] == Shift(k[0], d)
  {
    FollowKeeps(k[0 := Shift(k[0], d)], 1, 0);
  }

  /** Every adjacent pair of knots within one unit on both axes. */
  predicate AllTouching(k: seq<Point>)
    requires |k| == KNOTS
  {
    forall i | 1 <= i < KNOTS :: Touching(k[i - 1], k[i])
  }

  /** The knot behind a lead that moved at most one unit on each axis from
      a place touching the knot ends up touching the lead, after moving at
      most one unit on each axis itself. */
  lemma CatchUp(was: Point, lead: Point, knot: Point)
    requires Touching(was, knot) && Touching(was, lead)
    ensures Touching(lead, KnotStep(lead, knot))
    ensures Touching(knot, KnotStep(lead, knot))
  {
  }

  lemma {:induction false} FollowTouching(k: seq<Point>, idx: nat, was: Point)
    requires |k| == KNOTS && 1 <= idx <= KNOTS
    requires forall i | 1 <= i < idx :: Touching(k[i - 1], k[i])
    requires forall i | idx < i < KNOTS :: Touching(k[i - 1], k[i])
    requires idx < KNOTS ==> Touching(was, k[idx]) && Touching(was, k[idx - 1])
    ensures AllTouching(Follow(k, idx))
    decreases KNOTS - idx
  {
    if idx <= 9 {
      if Moves(k[idx - 1], k[idx]) {
        CatchUp(was, k[idx - 1], k[idx]);
        var k' := k[idx := KnotStep(k[idx - 1], k[idx])];
        FollowTouching(k', idx + 1, k[idx]);
      }
    }
  }

  /** A rope whose adjacent knots touch keeps them touching. */
  lemma StepTouching(k: seq<Point>, d: Dir)
    requires |k| == KNOTS && AllTouching(k)
    ensures AllTouching(StepRope(k, d))
  {
    FollowTouching(k[0 := Shift(k[0], d)], 1, k[0]);
  }

  // ---------------------------------------------------------------------
  // The visited set

  /** `for _ in 0..cnt`: n unit steps (none when n <= 0), each adding knot
      9 to the visited set. */
  function Repeat(k: seq<Point>, pos: set<(int, int)>, d: Dir, n: int): (r: (seq<Point>, set<(int, int)>))
    requires |k| == KNOTS
    ensures |r.0| == KNOTS
    decreases if n < 0 then 0 else n
  {
    if n <= 0 then (k, pos)
    else
      var (k', pos') := Repeat(k, pos, d, n - 1);
      var next := StepRope(k', d);
      (next, pos' + {Pos(next[9])})
  }

  function Start(): (k: seq<Point>)
    ensures |k| == KNOTS
  {
    seq(KNOTS, _ => Point(0, 0))
  }

  /** The knots and the visited set after the lines, from all knots and the
      set at (0, 0); None at a line get_move rejects. */
  function Run(lines: seq<string>): (r: Option<(seq<Point>, set<(int, int)>)>)
    ensures r.Some? ==> |r.value.0| == KNOTS
  {
    if lines == [] then Some((Start(), {(0, 0)}))
    else
      var prev := Run(lines[..|lines| - 1]);
      var m := GetMove(lines[|lines| - 1]);
      if prev.None? || m.None? then None
      else Some(Repeat(prev.value.0, prev.value.1, m.value.0, m.value.1))
  }

  lemma {:induction false} RunNoneUp(lines: seq<string>, k: nat)
    requires k <= |lines| && Run(lines[..k]).None?
    ensures Run(lines).None?
    decreases |lines| - k
  {
    if k < |lines| {
      assert lines[..k + 1][..k] == lines[..k];
      RunNoneUp(lines, k + 1);
    } else {
      assert lines[..k] == lines;
    }
  }

  /** The program: the number of positions knot 9 visits, None on a
      panic. */
  method Solve(lines: seq<string>) returns (r: Option<nat>)
    ensures r.Some? <==> Run(lines).Some?
    ensures r.Some? ==> r.value == |Run(lines).value.1|
  {
    var pos := {(0, 0)};
    var rope := new Rope();
    assert rope.points[..] == Start();
    ghost var knots := rope.points;
    for i := 0 to |lines|
      invariant rope.points == knots && knots.Length == KNOTS
      invariant Run(lines[..i]) == Some((rope.points[..], pos))
    {
      assert lines[..i + 1][..i] == lines[..i];
      var m := GetMove(lines[i]);
      if m.None? {
        RunNoneUp(lines, i + 1);
        return None;
      }
      var (dir, cnt) := m.value;
      pos := Steps(rope, pos, dir, cnt);
    }
    assert lines[..|lines|] == lines;
    return Some(|pos|);
  }

  /** The `for _ in 0..cnt` loop of `main`. */
  method Steps(rope: Rope, pos: set<(int, int)>, dir: Dir, cnt: int) returns (pos': set<(int, int)>)
    requires rope.points.Length == KNOTS
    modifies rope.points
    ensures (rope.points[..], pos') == Repeat(old(rope.points[..]), pos, dir, cnt)
  {
    pos' := pos;
    ghost var start := rope.points[..];
    // `0..cnt` is empty when cnt is not positive.
    var n: nat := if cnt < 0 then 0 else cnt;
    var k := 0;
    while k < n
      invariant 0 <= k <= n
      invariant rope.points.Length == KNOTS
      invariant (rope.points[..], pos') == Repeat(start, pos, dir, k)
    {
      pos' := StepOnce(rope, pos', dir, start, pos, k);
      k := k + 1;
    }
  }

  /** One pass of the `for _ in 0..cnt` body: move the rope, record knot 9. */
  method StepOnce(rope: Rope, pos: set<(int, int)>, dir: Dir, ghost start: seq<Point>, ghost pos0: set<(int, int)>, ghost n: nat)
    returns (pos': set<(int, int)>)
    requires rope.points.Length == KNOTS && |start| == KNOTS
    requires (rope.points[..], pos) == Repeat(start, pos0, dir, n)
    modifies rope.points
    ensures (rope.points[..], pos') == Repeat(start, pos0, dir, n + 1)
  {
    var t := rope.MoveRope(dir);
    pos' := pos + {t};
  }

  /** Unit steps keep the knots touching, keep every visited position, and
      add knot 9's. */
  lemma RepeatProps(k: seq<Point>, pos: set<(int, int)>, d: Dir, n: int)
    requires |k| == KNOTS && AllTouching(k) && Pos(k[9]) in pos
    ensures var (k', pos') := Repeat(k, pos, d, n);
      AllTouching(k') && pos <= pos' && Pos(k'[9]) in pos'
  {
    RepeatTouching(k, pos, d, n);
    RepeatGrows(k, pos, d, n);
    RepeatHasLast(k, pos, d, n);
  }

  lemma {:induction false} RepeatTouching(k: seq<Point>, pos: set<(int, int)>, d: Dir, n: int)
    requires |k| == KNOTS && AllTouching(k)
    ensures AllTouching(Repeat(k, pos, d, n).0)
    decreases if n < 0 then 0 else n
  {
    if n > 0 {
      RepeatTouching(k, pos, d, n - 1);
      RepeatStepTouching(k, pos, d, n);
    }
  }

  /** The n-th step keeps the knots touching. */
  lemma RepeatStepTouching(k: seq<Point>, pos: set<(int, int)>, d: Dir, n: int)
    requires |k| == KNOTS && n > 0
    requires AllTouching(Repeat(k, pos, d, n - 1).0)
    ensures AllTouching(Repeat(k, pos, d, n).0)
  {
    var (k1, pos1) := Repeat(k, pos, d, n - 1);
    StepTouching(k1, d);
  }

  /** The visited set only grows. */
  lemma RepeatGrows(k: seq<Point>, pos: set<(int, int)>, d: Dir, n: int)
    requires |k| == KNOTS
    ensures pos <= Repeat(k, pos, d, n).1
  {
    forall p | p in pos
      ensures p in Repeat(k, pos, d, n).1
    {
      RepeatKeeps(k, pos, d, n, p);
    }
  }

  lemma {:induction false} RepeatKeeps(k: seq<Point>, pos: set<(int, int)>, d: Dir, n: int, p: (int, int))
    requires |k| == KNOTS && p in pos
    ensures p in Repeat(k, pos, d, n).1
    decreases if n < 0 then 0 else n
  {
    if n > 0 {
      RepeatKeeps(k, pos, d, n - 1, p);
      var prev := Repeat(k, pos, d, n - 1).1;
      assert p in prev;
      RepeatStepKeeps(k, pos, d, n, p);
    } else {
      RepeatZero(k, pos, d, n);
    }
  }

  lemma RepeatZero(k: seq<Point>, pos: set<(int, int)>, d: Dir, n: int)
    requires |k| == KNOTS && n <= 0
    ensures Repeat(k, pos, d, n) == (k, pos)
  {
  }

  /** Knot 9's current position is among the visited ones. */
  lemma RepeatHasLast(k: seq<Point>, pos: set<(int, int)>, d: Dir, n: int)
    requires |k| == KNOTS && Pos(k[9]) in pos
    ensures Pos(Repeat(k, pos, d, n).0[9]) in Repeat(k, pos, d, n).1
  {
    if n > 0 {
      RepeatStepLast(k, pos, d, n);
    }
  }

  /** The n-th step keeps the visited positions. */
  lemma RepeatStepKeeps(k: seq<Point>, pos: set<(int, int)>, d: Dir, n: int, p: (int, int))
    requires |k| == KNOTS && n > 0 && p in Repeat(k, pos, d, n - 1).1
    ensures p in Repeat(k, pos, d, n).1
  {
  }

  /** The n-th step adds knot 9's new position. */
  lemma RepeatStepLast(k: seq<Point>, pos: set<(int, int)>, d: Dir, n: int)
    requires |k| == KNOTS && n > 0
    ensures Pos(Repeat(k, pos, d, n).0[9]) in Repeat(k, pos, d, n).1
  {
  }

  /** After any prefix of the lines the knots touch pairwise, (0, 0) and
      knot 9's position are in the visited set, and the set only grows. */
  lemma {:induction false} RunMeaning(lines: seq<string>, i: nat)
    requires i <= |lines| && Run(lines).Some?
    ensures Run(lines[..i]).Some?
    ensures var (k, pos) := Run(lines).value;
      AllTouching(k) && (0, 0) in pos && Pos(k[9]) in pos
    ensures Run(lines[..i]).value.1 <= Run(lines).value.1
    decreases |lines|
  {
    if lines != [] {
      var init := lines[..|lines| - 1];
      if i == |lines| {
        assert lines[..i] == lines;
        RunMeaning(init, 0);
      } else {
        assert init[..i] == lines[..i];
        RunMeaning(init, i);
      }
      var (k, pos) := Run(init).value;
      var m := GetMove(lines[|lines| - 1]).value;
      RepeatProps(k, pos, m.0, m.1);
    } else {
      assert lines[..i] == lines;
    }
  }
}
