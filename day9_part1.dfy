/** Day 9 of 2022, part 1 (2022/day9_part1.rs): a rope of a head and a
    tail. Each unit step moves the head; when the head gets two units away
    along the axis it moved on, the tail jumps to the cell right behind it
    on that axis, in the head's row or column. The answer is the number of
    positions the tail visits. */
module Day9Part1 {
  import opened Results
  import opened Day9Moves

  /** The two knots as a value. */
  datatype Knots = Knots(head: Point, tail: Point)

  /** head_tail_distance: the absolute differences of the coordinates. */
  function Distance(k: Knots): (dist: Point)
    ensures dist.x >= 0 && (dist.x == k.head.x - k.tail.x || dist.x == k.tail.x - k.head.x)
    ensures dist.y >= 0 && (dist.y == k.head.y - k.tail.y || dist.y == k.tail.y - k.head.y)
  {
    Point(Abs(k.head.x - k.tail.x), Abs(k.head.y - k.tail.y))
  }

  /** move_rope on values: the head takes one step; the tail follows only
      when the distance along the moved axis exceeds one. */
  function StepRope(k: Knots, d: Dir): Knots {
    var head := Shift(k.head, d);
    var dist := Distance(Knots(head, k.tail));
    match d
    case U => if dist.y > 1 then Knots(head, Point(head.x, head.y - 1)) else Knots(head, k.tail)
    case D => if dist.y > 1 then Knots(head, Point(head.x, head.y + 1)) else Knots(head, k.tail)
    case L => if dist.x > 1 then Knots(head, Point(head.x + 1, head.y)) else Knots(head, k.tail)
    case R => if dist.x > 1 then Knots(head, Point(head.x - 1, head.y)) else Knots(head, k.tail)
  }

  class Rope {
    var head: Point
    var tail: Point

    function State(): Knots
      reads this
    {
      Knots(head, tail)
    }

    /** Rope::new(x, y): both knots at (x, y). */
    constructor (x: int, y: int)
      ensures head == Point(x, y) && tail == Point(x, y)
    {
      head := Point(x, y);
      tail := Point(x, y);
    }

    /** move_rope: one unit step; returns the tail's new position. */
    method MoveRope(d: Dir) returns (t: (int, int))
      modifies this
      ensures State() == StepRope(old(State()), d)
      ensures t == Pos(tail)
    {
      match d {
        case U =>
          head := head.(y := head.y + 1);
          var dist := Distance(State());
          if dist.y > 1 {
            tail := tail.(y := head.y - 1);
            tail := tail.(x := head.x);
          }
        case D =>
          head := head.(y := head.y - 1);
          var dist := Distance(State());
          if dist.y > 1 {
            tail := tail.(y := head.y + 1);
            tail := tail.(x := head.x);
          }
        case L =>
          head := head.(x := head.x - 1);
          var dist := Distance(State());
          if dist.x > 1 {
            tail := tail.(x := head.x + 1);
            tail := tail.(y := head.y);
          }
        case R =>
          head := head.(x := head.x + 1);
          var dist := Distance(State());
          if dist.x > 1 {
            tail := tail.(x := head.x - 1);
            tail := tail.(y := head.y);
          }
      }
      t := Pos(tail);
    }
  }

  /** A step moves the head one unit, and the tail either stays or jumps to
      where the head was; it jumps exactly when the head ends up more than
      one unit away along the moved axis. */
  lemma StepMeaning(k: Knots, d: Dir)
    ensures StepRope(k, d).head == Shift(k.head, d)
    ensures StepRope(k, d).tail == k.tail || StepRope(k, d).tail == k.head
    ensures var h := Shift(k.head, d);
      StepRope(k, d).tail != k.tail <==>
        (if d == U || d == D then Abs(h.y - k.tail.y) > 1 else Abs(h.x - k.tail.x) > 1)
  {
  }

  /** Touching knots stay touching. */
  lemma StepTouching(k: Knots, d: Dir)
    requires Touching(k.head, k.tail)
    ensures Touching(StepRope(k, d).head, StepRope(k, d).tail)
  {
  }

  /** `for _ in 0..cnt`: n unit steps (none when n <= 0), each adding the
      tail to the visited set. */
  function Repeat(k: Knots, pos: set<(int, int)>, d: Dir, n: int): (Knots, set<(int, int)>)
    decreases if n < 0 then 0 else n
  {
    if n <= 0 then (k, pos)
    else
      var (k', pos') := Repeat(k, pos, d, n - 1);
      var next := StepRope(k', d);
      (next, pos' + {Pos(next.tail)})
  }

  /** The rope and the visited set after the lines, from both knots and the
      set at (0, 0); None at a line get_move rejects. */
  function Run(lines: seq<string>): Option<(Knots, set<(int, int)>)> {
    if lines == [] then Some((Knots(Point(0, 0), Point(0, 0)), {(0, 0)}))
    else
      var prev := Run(lines[..|lines| - 1]);
      var m := GetMove(lines[|lines| - 1]);
      if prev.None? || m.None? then None
      else Some(Repeat(prev.value.0, prev.value.1, m.value.0, m.value.1))
  }

  lemma {:induction false} RunNoneUp(lines: seq<string>, k: nat)
    requires k <= |lines| && Run(lines[..k]).None?
    ensures Run(lines).None?
    decreases |lines| - k
  {
    if k < |lines| {
      assert lines[..k + 1][..k] == lines[..k];
      RunNoneUp(lines, k + 1);
    } else {
      assert lines[..k] == lines;
    }
  }

  /** The program: the number of visited positions, None on a panic. */
  method Solve(lines: seq<string>) returns (r: Option<nat>)
    ensures r.Some? <==> Run(lines).Some?
    ensures r.Some? ==> r.value == |Run(lines).value.1|
  {
    var pos := {(0, 0)};
    var rope := new Rope(0, 0);
    for i := 0 to |lines|
      invariant Run(lines[..i]) == Some((rope.State(), pos))
    {
      assert lines[..i + 1][..i] == lines[..i];
      var m := GetMove(lines[i]);
      if m.None? {
        RunNoneUp(lines, i + 1);
        return None;
      }
      var (dir, cnt) := m.value;
      ghost var start := (rope.State(), pos);
      var k := 0;
      while k < cnt
        invariant 0 <= k && (k == 0 || k <= cnt)
        invariant (rope.State(), pos) == Repeat(start.0, start.1, dir, k)
      {
        var t := rope.MoveRope(dir);
        pos := pos + {t};
        k := k + 1;
      }
      assert k == cnt || (cnt <= 0 && k == 0);
      assert (rope.State(), pos) == Repeat(start.0, start.1, dir, cnt);
    }
    assert lines[..|lines|] == lines;
    return Some(|pos|);
  }

  /** Unit steps keep the rope touching, keep every visited position, and
      add the tail's. */
  lemma {:induction false} RepeatProps(k: Knots, pos: set<(int, int)>, d: Dir, n: int)
    requires Touching(k.head, k.tail) && Pos(k.tail) in pos
    ensures var (k', pos') := Repeat(k, pos, d, n);
      Touching(k'.head, k'.tail) && pos <= pos' && Pos(k'.tail) in pos'
    decreases if n < 0 then 0 else n
  {
    if n > 0 {
      RepeatProps(k, pos, d, n - 1);
      StepTouching(Repeat(k, pos, d, n - 1).0, d);
    }
  }

  /** After any prefix of the lines the rope touches, (0, 0) and the
      current tail are in the visited set, and the set only grows. */
  lemma {:induction false} RunMeaning(lines: seq<string>, i: nat)
    requires i <= |lines| && Run(lines).Some?
    ensures Run(lines[..i]).Some?
    ensures var (k, pos) := Run(lines).value;
      Touching(k.head, k.tail) && (0, 0) in pos && Pos(k.tail) in pos
    ensures Run(lines[..i]).value.1 <= Run(lines).value.1
    decreases |lines|
  {
    if lines != [] {
      var init := lines[..|lines| - 1];
      if i == |lines| {
        assert lines[..i] == lines;
        RunMeaning(init, 0);
      } else {
        assert init[..i] == lines[..i];
        RunMeaning(init, i);
      }
      var (k, pos) := Run(init).value;
      var m := GetMove(lines[|lines| - 1]).value;
      RepeatProps(k, pos, m.0, m.1);
    } else {
      assert lines[..i] == lines;
    }
  }
}
