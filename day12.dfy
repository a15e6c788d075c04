/** Day 12 of 2022, "Hill Climbing Algorithm": a grid of heights `a`..`z`
    with a start `S` and a summit `E`. Part 1 counts the fewest steps from
    `S` to `E` when each step climbs at most one level; part 2 counts the
    fewest steps from any `a` to `E`, found by searching downhill from `E`.
    Both parts run the same search: a min-heap of (steps, position) entries
    in which a cell is marked visited when it is pushed. */
module Day12 {
  import opened Results

  type Byte = b: int | 0 <= b < 256

  /** The grid as the program holds it: one row of bytes per input line. */
  type Grid = seq<seq<Byte>>

  datatype Pos = Pos(row: nat, col: nat)

  /** A heap entry `Reverse((steps, position))`. */
  datatype Entry = Entry(steps: nat, pos: Pos)

  /** The length of the program's `directions` array. */
  const Directions: nat := 4

  const UpperS: Byte := 83
  const UpperE: Byte := 69
  const LowerA: Byte := 97
  const LowerZ: Byte := 122

  // ---------------------------------------------------------------------
  // The grid and its moves
  // ---------------------------------------------------------------------

  /** The program indexes every row with `grid[0].len()` and starts at a
      cell it marks in `visited`, so a non-empty rectangle is what it needs
      to run without an out-of-bounds panic. */
  predicate Rectangular(g: Grid) {
    |g| > 0 && |g[0]| > 0 && forall i :: 0 <= i < |g| ==> |g[i]| == |g[0]|
  }

  predicate Inside(g: Grid, p: Pos) {
    |g| > 0 && p.row < |g| && p.col < |g[0]|
  }

  function Height(g: Grid, p: Pos): Byte
    requires Rectangular(g) && Inside(g, p)
  {
    g[p.row][p.col]
  }

  /** `to - 1` on a `u8` panics for a zero byte; text has none. */
  predicate NoZero(g: Grid) {
    forall i, j :: 0 <= i < |g| && 0 <= j < |g[i]| ==> g[i][j] > 0
  }

  /** `can_move`: a step may go down any number of levels and up at most one. */
  function CanMove(from: Byte, to: Byte): (r: bool)
    requires to > 0
    ensures r <==> to <= from + 1
    ensures to <= from ==> r
  {
    from >= to - 1
  }

  /** The cell one move away in direction `k`, in the order the program
      tries them: right, down, left, up; `None` when that leaves the grid. */
  function Neighbor(g: Grid, p: Pos, k: nat): Option<Pos>
    requires Rectangular(g) && k < 4
  {
    var x := p.row + (if k == 1 then 1 else if k == 3 then -1 else 0);
    var y := p.col + (if k == 0 then 1 else if k == 2 then -1 else 0);
    if 0 <= x < |g| && 0 <= y < |g[0]| then Some(Pos(x, y)) else None
  }

  predicate Adjacent(p: Pos, q: Pos) {
    (p.row == q.row && (q.col == p.col + 1 || p.col == q.col + 1))
    || (p.col == q.col && (q.row == p.row + 1 || p.row == q.row + 1))
  }

  /** The direction that leads from `p` to the adjacent `q`. */
  function DirTo(p: Pos, q: Pos): nat
  {
    if q.row == p.row && q.col == p.col + 1 then 0
    else if q.row == p.row + 1 && q.col == p.col then 1
    else if q.row == p.row && p.col == q.col + 1 then 2
    else 3
  }

  /** The height rule of one step: part 1 (`up`) climbs from `p` to `q`,
      part 2 tests `can_move` with its arguments swapped. */
  predicate Climb(g: Grid, up: bool, p: Pos, q: Pos)
    requires Rectangular(g) && Inside(g, p) && Inside(g, q)
  {
    if up then Height(g, q) <= Height(g, p) + 1 else Height(g, p) <= Height(g, q) + 1
  }

  predicate Edge(g: Grid, up: bool, p: Pos, q: Pos) {
    Rectangular(g) && Inside(g, p) && Inside(g, q) && Adjacent(p, q) && Climb(g, up, p, q)
  }

  /** A walk: a non-empty sequence of cells, each an allowed step from the one before. */
  predicate Walk(g: Grid, up: bool, r: seq<Pos>) {
    |r| > 0 && forall i :: 0 <= i < |r| - 1 ==> Edge(g, up, r[i], r[i + 1])
  }

  /** `r` is a walk of `n` steps from `a` to `z`. */
  predicate Leads(g: Grid, up: bool, r: seq<Pos>, a: Pos, z: Pos, n: nat) {
    Walk(g, up, r) && r[0] == a && r[|r| - 1] == z && |r| == n + 1
  }

  /** Where the search stops: at one cell (part 1) or at a height (part 2). */
  datatype Goal = Cell(target: Pos) | Level(height: Byte)

  predicate Reached(g: Grid, goal: Goal, p: Pos) {
    match goal
    case Cell(target) => p == target
    case Level(h) => Rectangular(g) && Inside(g, p) && Height(g, p) == h
  }

  /** `n` is the fewest steps of any walk from `src` to a goal cell. */
  ghost predicate Nearest(g: Grid, up: bool, src: Pos, goal: Goal, n: nat) {
    (exists r {:trigger Walk(g, up, r)} :: Walk(g, up, r) && r[0] == src && |r| == n + 1 && Reached(g, goal, r[|r| - 1]))
    && forall r {:trigger Walk(g, up, r)} :: Walk(g, up, r) && r[0] == src && Reached(g, goal, r[|r| - 1]) ==> |r| - 1 >= n
  }

  ghost predicate Unreachable(g: Grid, up: bool, src: Pos, goal: Goal) {
    forall r {:trigger Walk(g, up, r)} :: Walk(g, up, r) && r[0] == src ==> !Reached(g, goal, r[|r| - 1])
  }

  lemma NeighborAdjacent(g: Grid, p: Pos, k: nat)
    requires Rectangular(g) && k < 4 && Neighbor(g, p, k).Some?
    ensures Inside(g, Neighbor(g, p, k).value)
    ensures Adjacent(p, Neighbor(g, p, k).value)
    ensures DirTo(p, Neighbor(g, p, k).value) == k
  {
  }

  lemma AdjacentNeighbor(g: Grid, p: Pos, q: Pos)
    requires Rectangular(g) && Inside(g, q) && Adjacent(p, q)
    ensures DirTo(p, q) < 4 && Neighbor(g, p, DirTo(p, q)) == Some(q)
  {
  }

  /** Turning a walk around swaps the two height rules: part 2's downhill
      search from `E` finds exactly the part-1 walks that end at `E`. */
  lemma {:induction false} WalkReversed(g: Grid, r: seq<Pos>)
    ensures Walk(g, false, r) <==> Walk(g, true, Reversed(r))
    decreases |r|
  {
    if |r| > 1 {
      var s := r[1..];
      WalkReversed(g, s);
      assert Reversed(r) == Reversed(s) + [r[0]];
      assert Walk(g, false, r) <==> Edge(g, false, r[0], r[1]) && Walk(g, false, s) by {
        if Walk(g, false, r) {
          assert forall i :: 0 <= i < |s| - 1 ==> Edge(g, false, s[i], s[i + 1]) by {
            forall i | 0 <= i < |s| - 1 ensures Edge(g, false, s[i], s[i + 1]) {
              assert s[i] == r[i + 1] && s[i + 1] == r[i + 2];
            }
          }
        }
        if Edge(g, false, r[0], r[1]) && Walk(g, false, s) {
          forall i | 0 <= i < |r| - 1 ensures Edge(g, false, r[i], r[i + 1]) {
            if i > 0 { assert r[i] == s[i - 1] && r[i + 1] == s[i]; }
          }
        }
      }
      var t := Reversed(s);
      assert |t| == |s| && t[|t| - 1] == r[1];
      assert Walk(g, true, t + [r[0]]) <==> Walk(g, true, t) && Edge(g, true, r[1], r[0]) by {
        var u := t + [r[0]];
        if Walk(g, true, u) {
          assert forall i :: 0 <= i < |t| - 1 ==> Edge(g, true, t[i], t[i + 1]) by {
            forall i | 0 <= i < |t| - 1 ensures Edge(g, true, t[i], t[i + 1]) {
              assert u[i] == t[i] && u[i + 1] == t[i + 1];
            }
          }
          assert u[|t| - 1] == r[1] && u[|t|] == r[0];
        }
        if Walk(g, true, t) && Edge(g, true, r[1], r[0]) {
          forall i | 0 <= i < |u| - 1 ensures Edge(g, true, u[i], u[i + 1]) {
            if i < |t| - 1 { assert u[i] == t[i] && u[i + 1] == t[i + 1]; }
            else { assert u[i] == r[1] && u[i + 1] == r[0]; }
          }
        }
      }
    } else if |r| == 1 {
      assert Reversed(r) == r;
    }
  }

  function Reversed(r: seq<Pos>): (t: seq<Pos>)
    ensures |t| == |r|
    ensures forall i :: 0 <= i < |r| ==> t[i] == r[|r| - 1 - i]
  {
    if r == [] then [] else Reversed(r[1..]) + [r[0]]
  }

  // ---------------------------------------------------------------------
  // The S / E rewrite
  // ---------------------------------------------------------------------

  /** The height a cell reads as once `S` has become `a` and `E` has become `z`. */
  function Leveled(c: Byte): Byte {
    if c == UpperS then LowerA else if c == UpperE then LowerZ else c
  }

  function LeveledGrid(g: Grid): (h: Grid)
    ensures |h| == |g|
    ensures forall i :: 0 <= i < |g| ==> |h[i]| == |g[i]|
  {
    seq(|g|, i requires 0 <= i < |g| => seq(|g[i]|, j requires 0 <= j < |g[i]| => Leveled(g[i][j])))
  }

  /** Row-major order: cell (i, j) comes after `p`. */
  predicate After(p: Pos, i: nat, j: nat) {
    i > p.row || (i == p.row && j > p.col)
  }

  /** `p` is where the scan leaves its record of `c`: the last cell holding
      `c` in row-major order, or (0, 0) when no cell holds it. */
  predicate LastOf(g: Grid, c: Byte, p: Pos) {
    (p.row < |g| && p.col < |g[p.row]| && g[p.row][p.col] == c
     && forall i, j :: 0 <= i < |g| && 0 <= j < |g[i]| && After(p, i, j) ==> g[i][j] != c)
    || (p == Pos(0, 0) && forall i, j :: 0 <= i < |g| && 0 <= j < |g[i]| ==> g[i][j] != c)
  }

  lemma LastOfUnique(g: Grid, c: Byte, p: Pos, q: Pos)
    requires LastOf(g, c, p) && LastOf(g, c, q)
    ensures p == q
  {
    if p != q {
      if p.row < |g| && p.col < |g[p.row]| && g[p.row][p.col] == c {
        if q.row < |g| && q.col < |g[q.row]| && g[q.row][q.col] == c {
          if !After(p, q.row, q.col) {
            assert After(q, p.row, p.col);
          }
        }
      }
    }
  }

  /** Cell (i, j) has been scanned once the scan stands at (r, s). */
  predicate Scanned(r: nat, s: nat, i: nat, j: nat) {
    i < r || (i == r && j < s)
  }

  /** `LastOf` restricted to the cells scanned so far. */
  predicate LastSoFar(g: Grid, c: Byte, p: Pos, r: nat, s: nat) {
    (p.row < |g| && p.col < |g[p.row]| && g[p.row][p.col] == c && Scanned(r, s, p.row, p.col)
     && forall i, j :: 0 <= i < |g| && 0 <= j < |g[i]| && Scanned(r, s, i, j) && After(p, i, j) ==> g[i][j] != c)
    || (p == Pos(0, 0) && forall i, j :: 0 <= i < |g| && 0 <= j < |g[i]| && Scanned(r, s, i, j) ==> g[i][j] != c)
  }

  /** The grid as the scan leaves it at (r, s): the scanned cells rewritten,
      the rest untouched. */
  predicate Rewritten(g: Grid, h: Grid, r: nat, s: nat) {
    |h| == |g| && (forall k :: 0 <= k < |g| ==> |h[k]| == |g[k]|)
    && forall k, l :: 0 <= k < |g| && 0 <= l < |g[k]| ==>
         h[k][l] == if Scanned(r, s, k, l) then Leveled(g[k][l]) else g[k][l]
  }

  /** Scanning one more cell moves the record of `c` to it when it holds `c`. */
  lemma ScanCell(g: Grid, c: Byte, p: Pos, i: nat, j: nat)
    requires i < |g| && j < |g[i]| && LastSoFar(g, c, p, i, j)
    ensures LastSoFar(g, c, if g[i][j] == c then Pos(i, j) else p, i, j + 1)
  {
  }

  /** The grid with cell (i, j) overwritten by `v`. */
  function Put(h: Grid, i: nat, j: nat, v: Byte): (h': Grid)
    requires i < |h| && j < |h[i]|
    ensures |h'| == |h| && forall k :: 0 <= k < |h| ==> |h'[k]| == |h[k]|
  {
    var row: seq<Byte> := h[i][j := v];
    h[i := row]
  }

  /** Scanning one more cell rewrites it, which changes the grid only for
      `S` and `E`. */
  lemma RewriteCell(g: Grid, h: Grid, i: nat, j: nat)
    requires i < |g| && j < |g[i]| && Rewritten(g, h, i, j)
    ensures h[i][j] == g[i][j]
    ensures Rewritten(g, Put(h, i, j, Leveled(g[i][j])), i, j + 1)
    ensures g[i][j] != UpperS && g[i][j] != UpperE ==> Rewritten(g, h, i, j + 1)
  {
  }

  /** Finishing row `i` is starting row `i + 1`. */
  lemma ScanRowEnd(g: Grid, h: Grid, c: Byte, p: Pos, i: nat)
    requires i < |g|
    ensures Rewritten(g, h, i, |g[i]|) ==> Rewritten(g, h, i + 1, 0)
    ensures LastSoFar(g, c, p, i, |g[i]|) ==> LastSoFar(g, c, p, i + 1, 0)
  {
    assert forall k, l :: 0 <= k < |g| && 0 <= l < |g[k]| ==> (Scanned(i, |g[i]|, k, l) <==> Scanned(i + 1, 0, k, l));
  }

  /** One row of the scan: each `S` is recorded and becomes `a`, each `E`
      is recorded and becomes `z`. */
  method ScanRow(g: Grid, h0: Grid, i: nat, start0: Pos, end0: Pos) returns (h: Grid, start: Pos, end: Pos)
    requires i < |g| && Rewritten(g, h0, i, 0)
    requires LastSoFar(g, UpperS, start0, i, 0) && LastSoFar(g, UpperE, end0, i, 0)
    ensures Rewritten(g, h, i + 1, 0)
    ensures LastSoFar(g, UpperS, start, i + 1, 0) && LastSoFar(g, UpperE, end, i + 1, 0)
  {
    h, start, end := h0, start0, end0;
    for j := 0 to |g[i]|
      invariant Rewritten(g, h, i, j)
      invariant LastSoFar(g, UpperS, start, i, j) && LastSoFar(g, UpperE, end, i, j)
    {
      ScanCell(g, UpperS, start, i, j);
      ScanCell(g, UpperE, end, i, j);
      RewriteCell(g, h, i, j);
      if h[i][j] == UpperS {
        start := Pos(i, j);
        h := Put(h, i, j, LowerA);
      } else if h[i][j] == UpperE {
        end := Pos(i, j);
        h := Put(h, i, j, LowerZ);
      }
    }
    ScanRowEnd(g, h, UpperS, start, i);
    ScanRowEnd(g, h, UpperE, end, i);
  }

  /** The scan that records the last `S` and `E` and rewrites them to `a`
      and `z` in place. */
  method Prepare(g: Grid) returns (h: Grid, start: Pos, end: Pos)
    ensures h == LeveledGrid(g)
    ensures LastOf(g, UpperS, start) && LastOf(g, UpperE, end)
  {
    h := g;
    start, end := Pos(0, 0), Pos(0, 0);
    for i := 0 to |g|
      invariant Rewritten(g, h, i, 0)
      invariant LastSoFar(g, UpperS, start, i, 0) && LastSoFar(g, UpperE, end, i, 0)
    {
      h, start, end := ScanRow(g, h, i, start, end);
    }
    forall k | 0 <= k < |g| ensures h[k] == LeveledGrid(g)[k] {
      assert forall l :: 0 <= l < |g[k]| ==> h[k][l] == LeveledGrid(g)[k][l];
    }
  }

  // ---------------------------------------------------------------------
  // The heap
  // ---------------------------------------------------------------------

  /** The order `Reverse` puts on heap entries: the smallest (steps, row,
      column) triple is popped first. */
  predicate Le(a: Entry, b: Entry) {
    a.steps < b.steps
    || (a.steps == b.steps && (a.pos.row < b.pos.row || (a.pos.row == b.pos.row && a.pos.col <= b.pos.col)))
  }

  /** `BinaryHeap::pop` on the reversed order: the index of the least entry. */
  method PopMin(heap: seq<Entry>) returns (i: nat)
    requires |heap| > 0
    ensures i < |heap|
    ensures forall k :: 0 <= k < |heap| ==> Le(heap[i], heap[k])
  {
    i := 0;
    for k := 1 to |heap|
      invariant i < k
      invariant forall l :: 0 <= l < k ==> Le(heap[i], heap[l])
    {
      if !Le(heap[i], heap[k]) {
        i := k;
      }
    }
  }

  /** The popped entry has the fewest steps in the heap. */
  lemma Least(heap: seq<Entry>, i: nat)
    requires i < |heap| && forall k :: 0 <= k < |heap| ==> Le(heap[i], heap[k])
    ensures forall e :: e in heap ==> heap[i].steps <= e.steps
  {
  }

  /** Le is a total order on (steps, row, column), so any two least entries
      are the same entry: the scan pops the value `BinaryHeap::pop` pops,
      and when no two entries share a position, as the visited marks
      ensure, it pops it from the same index. */
  lemma LeastUnique(heap: seq<Entry>, i: nat, j: nat)
    requires i < |heap| && j < |heap|
    requires forall k :: 0 <= k < |heap| ==> Le(heap[i], heap[k])
    requires forall k :: 0 <= k < |heap| ==> Le(heap[j], heap[k])
    ensures heap[i] == heap[j]
    ensures (forall a, b :: 0 <= a < b < |heap| ==> heap[a].pos != heap[b].pos) ==> i == j
  {
    assert Le(heap[i], heap[j]) && Le(heap[j], heap[i]);
  }

  lemma RemoveKeeps(s: seq<Entry>, i: nat, x: Entry)
    requires i < |s| && x in s && x != s[i]
    ensures x in s[..i] + s[i + 1..]
  {
    var k :| 0 <= k < |s| && s[k] == x;
    if k < i {
      assert (s[..i] + s[i + 1..])[k] == x;
    } else {
      assert (s[..i] + s[i + 1..])[k - 1] == x;
    }
  }

  // ---------------------------------------------------------------------
  // Expanding one cell
  // ---------------------------------------------------------------------

  /** The cells pushed while trying directions 0 .. k-1 around `u`, given the
      cells `seen` that were visited before. */
  function Pushes(g: Grid, up: bool, seen: set<Pos>, u: Pos, k: nat): seq<Pos>
    requires Rectangular(g) && Inside(g, u) && k <= 4
  {
    if k == 0 then []
    else
      var rest := Pushes(g, up, seen, u, k - 1);
      var n := Neighbor(g, u, k - 1);
      if n.Some? && n.value !in seen && Climb(g, up, u, n.value) then rest + [n.value] else rest
  }

  function Entries(steps: nat, qs: seq<Pos>): (es: seq<Entry>)
    ensures |es| == |qs|
  {
    if qs == [] then [] else Entries(steps, qs[..|qs| - 1]) + [Entry(steps, qs[|qs| - 1])]
  }

  /** The k-th pushed entry is the k-th cell at the pushed steps. */
  lemma {:induction false} EntriesAt(steps: nat, qs: seq<Pos>, k: nat)
    requires k < |qs|
    ensures Entries(steps, qs)[k] == Entry(steps, qs[k])
  {
    if k < |qs| - 1 {
      EntriesAt(steps, qs[..|qs| - 1], k);
    }
  }

  lemma EntriesSnoc(steps: nat, qs: seq<Pos>, q: Pos)
    ensures Entries(steps, qs + [q]) == Entries(steps, qs) + [Entry(steps, q)]
  {
    assert (qs + [q])[..|qs|] == qs;
  }

  lemma {:induction false} PushesFrom(g: Grid, up: bool, seen: set<Pos>, u: Pos, k: nat, q: Pos)
    requires Rectangular(g) && Inside(g, u) && k <= 4
    requires q in Pushes(g, up, seen, u, k)
    ensures q !in seen && Edge(g, up, u, q) && DirTo(u, q) < k
  {
    var n := Neighbor(g, u, k - 1);
    if q in Pushes(g, up, seen, u, k - 1) {
      PushesFrom(g, up, seen, u, k - 1, q);
    } else {
      NeighborAdjacent(g, u, k - 1);
    }
  }

  /** Direction `k` has not been pushed before its own turn. */
  lemma NotYetPushed(g: Grid, up: bool, seen: set<Pos>, u: Pos, k: nat)
    requires Rectangular(g) && Inside(g, u) && k < 4 && Neighbor(g, u, k).Some?
    ensures Neighbor(g, u, k).value !in Pushes(g, up, seen, u, k)
  {
    NeighborAdjacent(g, u, k);
    forall x | x in Pushes(g, up, seen, u, k) ensures DirTo(u, x) < k {
      PushesFrom(g, up, seen, u, k, x);
    }
  }

  lemma {:induction false} PushesHas(g: Grid, up: bool, seen: set<Pos>, u: Pos, k: nat, q: Pos)
    requires Rectangular(g) && Inside(g, u) && k <= 4
    requires q !in seen && Edge(g, up, u, q) && DirTo(u, q) < k
    ensures q in Pushes(g, up, seen, u, k)
  {
    AdjacentNeighbor(g, u, q);
    if DirTo(u, q) < k - 1 {
      PushesHas(g, up, seen, u, k - 1, q);
    }
  }

  lemma {:induction false} PushesDistinct(g: Grid, up: bool, seen: set<Pos>, u: Pos, k: nat)
    requires Rectangular(g) && Inside(g, u) && k <= 4
    ensures forall i, j :: 0 <= i < j < |Pushes(g, up, seen, u, k)| ==>
              Pushes(g, up, seen, u, k)[i] != Pushes(g, up, seen, u, k)[j]
  {
    if k > 0 {
      PushesDistinct(g, up, seen, u, k - 1);
      var rest := Pushes(g, up, seen, u, k - 1);
      var n := Neighbor(g, u, k - 1);
      if n.Some? && n.value !in seen && Climb(g, up, u, n.value) {
        NeighborAdjacent(g, u, k - 1);
        forall i | 0 <= i < |rest| ensures rest[i] != n.value {
          PushesFrom(g, up, seen, u, k - 1, rest[i]);
        }
      }
    }
  }

  /** The four pushes of one expansion are exactly the unvisited cells one
      allowed step from `u`, each pushed once. */
  lemma PushesMeaning(g: Grid, up: bool, seen: set<Pos>, u: Pos)
    requires Rectangular(g) && Inside(g, u)
    ensures Fresh(g, up, seen, u, Pushes(g, up, seen, u, Directions))
  {
    forall q ensures q in Pushes(g, up, seen, u, Directions) <==> q !in seen && Edge(g, up, u, q) {
      if q in Pushes(g, up, seen, u, Directions) {
        PushesFrom(g, up, seen, u, 4, q);
      }
      if q !in seen && Edge(g, up, u, q) {
        AdjacentNeighbor(g, u, q);
        PushesHas(g, up, seen, u, 4, q);
      }
    }
    PushesDistinct(g, up, seen, u, Directions);
  }

  /** Visited cells as the `visited` matrix records them. */
  predicate Marks(g: Grid, visited: array2<bool>, seen: set<Pos>, qs: seq<Pos>)
    reads visited
  {
    Rectangular(g) && visited.Length0 == |g| && visited.Length1 == |g[0]|
    && forall i, j {:trigger visited[i, j]} :: 0 <= i < |g| && 0 <= j < |g[0]| ==> (visited[i, j] <==> Pos(i, j) in seen || Pos(i, j) in qs)
  }

  /** `visited[q] = true`. */
  method Mark(g: Grid, visited: array2<bool>, q: Pos, ghost seen: set<Pos>, ghost before: seq<Pos>)
    requires Marks(g, visited, seen, before) && Inside(g, q)
    modifies visited
    ensures Marks(g, visited, seen, before + [q])
  {
    visited[q.row, q.col] := true;
    assert forall p :: p in before + [q] <==> p in before || p == q;
  }

  /** One pass of the direction loop: direction `k` around `u` is pushed
      when it stays in the grid, is unvisited and the height rule allows it. */
  method TryDirection(g: Grid, up: bool, visited: array2<bool>, heap: seq<Entry>, u: Pos, steps: nat, k: nat,
                      ghost seen: set<Pos>, ghost start: seq<Entry>)
    returns (heap': seq<Entry>)
    requires Rectangular(g) && NoZero(g) && Inside(g, u) && k < 4
    requires Marks(g, visited, seen, Pushes(g, up, seen, u, k))
    requires heap == start + Entries(steps + 1, Pushes(g, up, seen, u, k))
    modifies visited
    ensures Marks(g, visited, seen, Pushes(g, up, seen, u, k + 1))
    ensures heap' == start + Entries(steps + 1, Pushes(g, up, seen, u, k + 1))
  {
    heap' := heap;
    var n := Neighbor(g, u, k);
    ghost var before := Pushes(g, up, seen, u, k);
    if n.Some? {
      var q := n.value;
      NeighborAdjacent(g, u, k);
      NotYetPushed(g, up, seen, u, k);
      var allowed := if up then CanMove(Height(g, u), Height(g, q)) else CanMove(Height(g, q), Height(g, u));
      if !visited[q.row, q.col] && allowed {
        Mark(g, visited, q, seen, before);
        EntriesSnoc(steps + 1, before, q);
        assert start + Entries(steps + 1, before) + [Entry(steps + 1, q)]
            == start + (Entries(steps + 1, before) + [Entry(steps + 1, q)]);
        heap' := heap' + [Entry(steps + 1, q)];
        assert Pushes(g, up, seen, u, k + 1) == before + [q];
      } else {
        assert Pushes(g, up, seen, u, k + 1) == before;
      }
    } else {
      assert Pushes(g, up, seen, u, k + 1) == before;
    }
  }

  /** The loop over the four directions around the popped cell `u`: every
      in-bounds, unvisited neighbour the height rule allows is marked
      visited and pushed with one more step. */
  method Expand(g: Grid, up: bool, visited: array2<bool>, heap: seq<Entry>, u: Pos, steps: nat,
                ghost seen: set<Pos>)
    returns (heap': seq<Entry>)
    requires Rectangular(g) && NoZero(g) && Inside(g, u)
    requires Marks(g, visited, seen, [])
    modifies visited
    ensures Marks(g, visited, seen, Pushes(g, up, seen, u, Directions))
    ensures heap' == heap + Entries(steps + 1, Pushes(g, up, seen, u, Directions))
  {
    heap' := heap;
    for k := 0 to Directions
      invariant Marks(g, visited, seen, Pushes(g, up, seen, u, k))
      invariant heap' == heap + Entries(steps + 1, Pushes(g, up, seen, u, k))
    {
      heap' := TryDirection(g, up, visited, heap', u, steps, k, seen, heap);
    }
  }

  // ---------------------------------------------------------------------
  // The search and its invariants
  // ---------------------------------------------------------------------

  /** The search's bookkeeping, never stored by the program: the steps each
      visited cell was pushed with, a walk that reaches it in that many
      steps, the cells already expanded, and the steps of the last pop. */
  datatype Book = Book(dist: map<Pos, nat>, route: map<Pos, seq<Pos>>, done: set<Pos>, level: nat)

  ghost predicate Routed(g: Grid, up: bool, src: Pos, b: Book) {
    forall p :: p in b.dist ==> Inside(g, p) && p in b.route && Leads(g, up, b.route[p], src, p, b.dist[p])
  }

  /** Expanded cells sit at or below the last popped level; the heap holds
      every visited cell not yet expanded, at that level or one above. */
  ghost predicate Layered(b: Book, heap: seq<Entry>) {
    (forall p :: p in b.done ==> p in b.dist && b.dist[p] <= b.level)
    && (forall e :: e in heap ==> e.pos in b.dist && b.dist[e.pos] == e.steps && b.level <= e.steps <= b.level + 1)
    && (forall p :: p in b.dist && p !in b.done ==> Entry(b.dist[p], p) in heap)
  }

  /** Every allowed step out of an expanded cell lands on a visited cell at
      most one level deeper. */
  ghost predicate Closed(g: Grid, up: bool, b: Book) {
    forall p, q :: p in b.done && p in b.dist && Edge(g, up, p, q) ==> q in b.dist && b.dist[q] <= b.dist[p] + 1
  }

  /** Every walk from the source no longer than the last popped level ends
      on a visited cell whose recorded steps are no more than the walk's. */
  ghost predicate Complete(g: Grid, up: bool, src: Pos, b: Book) {
    forall r {:trigger Walk(g, up, r)} :: Walk(g, up, r) && r[0] == src && |r| <= b.level + 1 ==>
      r[|r| - 1] in b.dist && b.dist[r[|r| - 1]] <= |r| - 1
  }

  ghost predicate Unmet(g: Grid, goal: Goal, b: Book) {
    forall p :: p in b.done ==> !Reached(g, goal, p)
  }

  ghost predicate Inv(g: Grid, up: bool, src: Pos, goal: Goal, b: Book, heap: seq<Entry>) {
    Rectangular(g) && Routed(g, up, src, b) && Layered(b, heap) && Closed(g, up, b)
    && Complete(g, up, src, b) && Unmet(g, goal, b)
  }

  ghost function Cells(g: Grid): set<Pos>
    requires Rectangular(g)
  {
    set i, j | 0 <= i < |g| && 0 <= j < |g[0]| :: Pos(i, j)
  }

  /** The book after expanding `u` at `m` steps and pushing `qs`. */
  ghost function Grow(b: Book, u: Pos, m: nat, qs: seq<Pos>): Book
    requires u in b.route
  {
    Book(b.dist + (map q | q in qs :: m + 1), b.route + (map q | q in qs :: b.route[u] + [q]),
         b.done + {u}, m)
  }

  lemma InvStart(g: Grid, up: bool, src: Pos, goal: Goal)
    requires Rectangular(g) && Inside(g, src)
    ensures Inv(g, up, src, goal, Book(map[src := 0], map[src := [src]], {}, 0), [Entry(0, src)])
  {
  }

  /** Popping the least entry raises the level to its steps and keeps
      every short walk accounted for. */
  lemma PopStep(g: Grid, up: bool, src: Pos, goal: Goal, b: Book, heap: seq<Entry>, i: nat)
    requires Inv(g, up, src, goal, b, heap)
    requires i < |heap| && forall k :: 0 <= k < |heap| ==> Le(heap[i], heap[k])
    ensures b.level <= heap[i].steps
    ensures Complete(g, up, src, b.(level := heap[i].steps))
  {
    var m := heap[i].steps;
    assert heap[i] in heap;
    Least(heap, i);
    forall r {:trigger Walk(g, up, r)} | Walk(g, up, r) && r[0] == src && |r| <= m + 1
      ensures r[|r| - 1] in b.dist && b.dist[r[|r| - 1]] <= |r| - 1
    {
      if |r| > b.level + 1 {
        var s := r[..|r| - 1];
        assert Walk(g, up, s) by {
          forall k | 0 <= k < |s| - 1 ensures Edge(g, up, s[k], s[k + 1]) {
            assert s[k] == r[k] && s[k + 1] == r[k + 1];
          }
        }
        var p := s[|s| - 1];
        assert p in b.dist && b.dist[p] <= b.level;
        assert p in b.done;
        assert Edge(g, up, r[|r| - 2], r[|r| - 1]);
      }
    }
  }

  /** The popped entry carries the recorded steps of its cell, and when that
      cell is a goal those steps are the fewest of any walk to a goal. */
  lemma GoalFound(g: Grid, up: bool, src: Pos, goal: Goal, b: Book, heap: seq<Entry>, i: nat)
    requires Inv(g, up, src, goal, b, heap)
    requires i < |heap| && forall k :: 0 <= k < |heap| ==> Le(heap[i], heap[k])
    requires Reached(g, goal, heap[i].pos)
    ensures Nearest(g, up, src, goal, heap[i].steps)
  {
    var e := heap[i];
    var m := e.steps;
    assert e in heap;
    PopStep(g, up, src, goal, b, heap, i);
    var r0 := b.route[e.pos];
    assert Leads(g, up, r0, src, r0[|r0| - 1], m) && Reached(g, goal, r0[|r0| - 1]);
    Least(heap, i);
    forall r {:trigger Walk(g, up, r)} | Walk(g, up, r) && r[0] == src && Reached(g, goal, r[|r| - 1])
      ensures |r| - 1 >= m
    {
      if |r| <= m + 1 {
        var q := r[|r| - 1];
        assert q in b.dist && q !in b.done;
        assert Entry(b.dist[q], q) in heap;
      }
    }
  }

  /** `qs` lists, once each, the unvisited cells one allowed step from `u`. */
  ghost predicate Fresh(g: Grid, up: bool, keys: set<Pos>, u: Pos, qs: seq<Pos>) {
    (forall q :: q in qs <==> q !in keys && Edge(g, up, u, q))
    && forall i, j :: 0 <= i < j < |qs| ==> qs[i] != qs[j]
  }

  lemma GrowRouted(g: Grid, up: bool, src: Pos, b: Book, u: Pos, m: nat, qs: seq<Pos>)
    requires Routed(g, up, src, b) && u in b.dist && b.dist[u] == m
    requires Fresh(g, up, b.dist.Keys, u, qs)
    ensures Routed(g, up, src, Grow(b, u, m, qs))
  {
    var b2 := Grow(b, u, m, qs);
    forall p | p in b2.dist
      ensures Inside(g, p) && p in b2.route && Leads(g, up, b2.route[p], src, p, b2.dist[p])
    {
      if p in qs {
        var r := b.route[u];
        var r2 := r + [p];
        assert b2.route[p] == r2 && b2.dist[p] == m + 1;
        forall k | 0 <= k < |r2| - 1 ensures Edge(g, up, r2[k], r2[k + 1]) {
          if k < |r| - 1 { assert r2[k] == r[k] && r2[k + 1] == r[k + 1]; }
        }
      } else {
        assert b2.route[p] == b.route[p] && b2.dist[p] == b.dist[p];
      }
    }
  }

  /** An entry of the heap after a pop and a push came from the old heap
      or is one of the pushed entries. */
  lemma RemovedOrPushed(heap: seq<Entry>, i: nat, m: nat, qs: seq<Pos>, f: Entry)
    requires i < |heap| && f in heap[..i] + heap[i + 1..] + Entries(m, qs)
    ensures f in heap || (f.steps == m && f.pos in qs)
  {
    var rest := heap[..i] + heap[i + 1..];
    var heap2 := rest + Entries(m, qs);
    var k :| 0 <= k < |heap2| && heap2[k] == f;
    if k < |rest| {
      if k < i { assert f == heap[k]; } else { assert f == heap[k + 1]; }
    } else {
      EntriesAt(m, qs, k - |rest|);
      assert f == Entry(m, qs[k - |rest|]);
    }
  }

  lemma PushedIn(rest: seq<Entry>, m: nat, qs: seq<Pos>, p: Pos)
    requires p in qs
    ensures Entry(m, p) in rest + Entries(m, qs)
  {
    var k :| 0 <= k < |qs| && qs[k] == p;
    EntriesAt(m, qs, k);
    assert (rest + Entries(m, qs))[|rest| + k] == Entry(m, p);
  }

  /** After a pop, the expanded cells keep their steps and none is above
      the popped level. */
  lemma GrowDone(b: Book, u: Pos, m: nat, qs: seq<Pos>)
    requires forall p :: p in b.done ==> p in b.dist && b.dist[p] <= b.level
    requires b.level <= m && u in b.dist && b.dist[u] == m && u in b.route
    requires forall q :: q in qs ==> q !in b.dist
    ensures forall p :: p in Grow(b, u, m, qs).done ==> p in b.dist && Grow(b, u, m, qs).dist[p] == b.dist[p] <= m
  {
    var b2 := Grow(b, u, m, qs);
    forall p | p in b2.done ensures p in b.dist && b2.dist[p] == b.dist[p] <= m {
      if p != u { assert p in b.done; }
    }
  }

  lemma HeapOne(b: Book, heap: seq<Entry>, i: nat, qs: seq<Pos>, f: Entry)
    requires forall e :: e in heap ==> e.pos in b.dist && b.dist[e.pos] == e.steps && b.level <= e.steps <= b.level + 1
    requires i < |heap| && heap[i].pos in b.route
    requires forall e :: e in heap ==> heap[i].steps <= e.steps
    requires forall q :: q in qs ==> q !in b.dist
    requires f in heap[..i] + heap[i + 1..] + Entries(heap[i].steps + 1, qs)
    ensures f.pos in Grow(b, heap[i].pos, heap[i].steps, qs).dist
    ensures Grow(b, heap[i].pos, heap[i].steps, qs).dist[f.pos] == f.steps
    ensures heap[i].steps <= f.steps <= heap[i].steps + 1
  {
    var u, m := heap[i].pos, heap[i].steps;
    assert heap[i] in heap;
    RemovedOrPushed(heap, i, m + 1, qs, f);
    if f !in heap {
      assert Grow(b, u, m, qs).dist[f.pos] == m + 1;
    }
  }

  /** After a pop and a push, every heap entry carries its cell's recorded
      steps, at the popped level or one above. */
  lemma GrowHeap(b: Book, heap: seq<Entry>, i: nat, qs: seq<Pos>)
    requires forall e :: e in heap ==> e.pos in b.dist && b.dist[e.pos] == e.steps && b.level <= e.steps <= b.level + 1
    requires i < |heap| && heap[i].pos in b.route
    requires forall e :: e in heap ==> heap[i].steps <= e.steps
    requires forall q :: q in qs ==> q !in b.dist
    ensures var b2 := Grow(b, heap[i].pos, heap[i].steps, qs);
      forall f :: f in heap[..i] + heap[i + 1..] + Entries(heap[i].steps + 1, qs) ==>
        f.pos in b2.dist && b2.dist[f.pos] == f.steps && heap[i].steps <= f.steps <= heap[i].steps + 1
  {
    forall f | f in heap[..i] + heap[i + 1..] + Entries(heap[i].steps + 1, qs)
      ensures f.pos in Grow(b, heap[i].pos, heap[i].steps, qs).dist
      ensures Grow(b, heap[i].pos, heap[i].steps, qs).dist[f.pos] == f.steps
      ensures heap[i].steps <= f.steps <= heap[i].steps + 1
    {
      HeapOne(b, heap, i, qs, f);
    }
  }

  lemma CoverKept(b: Book, heap: seq<Entry>, i: nat, es: seq<Entry>, p: Pos)
    requires forall p :: p in b.dist && p !in b.done ==> Entry(b.dist[p], p) in heap
    requires i < |heap|
    requires p in b.dist && p !in b.done && p != heap[i].pos
    ensures Entry(b.dist[p], p) in heap[..i] + heap[i + 1..] + es
  {
    RemoveKeeps(heap, i, Entry(b.dist[p], p));
    KeptIn(heap[..i] + heap[i + 1..], es, Entry(b.dist[p], p));
  }

  /** After a pop and a push, every visited cell not yet expanded is still
      in the heap. */
  lemma GrowCovers(b: Book, heap: seq<Entry>, i: nat, qs: seq<Pos>)
    requires forall p :: p in b.dist && p !in b.done ==> Entry(b.dist[p], p) in heap
    requires i < |heap| && heap[i].pos in b.route
    ensures var b2 := Grow(b, heap[i].pos, heap[i].steps, qs);
      forall p :: p in b2.dist && p !in b2.done ==> Entry(b2.dist[p], p) in heap[..i] + heap[i + 1..] + Entries(heap[i].steps + 1, qs)
  {
    var u, m := heap[i].pos, heap[i].steps;
    var b2 := Grow(b, u, m, qs);
    var es := Entries(m + 1, qs);
    forall p | p in b2.dist && p !in b2.done
      ensures Entry(b2.dist[p], p) in heap[..i] + heap[i + 1..] + es
    {
      if p in qs {
        assert b2.dist[p] == m + 1;
        PushedIn(heap[..i] + heap[i + 1..], m + 1, qs, p);
      } else {
        assert b2.dist[p] == b.dist[p];
        CoverKept(b, heap, i, es, p);
      }
    }
  }

  lemma KeptIn(rest: seq<Entry>, es: seq<Entry>, x: Entry)
    requires x in rest
    ensures x in rest + es
  {
    var k :| 0 <= k < |rest| && rest[k] == x;
    assert (rest + es)[k] == x;
  }

  lemma GrowLayered(b: Book, heap: seq<Entry>, i: nat, qs: seq<Pos>)
    requires Layered(b, heap) && i < |heap|
    requires forall e :: e in heap ==> heap[i].steps <= e.steps
    requires forall q :: q in qs ==> q !in b.dist
    ensures heap[i].pos in b.route ==>
      Layered(Grow(b, heap[i].pos, heap[i].steps, qs), heap[..i] + heap[i + 1..] + Entries(heap[i].steps + 1, qs))
  {
    assert heap[i] in heap;
    if heap[i].pos in b.route {
      GrowDone(b, heap[i].pos, heap[i].steps, qs);
      GrowHeap(b, heap, i, qs);
      GrowCovers(b, heap, i, qs);
    }
  }

  lemma GrowClosed(g: Grid, up: bool, b: Book, heap: seq<Entry>, u: Pos, m: nat, qs: seq<Pos>)
    requires Closed(g, up, b) && Layered(b, heap) && b.level <= m
    requires u in b.dist && b.dist[u] == m && u in b.route
    requires Fresh(g, up, b.dist.Keys, u, qs)
    ensures Closed(g, up, Grow(b, u, m, qs))
  {
    var b2 := Grow(b, u, m, qs);
    forall p, q | p in b2.done && p in b2.dist && Edge(g, up, p, q)
      ensures q in b2.dist && b2.dist[q] <= b2.dist[p] + 1
    {
      if p == u {
        if q in b.dist {
          if q !in b.done {
            assert Entry(b.dist[q], q) in heap;
          }
        }
      } else {
        assert p in b.done && b2.dist[p] == b.dist[p];
      }
    }
  }

  lemma GrowComplete(g: Grid, up: bool, src: Pos, b: Book, u: Pos, m: nat, qs: seq<Pos>)
    requires Complete(g, up, src, b.(level := m)) && u in b.route
    requires forall q :: q in qs ==> q !in b.dist
    ensures Complete(g, up, src, Grow(b, u, m, qs))
  {
    var b2 := Grow(b, u, m, qs);
    forall r {:trigger Walk(g, up, r)} | Walk(g, up, r) && r[0] == src && |r| <= m + 1
      ensures r[|r| - 1] in b2.dist && b2.dist[r[|r| - 1]] <= |r| - 1
    {
      assert r[|r| - 1] in b.dist;
    }
  }

  /** Expanding the popped cell and pushing its unvisited neighbours keeps
      every invariant; the book then records exactly the cells visited
      before and the ones just pushed. */
  lemma ExpandStep(g: Grid, up: bool, src: Pos, goal: Goal, b: Book, heap: seq<Entry>, i: nat, heap2: seq<Entry>)
    returns (b2: Book)
    requires Inv(g, up, src, goal, b, heap) && src in b.dist
    requires i < |heap| && forall k :: 0 <= k < |heap| ==> Le(heap[i], heap[k])
    requires Inside(g, heap[i].pos) && !Reached(g, goal, heap[i].pos)
    requires heap2 == heap[..i] + heap[i + 1..] + Entries(heap[i].steps + 1, Pushes(g, up, b.dist.Keys, heap[i].pos, Directions))
    ensures Inv(g, up, src, goal, b2, heap2) && src in b2.dist
    ensures b2.level == heap[i].steps
    ensures forall p :: p in b2.dist <==> p in b.dist || p in Pushes(g, up, b.dist.Keys, heap[i].pos, Directions)
    ensures Measure(g, b2, heap2) < Measure(g, b, heap)
  {
    var u, m := heap[i].pos, heap[i].steps;
    var qs := Pushes(g, up, b.dist.Keys, u, Directions);
    PushesMeaning(g, up, b.dist.Keys, u);
    assert heap[i] in heap;
    b2 := Grow(b, u, m, qs);
    GrowShrinks(g, up, b, u, m, qs);
    PopStep(g, up, src, goal, b, heap, i);
    Least(heap, i);
    GrowRouted(g, up, src, b, u, m, qs);
    GrowLayered(b, heap, i, qs);
    GrowClosed(g, up, b, heap, u, m, qs);
    GrowComplete(g, up, src, b, u, m, qs);
  }

  lemma CellsShrink(c: set<Pos>, k: set<Pos>, qs: seq<Pos>)
    requires forall q :: q in qs ==> q in c && q !in k
    requires forall i, j :: 0 <= i < j < |qs| ==> qs[i] != qs[j]
    ensures |c - (k + set q | q in qs)| == |c - k| - |qs|
  {
    if qs != [] {
      var front := qs[..|qs| - 1];
      var last := qs[|qs| - 1];
      CellsShrink(c, k, front);
      assert last !in front;
      assert (set q | q in qs) == (set q | q in front) + {last};
      assert c - (k + set q | q in qs) == (c - (k + set q | q in front)) - {last};
    }
  }

  /** Growing the book visits `|qs|` more cells of the grid. */
  lemma GrowShrinks(g: Grid, up: bool, b: Book, u: Pos, m: nat, qs: seq<Pos>)
    requires Rectangular(g) && u in b.route && Fresh(g, up, b.dist.Keys, u, qs)
    ensures |Cells(g) - Grow(b, u, m, qs).dist.Keys| == |Cells(g) - b.dist.Keys| - |qs|
  {
    forall q | q in qs ensures q in Cells(g) && q !in b.dist.Keys {
      assert q == Pos(q.row, q.col);
    }
    CellsShrink(Cells(g), b.dist.Keys, qs);
    assert Grow(b, u, m, qs).dist.Keys == b.dist.Keys + set q | q in qs;
  }

  lemma MarksGrow(g: Grid, visited: array2<bool>, seen: set<Pos>, qs: seq<Pos>, seen2: set<Pos>)
    requires Marks(g, visited, seen, qs)
    requires forall p :: p in seen2 <==> p in seen || p in qs
    ensures Marks(g, visited, seen2, [])
  {
  }

  /** The popped entry is at or above the last popped level. */
  lemma PopLevel(b: Book, heap: seq<Entry>, i: nat)
    requires Layered(b, heap) && i < |heap|
    ensures b.level <= heap[i].steps
  {
    assert heap[i] in heap;
  }

  /** When the heap runs dry every walk from the source stays among the
      expanded cells, none of which is a goal. */
  lemma {:induction false} Exhausted(g: Grid, up: bool, src: Pos, goal: Goal, b: Book, r: seq<Pos>)
    requires Inv(g, up, src, goal, b, []) && src in b.dist
    requires Walk(g, up, r) && r[0] == src
    ensures r[|r| - 1] in b.done
    decreases |r|
  {
    if |r| > 1 {
      var s := r[..|r| - 1];
      assert Walk(g, up, s) by {
        forall k | 0 <= k < |s| - 1 ensures Edge(g, up, s[k], s[k + 1]) {
          assert s[k] == r[k] && s[k + 1] == r[k + 1];
        }
      }
      Exhausted(g, up, src, goal, b, s);
      assert Edge(g, up, r[|r| - 2], r[|r| - 1]);
    } else {
      assert Entry(b.dist[src], src) !in [];
    }
  }

  lemma NoneLeft(g: Grid, up: bool, src: Pos, goal: Goal, b: Book)
    requires Inv(g, up, src, goal, b, []) && src in b.dist
    ensures Unreachable(g, up, src, goal)
  {
    forall r {:trigger Walk(g, up, r)} | Walk(g, up, r) && r[0] == src ensures !Reached(g, goal, r[|r| - 1]) {
      Exhausted(g, up, src, goal, b, r);
    }
  }

  /** Each step count is at least the one before it. */
  ghost predicate Ascending(s: seq<nat>)
    decreases |s|
  {
    |s| <= 1 || (s[|s| - 2] <= s[|s| - 1] && Ascending(s[..|s| - 1]))
  }

  lemma {:induction false} AscendingSorted(s: seq<nat>)
    requires Ascending(s)
    ensures forall i, j :: 0 <= i < j < |s| ==> s[i] <= s[j]
    decreases |s|
  {
    if |s| > 1 {
      var t := s[..|s| - 1];
      AscendingSorted(t);
      forall i, j | 0 <= i < j < |s| ensures s[i] <= s[j] {
        if j < |s| - 1 {
          assert s[i] == t[i] && s[j] == t[j];
        } else if i < |s| - 2 {
          assert s[i] == t[i] && s[|s| - 2] == t[|s| - 2];
        }
      }
    }
  }

  /** Appending a step count no lower than the last level keeps the popped
      counts in order. */
  lemma Rising(popped: seq<nat>, level: nat, m: nat)
    requires Ascending(popped) && (popped == [] || popped[|popped| - 1] <= level) && level <= m
    ensures Ascending(popped + [m])
  {
    assert (popped + [m])[..|popped|] == popped;
  }

  /** The search's measure: each pass pops one entry and pushes only
      cells never visited before. */
  ghost function Measure(g: Grid, b: Book, heap: seq<Entry>): nat
    requires Rectangular(g)
  {
    2 * |Cells(g) - b.dist.Keys| + |heap|
  }

  /** One pass of the search loop for a popped entry that is not a goal:
      the entry leaves the heap, its unvisited neighbours are marked and
      pushed one step further, and every invariant of the search holds
      again with the level raised to the popped steps. */
  method Advance(g: Grid, up: bool, ghost src: Pos, ghost goal: Goal, visited: array2<bool>, heap: seq<Entry>, i: nat,
                 ghost b: Book)
    returns (heap': seq<Entry>, ghost b': Book)
    requires NoZero(g) && Inv(g, up, src, goal, b, heap) && src in b.dist && Marks(g, visited, b.dist.Keys, [])
    requires i < |heap| && forall k :: 0 <= k < |heap| ==> Le(heap[i], heap[k])
    requires !Reached(g, goal, heap[i].pos)
    modifies visited
    ensures Inv(g, up, src, goal, b', heap') && src in b'.dist && Marks(g, visited, b'.dist.Keys, [])
    ensures b'.level == heap[i].steps
    ensures Measure(g, b', heap') < Measure(g, b, heap)
  {
    PoppedInside(g, up, src, b, heap, i);
    var rest := heap[..i] + heap[i + 1..];
    heap' := Expand(g, up, visited, rest, heap[i].pos, heap[i].steps, b.dist.Keys);
    b' := AdvanceBook(g, up, src, goal, b, heap, i, rest, heap', visited);
  }

  /** The book after one pass, with the marks of the grown book. */
  lemma AdvanceBook(g: Grid, up: bool, src: Pos, goal: Goal, b: Book, heap: seq<Entry>, i: nat,
                    rest: seq<Entry>, heap2: seq<Entry>, visited: array2<bool>)
    returns (b2: Book)
    requires Inv(g, up, src, goal, b, heap) && src in b.dist
    requires i < |heap| && forall k :: 0 <= k < |heap| ==> Le(heap[i], heap[k])
    requires Inside(g, heap[i].pos) && !Reached(g, goal, heap[i].pos)
    requires rest == heap[..i] + heap[i + 1..]
    requires heap2 == rest + Entries(heap[i].steps + 1, Pushes(g, up, b.dist.Keys, heap[i].pos, Directions))
    requires Marks(g, visited, b.dist.Keys, Pushes(g, up, b.dist.Keys, heap[i].pos, Directions))
    ensures Inv(g, up, src, goal, b2, heap2) && src in b2.dist && Marks(g, visited, b2.dist.Keys, [])
    ensures b2.level == heap[i].steps
    ensures Measure(g, b2, heap2) < Measure(g, b, heap)
  {
    b2 := ExpandStep(g, up, src, goal, b, heap, i, heap2);
    MarksGrow(g, visited, b.dist.Keys, Pushes(g, up, b.dist.Keys, heap[i].pos, Directions), b2.dist.Keys);
  }

  /** A popped entry is a visited cell of the grid. */
  lemma PoppedInside(g: Grid, up: bool, src: Pos, b: Book, heap: seq<Entry>, i: nat)
    requires Routed(g, up, src, b) && Layered(b, heap) && i < |heap|
    ensures heap[i].pos in b.dist && Inside(g, heap[i].pos)
  {
    assert heap[i] in heap;
  }

  /** The search both parts run: from `src`, over steps the height rule
      `up` allows, until a goal cell is popped. The answer is the fewest
      steps to a goal, or `None` when no goal can be reached; the popped
      step counts never decrease. */
  method Search(g: Grid, up: bool, src: Pos, goal: Goal) returns (answer: Option<nat>, ghost popped: seq<nat>)
    requires Rectangular(g) && NoZero(g) && Inside(g, src)
    ensures answer.Some? ==> Nearest(g, up, src, goal, answer.value)
    ensures answer.None? ==> Unreachable(g, up, src, goal)
    ensures forall i, j :: 0 <= i < j < |popped| ==> popped[i] <= popped[j]
  {
    var visited := new bool[|g|, |g[0]|]((i, j) => false);
    visited[src.row, src.col] := true;
    var heap := [Entry(0, src)];
    ghost var b := Book(map[src := 0], map[src := [src]], {}, 0);
    InvStart(g, up, src, goal);
    popped := [];
    while heap != []
      invariant Inv(g, up, src, goal, b, heap) && src in b.dist
      invariant Marks(g, visited, b.dist.Keys, [])
      invariant Ascending(popped) && (popped == [] || popped[|popped| - 1] <= b.level)
      decreases Measure(g, b, heap)
    {
      var i := PopMin(heap);
      PopLevel(b, heap, i);
      Rising(popped, b.level, heap[i].steps);
      popped := popped + [heap[i].steps];
      if Reached(g, goal, heap[i].pos) {
        GoalFound(g, up, src, goal, b, heap, i);
        AscendingSorted(popped);
        return Some(heap[i].steps), popped;
      }
      heap, b := Advance(g, up, src, goal, visited, heap, i, b);
    }
    NoneLeft(g, up, src, goal, b);
    AscendingSorted(popped);
    return None, popped;
  }

  // ---------------------------------------------------------------------
  // The two parts
  // ---------------------------------------------------------------------

  lemma LeveledShape(g: Grid, c: Byte, p: Pos)
    requires Rectangular(g) && NoZero(g) && LastOf(g, c, p)
    ensures Rectangular(LeveledGrid(g)) && NoZero(LeveledGrid(g)) && Inside(LeveledGrid(g), p)
  {
  }

  /** `part1`: the fewest steps from `S` to `E`, climbing at most one level
      per step, or `None` when `E` cannot be reached (the program then
      prints nothing). */
  method Part1(g: Grid) returns (answer: Option<nat>)
    requires Rectangular(g) && NoZero(g)
    ensures forall start, end :: LastOf(g, UpperS, start) && LastOf(g, UpperE, end) ==>
      (answer.Some? ==> Nearest(LeveledGrid(g), true, start, Cell(end), answer.value))
      && (answer.None? ==> Unreachable(LeveledGrid(g), true, start, Cell(end)))
  {
    var h, start, end := Prepare(g);
    LeveledShape(g, UpperS, start);
    ghost var popped;
    answer, popped := Search(h, true, start, Cell(end));
    forall s, e | LastOf(g, UpperS, s) && LastOf(g, UpperE, e)
      ensures (answer.Some? ==> Nearest(LeveledGrid(g), true, s, Cell(e), answer.value))
              && (answer.None? ==> Unreachable(LeveledGrid(g), true, s, Cell(e)))
    {
      LastOfUnique(g, UpperS, s, start);
      LastOfUnique(g, UpperE, e, end);
    }
  }

  /** `part2`: searching downhill from `E` (the arguments of `can_move`
      swapped) until the first cell of height `a` is popped gives the fewest
      steps from that height to `E`, or `None` when no `a` is reachable. */
  method Part2(g: Grid) returns (answer: Option<nat>)
    requires Rectangular(g) && NoZero(g)
    ensures forall end :: LastOf(g, UpperE, end) ==>
      (answer.Some? ==> Nearest(LeveledGrid(g), false, end, Level(LowerA), answer.value))
      && (answer.None? ==> Unreachable(LeveledGrid(g), false, end, Level(LowerA)))
  {
    var h, _, end := Prepare(g);
    LeveledShape(g, UpperE, end);
    ghost var popped;
    answer, popped := Search(h, false, end, Level(LowerA));
    forall e | LastOf(g, UpperE, e)
      ensures (answer.Some? ==> Nearest(LeveledGrid(g), false, e, Level(LowerA), answer.value))
              && (answer.None? ==> Unreachable(LeveledGrid(g), false, e, Level(LowerA)))
    {
      LastOfUnique(g, UpperE, e, end);
    }
  }
}
