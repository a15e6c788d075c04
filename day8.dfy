/** Day 8 of 2022 (2022/day8.rs): treetop tree house. The input is a grid
    of digit heights. Part 1 marks every tree that is strictly taller than
    all trees between it and an edge of its row or column, scanning each
    row and each column from both ends at once with running maxima that
    start at -1, and counts the marks. Part 2 multiplies, per tree, the
    four viewing distances and reports the largest product.

    Part 1 takes every row as wide as row 0 (`trees[0].len()`): it panics
    on an empty grid, an empty first row (the `len() - 1` underflows) or a
    row shorter than the first, and never looks past row 0's width in a
    longer row. Part 2 walks each row over its own length, and a column
    walk panics when it reaches a row too short for the column. Panics are
    `None` here. */
module Day8 {
  import opened Results

  type Grid = seq<seq<int>>

  function Max(a: int, b: int): int {
    if a < b then b else a
  }

  /** `(tree as i32) - '0' as i32`. */
  function Height(c: char): int {
    c as int - '0' as int
  }

  /** The grid `main` builds, line by line and character by character. */
  method BuildGrid(lines: seq<string>) returns (trees: Grid)
    ensures |trees| == |lines|
    ensures forall i | 0 <= i < |trees| :: |trees[i]| == |lines[i]|
    ensures forall i, j | 0 <= i < |trees| && 0 <= j < |trees[i]| :: trees[i][j] == Height(lines[i][j])
  {
    trees := [];
    for i := 0 to |lines|
      invariant |trees| == i
      invariant forall x | 0 <= x < i :: |trees[x]| == |lines[x]|
      invariant forall x, y | 0 <= x < i && 0 <= y < |trees[x]| :: trees[x][y] == Height(lines[x][y])
    {
      var col := [];
      for j := 0 to |lines[i]|
        invariant |col| == j
        invariant forall y | 0 <= y < j :: col[y] == Height(lines[i][y])
      {
        col := col + [Height(lines[i][j])];
      }
      trees := trees + [col];
    }
  }

  // ---------------------------------------------------------------------
  // Part 1

  /** The grids part 1 reads without a panic. */
  predicate Scannable(g: Grid) {
    |g| > 0 && |g[0]| > 0 && forall r | 0 <= r < |g| :: |g[r]| >= |g[0]|
  }

  function Width(g: Grid): nat
    requires |g| > 0
  {
    |g[0]|
  }

  /** Taller than -1 and than every tree to the left in its row. */
  predicate FromLeft(g: Grid, r: nat, c: nat)
    requires Scannable(g) && r < |g| && c < Width(g)
  {
    -1 < g[r][c] && forall k | 0 <= k < c :: g[r][k] < g[r][c]
  }

  /** Taller than -1 and than every tree to the right, up to row 0's width. */
  predicate FromRight(g: Grid, r: nat, c: nat)
    requires Scannable(g) && r < |g| && c < Width(g)
  {
    -1 < g[r][c] && forall k | c < k < Width(g) :: g[r][k] < g[r][c]
  }

  predicate FromTop(g: Grid, r: nat, c: nat)
    requires Scannable(g) && r < |g| && c < Width(g)
  {
    -1 < g[r][c] && forall k | 0 <= k < r :: g[k][c] < g[r][c]
  }

  predicate FromBottom(g: Grid, r: nat, c: nat)
    requires Scannable(g) && r < |g| && c < Width(g)
  {
    -1 < g[r][c] && forall k | r < k < |g| :: g[k][c] < g[r][c]
  }

  /** The trees part 1 marks. */
  predicate Visible(g: Grid, r: nat, c: nat)
    requires Scannable(g) && r < |g| && c < Width(g)
  {
    FromLeft(g, r, c) || FromRight(g, r, c) || FromTop(g, r, c) || FromBottom(g, r, c)
  }

  /** The visible trees among the first c of row r. */
  function CountRow(g: Grid, r: nat, c: nat): nat
    requires Scannable(g) && r < |g| && c <= Width(g)
  {
    if c == 0 then 0 else CountRow(g, r, c - 1) + if Visible(g, r, c - 1) then 1 else 0
  }

  /** The visible trees in the first r rows. */
  function CountVisible(g: Grid, r: nat): nat
    requires Scannable(g) && r <= |g|
  {
    if r == 0 then 0 else CountVisible(g, r - 1) + CountRow(g, r - 1, Width(g))
  }

  /** The running maximum from the left: prev1 < trees[r][i] exactly when
      the tree is taller than -1 and everything before it. */
  lemma LeftStep(g: Grid, r: nat, i: nat, prev: int, w: int)
    requires Scannable(g) && r < |g| && i < Width(g)
    requires -1 <= prev && forall k | 0 <= k < i :: g[r][k] <= prev
    requires prev == -1 || (0 <= w < i && g[r][w] == prev)
    ensures prev < g[r][i] <==> FromLeft(g, r, i)
  {
  }

  lemma RightStep(g: Grid, r: nat, i: nat, prev: int, w: int)
    requires Scannable(g) && r < |g| && i < Width(g)
    requires -1 <= prev && forall k | i < k < Width(g) :: g[r][k] <= prev
    requires prev == -1 || (i < w < Width(g) && g[r][w] == prev)
    ensures prev < g[r][i] <==> FromRight(g, r, i)
  {
  }

  lemma TopStep(g: Grid, c: nat, i: nat, prev: int, w: int)
    requires Scannable(g) && i < |g| && c < Width(g)
    requires -1 <= prev && forall k | 0 <= k < i :: g[k][c] <= prev
    requires prev == -1 || (0 <= w < i && g[w][c] == prev)
    ensures prev < g[i][c] <==> FromTop(g, i, c)
  {
  }

  lemma BottomStep(g: Grid, c: nat, i: nat, prev: int, w: int)
    requires Scannable(g) && i < |g| && c < Width(g)
    requires -1 <= prev && forall k | i < k < |g| :: g[k][c] <= prev
    requires prev == -1 || (i < w < |g| && g[w][c] == prev)
    ensures prev < g[i][c] <==> FromBottom(g, i, c)
  {
  }

  /** The scan of row r from both ends: marks the trees visible from the
      left or the right, and changes no other mark. */
  method ScanRow(trees: Grid, included: array2<bool>, r: nat)
    requires Scannable(trees) && r < |trees|
    requires included.Length0 == |trees| && included.Length1 == Width(trees)
    modifies included
    ensures forall x, y | 0 <= x < included.Length0 && 0 <= y < included.Length1 ::
      included[x, y] == (old(included[x, y]) || (x == r && (FromLeft(trees, r, y) || FromRight(trees, r, y))))
  {
    var i := 0;
    var prev1 := -1;
    var n := Width(trees) - 1;
    var prev2 := -1;
    ghost var w1, w2 := -1, -1;
    while i <= n
      invariant 0 <= i <= n + 1
      invariant -1 <= prev1 && forall k | 0 <= k < i :: trees[r][k] <= prev1
      invariant prev1 == -1 || (0 <= w1 < i && trees[r][w1] == prev1)
      invariant -1 <= prev2 && forall k | n - i < k <= n :: trees[r][k] <= prev2
      invariant prev2 == -1 || (n - i < w2 <= n && trees[r][w2] == prev2)
      invariant forall x, y | 0 <= x < included.Length0 && 0 <= y < included.Length1 ::
        included[x, y] == (old(included[x, y]) || (x == r && ((y < i && FromLeft(trees, r, y)) || (n - i < y && FromRight(trees, r, y)))))
    {
      LeftStep(trees, r, i, prev1, w1);
      RightStep(trees, r, n - i, prev2, w2);
      if prev1 < trees[r][i] {
        included[r, i] := true;
      }
      if prev2 < trees[r][n - i] {
        included[r, n - i] := true;
      }
      if prev1 < trees[r][i] {
        w1 := i;
      }
      if prev2 < trees[r][n - i] {
        w2 := n - i;
      }
      prev1 := Max(prev1, trees[r][i]);
      prev2 := Max(prev2, trees[r][n - i]);
      i := i + 1;
    }
  }

  /** The scan of column c from both ends. */
  method ScanColumn(trees: Grid, included: array2<bool>, c: nat)
    requires Scannable(trees) && c < Width(trees)
    requires included.Length0 == |trees| && included.Length1 == Width(trees)
    modifies included
    ensures forall x, y | 0 <= x < included.Length0 && 0 <= y < included.Length1 ::
      included[x, y] == (old(included[x, y]) || (y == c && (FromTop(trees, x, c) || FromBottom(trees, x, c))))
  {
    var i := 0;
    var prev1 := -1;
    var n := |trees| - 1;
    var prev2 := -1;
    ghost var w1, w2 := -1, -1;
    while i <= n
      invariant 0 <= i <= n + 1
      invariant -1 <= prev1 && forall k | 0 <= k < i :: trees[k][c] <= prev1
      invariant prev1 == -1 || (0 <= w1 < i && trees[w1][c] == prev1)
      invariant -1 <= prev2 && forall k | n - i < k <= n :: trees[k][c] <= prev2
      invariant prev2 == -1 || (n - i < w2 <= n && trees[w2][c] == prev2)
      invariant forall x, y | 0 <= x < included.Length0 && 0 <= y < included.Length1 ::
        included[x, y] == (old(included[x, y]) || (y == c && ((x < i && FromTop(trees, x, c)) || (n - i < x && FromBottom(trees, x, c)))))
    {
      TopStep(trees, c, i, prev1, w1);
      BottomStep(trees, c, n - i, prev2, w2);
      if prev1 < trees[i][c] {
        included[i, c] := true;
      }
      if prev2 < trees[n - i][c] {
        included[n - i, c] := true;
      }
      if prev1 < trees[i][c] {
        w1 := i;
      }
      if prev2 < trees[n - i][c] {
        w2 := n - i;
      }
      prev1 := Max(prev1, trees[i][c]);
      prev2 := Max(prev2, trees[n - i][c]);
      i := i + 1;
    }
  }

  /** part1: the number of visible trees, or None when the scans panic.
      The marks start all false, one per cell of row 0's width in each
      row; the cells of a longer row past that width are never marked. */
  method Part1(trees: Grid) returns (ans: Option<nat>)
    ensures ans.Some? <==> Scannable(trees)
    ensures ans.Some? ==> ans.value == CountVisible(trees, |trees|)
  {
    if !Scannable(trees) {
      return None;
    }
    var included := new bool[|trees|, Width(trees)]((_, _) => false);
    for r := 0 to |trees|
      invariant forall x, y | 0 <= x < included.Length0 && 0 <= y < included.Length1 ::
        included[x, y] == (x < r && (FromLeft(trees, x, y) || FromRight(trees, x, y)))
    {
      ScanRow(trees, included, r);
    }
    for c := 0 to Width(trees)
      invariant forall x, y | 0 <= x < included.Length0 && 0 <= y < included.Length1 ::
        included[x, y] == (FromLeft(trees, x, y) || FromRight(trees, x, y) || (y < c && (FromTop(trees, x, y) || FromBottom(trees, x, y))))
    {
      ScanColumn(trees, included, c);
    }
    var count := 0;
    for x := 0 to |trees|
      invariant count == CountVisible(trees, x)
    {
      for y := 0 to Width(trees)
        invariant count == CountVisible(trees, x) + CountRow(trees, x, y)
      {
        if included[x, y] {
          count := count + 1;
        }
      }
    }
    return Some(count);
  }

  /** With no negative height (a digit grid), every tree on the border of
      the scanned rectangle is visible. */
  lemma BorderVisible(g: Grid, r: nat, c: nat)
    requires Scannable(g) && r < |g| && c < Width(g)
    requires forall x, y | 0 <= x < |g| && 0 <= y < |g[x]| :: g[x][y] >= 0
    requires r == 0 || c == 0 || r == |g| - 1 || c == Width(g) - 1
    ensures Visible(g, r, c)
  {
    assert g[r][c] >= 0;
  }

  /** At most one mark per cell of the scanned rectangle. */
  lemma {:induction false} CountBound(g: Grid, r: nat)
    requires Scannable(g) && r <= |g|
    ensures CountVisible(g, r) <= r * Width(g)
  {
    if r > 0 {
      CountBound(g, r - 1);
      RowBound(g, r - 1, Width(g));
      assert r * Width(g) == (r - 1) * Width(g) + Width(g);
    }
  }

  lemma {:induction false} RowBound(g: Grid, r: nat, c: nat)
    requires Scannable(g) && r < |g| && c <= Width(g)
    ensures CountRow(g, r, c) <= c
  {
    if c > 0 {
      RowBound(g, r, c - 1);
    }
  }

  // ---------------------------------------------------------------------
  // Part 2

  /** A cell of the grid, None past the end of a short row. */
  function Cell(g: Grid, x: nat, y: nat): Option<int>
    requires x < |g|
  {
    if y < |g[x]| then Some(g[x][y]) else None
  }

  /** The lines of sight from (i, j), nearest tree first. */
  function East(g: Grid, i: nat, j: nat): seq<Option<int>>
    requires i < |g| && j < |g[i]|
  {
    seq(|g[i]| - j - 1, k requires 0 <= k < |g[i]| - j - 1 => Some(g[i][j + 1 + k]))
  }

  function West(g: Grid, i: nat, j: nat): seq<Option<int>>
    requires i < |g| && j < |g[i]|
  {
    seq(j, k requires 0 <= k < j => Some(g[i][j - 1 - k]))
  }

  function South(g: Grid, i: nat, j: nat): seq<Option<int>>
    requires i < |g|
  {
    seq(|g| - i - 1, k requires 0 <= k < |g| - i - 1 => Cell(g, i + 1 + k, j))
  }

  function North(g: Grid, i: nat, j: nat): seq<Option<int>>
    requires i < |g|
  {
    seq(i, k requires 0 <= k < i => Cell(g, i - 1 - k, j))
  }

  /** The viewing distance from a tree of height h along a line of sight:
      one per tree up to and including the first at least as tall, or to
      the edge. None when the walk reaches a missing cell. */
  function Reach(h: int, line: seq<Option<int>>): Option<nat> {
    if line == [] then Some(0)
    else if line[0].None? then None
    else if h <= line[0].value then Some(1)
    else
      var rest := Reach(h, line[1..]);
      if rest.None? then None else Some(rest.value + 1)
  }

  /** Adding c to a distance, keeping a panic. */
  function Plus(d: Option<nat>, c: nat): Option<nat> {
    if d.None? then None else Some(d.value + c)
  }

  /** The scenic score of the tree at (i, j): the product of its four
      viewing distances. */
  function Score(g: Grid, i: nat, j: nat): Option<nat>
    requires i < |g| && j < |g[i]|
  {
    var h := g[i][j];
    var e := Reach(h, East(g, i, j));
    var w := Reach(h, West(g, i, j));
    var s := Reach(h, South(g, i, j));
    var n := Reach(h, North(g, i, j));
    if e.Some? && w.Some? && s.Some? && n.Some? then Some(Mul(Mul(Mul(e.value, w.value), s.value), n.value)) else None
  }

  function Mul(a: nat, b: nat): nat {
    a * b
  }

  /** The cells of row r, left to right. */
  function RowCells(g: Grid, r: nat): seq<(nat, nat)>
    requires r < |g|
  {
    seq(|g[r]|, j requires 0 <= j < |g[r]| => (r, j))
  }

  predicate InGrid(g: Grid, cs: seq<(nat, nat)>) {
    forall k | 0 <= k < |cs| :: cs[k].0 < |g| && cs[k].1 < |g[cs[k].0]|
  }

  /** The cells of the first r rows in the order part 2 visits them. */
  function CellsBefore(g: Grid, r: nat): (cs: seq<(nat, nat)>)
    requires r <= |g|
    ensures InGrid(g, cs)
  {
    if r == 0 then [] else CellsBefore(g, r - 1) + RowCells(g, r - 1)
  }

  /** The best score over the cells cs visited in order from 0, or None at
      the first cell whose walk panics. */
  function Best(g: Grid, cs: seq<(nat, nat)>): Option<nat>
    requires InGrid(g, cs)
  {
    if cs == [] then Some(0)
    else
      var before := Best(g, cs[..|cs| - 1]);
      var c := cs[|cs| - 1];
      var s := Score(g, c.0, c.1);
      if before.None? || s.None? then None else Some(Max(before.value, s.value))
  }

  /** One more cell: the larger of the best so far and its score. */
  lemma BestSnoc(g: Grid, cs: seq<(nat, nat)>, i: nat, j: nat)
    requires InGrid(g, cs) && i < |g| && j < |g[i]|
    ensures InGrid(g, cs + [(i, j)])
    ensures Best(g, cs + [(i, j)]) ==
      if Best(g, cs).None? || Score(g, i, j).None? then None else Some(Max(Best(g, cs).value, Score(g, i, j).value))
  {
    assert (cs + [(i, j)])[..|cs|] == cs;
  }

  lemma Extend<T>(done: seq<T>, row: seq<T>, j: nat)
    requires j < |row|
    ensures done + row[..j + 1] == (done + row[..j]) + [row[j]]
  {
    assert row[..j + 1] == row[..j] + [row[j]];
  }

  /** A panic among the first k cells is the panic of the whole walk. */
  lemma {:induction false} BestPrefixNone(g: Grid, cs: seq<(nat, nat)>, k: nat)
    requires InGrid(g, cs) && k <= |cs| && Best(g, cs[..k]).None?
    ensures Best(g, cs).None?
    decreases |cs|
  {
    if k < |cs| {
      assert cs[..|cs| - 1][..k] == cs[..k];
      BestPrefixNone(g, cs[..|cs| - 1], k);
    } else {
      assert cs[..k] == cs;
    }
  }

  /** The cells of the first r rows begin the cells of the first m. */
  lemma {:induction false} CellsPrefix(g: Grid, r: nat, m: nat)
    requires r <= m <= |g|
    ensures |CellsBefore(g, r)| <= |CellsBefore(g, m)|
    ensures CellsBefore(g, m)[..|CellsBefore(g, r)|] == CellsBefore(g, r)
    decreases m
  {
    if r < m {
      CellsPrefix(g, r, m - 1);
    }
  }

  lemma PanicStays(g: Grid, r: nat, k: nat)
    requires r <= |g| && k <= |CellsBefore(g, r)|
    requires Best(g, CellsBefore(g, r)[..k]).None?
    ensures Best(g, CellsBefore(g, |g|)).None?
  {
    CellsPrefix(g, r, |g|);
    assert CellsBefore(g, |g|)[..k] == CellsBefore(g, r)[..k];
    BestPrefixNone(g, CellsBefore(g, |g|), k);
  }

  /** The walk east of (i, j): the first `for` loop of part 2. */
  method LookEast(trees: Grid, i: nat, j: nat) returns (cnt: nat)
    requires i < |trees| && j < |trees[i]|
    ensures Reach(trees[i][j], East(trees, i, j)) == Some(cnt)
  {
    ghost var line := East(trees, i, j);
    ghost var h := trees[i][j];
    cnt := 0;
    for v := j + 1 to |trees[i]|
      invariant cnt == v - j - 1
      invariant Reach(h, line) == Plus(Reach(h, line[cnt..]), cnt)
    {
      assert line[cnt..][1..] == line[cnt + 1..];
      cnt := cnt + 1;
      if trees[i][j] <= trees[i][v] {
        return;
      }
    }
  }

  method LookWest(trees: Grid, i: nat, j: nat) returns (cnt: nat)
    requires i < |trees| && j < |trees[i]|
    ensures Reach(trees[i][j], West(trees, i, j)) == Some(cnt)
  {
    ghost var line := West(trees, i, j);
    ghost var h := trees[i][j];
    cnt := 0;
    var v := j;
    while v > 0
      invariant 0 <= v <= j && cnt == j - v
      invariant Reach(h, line) == Plus(Reach(h, line[cnt..]), cnt)
    {
      v := v - 1;
      assert line[cnt..][1..] == line[cnt + 1..];
      cnt := cnt + 1;
      if trees[i][j] <= trees[i][v] {
        return;
      }
    }
  }

  /** The walk south, which panics at a row too short for column j. */
  method LookSouth(trees: Grid, i: nat, j: nat) returns (cnt: Option<nat>)
    requires i < |trees| && j < |trees[i]|
    ensures Reach(trees[i][j], South(trees, i, j)) == cnt
  {
    ghost var line := South(trees, i, j);
    ghost var h := trees[i][j];
    var n := 0;
    for v := i + 1 to |trees|
      invariant n == v - i - 1
      invariant Reach(h, line) == Plus(Reach(h, line[n..]), n)
    {
      assert line[n..][1..] == line[n + 1..];
      assert line[n] == Cell(trees, v, j);
      n := n + 1;
      if j >= |trees[v]| {
        return None;
      }
      if trees[i][j] <= trees[v][j] {
        return Some(n);
      }
    }
    return Some(n);
  }

  method LookNorth(trees: Grid, i: nat, j: nat) returns (cnt: Option<nat>)
    requires i < |trees| && j < |trees[i]|
    ensures Reach(trees[i][j], North(trees, i, j)) == cnt
  {
    ghost var line := North(trees, i, j);
    ghost var h := trees[i][j];
    var n := 0;
    var v := i;
    while v > 0
      invariant 0 <= v <= i && n == i - v
      invariant Reach(h, line) == Plus(Reach(h, line[n..]), n)
    {
      v := v - 1;
      assert line[n..][1..] == line[n + 1..];
      assert line[n] == Cell(trees, v, j);
      n := n + 1;
      if j >= |trees[v]| {
        return None;
      }
      if trees[i][j] <= trees[v][j] {
        return Some(n);
      }
    }
    return Some(n);
  }

  /** The body of part 2's inner loop: the score of one tree. */
  method ScoreAt(trees: Grid, i: nat, j: nat) returns (s: Option<nat>)
    requires i < |trees| && j < |trees[i]|
    ensures s == Score(trees, i, j)
  {
    var cnt1 := LookEast(trees, i, j);
    var cnt2 := LookWest(trees, i, j);
    var cnt3 := LookSouth(trees, i, j);
    if cnt3.None? {
      return None;
    }
    var cnt4 := LookNorth(trees, i, j);
    if cnt4.None? {
      return None;
    }
    return Some(Mul(Mul(Mul(cnt1, cnt2), cnt3.value), cnt4.value));
  }

  /** part2: the best scenic score, 0 for an empty grid, or None when a
      column walk panics. */
  method Part2(trees: Grid) returns (ans: Option<nat>)
    ensures ans == Best(trees, CellsBefore(trees, |trees|))
  {
    var best := 0;
    for i := 0 to |trees|
      invariant Best(trees, CellsBefore(trees, i)) == Some(best)
    {
      var r := BestInRow(trees, i, best);
      if r.None? {
        ghost var cs := CellsBefore(trees, i + 1);
        assert cs[..|cs|] == cs;
        PanicStays(trees, i + 1, |cs|);
        return None;
      }
      best := r.value;
    }
    return Some(best);
  }

  /** Part 2's inner loop over row i, from the best score of the rows
      above. */
  method BestInRow(trees: Grid, i: nat, best: nat) returns (r: Option<nat>)
    requires i < |trees| && Best(trees, CellsBefore(trees, i)) == Some(best)
    ensures r == Best(trees, CellsBefore(trees, i + 1))
  {
    RowPrefixEnds(trees, i);
    var ans := best;
    for j := 0 to |trees[i]|
      invariant Best(trees, RowPrefix(trees, i, j)) == Some(ans)
    {
      RowPrefixStep(trees, i, j);
      var s := ScoreAt(trees, i, j);
      if s.None? {
        RowPrefixNone(trees, i, j + 1);
        return None;
      }
      ans := Max(ans, s.value);
    }
    return Some(ans);
  }

  /** The cells part 2 visits before column j of row i. */
  ghost function RowPrefix(g: Grid, i: nat, j: nat): (cs: seq<(nat, nat)>)
    requires i < |g| && j <= |g[i]|
    ensures InGrid(g, cs)
  {
    CellsBefore(g, i) + RowCells(g, i)[..j]
  }

  lemma RowPrefixEnds(g: Grid, i: nat)
    requires i < |g|
    ensures RowPrefix(g, i, 0) == CellsBefore(g, i)
    ensures RowPrefix(g, i, |g[i]|) == CellsBefore(g, i + 1)
  {
    assert RowCells(g, i)[..|g[i]|] == RowCells(g, i);
  }

  /** Visiting cell (i, j) takes the larger of the best so far and its
      score. */
  lemma RowPrefixStep(g: Grid, i: nat, j: nat)
    requires i < |g| && j < |g[i]|
    ensures Best(g, RowPrefix(g, i, j + 1)) ==
      if Best(g, RowPrefix(g, i, j)).None? || Score(g, i, j).None? then None
      else Some(Max(Best(g, RowPrefix(g, i, j)).value, Score(g, i, j).value))
  {
    Extend(CellsBefore(g, i), RowCells(g, i), j);
    BestSnoc(g, RowPrefix(g, i, j), i, j);
  }

  /** A panic within row i is the panic of the first i + 1 rows. */
  lemma RowPrefixNone(g: Grid, i: nat, j: nat)
    requires i < |g| && j <= |g[i]| && Best(g, RowPrefix(g, i, j)).None?
    ensures Best(g, CellsBefore(g, i + 1)).None?
  {
    var cs := CellsBefore(g, i + 1);
    assert cs[..|RowPrefix(g, i, j)|] == RowPrefix(g, i, j);
    BestPrefixNone(g, cs, |RowPrefix(g, i, j)|);
  }

  // ---------------------------------------------------------------------
  // What part 2 computes

  /** A viewing distance d counts the trees up to and including the first
      one at least as tall (every tree before it is shorter), or every tree
      to the edge. */
  lemma {:induction false} ReachMeaning(h: int, line: seq<Option<int>>)
    requires Reach(h, line).Some?
    ensures var d := Reach(h, line).value;
      && d <= |line|
      && (forall k | 0 <= k < d :: line[k].Some?)
      && (forall k | 0 <= k < d - 1 :: line[k].value < h)
      && (d < |line| ==> d > 0 && h <= line[d - 1].value)
  {
    if line != [] && h > line[0].value {
      ReachMeaning(h, line[1..]);
      var d := Reach(h, line).value;
      forall k | 1 <= k < d
        ensures line[k] == line[1..][k - 1]
      {
      }
    }
  }

  /** A walk over cells that all exist never panics. */
  lemma {:induction false} ReachTotal(h: int, line: seq<Option<int>>)
    requires forall k | 0 <= k < |line| :: line[k].Some?
    ensures Reach(h, line).Some?
  {
    if line != [] {
      assert forall k | 0 <= k < |line| - 1 :: line[1..][k] == line[k + 1];
      ReachTotal(h, line[1..]);
    }
  }

  /** A tree on the edge of the grid looks over no tree in one direction,
      so its score is 0. */
  lemma BorderScore(g: Grid, i: nat, j: nat)
    requires i < |g| && j < |g[i]| && Score(g, i, j).Some?
    requires i == 0 || j == 0 || i == |g| - 1 || j == |g[i]| - 1
    ensures Score(g, i, j).value == 0
  {
    var h := g[i][j];
    var e := Reach(h, East(g, i, j)).value;
    var w := Reach(h, West(g, i, j)).value;
    var s := Reach(h, South(g, i, j)).value;
    var n := Reach(h, North(g, i, j)).value;
    assert e == 0 || w == 0 || s == 0 || n == 0;
  }

  /** Every row as long as the first. */
  predicate Rectangular(g: Grid) {
    forall r | 0 <= r < |g| :: |g[r]| == |g[0]|
  }

  /** On a rectangular grid no walk panics. */
  lemma ScoreTotal(g: Grid, i: nat, j: nat)
    requires Rectangular(g) && i < |g| && j < |g[i]|
    ensures Score(g, i, j).Some?
  {
    var h := g[i][j];
    ReachTotal(h, East(g, i, j));
    ReachTotal(h, West(g, i, j));
    var south, north := South(g, i, j), North(g, i, j);
    forall k | 0 <= k < |south|
      ensures south[k].Some?
    {
      assert |g[i + 1 + k]| == |g[i]|;
      assert south[k] == Cell(g, i + 1 + k, j);
    }
    forall k | 0 <= k < |north|
      ensures north[k].Some?
    {
      assert |g[i - 1 - k]| == |g[i]|;
      assert north[k] == Cell(g, i - 1 - k, j);
    }
    ReachTotal(h, south);
    ReachTotal(h, north);
  }

  /** The best score bounds every visited score and, unless it is the
      starting 0, is one of them; it is None exactly when one of them is. */
  lemma BestMeaning(g: Grid, cs: seq<(nat, nat)>)
    requires InGrid(g, cs)
    ensures Best(g, cs).Some? <==> forall k | 0 <= k < |cs| :: Score(g, cs[k].0, cs[k].1).Some?
    ensures Best(g, cs).Some? ==>
      var a := Best(g, cs).value;
      && (forall k | 0 <= k < |cs| :: Score(g, cs[k].0, cs[k].1).value <= a)
      && (a == 0 || exists k | 0 <= k < |cs| :: Score(g, cs[k].0, cs[k].1) == Some(a))
  {
    BestNone(g, cs);
    if Best(g, cs).Some? {
      BestBounds(g, cs);
    }
  }

  /** The walk panics exactly when one of its cells does. */
  lemma {:induction false} BestNone(g: Grid, cs: seq<(nat, nat)>)
    requires InGrid(g, cs)
    ensures Best(g, cs).Some? <==> forall k | 0 <= k < |cs| :: Score(g, cs[k].0, cs[k].1).Some?
  {
    if cs != [] {
      var init := cs[..|cs| - 1];
      BestNone(g, init);
      assert forall k | 0 <= k < |init| :: init[k] == cs[k];
    }
  }

  /** A best score that exists bounds every score and is one of them
      unless it is the starting 0. */
  lemma {:induction false} BestBounds(g: Grid, cs: seq<(nat, nat)>)
    requires InGrid(g, cs) && Best(g, cs).Some?
    ensures var a := Best(g, cs).value;
      && (forall k | 0 <= k < |cs| :: Score(g, cs[k].0, cs[k].1).Some? && Score(g, cs[k].0, cs[k].1).value <= a)
      && (a == 0 || exists k | 0 <= k < |cs| :: Score(g, cs[k].0, cs[k].1) == Some(a))
  {
    if cs != [] {
      var init := cs[..|cs| - 1];
      BestBounds(g, init);
      assert forall k | 0 <= k < |init| :: init[k] == cs[k];
      var a := Best(g, cs).value;
      if a != 0 && Best(g, init).value == a {
        var k :| 0 <= k < |init| && Score(g, init[k].0, init[k].1) == Some(a);
        assert cs[k] == init[k];
      }
    }
  }

  /** On a rectangular grid part 2 answers the largest score of all trees
      (0 for an empty grid). */
  lemma Part2Meaning(g: Grid)
    requires Rectangular(g)
    ensures var cs := CellsBefore(g, |g|);
      && Best(g, cs).Some?
      && (forall k | 0 <= k < |cs| :: Score(g, cs[k].0, cs[k].1).Some? && Score(g, cs[k].0, cs[k].1).value <= Best(g, cs).value)
  {
    var cs := CellsBefore(g, |g|);
    forall k | 0 <= k < |cs|
      ensures Score(g, cs[k].0, cs[k].1).Some?
    {
      ScoreTotal(g, cs[k].0, cs[k].1);
    }
    BestMeaning(g, cs);
  }
}
