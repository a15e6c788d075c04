/** Day 5 of 2022 (2022/day5.rs): supply stacks. Nine stacks of crates,
    each a string whose last character is the top crate, are rearranged by
    lines such as `move 3 from 1 to 2`. The crane of part 1 moves one crate
    at a time; the crane of part 2 moves the whole block at once. The answer
    is the top crate of each stack. A line without three numbers, a stack
    number of 0 or above 9, or a move of more crates than the stack holds
    makes the code panic; here that is a `None` answer. */
module Day5 {
  import opened Results
  import opened TextNum

  const STACKS: nat := 9
  const USIZE_MAX: int := 0xFFFF_FFFF_FFFF_FFFF

  /** A move, with `from` and `to` already turned into 0-based indices. */
  datatype Move = Move(count: nat, from: nat, to: nat)

  /** create_initial_stack: the puzzle's starting stacks, bottom first. */
  function Initial(): (s: seq<string>)
    ensures |s| == STACKS
  {
    ["FCPGQR", "WTCP", "BHPMC", "LTQSMPR", "PHJZVGN", "DPJ", "LGPZFJTR", "NLHCFPTJ", "GVZQHTCW"]
  }

  method CreateInitialStack() returns (stacks: array<string>)
    ensures fresh(stacks) && stacks[..] == Initial()
  {
    stacks := new string[STACKS];
    stacks[0], stacks[1], stacks[2] := "FCPGQR", "WTCP", "BHPMC";
    stacks[3], stacks[4], stacks[5] := "LTQSMPR", "PHJZVGN", "DPJ";
    stacks[6], stacks[7], stacks[8] := "LGPZFJTR", "NLHCFPTJ", "GVZQHTCW";
  }

  /** The tokens that parse as a `usize`, in order (the `filter_map`). */
  function Numbers(tokens: seq<string>): seq<nat> {
    if tokens == [] then []
    else
      var v := ParseInt(tokens[0], 0, USIZE_MAX);
      (if v.Some? then [v.value as nat] else []) + Numbers(tokens[1..])
  }

  /** parse_move: the first three numbers of the line split at spaces are
      the count and the 1-based stack numbers; fewer than three numbers, or
      a stack number 0 (whose `- 1` underflows), is a panic. */
  function ParseMove(line: string): Option<Move> {
    var nums := Numbers(Split(line, ' '));
    if |nums| < 3 || nums[1] == 0 || nums[2] == 0 then None
    else Some(Move(nums[0], nums[1] - 1, nums[2] - 1))
  }

  /** One crate of part 1: the top of `from` is pushed onto `to`, then
      popped from `from` (so with from == to nothing changes). An index
      past the stacks or an empty `from` is a panic. */
  function Step(s: seq<string>, from: nat, to: nat): (r: Option<seq<string>>)
    ensures r.Some? ==> |r.value| == |s|
  {
    if from >= |s| || to >= |s| || s[from] == [] then None
    else
      var top := s[from][|s[from]| - 1];
      var pushed := s[to := s[to] + [top]];
      Some(pushed[from := pushed[from][..|pushed[from]| - 1]])
  }

  /** n crates of part 1, one at a time. */
  function Repeat(s: seq<string>, from: nat, to: nat, n: nat): (r: Option<seq<string>>)
    ensures r.Some? ==> |r.value| == |s|
    decreases n
  {
    if n == 0 then Some(s)
    else
      var next := Step(s, from, to);
      if next.None? then None else Repeat(next.value, from, to, n - 1)
  }

  /** Part 1's move. */
  function Crane1(s: seq<string>, m: Move): (r: Option<seq<string>>)
    ensures r.Some? ==> |r.value| == |s|
  {
    Repeat(s, m.from, m.to, m.count)
  }

  /** Part 2's move: the last `count` crates of `from` are appended to `to`,
      then `from` is truncated by `count`. Indices past the stacks, or a
      count above the height of `from`, are a panic. */
  function Crane2(s: seq<string>, m: Move): (r: Option<seq<string>>)
    ensures r.Some? ==> |r.value| == |s|
  {
    if m.from >= |s| || m.to >= |s| || m.count > |s[m.from]| then None
    else
      var block := s[m.from][|s[m.from]| - m.count..];
      var appended := s[m.to := s[m.to] + block];
      Some(appended[m.from := appended[m.from][..|appended[m.from]| - m.count]])
  }

  function Apply(s: seq<string>, m: Move, part2: bool): (r: Option<seq<string>>)
    ensures r.Some? ==> |r.value| == |s|
  {
    if part2 then Crane2(s, m) else Crane1(s, m)
  }

  /** The stacks after the lines, from the initial stacks, or None on a panic. */
  function Run(lines: seq<string>, part2: bool): (r: Option<seq<string>>)
    ensures r.Some? ==> |r.value| == STACKS
  {
    if lines == [] then Some(Initial())
    else
      var before := Run(lines[..|lines| - 1], part2);
      if before.None? then None
      else
        var m := ParseMove(lines[|lines| - 1]);
        if m.None? then None else Apply(before.value, m.value, part2)
  }

  /** The last character of each stack. */
  function Lasts(s: seq<string>): (r: string)
    requires forall i | 0 <= i < |s| :: s[i] != []
    ensures |r| == |s|
  {
    if s == [] then [] else Lasts(s[..|s| - 1]) + [s[|s| - 1][|s[|s| - 1]| - 1]]
  }

  /** The printed answer: the top of each stack, or None when a stack is
      empty (the `unwrap` panics). */
  function Tops(s: seq<string>): Option<string> {
    if exists i | 0 <= i < |s| :: s[i] == [] then None else Some(Lasts(s))
  }

  /** What part1 (part2 = false) or part2 (part2 = true) prints. */
  function Answer(lines: seq<string>, part2: bool): Option<string> {
    var s := Run(lines, part2);
    if s.None? then None else Tops(s.value)
  }

  /** Part 1's inner loop: one crate at a time; false on a panic. */
  method CraneOne(stacks: array<string>, m: Move) returns (ok: bool)
    modifies stacks
    ensures ok <==> Crane1(old(stacks[..]), m).Some?
    ensures ok ==> stacks[..] == Crane1(old(stacks[..]), m).value
  {
    for k := 0 to m.count
      invariant Crane1(old(stacks[..]), m) == Repeat(stacks[..], m.from, m.to, m.count - k)
    {
      if m.from >= stacks.Length || m.to >= stacks.Length || stacks[m.from] == [] {
        return false;
      }
      var source := stacks[m.from];
      stacks[m.to] := stacks[m.to] + [source[|source| - 1]];
      var popped := stacks[m.from];
      stacks[m.from] := popped[..|popped| - 1];
    }
    return true;
  }

  /** Part 2's block move; false on a panic. */
  method CraneBlock(stacks: array<string>, m: Move) returns (ok: bool)
    modifies stacks
    ensures ok <==> Crane2(old(stacks[..]), m).Some?
    ensures ok ==> stacks[..] == Crane2(old(stacks[..]), m).value
  {
    if m.from >= stacks.Length || m.to >= stacks.Length || m.count > |stacks[m.from]| {
      return false;
    }
    var source := stacks[m.from];
    var block := source[|source| - m.count..];
    stacks[m.to] := stacks[m.to] + block;
    var v := stacks[m.from];
    stacks[m.from] := v[..|v| - m.count];
    return true;
  }

  /** The printing loop: the top of each stack, or None on an empty one. */
  method ReadTops(stacks: array<string>) returns (r: Option<string>)
    ensures r == Tops(stacks[..])
  {
    var out := "";
    for i := 0 to stacks.Length
      invariant forall j | 0 <= j < i :: stacks[j] != []
      invariant out == Lasts(stacks[..i])
    {
      if stacks[i] == [] {
        return None;
      }
      assert stacks[..i + 1][..i] == stacks[..i];
      out := out + [stacks[i][|stacks[i]| - 1]];
    }
    assert stacks[..stacks.Length] == stacks[..];
    r := Some(out);
  }

  /** One pass of the line loop of part1/part2: parse the move and run the
      crane on the array; false where the code panics. */
  method ReplayLine(stacks: array<string>, lines: seq<string>, i: nat, part2: bool) returns (ok: bool)
    requires i < |lines| && Run(lines[..i], part2) == Some(stacks[..])
    modifies stacks
    ensures ok <==> Run(lines[..i + 1], part2).Some?
    ensures ok ==> Run(lines[..i + 1], part2) == Some(stacks[..])
  {
    assert lines[..i + 1][..i] == lines[..i];
    var m := ParseMove(lines[i]);
    if m.None? {
      return false;
    }
    if part2 {
      ok := CraneBlock(stacks, m.value);
    } else {
      ok := CraneOne(stacks, m.value);
    }
  }

  /** part1 (part2 = false) and part2 (part2 = true). */
  method Solve(lines: seq<string>, part2: bool) returns (r: Option<string>)
    ensures r == Answer(lines, part2)
  {
    var stacks := CreateInitialStack();
    for i := 0 to |lines|
      invariant fresh(stacks)
      invariant Run(lines[..i], part2) == Some(stacks[..])
    {
      var ok := ReplayLine(stacks, lines, i, part2);
      if !ok {
        RunNoneUp(lines, i + 1, part2);
        return None;
      }
    }
    assert lines[..|lines|] == lines;
    r := ReadTops(stacks);
  }

  /** A panic at some line is the outcome of the whole run. */
  lemma {:induction false} RunNoneUp(lines: seq<string>, k: nat, part2: bool)
    requires k <= |lines| && Run(lines[..k], part2).None?
    ensures Run(lines, part2).None?
    decreases |lines| - k
  {
    if k < |lines| {
      assert lines[..k + 1][..k] == lines[..k];
      RunNoneUp(lines, k + 1, part2);
    } else {
      assert lines[..k] == lines;
    }
  }

  // ---------------------------------------------------------------------
  // Properties of the two cranes

  function Reverse(s: string): (r: string)
    ensures |r| == |s|
  {
    if s == [] then [] else [s[|s| - 1]] + Reverse(s[..|s| - 1])
  }

  /** The number of crates on all stacks. */
  function Total(s: seq<string>): nat {
    if s == [] then 0 else Total(s[..|s| - 1]) + |s[|s| - 1]|
  }

  /** Moving n crates one at a time between two different stacks takes the
      top n crates of `from` and puts them on `to` in reverse order. */
  lemma {:induction false} RepeatReverses(s: seq<string>, from: nat, to: nat, n: nat)
    requires from < |s| && to < |s| && from != to && n <= |s[from]|
    ensures Repeat(s, from, to, n) ==
      Some(s[from := s[from][..|s[from]| - n]][to := s[to] + Reverse(s[from][|s[from]| - n..])])
    decreases n
  {
    var len := |s[from]|;
    if n == 0 {
      assert s[from][len - 0..] == [];
      assert s[from][..len] == s[from];
      assert s[to] + [] == s[to];
      assert s[from := s[from]][to := s[to]] == s;
    } else {
      var top := s[from][len - 1];
      var next := s[to := s[to] + [top]][from := s[from][..len - 1]];
      assert Step(s, from, to) == Some(next);
      assert Repeat(s, from, to, n) == Repeat(next, from, to, n - 1);
      RepeatReverses(next, from, to, n - 1);
      ReversesStep(s, from, to, n);
    }
  }

  /** The stacks after one more crate agree with moving the reversed block. */
  lemma ReversesStep(s: seq<string>, from: nat, to: nat, n: nat)
    requires from < |s| && to < |s| && from != to && 0 < n <= |s[from]|
    ensures var len := |s[from]|;
      var next := s[to := s[to] + [s[from][len - 1]]][from := s[from][..len - 1]];
      next[from := next[from][..|next[from]| - (n - 1)]][to := next[to] + Reverse(next[from][|next[from]| - (n - 1)..])]
      == s[from := s[from][..len - n]][to := s[to] + Reverse(s[from][len - n..])]
  {
    var len := |s[from]|;
    var top := s[from][len - 1];
    var next := s[to := s[to] + [top]][from := s[from][..len - 1]];
    var block := s[from][len - n..];
    var kept := s[from][..len - n];
    assert next[from][|next[from]| - (n - 1)..] == block[..n - 1];
    assert next[from][..|next[from]| - (n - 1)] == kept;
    assert Reverse(block) == [top] + Reverse(block[..n - 1]);
    assert next[to] + Reverse(block[..n - 1]) == s[to] + Reverse(block);
    var grown := s[to] + Reverse(block);
    assert next[from := kept][to := grown] == s[from := kept][to := grown];
  }

  /** Part 1 with from != to: the block arrives reversed, `from` loses it,
      and no other stack changes; a block taller than `from` is a panic. */
  lemma Part1Move(s: seq<string>, m: Move)
    requires m.from < |s| && m.to < |s| && m.from != m.to
    ensures m.count <= |s[m.from]| ==>
      var len := |s[m.from]|;
      Crane1(s, m) ==
        Some(s[m.from := s[m.from][..len - m.count]][m.to := s[m.to] + Reverse(s[m.from][len - m.count..])])
    ensures m.count > |s[m.from]| ==> Crane1(s, m).None?
  {
    if m.count <= |s[m.from]| {
      RepeatReverses(s, m.from, m.to, m.count);
    } else {
      var len := |s[m.from]|;
      RepeatReverses(s, m.from, m.to, len);
      var emptied := Repeat(s, m.from, m.to, len).value;
      assert emptied[m.from] == [];
      RepeatEmpty(s, emptied, m.from, m.to, len, m.count);
    }
  }

  lemma RepeatInRange(s: seq<string>, from: nat, to: nat, n: nat)
    requires n > 0 && Repeat(s, from, to, n).Some?
    ensures from < |s| && to < |s|
  {
  }

  /** Once `from` is empty after k crates, any further crate is a panic. */
  lemma {:induction false} RepeatEmpty(s: seq<string>, t: seq<string>, from: nat, to: nat, k: nat, n: nat)
    requires k < n && Repeat(s, from, to, k) == Some(t) && from < |t| && t[from] == []
    ensures Repeat(s, from, to, n).None?
    decreases k
  {
    RepeatSplit(s, from, to, k, n - k);
  }

  /** k crates, then n more, are k + n crates. */
  lemma {:induction false} RepeatSplit(s: seq<string>, from: nat, to: nat, k: nat, n: nat)
    ensures Repeat(s, from, to, k + n) ==
      var mid := Repeat(s, from, to, k);
      if mid.None? then None else Repeat(mid.value, from, to, n)
    decreases k
  {
    if k > 0 {
      var next := Step(s, from, to);
      if next.Some? {
        RepeatSplit(next.value, from, to, k - 1, n);
      }
    }
  }

  /** Part 2 with from != to: the block arrives in its original order,
      `from` loses it, and no other stack changes. */
  lemma Part2Move(s: seq<string>, m: Move)
    requires m.from < |s| && m.to < |s| && m.from != m.to && m.count <= |s[m.from]|
    ensures var len := |s[m.from]|;
      Crane2(s, m) ==
        Some(s[m.from := s[m.from][..len - m.count]][m.to := s[m.to] + s[m.from][len - m.count..]])
  {
    var len := |s[m.from]|;
    var kept, grown := s[m.from][..len - m.count], s[m.to] + s[m.from][len - m.count..];
    assert s[m.to := grown][m.from := kept] == s[m.from := kept][m.to := grown];
  }

  /** A move within one stack leaves the stacks as they are; part 1 still
      panics on an empty stack with a non-zero count, part 2 on a count
      above the height. */
  lemma SameStack(s: seq<string>, m: Move)
    requires m.from < |s| && m.from == m.to
    ensures Crane1(s, m) == if m.count == 0 || s[m.from] != [] then Some(s) else None
    ensures Crane2(s, m) == if m.count <= |s[m.from]| then Some(s) else None
  {
    SameStackRepeat(s, m.from, m.count);
    if m.count <= |s[m.from]| {
      var len := |s[m.from]|;
      var appended := s[m.from := s[m.from] + s[m.from][len - m.count..]];
      assert appended[m.from][..|appended[m.from]| - m.count] == s[m.from];
      assert appended[m.from := s[m.from]] == s;
    }
  }

  lemma {:induction false} SameStackRepeat(s: seq<string>, i: nat, n: nat)
    requires i < |s|
    ensures Repeat(s, i, i, n) == if n == 0 || s[i] != [] then Some(s) else None
  {
    if n > 0 && s[i] != [] {
      var pushed := s[i := s[i] + [s[i][|s[i]| - 1]]];
      assert pushed[i][..|pushed[i]| - 1] == s[i];
      assert pushed[i := s[i]] == s;
      SameStackRepeat(s, i, n - 1);
    }
  }

  /** With one crate the two cranes agree, panics included. */
  lemma SingleCrate(s: seq<string>, m: Move)
    requires m.count == 1
    ensures Crane1(s, m) == Crane2(s, m)
  {
    if m.from < |s| && m.to < |s| && s[m.from] != [] {
      var len := |s[m.from]|;
      assert s[m.from][len - 1..] == [s[m.from][len - 1]];
      var next := Step(s, m.from, m.to).value;
      assert Repeat(next, m.from, m.to, 0) == Some(next);
    }
  }

  lemma {:induction false} TotalUpdate(s: seq<string>, i: nat, x: string)
    requires i < |s|
    ensures Total(s[i := x]) + |s[i]| == Total(s) + |x|
  {
    if i < |s| - 1 {
      TotalUpdate(s[..|s| - 1], i, x);
      assert s[i := x][..|s| - 1] == s[..|s| - 1][i := x];
    } else {
      assert s[i := x][..|s| - 1] == s[..|s| - 1];
    }
  }

  /** Taking the top of `from` down to `k` crates and putting `moved`, as
      many crates, on `to` keeps the total and every other stack. */
  lemma ShiftConserves(s: seq<string>, from: nat, to: nat, k: nat, moved: string, r: seq<string>)
    requires from < |s| && to < |s| && from != to
    requires k <= |s[from]| && |moved| == |s[from]| - k
    requires r == s[from := s[from][..k]][to := s[to] + moved]
    ensures Total(r) == Total(s)
    ensures forall i | 0 <= i < |s| && i != from && i != to :: r[i] == s[i]
  {
    var t := s[from := s[from][..k]];
    TotalUpdate(s, from, s[from][..k]);
    TotalUpdate(t, to, s[to] + moved);
  }

  /** The new crane between two different stacks. */
  lemma Crane2Shift(s: seq<string>, m: Move)
    requires m.from < |s| && m.to < |s| && m.from != m.to && m.count <= |s[m.from]|
    ensures Total(Crane2(s, m).value) == Total(s)
    ensures forall i | 0 <= i < |s| && i != m.from && i != m.to :: Crane2(s, m).value[i] == s[i]
  {
    Part2Move(s, m);
    var len := |s[m.from]|;
    ShiftConserves(s, m.from, m.to, len - m.count, s[m.from][len - m.count..], Crane2(s, m).value);
  }

  /** The new crane conserves crates and touches only `from` and `to`. */
  lemma Crane2Conserves(s: seq<string>, m: Move)
    requires Crane2(s, m).Some?
    ensures Total(Crane2(s, m).value) == Total(s)
    ensures forall i | 0 <= i < |s| && i != m.from && i != m.to :: Crane2(s, m).value[i] == s[i]
  {
    if m.from == m.to {
      SameStack(s, m);
    } else {
      Crane2Shift(s, m);
    }
  }

  /** The old crane between two different stacks. */
  lemma Crane1Shift(s: seq<string>, m: Move)
    requires m.from < |s| && m.to < |s| && m.from != m.to && Crane1(s, m).Some?
    ensures Total(Crane1(s, m).value) == Total(s)
    ensures forall i | 0 <= i < |s| && i != m.from && i != m.to :: Crane1(s, m).value[i] == s[i]
  {
    Part1Move(s, m);
    var len := |s[m.from]|;
    ShiftConserves(s, m.from, m.to, len - m.count, Reverse(s[m.from][len - m.count..]), Crane1(s, m).value);
  }

  /** The old crane conserves crates and touches only `from` and `to`. */
  lemma Crane1Conserves(s: seq<string>, m: Move)
    requires Crane1(s, m).Some?
    ensures Total(Crane1(s, m).value) == Total(s)
    ensures forall i | 0 <= i < |s| && i != m.from && i != m.to :: Crane1(s, m).value[i] == s[i]
  {
    if m.count == 0 {
      assert Crane1(s, m) == Some(s);
    } else {
      RepeatInRange(s, m.from, m.to, m.count);
      if m.from == m.to {
        SameStack(s, m);
      } else {
        Crane1Shift(s, m);
      }
    }
  }

  /** Neither crane loses or creates crates, and neither touches a stack
      other than `from` and `to`. */
  lemma MoveConserves(s: seq<string>, m: Move, part2: bool)
    requires Apply(s, m, part2).Some?
    ensures Total(Apply(s, m, part2).value) == Total(s)
    ensures forall i | 0 <= i < |s| && i != m.from && i != m.to :: Apply(s, m, part2).value[i] == s[i]
  {
    if part2 {
      Crane2Conserves(s, m);
    } else {
      Crane1Conserves(s, m);
    }
  }

  /** The answer holds the top crate of every stack, in stack order, and
      exists exactly when no stack is empty. */
  lemma {:induction false} TopsMeaning(s: seq<string>)
    ensures Tops(s).Some? <==> forall i | 0 <= i < |s| :: s[i] != []
    ensures Tops(s).Some? ==>
      |Tops(s).value| == |s| && forall i | 0 <= i < |s| :: Tops(s).value[i] == s[i][|s[i]| - 1]
  {
    if Tops(s).Some? && s != [] {
      var init := s[..|s| - 1];
      TopsMeaning(init);
      assert Tops(init).Some?;
    }
  }

  /** The text of a well-formed move line. */
  function MoveLine(count: nat, from: nat, to: nat): string {
    "move" + [' '] + (Decimal(count) + [' '] + ("from" + [' '] +
      (Decimal(from) + [' '] + ("to" + [' '] + Decimal(to)))))
  }

  /** The pieces of `f to t` for two numbers f and t. */
  lemma TailTokens(from: nat, to: nat)
    ensures Split(Decimal(from) + [' '] + ("to" + [' '] + Decimal(to)), ' ') == [Decimal(from), "to", Decimal(to)]
  {
    DecimalNoSpace(from);
    DecimalNoSpace(to);
    SplitNone(Decimal(to), ' ');
    SplitAt("to", ' ', Decimal(to));
    SplitAt(Decimal(from), ' ', "to" + [' '] + Decimal(to));
  }

  /** The pieces of a well-formed move line split at spaces. */
  lemma MoveTokens(count: nat, from: nat, to: nat)
    ensures Split(MoveLine(count, from, to), ' ') ==
      ["move", Decimal(count), "from", Decimal(from), "to", Decimal(to)]
  {
    var c := Decimal(count);
    var rest2 := Decimal(from) + [' '] + ("to" + [' '] + Decimal(to));
    var rest1 := "from" + [' '] + rest2;
    var rest0 := c + [' '] + rest1;
    DecimalNoSpace(count);
    TailTokens(from, to);
    SplitAt("from", ' ', rest2);
    SplitAt(c, ' ', rest1);
    SplitAt("move", ' ', rest0);
  }

  /** A word that is not a number followed by the decimal text of n. */
  lemma NumbersPair(w: string, n: nat, rest: seq<string>)
    requires ParseInt(w, 0, USIZE_MAX) == None && n <= USIZE_MAX
    ensures Numbers([w, Decimal(n)] + rest) == [n] + Numbers(rest)
  {
    ParseIntDecimal(n, 0, USIZE_MAX);
    var tokens := [w, Decimal(n)] + rest;
    assert tokens[1..] == [Decimal(n)] + rest;
    assert tokens[1..][1..] == rest;
  }

  /** The numbers among the pieces of a well-formed move line. */
  lemma MoveNumbers(count: nat, from: nat, to: nat)
    requires count <= USIZE_MAX && from <= USIZE_MAX && to <= USIZE_MAX
    ensures Numbers(["move", Decimal(count), "from", Decimal(from), "to", Decimal(to)]) == [count, from, to]
  {
    var last: seq<string> := ["to", Decimal(to)];
    var tail: seq<string> := ["from", Decimal(from)] + last;
    ParseIntRefuses("move", 0, USIZE_MAX);
    ParseIntRefuses("from", 0, USIZE_MAX);
    ParseIntRefuses("to", 0, USIZE_MAX);
    NumbersPair("to", to, []);
    assert last == ["to", Decimal(to)] + [];
    NumbersPair("from", from, last);
    NumbersPair("move", count, tail);
    assert ["move", Decimal(count), "from", Decimal(from), "to", Decimal(to)] == ["move", Decimal(count)] + tail;
  }

  /** `move c from f to t` is read as c crates from stack f - 1 to stack
      t - 1, for stack numbers from 1 up. */
  lemma ParseMoveLine(count: nat, from: nat, to: nat)
    requires count <= USIZE_MAX && 1 <= from <= USIZE_MAX && 1 <= to <= USIZE_MAX
    ensures ParseMove(MoveLine(count, from, to)) == Some(Move(count, from - 1, to - 1))
  {
    MoveTokens(count, from, to);
    MoveNumbers(count, from, to);
  }
}
