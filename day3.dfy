/** Day 3 of 2022 (2022/day3.rs): rucksack priorities. Item types are the
    letters; a–z have priorities 1–26 and A–Z 27–52 (the index into the
    52-entry count arrays, plus one). Part 1 adds, per line, the priorities
    of the types found in both halves of the line; part 2 adds, per group
    of three lines, the priorities of the types found in all three. */
module Day3 {
  const TYPES: nat := 52

  predicate IsLetter(c: char) {
    'a' <= c <= 'z' || 'A' <= c <= 'Z'
  }

  predicate AllLetters(s: string) {
    forall k | 0 <= k < |s| :: IsLetter(s[k])
  }

  /** The count-array index of a letter: `c - b'A' + 26`, replaced by
      `c - b'a'` for a lower-case letter. */
  function Index(c: char): (i: nat)
    requires IsLetter(c)
    ensures i < TYPES
  {
    if 'a' <= c <= 'z' then (c as int - 'a' as int) as nat else (c as int - 'A' as int + 26) as nat
  }

  /** How many characters of s are of type i. */
  function Count(s: string, i: nat): nat
    requires AllLetters(s)
  {
    if s == [] then 0
    else Count(s[..|s| - 1], i) + if Index(s[|s| - 1]) == i then 1 else 0
  }

  /** The types present in s. */
  function Types(s: string): set<nat>
    requires AllLetters(s)
  {
    set k | 0 <= k < |s| :: Index(s[k])
  }

  /** The sum of the priorities i + 1 of the types i < n in the set. */
  function PrioritySum(types: set<nat>, n: nat): nat {
    if n == 0 then 0 else PrioritySum(types, n - 1) + if n - 1 in types then n else 0
  }

  /** What one line adds in part 1. */
  function LineCommon(line: string): nat
    requires AllLetters(line)
  {
    var h := |line| / 2;
    PrioritySum(Types(line[..h]) * Types(line[h..]), TYPES)
  }

  /** What one group of three lines adds in part 2. */
  function GroupCommon(a: string, b: string, c: string): nat
    requires AllLetters(a) && AllLetters(b) && AllLetters(c)
  {
    PrioritySum(Types(a) * Types(b) * Types(c), TYPES)
  }

  predicate AllLines(lines: seq<string>) {
    forall k | 0 <= k < |lines| :: AllLetters(lines[k])
  }

  function Part1Sum(lines: seq<string>): nat
    requires AllLines(lines)
  {
    if lines == [] then 0 else Part1Sum(lines[..|lines| - 1]) + LineCommon(lines[|lines| - 1])
  }

  /** The sum over the complete groups of three; a trailing incomplete
      group adds nothing. */
  function Part2Sum(lines: seq<string>): nat
    requires AllLines(lines)
    decreases |lines|
  {
    if |lines| < 3 then 0 else GroupCommon(lines[0], lines[1], lines[2]) + Part2Sum(lines[3..])
  }

  /** increment_storage: exactly one counter of exactly one array grows. */
  method IncrementStorage(idx: nat, first: array<int>, second: array<int>, firstHalf: bool)
    requires idx < first.Length && idx < second.Length && first != second
    modifies first, second
    ensures firstHalf ==> first[..] == old(first[..])[idx := old(first[idx]) + 1] && second[..] == old(second[..])
    ensures !firstHalf ==> second[..] == old(second[..])[idx := old(second[idx]) + 1] && first[..] == old(first[..])
  {
    if firstHalf {
      first[idx] := first[idx] + 1;
    } else {
      second[idx] := second[idx] + 1;
    }
  }

  /** The body of part 1's loop for one line. */
  method LinePriority(line: string) returns (sum: nat)
    requires AllLetters(line)
    ensures sum == LineCommon(line)
  {
    var h := |line| / 2;
    var first, second := CountHalves(line);
    sum := 0;
    for i := 0 to TYPES
      invariant sum == PrioritySum(Types(line[..h]) * Types(line[h..]), i)
      invariant forall j | 0 <= j < TYPES :: first[j] == Count(line[..h], j) && second[j] == Count(line[h..], j)
    {
      CountPositive(line[..h], i);
      CountPositive(line[h..], i);
      if first[i] != 0 && second[i] != 0 {
        sum := sum + i + 1;
      }
    }
  }

  /** Part 1's counting loop: the first half of the line into `first`, the
      rest into `second`. */
  method CountHalves(line: string) returns (first: array<int>, second: array<int>)
    requires AllLetters(line)
    ensures first.Length == TYPES && second.Length == TYPES
    ensures forall i | 0 <= i < TYPES :: first[i] == Count(line[..|line| / 2], i)
    ensures forall i | 0 <= i < TYPES :: second[i] == Count(line[|line| / 2..], i)
  {
    first := new int[TYPES](_ => 0);
    second := new int[TYPES](_ => 0);
    var h := |line| / 2;
    var count := 0;
    while count < |line|
      invariant 0 <= count <= |line|
      invariant forall i | 0 <= i < TYPES :: first[i] == Count(line[..if count < h then count else h], i)
      invariant forall i | 0 <= i < TYPES :: second[i] == Count(line[h..if count < h then h else count], i)
    {
      CountChar(line, h, count, first, second);
      count := count + 1;
    }
    assert line[h..|line|] == line[h..];
  }

  /** One pass of CountHalves's loop: the character at `count` goes into
      the half it belongs to. */
  method CountChar(line: string, h: nat, count: nat, first: array<int>, second: array<int>)
    requires AllLetters(line) && h == |line| / 2 && count < |line|
    requires first.Length == TYPES && second.Length == TYPES && first != second
    requires forall i | 0 <= i < TYPES :: first[i] == Count(line[..if count < h then count else h], i)
    requires forall i | 0 <= i < TYPES :: second[i] == Count(line[h..if count < h then h else count], i)
    modifies first, second
    ensures forall i | 0 <= i < TYPES :: first[i] == Count(line[..if count + 1 < h then count + 1 else h], i)
    ensures forall i | 0 <= i < TYPES :: second[i] == Count(line[h..if count + 1 < h then h else count + 1], i)
  {
    var idx := Index(line[count]);
    if count < h {
      assert line[..count + 1][..count] == line[..count];
    } else {
      assert line[h..count + 1][..count - h] == line[h..count];
    }
    IncrementStorage(idx, first, second, count < h);
  }

  method Part1(lines: seq<string>) returns (ans: nat)
    requires AllLines(lines)
    ensures ans == Part1Sum(lines)
  {
    ans := 0;
    for k := 0 to |lines|
      invariant ans == Part1Sum(lines[..k])
    {
      assert lines[..k + 1][..k] == lines[..k];
      var p := LinePriority(lines[k]);
      ans := ans + p;
    }
    assert lines[..|lines|] == lines;
  }

  /** Counts one line's letters into row `row` of the bag. */
  method CountLine(line: string, bag: array2<int>, row: nat)
    requires AllLetters(line) && bag.Length0 == 3 && bag.Length1 == TYPES && row < 3
    requires forall j | 0 <= j < TYPES :: bag[row, j] == 0
    modifies bag
    ensures forall j | 0 <= j < TYPES :: bag[row, j] == Count(line, j)
    ensures forall r, j | 0 <= r < 3 && r != row && 0 <= j < TYPES :: bag[r, j] == old(bag[r, j])
  {
    for k := 0 to |line|
      invariant forall j | 0 <= j < TYPES :: bag[row, j] == Count(line[..k], j)
      invariant forall r, j | 0 <= r < 3 && r != row && 0 <= j < TYPES :: bag[r, j] == old(bag[r, j])
    {
      assert line[..k + 1][..k] == line[..k];
      var idx := Index(line[k]);
      bag[row, idx] := bag[row, idx] + 1;
    }
    assert line[..|line|] == line;
  }

  /** The priorities of the types counted in all three rows of the bag. */
  method GroupPriority(bag: array2<int>, a: string, b: string, c: string) returns (sum: nat)
    requires AllLetters(a) && AllLetters(b) && AllLetters(c)
    requires bag.Length0 == 3 && bag.Length1 == TYPES
    requires forall j | 0 <= j < TYPES :: bag[0, j] == Count(a, j) && bag[1, j] == Count(b, j) && bag[2, j] == Count(c, j)
    ensures sum == GroupCommon(a, b, c)
  {
    sum := 0;
    for i := 0 to TYPES
      invariant sum == PrioritySum(Types(a) * Types(b) * Types(c), i)
    {
      CountPositive(a, i);
      CountPositive(b, i);
      CountPositive(c, i);
      if bag[0, i] != 0 && bag[1, i] != 0 && bag[2, i] != 0 {
        sum := sum + i + 1;
      }
    }
  }

  method Part2(lines: seq<string>) returns (ans: nat)
    requires AllLines(lines)
    ensures ans == Part2Sum(lines)
  {
    ans := 0;
    var count := 0;
    var bag := new int[3, TYPES]((_, _) => 0);
    for k := 0 to |lines|
      invariant count < 3 && count <= k && (k - count) % 3 == 0
      invariant fresh(bag) && bag.Length0 == 3 && bag.Length1 == TYPES
      invariant ans + Part2Sum(lines[k - count..]) == Part2Sum(lines)
      invariant forall r, j | 0 <= r < 3 && 0 <= j < TYPES ::
        bag[r, j] == if r < count then Count(lines[k - count + r], j) else 0
    {
      CountLine(lines[k], bag, count);
      count := count + 1;
      if count == 3 {
        var start := k + 1 - 3;
        var group := lines[start..];
        assert group[0] == lines[start] && group[1] == lines[start + 1] && group[2] == lines[start + 2];
        assert group[3..] == lines[k + 1..];
        var p := GroupPriority(bag, lines[start], lines[start + 1], lines[start + 2]);
        ans := ans + p;
        count := 0;
        bag := new int[3, TYPES]((_, _) => 0);
      }
    }
    Part2Tail(lines[|lines| - count..]);
  }

  /** Fewer than three lines form no group. */
  lemma Part2Tail(lines: seq<string>)
    requires AllLines(lines) && |lines| < 3
    ensures Part2Sum(lines) == 0
  {
  }

  /** A type is counted in s exactly when it is present in s. */
  lemma {:induction false} CountPositive(s: string, i: nat)
    requires AllLetters(s)
    ensures Count(s, i) > 0 <==> i in Types(s)
  {
    if s != [] {
      var init := s[..|s| - 1];
      CountPositive(init, i);
      assert Types(s) == Types(init) + {Index(s[|s| - 1])} by {
        assert forall k | 0 <= k < |init| :: init[k] == s[k];
      }
    }
  }

  /** The priorities: a–z are 1–26 and A–Z are 27–52, and different letters
      have different priorities. */
  lemma Priorities(c: char, d: char)
    requires IsLetter(c) && IsLetter(d)
    ensures 'a' <= c <= 'z' ==> Index(c) + 1 == c as int - 'a' as int + 1 <= 26
    ensures 'A' <= c <= 'Z' ==> 27 <= Index(c) + 1 == c as int - 'A' as int + 27
    ensures Index(c) == Index(d) ==> c == d
  {
  }

  /** A type present in both halves adds its priority exactly once, however
      often it repeats: with exactly one shared type t, the line adds t's
      priority. */
  lemma {:induction false} SingleCommon(types: set<nat>, t: nat, n: nat)
    requires types == {t} && t < n
    ensures PrioritySum(types, n) == t + 1
  {
    if n - 1 != t {
      SingleCommon(types, t, n - 1);
    } else {
      NoneBelow(types, t);
    }
  }

  lemma {:induction false} NoneBelow(types: set<nat>, n: nat)
    requires forall i | i in types :: i >= n
    ensures PrioritySum(types, n) == 0
  {
    if n > 0 {
      NoneBelow(types, n - 1);
    }
  }
}
