/** Day 6 of 2022 (2022/day6.rs): tuning trouble. The answer is one past
    the end of the first window of `marker_size` + 1 pairwise different
    letters (`marker_size` is 3 for part 1 and 13 for part 2). A sliding
    window [p, i] of pairwise different letters is kept, with a count per
    letter in a 26-entry array; p advances until content[i] is no longer
    in the window. Each character is mapped to a slot by
    `(c as u8 - b'a') as usize`: the cast keeps the low byte, and a byte
    outside `a`..`z` makes the subtraction underflow or the index fall
    outside the array, both panics (a `None` answer here). */
module Day6 {
  import opened Results

  const LETTERS: nat := 26

  /** `c as u8 - b'a'`, before the range checks. */
  function SlotOf(c: char): int {
    c as int % 256 - 'a' as int
  }

  /** The slot is an index of the count array. */
  predicate Valid(c: char) {
    0 <= SlotOf(c) < LETTERS
  }

  /** The slots of x[p..=i] are pairwise different. */
  predicate DistinctFrom(x: string, p: int, i: int)
    requires 0 <= p && i < |x|
  {
    forall a, b | p <= a < b <= i :: SlotOf(x[a]) != SlotOf(x[b])
  }

  /** content[i]'s slot occurs in the window x[p..i]. */
  predicate InWindow(x: string, p: nat, i: nat)
    requires p <= i < |x|
  {
    exists j | p <= j < i :: SlotOf(x[j]) == SlotOf(x[i])
  }

  /** The `while` loop: p advances past the earlier occurrence of
      content[i]'s slot. */
  function Advance(x: string, p: nat, i: nat): (q: nat)
    requires p <= i < |x|
    ensures p <= q <= i
    decreases i - p
  {
    if InWindow(x, p, i) then Advance(x, p + 1, i) else p
  }

  /** The window start after reading content[i]. */
  function Start(x: string, i: nat): (p: nat)
    requires i < |x|
    ensures p <= i
  {
    if i == 0 then 0 else Advance(x, Start(x, i - 1), i)
  }

  /** How many of x[lo..hi] have slot k. */
  function CountSlot(x: string, lo: nat, hi: nat, k: int): nat
    requires lo <= hi <= |x|
    decreases hi - lo
  {
    if lo == hi then 0 else (if SlotOf(x[lo]) == k then 1 else 0) + CountSlot(x, lo + 1, hi, k)
  }

  /** The `for` loop from i on: the answer i + 1 at the first i whose window
      is `m` + 1 long, 0 past the end, None at an invalid character. */
  function Scan(x: string, m: nat, i: nat): Option<nat>
    requires 1 <= i <= |x|
    decreases |x| - i
  {
    if i == |x| then Some(0)
    else if !Valid(x[i]) then None
    else if i - Start(x, i) == m then Some(i + 1)
    else Scan(x, m, i + 1)
  }

  /** What `solution` prints, or None when it panics (an empty content
      or an invalid character read before the answer). */
  function Marker(x: string, m: nat): Option<nat> {
    if |x| == 0 || !Valid(x[0]) then None else Scan(x, m, 1)
  }

  /** solution(content, marker_size). */
  method Solution(content: string, markerSize: nat) returns (r: Option<nat>)
    ensures r == Marker(content, markerSize)
  {
    if |content| == 0 || !Valid(content[0]) {
      return None;
    }
    var letters := new int[LETTERS](_ => 0);
    var p := 0;
    letters[SlotOf(content[p])] := 1;
    for i := 1 to |content|
      invariant p == Start(content, i - 1)
      invariant forall j | 0 <= j < i :: Valid(content[j])
      invariant forall k | 0 <= k < LETTERS :: letters[k] == CountSlot(content, p, i, k)
      invariant Marker(content, markerSize) == Scan(content, markerSize, i)
    {
      if !Valid(content[i]) {
        return None;
      }
      var c := SlotOf(content[i]);
      p := Shrink(content, letters, p, i);
      forall k | 0 <= k < LETTERS
        ensures CountSlot(content, p, i + 1, k) == CountSlot(content, p, i, k) + if c == k then 1 else 0
      {
        CountSnoc(content, p, i, k);
      }
      letters[c] := letters[c] + 1;
      if i - p == markerSize {
        return Some(i + 1);
      }
    }
    r := Some(0);
  }

  /** The `while` loop: the window start moves past the earlier occurrence
      of content[i]'s slot, and its letters leave the counts. */
  method Shrink(content: string, letters: array<int>, p: nat, i: nat) returns (q: nat)
    requires p <= i < |content| && letters.Length == LETTERS
    requires forall j | p <= j <= i :: Valid(content[j])
    requires forall k | 0 <= k < LETTERS :: letters[k] == CountSlot(content, p, i, k)
    modifies letters
    ensures q == Advance(content, p, i)
    ensures forall k | 0 <= k < LETTERS :: letters[k] == CountSlot(content, q, i, k)
  {
    q := p;
    while letters[SlotOf(content[i])] != 0
      invariant p <= q <= i
      invariant Advance(content, p, i) == Advance(content, q, i)
      invariant forall k | 0 <= k < LETTERS :: letters[k] == CountSlot(content, q, i, k)
      decreases i - q
    {
      CountInWindow(content, q, i);
      letters[SlotOf(content[q])] := letters[SlotOf(content[q])] - 1;
      q := q + 1;
    }
    CountInWindow(content, q, i);
  }

  /** Adding the character at hi to the counted range. */
  lemma {:induction false} CountSnoc(x: string, lo: nat, hi: nat, k: int)
    requires lo <= hi < |x|
    ensures CountSlot(x, lo, hi + 1, k) == CountSlot(x, lo, hi, k) + if SlotOf(x[hi]) == k then 1 else 0
    decreases hi - lo
  {
    if lo < hi {
      CountSnoc(x, lo + 1, hi, k);
    }
  }

  /** The count of content[i]'s slot in the window is positive exactly when
      the slot occurs there. */
  lemma {:induction false} CountInWindow(x: string, p: nat, i: nat)
    requires p <= i < |x|
    ensures CountSlot(x, p, i, SlotOf(x[i])) > 0 <==> InWindow(x, p, i)
    decreases i - p
  {
    if p < i {
      CountInWindow(x, p + 1, i);
      if SlotOf(x[p]) != SlotOf(x[i]) && InWindow(x, p, i) {
        var j :| p <= j < i && SlotOf(x[j]) == SlotOf(x[i]);
        assert InWindow(x, p + 1, i);
      }
    }
  }

  /** Advancing from a pairwise different window [p, i - 1] gives the
      first start from which [q, i] is pairwise different. */
  lemma {:induction false} AdvanceProps(x: string, p: nat, i: nat)
    requires p <= i < |x| && (p < i ==> DistinctFrom(x, p, i - 1))
    ensures DistinctFrom(x, Advance(x, p, i), i)
    ensures forall q | p <= q < Advance(x, p, i) :: !DistinctFrom(x, q, i)
    decreases i - p
  {
    if InWindow(x, p, i) {
      var j :| p <= j < i && SlotOf(x[j]) == SlotOf(x[i]);
      assert !DistinctFrom(x, p, i);
      AdvanceProps(x, p + 1, i);
      forall q | p + 1 <= q < Advance(x, p, i)
        ensures !DistinctFrom(x, q, i)
      {
      }
    } else {
      forall a, b | p <= a < b <= i
        ensures SlotOf(x[a]) != SlotOf(x[b])
      {
        if b == i {
          assert !(SlotOf(x[a]) == SlotOf(x[i]));
        }
      }
    }
  }

  /** The window after reading content[i] is pairwise different, every
      earlier start would hold a repeated letter, and the start never moves
      back. */
  lemma {:induction false} StartProps(x: string, i: nat)
    requires i < |x|
    ensures DistinctFrom(x, Start(x, i), i)
    ensures forall q | 0 <= q < Start(x, i) :: !DistinctFrom(x, q, i)
    ensures i > 0 ==> Start(x, i - 1) <= Start(x, i)
  {
    if i > 0 {
      var prev := Start(x, i - 1);
      StartProps(x, i - 1);
      AdvanceProps(x, prev, i);
      forall q | 0 <= q < prev
        ensures !DistinctFrom(x, q, i)
      {
        assert !DistinctFrom(x, q, i - 1);
      }
    }
  }

  /** x[j - m..=j] is a window of m + 1 pairwise different letters. */
  predicate EndsWindow(x: string, m: nat, j: nat)
    requires j < |x|
  {
    j >= m && DistinctFrom(x, j - m, j)
  }

  /** For a marker size m >= 1 the answer is one past the end of the first
      window of m + 1 pairwise different letters, and 0 when there is no
      such window. */
  lemma MarkerMeaning(x: string, m: nat)
    requires m >= 1 && Marker(x, m).Some?
    ensures var a := Marker(x, m).value;
      && (a > 0 ==> m + 1 <= a <= |x| && EndsWindow(x, m, a - 1))
      && forall j | 0 <= j < |x| && (a == 0 || j < a - 1) :: !EndsWindow(x, m, j)
  {
    ScanMeaning(x, m, 1);
  }

  lemma {:induction false} ScanMeaning(x: string, m: nat, i: nat)
    requires m >= 1 && 1 <= i <= |x| && Scan(x, m, i).Some?
    requires i - 1 - Start(x, i - 1) < m
    requires forall j | 0 <= j < i :: !EndsWindow(x, m, j)
    ensures var a := Scan(x, m, i).value;
      && (a > 0 ==> m + 1 <= a <= |x| && EndsWindow(x, m, a - 1))
      && forall j | 0 <= j < |x| && (a == 0 || j < a - 1) :: !EndsWindow(x, m, j)
    decreases |x| - i
  {
    if i < |x| {
      StartProps(x, i);
      if i - Start(x, i) != m {
        ScanMeaning(x, m, i + 1);
      }
    }
  }
}
