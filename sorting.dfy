/** `v.sort_by(|a, b| b.cmp(a))` on a vector of integers, as used by the
    calorie counting of day 1 and the monkey business of day 11: the result
    is the vector's elements in non-increasing order. Since a sorted
    permutation of a sequence is unique, any sorting algorithm gives the
    same vector; the model uses insertion. */
module Sorting {
  predicate SortedDesc(s: seq<int>) {
    forall i, j | 0 <= i < j < |s| :: s[i] >= s[j]
  }

  /** x inserted before the first element not greater than it. */
  function Insert(x: int, s: seq<int>): (r: seq<int>)
    ensures |r| == |s| + 1
  {
    if s == [] || x >= s[0] then [x] + s else [s[0]] + Insert(x, s[1..])
  }

  function SortDesc(s: seq<int>): (r: seq<int>)
    ensures |r| == |s|
  {
    if s == [] then [] else Insert(s[0], SortDesc(s[1..]))
  }

  function Sum(s: seq<int>): int {
    if s == [] then 0 else s[0] + Sum(s[1..])
  }

  lemma {:induction false} InsertProps(x: int, s: seq<int>)
    requires SortedDesc(s)
    ensures SortedDesc(Insert(x, s))
    ensures multiset(Insert(x, s)) == multiset{x} + multiset(s)
  {
    InsertMultiset(x, s);
    InsertSorted(x, s);
  }

  lemma {:induction false} InsertMultiset(x: int, s: seq<int>)
    ensures multiset(Insert(x, s)) == multiset{x} + multiset(s)
  {
    if s != [] && x < s[0] {
      InsertMultiset(x, s[1..]);
      assert s == [s[0]] + s[1..];
      assert Insert(x, s) == [s[0]] + Insert(x, s[1..]);
    }
  }

  lemma {:induction false} InsertSorted(x: int, s: seq<int>)
    requires SortedDesc(s)
    ensures SortedDesc(Insert(x, s))
  {
    if s != [] && x < s[0] {
      InsertSorted(x, s[1..]);
      InsertMultiset(x, s[1..]);
      var t := Insert(x, s[1..]);
      forall k | 0 <= k < |t|
        ensures s[0] >= t[k]
      {
        assert t[k] in multiset(t);
        if t[k] != x {
          BelowHead(s, t[k]);
        }
      }
      assert Insert(x, s) == [s[0]] + t;
    }
  }

  /** Every element after the head of a non-increasing sequence is at most the head. */
  lemma BelowHead(s: seq<int>, v: int)
    requires SortedDesc(s) && s != [] && v in multiset(s[1..])
    ensures s[0] >= v
  {
    var j :| 0 <= j < |s[1..]| && s[1..][j] == v;
    assert s[j + 1] == v;
  }

  /** The sort yields a non-increasing permutation of its input. */
  lemma {:induction false} SortDescProps(s: seq<int>)
    ensures SortedDesc(SortDesc(s))
    ensures multiset(SortDesc(s)) == multiset(s)
  {
    if s != [] {
      SortDescProps(s[1..]);
      InsertProps(s[0], SortDesc(s[1..]));
      assert s == [s[0]] + s[1..];
    }
  }

  /** The first element after the sort is the largest element. */
  lemma SortDescHead(s: seq<int>)
    requires s != []
    ensures SortDesc(s)[0] in s
    ensures forall k | 0 <= k < |s| :: s[k] <= SortDesc(s)[0]
  {
    SortDescProps(s);
    var t := SortDesc(s);
    assert t[0] in multiset(t);
    forall k | 0 <= k < |s|
      ensures s[k] <= t[0]
    {
      assert s[k] in multiset(s);
      var j :| 0 <= j < |t| && t[j] == s[k];
    }
  }

  /** Every element after position k of the sorted sequence is bounded by
      each of the first k + 1: the first k + 1 elements are the largest. */
  lemma SortDescPrefix(s: seq<int>, k: nat, j: nat)
    requires k < j < |s|
    ensures SortDesc(s)[k] >= SortDesc(s)[j]
  {
    SortDescProps(s);
  }
  /** The first two elements after the sort come from two different
      positions of the input; of any two different positions, both hold at
      most the first element and one of them at most the second. */
  lemma {:induction false} SortDescTopTwo(s: seq<int>)
    requires |s| >= 2
    ensures exists j, k | 0 <= j < |s| && 0 <= k < |s| ::
      j != k && s[j] == SortDesc(s)[0] && s[k] == SortDesc(s)[1]
    ensures forall j, k | 0 <= j < |s| && 0 <= k < |s| && j != k ::
      s[j] <= SortDesc(s)[0] && (s[j] <= SortDesc(s)[1] || s[k] <= SortDesc(s)[1])
  {
    var t := SortDesc(s);
    var rest := s[1..];
    var u := SortDesc(rest);
    SortDescHead(s);
    SortDescHead(rest);
    var top :| 0 <= top < |rest| && rest[top] == u[0];
    if |rest| >= 2 {
      SortDescTopTwo(rest);
    }
    if s[0] >= u[0] {
      assert t == [s[0]] + u;
      assert s[1 + top] == t[1];
    } else {
      var v := Insert(s[0], u[1..]);
      assert t == [u[0]] + v;
      assert s[1 + top] == t[0];
      if u[1..] == [] || s[0] >= u[1] {
        assert t[1] == s[0];
      } else {
        assert t[1] == u[1];
        var j', k' :| 0 <= j' < |rest| && 0 <= k' < |rest| && j' != k' && rest[j'] == u[0] && rest[k'] == u[1];
        assert s[j' + 1] == t[0] && s[k' + 1] == t[1];
      }
      forall j, k | 0 <= j < |s| && 0 <= k < |s| && j != k
        ensures s[j] <= t[1] || s[k] <= t[1]
      {
        if j > 0 && k > 0 {
          assert s[j] == rest[j - 1] && s[k] == rest[k - 1];
        }
      }
    }
  }
}
