/** Day 13 of 2022 (2022/day13.rs): distress-signal packets. A packet is a
    nested list of integers written with brackets and commas. A reusable
    parser reads one packet into a tree of nodes; `is_ordered` compares two
    packets position by position, recursing into lists and promoting an
    integer to a one-element list when it meets a list. Part 1 pairs the
    non-blank lines two by two and sums the 1-based indices of the pairs
    that are in the right order. */
module Day13 {
  import opened Results
  import opened TextNum

  const I32_MIN: int := -0x8000_0000
  const I32_MAX: int := 0x7FFF_FFFF

  /** A packet node: an integer (`isList` false, its `value` set) or a list
      (`isList` true, its `children` set). */
  datatype Node = Node(value: int, isList: bool, children: seq<Node>)

  /** `Node::new(0, true)` with the given children pushed. */
  function List(children: seq<Node>): Node {
    Node(0, true, children)
  }

  /** `Node::new(value, false)`. */
  function Int(value: int): Node {
    Node(value, false, [])
  }

  /** The one-element list an integer is promoted to when it meets a list. */
  function Wrap(value: int): Node {
    List([Int(value)])
  }

  // ---------------------------------------------------------------------
  // The size of a packet, which every recursion over packets decreases
  // ---------------------------------------------------------------------

  function Size(n: Node): (s: nat)
    ensures s >= 1
    decreases n, 1, 0
  {
    1 + SizeFrom(n, 0)
  }

  function SizeFrom(n: Node, i: nat): nat
    decreases n, 0, |n.children| - i
  {
    if i >= |n.children| then 0 else Size(n.children[i]) + SizeFrom(n, i + 1)
  }

  lemma {:induction false} SizeFromCovers(n: Node, i: nat, k: nat)
    requires i <= k < |n.children|
    ensures Size(n.children[k]) <= SizeFrom(n, i)
    decreases k - i
  {
    if i < k {
      SizeFromCovers(n, i + 1, k);
    }
  }

  lemma ChildSmaller(n: Node, k: nat)
    requires k < |n.children|
    ensures Size(n.children[k]) < Size(n)
  {
    SizeFromCovers(n, 0, k);
  }

  lemma WrapSize(value: int)
    ensures Size(Wrap(value)) == 2
  {
    assert SizeFrom(Int(value), 0) == 0;
    assert Size(Int(value)) == 1;
    assert SizeFrom(Wrap(value), 1) == 0;
  }

  // ---------------------------------------------------------------------
  // is_ordered
  // ---------------------------------------------------------------------

  /** `is_ordered`: `Some(true)` when the pair is in the right order,
      `Some(false)` when it is not, `None` when no position decides. */
  function Compare(left: Node, right: Node): Option<bool>
    decreases Size(left) + Size(right), 1, 0
  {
    CompareFrom(left, right, 0)
  }

  /** The comparison loop from position `i` on. */
  function CompareFrom(left: Node, right: Node, i: nat): Option<bool>
    decreases Size(left) + Size(right), 0, |left.children| + |right.children| - i
  {
    if i >= |left.children| && i >= |right.children| then None
    else if i >= |left.children| then Some(true)
    else if i >= |right.children| then Some(false)
    else
      var here := Position(left, right, i);
      if here.Some? then here else CompareFrom(left, right, i + 1)
  }

  /** What position `i`, present on both sides, decides: two integers by
      `<` and `>`, two lists recursively, and an integer against a list as
      the one-element list holding it. */
  function Position(left: Node, right: Node, i: nat): Option<bool>
    requires i < |left.children| && i < |right.children|
    decreases Size(left) + Size(right), 0, 0
  {
    var a, b := left.children[i], right.children[i];
    ChildSmaller(left, i);
    ChildSmaller(right, i);
    if !a.isList && !b.isList then
      if a.value < b.value then Some(true) else if a.value > b.value then Some(false) else None
    else if a.isList && b.isList then
      Compare(a, b)
    else if !a.isList then
      WrapSize(a.value);
      Compare(Wrap(a.value), b)
    else
      WrapSize(b.value);
      Compare(a, Wrap(b.value))
  }

  /** `is_ordered`, with its index loop. */
  method IsOrdered(left: Node, right: Node) returns (r: Option<bool>)
    ensures r == Compare(left, right)
    decreases Size(left) + Size(right)
  {
    var i := 0;
    while i < |left.children| || i < |right.children|
      invariant CompareFrom(left, right, i) == Compare(left, right)
      decreases |left.children| + |right.children| - i
    {
      if i >= |left.children| {
        return Some(true);
      } else if i >= |right.children| {
        return Some(false);
      }
      var a, b := left.children[i], right.children[i];
      ChildSmaller(left, i);
      ChildSmaller(right, i);
      if !a.isList && !b.isList {
        if a.value < b.value {
          return Some(true);
        } else if a.value > b.value {
          return Some(false);
        }
      } else if a.isList && b.isList {
        var ordered := IsOrdered(a, b);
        if ordered.Some? {
          return ordered;
        }
      } else if a.isList != b.isList {
        var temp := Wrap(if !a.isList then a.value else b.value);
        WrapSize(temp.children[0].value);
        if !a.isList {
          var ordered := IsOrdered(temp, b);
          if ordered.Some? {
            return ordered;
          }
        } else {
          var ordered := IsOrdered(a, temp);
          if ordered.Some? {
            return ordered;
          }
        }
      }
      i := i + 1;
    }
    return None;
  }

  function Flip(o: Option<bool>): Option<bool> {
    match o
    case None => None
    case Some(b) => Some(!b)
  }

  /** No packet is strictly before itself: comparing a packet with itself
      decides nothing. */
  lemma {:induction false} CompareSelf(x: Node)
    ensures Compare(x, x) == None
    decreases Size(x) + Size(x), 1, 0
  {
    CompareFromSelf(x, 0);
  }

  lemma {:induction false} CompareFromSelf(x: Node, i: nat)
    ensures CompareFrom(x, x, i) == None
    decreases Size(x) + Size(x), 0, |x.children| + |x.children| - i
  {
    if i < |x.children| {
      ChildSmaller(x, i);
      if x.children[i].isList {
        CompareSelf(x.children[i]);
      }
      CompareFromSelf(x, i + 1);
    }
  }

  /** Swapping the two packets turns the verdict around. */
  lemma {:induction false} CompareSwap(x: Node, y: Node)
    ensures Compare(y, x) == Flip(Compare(x, y))
    decreases Size(x) + Size(y), 1, 0
  {
    CompareFromSwap(x, y, 0);
  }

  lemma {:induction false} CompareFromSwap(x: Node, y: Node, i: nat)
    ensures CompareFrom(y, x, i) == Flip(CompareFrom(x, y, i))
    decreases Size(x) + Size(y), 0, |x.children| + |y.children| - i
  {
    if i < |x.children| && i < |y.children| {
      var a, b := x.children[i], y.children[i];
      ChildSmaller(x, i);
      ChildSmaller(y, i);
      if a.isList && b.isList {
        CompareSwap(a, b);
      } else if !a.isList && b.isList {
        WrapSize(a.value);
        CompareSwap(Wrap(a.value), b);
      } else if a.isList && !b.isList {
        WrapSize(b.value);
        CompareSwap(a, Wrap(b.value));
      }
      CompareFromSwap(x, y, i + 1);
    }
  }

  /** When every shared position from `i` on is undecided and the left list
      is the shorter, the pair is in order. */
  lemma {:induction false} ShorterFirst(x: Node, y: Node, i: nat)
    requires i <= |x.children| < |y.children|
    requires forall k :: i <= k < |x.children| ==> Position(x, y, k) == None
    ensures CompareFrom(x, y, i) == Some(true)
    decreases |x.children| - i
  {
    if i < |x.children| {
      ShorterFirst(x, y, i + 1);
    }
  }

  /** When every shared position from `i` on is undecided and the right
      list is the shorter, the pair is out of order. */
  lemma {:induction false} LongerFirst(x: Node, y: Node, i: nat)
    requires i <= |y.children| < |x.children|
    requires forall k :: i <= k < |y.children| ==> Position(x, y, k) == None
    ensures CompareFrom(x, y, i) == Some(false)
    decreases |y.children| - i
  {
    if i < |y.children| {
      LongerFirst(x, y, i + 1);
    }
  }

  /** The first decided position decides the pair. */
  lemma {:induction false} FirstDecided(x: Node, y: Node, i: nat, k: nat)
    requires i <= k < |x.children| && k < |y.children|
    requires forall j :: i <= j < k ==> Position(x, y, j) == None
    requires Position(x, y, k).Some?
    ensures CompareFrom(x, y, i) == Position(x, y, k)
    decreases k - i
  {
    if i < k {
      FirstDecided(x, y, i + 1, k);
    }
  }

  // ---------------------------------------------------------------------
  // Parser::parse and Parser::traverse
  // ---------------------------------------------------------------------

  /** The children read by a traversal and the position after it. */
  datatype Scan = Scan(children: seq<Node>, next: nat)

  /** The end of the run of digits starting at `i`. */
  function RunEnd(vals: string, i: nat): (j: nat)
    requires i <= |vals|
    ensures i <= j <= |vals|
    ensures forall k :: i <= k < j ==> IsDigit(vals[k])
    ensures j < |vals| ==> !IsDigit(vals[j])
    decreases |vals| - i
  {
    if i < |vals| && IsDigit(vals[i]) then RunEnd(vals, i + 1) else i
  }

  function Prepend(cs: seq<Node>, o: Option<Scan>): Option<Scan> {
    match o
    case None => None
    case Some(s) => Some(Scan(cs + s.children, s.next))
  }

  /** What `traverse` reads from position `idx`: the children up to the
      closing `]` (or the end of the text) and the position after it.
      `[` opens a nested list, a run of digits is one integer, anything
      else is skipped. `None` where the program panics: a digit run that
      reaches the end of the text (the scan indexes past it) or a value
      that does not fit in an i32 (`unwrap` of the failed parse). */
  function Items(vals: string, idx: nat): (r: Option<Scan>)
    ensures r.Some? ==> idx <= r.value.next && (idx <= |vals| ==> r.value.next <= |vals|)
    decreases |vals| - idx
  {
    if idx >= |vals| then Some(Scan([], idx))
    else if vals[idx] == '[' then
      match Items(vals, idx + 1)
      case None => None
      case Some(inner) => Prepend([List(inner.children)], Items(vals, inner.next))
    else if vals[idx] == ']' then Some(Scan([], idx + 1))
    else if IsDigit(vals[idx]) then
      var j := RunEnd(vals, idx + 1);
      if j == |vals| then None
      else
        assert AllDigits(vals[idx..j]) by {
          forall k | 0 <= k < j - idx ensures IsDigit(vals[idx..j][k]) {
            assert vals[idx..j][k] == vals[idx + k];
          }
        }
        var v := DigitsValue(vals[idx..j]);
        if v > I32_MAX then None else Prepend([Int(v)], Items(vals, j))
    else Items(vals, idx + 1)
  }

  /** `parse`: the packet read from position 1, past the opening `[`. */
  function Packet(val: string): Option<Node> {
    match Items(val, 1)
    case None => None
    case Some(s) => Some(List(s.children))
  }

  lemma PrependSnoc(cs: seq<Node>, x: Node, o: Option<Scan>)
    ensures Prepend(cs + [x], o) == Prepend(cs, Prepend([x], o))
  {
    if o.Some? {
      assert cs + [x] + o.value.children == cs + ([x] + o.value.children);
    }
  }

  lemma PrependUnit(cs: seq<Node>, o: Option<Scan>, next: nat)
    ensures Prepend([], o) == o
    ensures Prepend(cs, Some(Scan([], next))) == Some(Scan(cs, next))
  {
    assert cs + [] == cs;
    if o.Some? {
      assert [] + o.value.children == o.value.children;
    }
  }

  /** A slice of a slice of the text. */
  lemma SubSlice(vals: string, idx: nat, s: string, a: nat, b: nat)
    requires idx + |s| <= |vals| && vals[idx..idx + |s|] == s && a <= b <= |s|
    ensures vals[idx + a..idx + b] == s[a..b]
  {
    forall k | 0 <= k < b - a
      ensures vals[idx + a..idx + b][k] == s[a..b][k]
    {
      assert vals[idx + a + k] == vals[idx..idx + |s|][a + k];
    }
  }

  class Parser {
    var idx: nat

    constructor ()
      ensures idx == 0
    {
      idx := 0;
    }

    /** `parse`: restart at position 1 and read one packet. */
    method Parse(val: string) returns (r: Option<Node>)
      modifies this
      ensures r == Packet(val)
    {
      idx := 1;
      var children := Traverse(val);
      if children.None? {
        return None;
      }
      return Some(List(children.value));
    }

    /** `traverse`: read children from `idx` up to the closing `]`,
        advancing `idx` past what it read. */
    method Traverse(vals: string) returns (r: Option<seq<Node>>)
      modifies this
      ensures old(idx) <= idx && (old(idx) <= |vals| ==> idx <= |vals|)
      ensures r.None? ==> Items(vals, old(idx)).None?
      ensures r.Some? ==> Items(vals, old(idx)) == Some(Scan(r.value, idx))
      decreases |vals| - idx
    {
      var children: seq<Node> := [];
      PrependUnit(children, Items(vals, idx), idx);
      while idx < |vals|
        invariant old(idx) <= idx && (old(idx) <= |vals| ==> idx <= |vals|)
        invariant Items(vals, old(idx)) == Prepend(children, Items(vals, idx))
        decreases |vals| - idx
      {
        var c := vals[idx];
        var at := idx;
        idx := idx + 1;
        if c == '[' {
          var inner := Traverse(vals);
          if inner.None? {
            return None;
          }
          PrependSnoc(children, List(inner.value), Items(vals, idx));
          children := children + [List(inner.value)];
        } else if c == ']' {
          PrependUnit(children, None, idx);
          return Some(children);
        } else if IsDigit(c) {
          var i := idx;
          while i < |vals| && IsDigit(vals[i])
            invariant idx <= i <= |vals| && RunEnd(vals, idx) == RunEnd(vals, i)
            decreases |vals| - i
          {
            i := i + 1;
          }
          if i == |vals| {
            return None;
          }
          DigitRun(vals, at, i);
          var value := ParseInt(vals[at..i], I32_MIN, I32_MAX);
          if value.None? {
            return None;
          }
          idx := i;
          PrependSnoc(children, Int(value.value), Items(vals, idx));
          children := children + [Int(value.value)];
        }
      }
      PrependUnit(children, None, idx);
      return Some(children);
    }
  }

  // ---------------------------------------------------------------------
  // Reading back what a packet prints as
  // ---------------------------------------------------------------------

  /** The packets the puzzle input can hold: lists (value 0) of lists and
      of non-negative integers that fit in an i32. */
  predicate WellFormed(n: Node)
    decreases n
  {
    if n.isList then n.value == 0 && forall k | 0 <= k < |n.children| :: WellFormed(n.children[k])
    else 0 <= n.value <= I32_MAX && n.children == []
  }

  /** The text of a packet: brackets around comma-separated items. */
  function Show(n: Node): string
    requires WellFormed(n)
    decreases n, 1, 0
  {
    if n.isList then "[" + ShowFrom(n, 0) + "]" else Decimal(n.value)
  }

  function ShowFrom(n: Node, i: nat): string
    requires WellFormed(n) && n.isList
    decreases n, 0, |n.children| - i
  {
    if i >= |n.children| then ""
    else if i == |n.children| - 1 then Show(n.children[i])
    else Show(n.children[i]) + "," + ShowFrom(n, i + 1)
  }

  lemma {:induction false} RunEndAt(vals: string, i: nat, j: nat)
    requires i <= j < |vals|
    requires forall k :: i <= k < j ==> IsDigit(vals[k])
    requires !IsDigit(vals[j])
    ensures RunEnd(vals, i) == j
    decreases j - i
  {
    if i < j {
      RunEndAt(vals, i + 1, j);
    }
  }

  /** The text at `idx` spells the items of `n` from `i` on, separated by
      commas, and the closing `]`; one item at a time, so that a proof
      sees only as much of the text as it needs. */
  ghost predicate Spelled(vals: string, idx: nat, n: Node, i: nat)
    requires WellFormed(n) && n.isList
    decreases n, 0, |n.children| - i
  {
    if i >= |n.children| then idx < |vals| && vals[idx] == ']'
    else
      var c := n.children[i];
      var w := |Show(c)|;
      SpelledOne(vals, idx, c) && idx + w < |vals|
      && if i == |n.children| - 1 then vals[idx + w] == ']'
         else vals[idx + w] == ',' && Spelled(vals, idx + w + 1, n, i + 1)
  }

  /** The text at `idx` spells the item `c`. */
  ghost predicate SpelledOne(vals: string, idx: nat, c: Node)
    requires WellFormed(c)
    decreases c, 1, 0
  {
    if c.isList then idx < |vals| && vals[idx] == '[' && Spelled(vals, idx + 1, c, 0)
    else idx + |Decimal(c.value)| <= |vals| && vals[idx..idx + |Decimal(c.value)|] == Decimal(c.value)
  }

  /** Text holding a printed item spells it. */
  lemma {:induction false} SpellOne(vals: string, idx: nat, c: Node)
    requires WellFormed(c)
    requires idx + |Show(c)| <= |vals| && vals[idx..idx + |Show(c)|] == Show(c)
    ensures SpelledOne(vals, idx, c)
    decreases c, 1, 0, 0
  {
    if c.isList {
      var inner := ShowFrom(c, 0);
      Bracketed(vals, idx, inner);
      SpellItems(vals, idx + 1, c, 0);
    }
  }

  /** Text holding printed items and a `]` spells them. */
  lemma {:induction false} SpellItems(vals: string, idx: nat, n: Node, i: nat)
    requires WellFormed(n) && n.isList && i <= |n.children|
    requires idx + |ShowFrom(n, i)| < |vals|
    requires vals[idx..idx + |ShowFrom(n, i)|] == ShowFrom(n, i) && vals[idx + |ShowFrom(n, i)|] == ']'
    ensures Spelled(vals, idx, n, i)
    decreases n, 0, |n.children| - i, 1
  {
    if i == |n.children| - 1 {
      assert ShowFrom(n, i) == Show(n.children[i]);
      SpellOne(vals, idx, n.children[i]);
    } else if i < |n.children| - 1 {
      SpellNext(vals, idx, n, i);
    }
  }

  lemma {:induction false} SpellNext(vals: string, idx: nat, n: Node, i: nat)
    requires WellFormed(n) && n.isList && i < |n.children| - 1
    requires idx + |ShowFrom(n, i)| < |vals|
    requires vals[idx..idx + |ShowFrom(n, i)|] == ShowFrom(n, i) && vals[idx + |ShowFrom(n, i)|] == ']'
    ensures Spelled(vals, idx, n, i)
    decreases n, 0, |n.children| - i, 0
  {
    var c := n.children[i];
    var rest := ShowFrom(n, i + 1);
    assert ShowFrom(n, i) == Show(c) + "," + rest;
    CommaSeparated(vals, idx, Show(c), rest);
    SpellOne(vals, idx, c);
    SpellItems(vals, idx + |Show(c)| + 1, n, i + 1);
  }

  /** One spelled item followed by `,` or `]` reads back as that item. */
  lemma {:induction false} ReadOne(vals: string, idx: nat, c: Node)
    requires WellFormed(c) && SpelledOne(vals, idx, c)
    requires idx + |Show(c)| < |vals|
    requires vals[idx + |Show(c)|] == ',' || vals[idx + |Show(c)|] == ']'
    ensures Items(vals, idx) == Prepend([c], Items(vals, idx + |Show(c)|))
    decreases Size(c), 1, 0, 0
  {
    if c.isList {
      ReadItems(vals, idx + 1, c, 0);
      assert c.children[0..] == c.children;
      ItemsOpen(vals, idx);
    } else {
      ReadInt(vals, idx, c.value);
    }
  }

  lemma ReadInt(vals: string, idx: nat, v: nat)
    requires v <= I32_MAX
    requires idx + |Decimal(v)| < |vals| && vals[idx..idx + |Decimal(v)|] == Decimal(v)
    requires vals[idx + |Decimal(v)|] == ',' || vals[idx + |Decimal(v)|] == ']'
    ensures Items(vals, idx) == Prepend([Int(v)], Items(vals, idx + |Decimal(v)|))
  {
    var d := Decimal(v);
    var w := |d|;
    DecimalProps(v);
    assert vals[idx] == d[0];
    forall k | idx + 1 <= k < idx + w ensures IsDigit(vals[k]) {
      assert vals[k] == d[k - idx];
    }
    RunEndAt(vals, idx + 1, idx + w);
    ItemsDigit(vals, idx, idx + w, v);
  }

  /** Spelled items and their `]` read back as those items. */
  lemma {:induction false} ReadItems(vals: string, idx: nat, n: Node, i: nat)
    requires WellFormed(n) && n.isList && i <= |n.children|
    requires Spelled(vals, idx, n, i)
    ensures Items(vals, idx) == Some(Scan(n.children[i..], idx + |ShowFrom(n, i)| + 1))
    decreases Size(n), 0, |n.children| - i, 1
  {
    if i == |n.children| {
      ItemsClose(vals, idx);
      assert n.children[i..] == [];
    } else if i == |n.children| - 1 {
      ReadLast(vals, idx, n, i);
    } else {
      ReadNext(vals, idx, n, i);
    }
  }

  lemma {:induction false} ReadLast(vals: string, idx: nat, n: Node, i: nat)
    requires WellFormed(n) && n.isList && i == |n.children| - 1
    requires Spelled(vals, idx, n, i)
    ensures Items(vals, idx) == Some(Scan(n.children[i..], idx + |ShowFrom(n, i)| + 1))
    decreases Size(n), 0, |n.children| - i, 0
  {
    var c := n.children[i];
    ChildSmaller(n, i);
    var w := |Show(c)|;
    assert ShowFrom(n, i) == Show(c);
    ReadOne(vals, idx, c);
    ItemsClose(vals, idx + w);
    SliceCons(n.children, i);
    PrependOne(c, [], idx + w + 1);
  }

  lemma {:induction false} ReadNext(vals: string, idx: nat, n: Node, i: nat)
    requires WellFormed(n) && n.isList && i < |n.children| - 1
    requires SpelledOne(vals, idx, n.children[i]) && idx + |Show(n.children[i])| < |vals|
    requires vals[idx + |Show(n.children[i])|] == ','
    requires Spelled(vals, idx + |Show(n.children[i])| + 1, n, i + 1)
    ensures Items(vals, idx) == Some(Scan(n.children[i..], idx + |ShowFrom(n, i)| + 1))
    decreases Size(n), 0, |n.children| - i, 0
  {
    var c := n.children[i];
    ChildSmaller(n, i);
    var w := |Show(c)|;
    assert |ShowFrom(n, i)| == w + 1 + |ShowFrom(n, i + 1)|;
    ReadOne(vals, idx, c);
    ReadAfterComma(vals, idx + w, n, i + 1);
    PrependOne(c, n.children[i + 1..], idx + |ShowFrom(n, i)| + 1);
    SliceCons(n.children, i);
  }

  /** A comma, then spelled items and their `]`. */
  lemma {:induction false} ReadAfterComma(vals: string, idx: nat, n: Node, i: nat)
    requires WellFormed(n) && n.isList && i <= |n.children|
    requires idx < |vals| && vals[idx] == ',' && Spelled(vals, idx + 1, n, i)
    ensures Items(vals, idx) == Some(Scan(n.children[i..], idx + 1 + |ShowFrom(n, i)| + 1))
    decreases Size(n), 0, |n.children| - i, 2
  {
    ItemsComma(vals, idx);
    ReadItems(vals, idx + 1, n, i);
  }

  /** The text `a,b` seen as its two items and the comma between them. */
  lemma CommaSeparated(vals: string, idx: nat, a: string, b: string)
    requires idx + |a| + 1 + |b| <= |vals| && vals[idx..idx + |a| + 1 + |b|] == a + "," + b
    ensures vals[idx..idx + |a|] == a && vals[idx + |a|] == ','
    ensures vals[idx + |a| + 1..idx + |a| + 1 + |b|] == b
  {
    var s := a + "," + b;
    SubSlice(vals, idx, s, 0, |a|);
    assert s[0..|a|] == a;
    assert vals[idx + |a|] == s[|a|];
    SubSlice(vals, idx, s, |a| + 1, |s|);
    assert s[|a| + 1..|s|] == b;
  }

  /** The text `[inner]` seen as its brackets and what they hold. */
  lemma Bracketed(vals: string, idx: nat, inner: string)
    requires idx + |inner| + 2 <= |vals| && vals[idx..idx + |inner| + 2] == "[" + inner + "]"
    ensures vals[idx] == '[' && vals[idx + 1 + |inner|] == ']'
    ensures vals[idx + 1..idx + 1 + |inner|] == inner
  {
    var s := "[" + inner + "]";
    assert vals[idx] == s[0];
    assert vals[idx + 1 + |inner|] == s[1 + |inner|];
    SubSlice(vals, idx, s, 1, 1 + |inner|);
    assert s[1..1 + |inner|] == inner;
  }

  lemma SliceCons(xs: seq<Node>, i: nat)
    requires i < |xs|
    ensures xs[i..] == [xs[i]] + xs[i + 1..]
  {
  }

  lemma PrependOne(c: Node, cs: seq<Node>, next: nat)
    ensures Prepend([c], Some(Scan(cs, next))) == Some(Scan([c] + cs, next))
  {
  }

  lemma ItemsClose(vals: string, idx: nat)
    requires idx < |vals| && vals[idx] == ']'
    ensures Items(vals, idx) == Some(Scan([], idx + 1))
  {
  }

  lemma ItemsComma(vals: string, idx: nat)
    requires idx < |vals| && vals[idx] == ','
    ensures Items(vals, idx) == Items(vals, idx + 1)
  {
  }

  lemma ItemsOpen(vals: string, idx: nat)
    requires idx < |vals| && vals[idx] == '[' && Items(vals, idx + 1).Some?
    ensures Items(vals, idx) == Prepend([List(Items(vals, idx + 1).value.children)], Items(vals, Items(vals, idx + 1).value.next))
  {
  }

  lemma ItemsDigit(vals: string, idx: nat, j: nat, v: int)
    requires idx < j < |vals| && IsDigit(vals[idx]) && RunEnd(vals, idx + 1) == j
    requires AllDigits(vals[idx..j]) && DigitsValue(vals[idx..j]) == v <= I32_MAX
    ensures Items(vals, idx) == Prepend([Int(v)], Items(vals, j))
  {
  }

  /** A run of digits is what `parse` reads as its decimal value, refused
      when it does not fit in an i32. */
  lemma DigitRun(vals: string, idx: nat, j: nat)
    requires idx < j <= |vals| && IsDigit(vals[idx]) && RunEnd(vals, idx + 1) == j
    ensures AllDigits(vals[idx..j])
    ensures ParseInt(vals[idx..j], I32_MIN, I32_MAX)
      == if DigitsValue(vals[idx..j]) <= I32_MAX then Some(DigitsValue(vals[idx..j]) as int) else None
  {
    forall k | 0 <= k < j - idx ensures IsDigit(vals[idx..j][k]) {
      assert vals[idx..j][k] == vals[idx + k];
    }
    ParseIntDigits(vals[idx..j], I32_MIN, I32_MAX);
  }

  /** Parsing the printed text of a packet gives the packet back. */
  lemma RoundTrip(n: Node)
    requires WellFormed(n) && n.isList
    ensures Packet(Show(n)) == Some(n)
  {
    var s := Show(n);
    var inner := ShowFrom(n, 0);
    assert s[1..1 + |inner|] == inner;
    SpellItems(s, 1, n, 0);
    ReadItems(s, 1, n, 0);
    assert n.children[0..] == n.children;
  }

  // ---------------------------------------------------------------------
  // solve_part1
  // ---------------------------------------------------------------------

  datatype Pair = Pair(left: string, right: string)

  /** The trimmed non-blank lines, in order. */
  function NonBlank(lines: seq<string>): (r: seq<string>)
    ensures forall k :: 0 <= k < |r| ==> r[k] != []
  {
    if lines == [] then []
    else
      var rest := NonBlank(lines[..|lines| - 1]);
      var t := Trim(lines[|lines| - 1]);
      if t == [] then rest else rest + [t]
  }

  /** Consecutive lines two by two; an odd last line has no partner. */
  function PairsOf(ls: seq<string>): (r: seq<Pair>)
    ensures |r| == |ls| / 2
  {
    seq(|ls| / 2, k requires 0 <= k < |ls| / 2 => Pair(ls[2 * k], ls[2 * k + 1]))
  }

  /** The line waiting for its partner. */
  function Pending(ls: seq<string>): string {
    if |ls| % 2 == 1 then ls[|ls| - 1] else ""
  }

  lemma PairsSnoc(ls: seq<string>, t: string)
    ensures |ls| % 2 == 0 ==> PairsOf(ls + [t]) == PairsOf(ls) && Pending(ls + [t]) == t
    ensures |ls| % 2 == 1 ==> PairsOf(ls + [t]) == PairsOf(ls) + [Pair(ls[|ls| - 1], t)] && Pending(ls + [t]) == ""
  {
    var l2 := ls + [t];
    if |ls| % 2 == 1 {
      assert |l2| / 2 == |ls| / 2 + 1;
      forall k | 0 <= k < |ls| / 2 ensures PairsOf(l2)[k] == PairsOf(ls)[k] {
        assert l2[2 * k] == ls[2 * k] && l2[2 * k + 1] == ls[2 * k + 1];
      }
      assert PairsOf(l2)[|ls| / 2] == Pair(ls[|ls| - 1], t);
    } else {
      assert |l2| / 2 == |ls| / 2;
      forall k | 0 <= k < |ls| / 2 ensures PairsOf(l2)[k] == PairsOf(ls)[k] {
        assert l2[2 * k] == ls[2 * k] && l2[2 * k + 1] == ls[2 * k + 1];
      }
    }
  }

  /** The first loop of `solve_part1`: a pair is started by a non-blank
      line and completed by the next one. */
  method PairLines(lines: seq<string>) returns (pairs: seq<Pair>)
    ensures pairs == PairsOf(NonBlank(lines))
  {
    pairs := [];
    var first, second := "", "";
    for i := 0 to |lines|
      invariant pairs == PairsOf(NonBlank(lines[..i]))
      invariant first == Pending(NonBlank(lines[..i])) && second == ""
    {
      assert lines[..i + 1][..i] == lines[..i];
      var t := Trim(lines[i]);
      if t != [] {
        PairsSnoc(NonBlank(lines[..i]), t);
        if first == [] {
          first := t;
        } else {
          second := t;
          pairs := pairs + [Pair(first, second)];
          first, second := "", "";
        }
      }
    }
    assert lines[..|lines|] == lines;
  }

  /** What one pair contributes: `None` where parsing panics, otherwise
      the comparison of the two packets. */
  function Verdict(p: Pair): Option<Option<bool>> {
    match Packet(p.left)
    case None => None
    case Some(l) =>
      match Packet(p.right)
      case None => None
      case Some(r) => Some(Compare(l, r))
  }

  /** The sum of the 1-based indices of the first `n` pairs that are in
      order; `None` once a pair fails to parse. */
  function Score(pairs: seq<Pair>, n: nat): Option<int>
    requires n <= |pairs|
  {
    if n == 0 then Some(0)
    else
      match Score(pairs, n - 1)
      case None => None
      case Some(s) =>
        match Verdict(pairs[n - 1])
        case None => None
        case Some(v) => Some(if v == Some(true) then s + n else s)
  }

  /** The answer to part 1: the score of all the pairs. */
  function Part1(lines: seq<string>): Option<int> {
    var pairs := PairsOf(NonBlank(lines));
    Score(pairs, |pairs|)
  }

  lemma {:induction false} ScoreStaysNone(pairs: seq<Pair>, i: nat, n: nat)
    requires i <= n <= |pairs| && Score(pairs, i).None?
    ensures Score(pairs, n).None?
    decreases n - i
  {
    if i < n {
      ScoreStaysNone(pairs, i + 1, n);
    }
  }

  /** The body of the scoring loop of `solve_part1`: parse both packets
      with the shared parser and compare them. */
  method Judge(parser: Parser, p: Pair) returns (v: Option<Option<bool>>)
    modifies parser
    ensures v == Verdict(p)
  {
    var left := parser.Parse(p.left);
    if left.None? {
      return None;
    }
    var right := parser.Parse(p.right);
    if right.None? {
      return None;
    }
    var ordered := IsOrdered(left.value, right.value);
    return Some(ordered);
  }

  /** `solve_part1`. */
  method SolvePart1(lines: seq<string>) returns (answer: Option<int>)
    ensures answer == Part1(lines)
  {
    var parser := new Parser();
    var pairs := PairLines(lines);
    answer := ScorePairs(parser, pairs);
  }

  /** The scoring loop of `solve_part1`: add the 1-based index of every
      pair in the right order. */
  method ScorePairs(parser: Parser, pairs: seq<Pair>) returns (answer: Option<int>)
    modifies parser
    ensures answer == Score(pairs, |pairs|)
  {
    var ans := 0;
    for i := 0 to |pairs|
      invariant Score(pairs, i) == Some(ans)
    {
      var verdict := Judge(parser, pairs[i]);
      if verdict.None? {
        ScoreStaysNone(pairs, i + 1, |pairs|);
        return None;
      }
      if verdict.value == Some(true) {
        ans := ans + i + 1;
      }
    }
    return Some(ans);
  }

  /** 1 + 2 + ... + n. */
  function Triangle(n: nat): nat {
    if n == 0 then 0 else Triangle(n - 1) + n
  }

  /** The sum never exceeds 1 + 2 + ... + n, and with at most 65535 pairs
      it fits the program's i32. */
  lemma {:induction false} ScoreBound(pairs: seq<Pair>, n: nat, s: int)
    requires n <= |pairs| && Score(pairs, n) == Some(s)
    ensures 0 <= s <= Triangle(n)
    ensures n <= 65535 ==> s <= I32_MAX
  {
    if n > 0 {
      var prev :| Score(pairs, n - 1) == Some(prev);
      ScoreBound(pairs, n - 1, prev);
    }
    if n <= 65535 {
      TriangleFits(n);
    }
  }

  lemma {:induction false} TriangleClosed(n: nat)
    ensures 2 * Triangle(n) == n * (n + 1)
  {
    if n > 0 {
      TriangleClosed(n - 1);
      assert (n - 1) * n + 2 * n == n * (n + 1);
    }
  }

  lemma TriangleFits(n: nat)
    requires n <= 65535
    ensures Triangle(n) <= I32_MAX
  {
    TriangleClosed(n);
    assert n * 65536 - n * (n + 1) == n * (65535 - n);
    assert n * 65536 <= 65535 * 65536;
  }

  /** A pair of printed packets is judged by comparing the packets. */
  lemma VerdictOfShown(x: Node, y: Node)
    requires WellFormed(x) && x.isList && WellFormed(y) && y.isList
    ensures Verdict(Pair(Show(x), Show(y))) == Some(Compare(x, y))
  {
    RoundTrip(x);
    RoundTrip(y);
  }
}
