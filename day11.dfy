/** Day 11 of 2022 (2022/day11.rs): monkeys pass items around. On its
    turn a monkey inspects every item it holds, in order: it computes a new
    worry level (adding or multiplying), reduces it modulo the least common
    multiple of all divisors, divides it by 3 in part 1, and throws it to
    one of two monkeys depending on whether the level is divisible by its
    test divisor. The answer is the product of the two largest inspection
    counts after 20 (part 1) or 10000 (part 2) rounds. */
module Day11 {
  import opened Results
  import opened TextNum
  import opened Sorting

  const U64_MAX: int := 0xFFFF_FFFF_FFFF_FFFF

  // ---------------------------------------------------------------------
  // parse_numbers

  /** The state of parse_numbers after a prefix of the line: the digit runs
      already closed, and the run being collected. */
  function Scan(s: string): (seq<string>, string) {
    if s == [] then ([], [])
    else
      var (runs, buf) := Scan(s[..|s| - 1]);
      var c := s[|s| - 1];
      if IsDigit(c) then (runs, buf + [c])
      else if buf != [] then (runs + [buf], [])
      else (runs, [])
  }

  /** The maximal runs of decimal digits of a line, left to right. */
  function Runs(s: string): seq<string> {
    var (runs, buf) := Scan(s);
    if buf != [] then runs + [buf] else runs
  }

  /** `parse::<u64>().unwrap()` of each run: None when one exceeds u64. */
  function Values(runs: seq<string>): Option<seq<nat>> {
    if runs == [] then Some([])
    else
      var prev := Values(runs[..|runs| - 1]);
      var v := ParseInt(runs[|runs| - 1], 0, U64_MAX);
      if prev.None? || v.None? then None else Some(prev.value + [v.value as nat])
  }

  /** parse_numbers: the numbers written in a line, as `u64`. */
  method ParseNumbers(line: string) returns (r: Option<seq<nat>>)
    ensures r == Values(Runs(line))
  {
    var v: seq<nat> := [];
    var s: string := [];
    ghost var runs: seq<string> := [];
    for i := 0 to |line|
      invariant Scan(line[..i]) == (runs, s)
      invariant Values(runs) == Some(v)
    {
      ScanNext(line, i);
      var c := line[i];
      if IsDigit(c) {
        s := s + [c];
      } else if s != [] {
        var n := ParseInt(s, 0, U64_MAX);
        ValuesSnoc(runs, s);
        runs := runs + [s];
        if n.None? {
          ScanGrows(line, i + 1);
          ValuesNoneUp(Runs(line), |runs|);
          return None;
        }
        v := v + [n.value];
        s := [];
      }
    }
    assert line[..|line|] == line;
    if s != [] {
      ValuesSnoc(runs, s);
      var n := ParseInt(s, 0, U64_MAX);
      if n.None? {
        return None;
      }
      v := v + [n.value];
    }
    return Some(v);
  }

  lemma ScanNext(line: string, i: nat)
    requires i < |line|
    ensures var (runs, buf) := Scan(line[..i]);
      Scan(line[..i + 1]) ==
        if IsDigit(line[i]) then (runs, buf + [line[i]])
        else if buf != [] then (runs + [buf], [])
        else (runs, [])
  {
    assert line[..i + 1][..i] == line[..i];
  }

  lemma ValuesSnoc(runs: seq<string>, s: string)
    ensures var v := ParseInt(s, 0, U64_MAX);
      Values(runs + [s]) ==
        if Values(runs).None? || v.None? then None else Some(Values(runs).value + [v.value as nat])
  {
    assert (runs + [s])[..|runs|] == runs;
  }

  /** The runs closed after a prefix are the first runs of the whole line. */
  lemma {:induction false} ScanGrows(s: string, k: nat)
    requires k <= |s|
    ensures Scan(s[..k]).0 <= Runs(s)
    decreases |s| - k
  {
    if k < |s| {
      assert s[..k + 1][..k] == s[..k];
      ScanGrows(s, k + 1);
    } else {
      assert s[..k] == s;
    }
  }

  lemma {:induction false} ValuesNoneUp(runs: seq<string>, k: nat)
    requires k <= |runs| && Values(runs[..k]).None?
    ensures Values(runs).None?
    decreases |runs| - k
  {
    if k < |runs| {
      assert runs[..k + 1][..k] == runs[..k];
      ValuesNoneUp(runs, k + 1);
    } else {
      assert runs[..k] == runs;
    }
  }

  /** A scan that holds no pending run continues independently of what came
      before. */
  lemma {:induction false} ScanAfterBreak(x: string, b: string)
    requires Scan(x).1 == []
    ensures Scan(x + b) == (Scan(x).0 + Scan(b).0, Scan(b).1)
    decreases |b|
  {
    if b == [] {
      assert x + b == x && Scan(x).0 + [] == Scan(x).0;
    } else {
      var b' := b[..|b| - 1];
      assert (x + b)[..|x + b| - 1] == x + b';
      ScanAfterBreak(x, b');
      assert (x + b)[|x + b| - 1] == b[|b| - 1];
      assert Scan(x).0 + Scan(b').0 + [Scan(b').1] == Scan(x).0 + (Scan(b').0 + [Scan(b').1]);
    }
  }

  /** A non-digit separates: the runs of a + [c] + b are those of a
      followed by those of b. */
  lemma RunsSeparate(a: string, c: char, b: string)
    requires !IsDigit(c)
    ensures Runs(a + [c] + b) == Runs(a) + Runs(b)
  {
    assert (a + [c])[..|a|] == a;
    assert Scan(a + [c]) == (Runs(a), []);
    ScanAfterBreak(a + [c], b);
    assert Runs(a) + Scan(b).0 + [Scan(b).1] == Runs(a) + (Scan(b).0 + [Scan(b).1]);
  }

  lemma {:induction false} ScanDigits(s: string)
    requires AllDigits(s)
    ensures Scan(s) == ([], s)
  {
    if s != [] {
      assert s[..|s| - 1] + [s[|s| - 1]] == s;
      ScanDigits(s[..|s| - 1]);
    }
  }

  lemma {:induction false} ScanNoDigits(s: string)
    requires forall i | 0 <= i < |s| :: !IsDigit(s[i])
    ensures Scan(s) == ([], [])
  {
    if s != [] {
      ScanNoDigits(s[..|s| - 1]);
    }
  }

  /** A non-empty run of digits is one number; a line without digits has
      none. With RunsSeparate these determine Runs on every line. */
  lemma RunsOfDigits(s: string)
    ensures AllDigits(s) && s != [] ==> Runs(s) == [s]
    ensures (forall i | 0 <= i < |s| :: !IsDigit(s[i])) ==> Runs(s) == []
  {
    if AllDigits(s) {
      ScanDigits(s);
    }
    if forall i | 0 <= i < |s| :: !IsDigit(s[i]) {
      ScanNoDigits(s);
    }
  }

  /** The values are the runs' decimal values, in order; there are none
      exactly when some run exceeds the `u64` range. */
  lemma {:induction false} ValuesMeaning(runs: seq<string>)
    requires forall k | 0 <= k < |runs| :: runs[k] != [] && AllDigits(runs[k])
    ensures Values(runs).Some? <==> forall k | 0 <= k < |runs| :: DigitsValue(runs[k]) <= U64_MAX
    ensures Values(runs).Some? ==>
      && |Values(runs).value| == |runs|
      && forall k | 0 <= k < |runs| :: Values(runs).value[k] == DigitsValue(runs[k])
  {
    if runs != [] {
      var init := runs[..|runs| - 1];
      ValuesMeaning(init);
      ParseIntDigits(runs[|runs| - 1], 0, U64_MAX);
      if Values(runs).Some? {
        forall k | 0 <= k < |runs|
          ensures DigitsValue(runs[k]) <= U64_MAX
        {
          if k < |runs| - 1 {
            assert runs[k] == init[k];
          }
        }
      }
      if forall k | 0 <= k < |runs| :: DigitsValue(runs[k]) <= U64_MAX {
        forall k | 0 <= k < |init|
          ensures DigitsValue(init[k]) <= U64_MAX
        {
          assert init[k] == runs[k];
        }
      }
    }
  }

  // ---------------------------------------------------------------------
  // gcd, lcm and the fold over the divisors

  /** d divides n; zero divides only zero. */
  predicate Divides(d: nat, n: nat) {
    if d == 0 then n == 0 else n % d == 0
  }

  /** Euclid's algorithm; gcd(a, 0) = a. */
  function Gcd(a: nat, b: nat): (g: nat)
    ensures Divides(g, a) && Divides(g, b)
    ensures a > 0 || b > 0 ==> g > 0
    decreases b
  {
    if b == 0 then a
    else
      var g := Gcd(b, a % b);
      DividesFromRemainder(a, b, g);
      g
  }

  /** lcm(a, b) = (a / gcd(a, b)) * b; it divides by zero, a panic, when
      both arguments are zero. */
  function Lcm(a: nat, b: nat): (r: nat)
    requires a > 0 || b > 0
    ensures Divides(a, r) && Divides(b, r)
    ensures a > 0 && b > 0 ==> r > 0
  {
    var g := Gcd(a, b);
    var r := (a / g) * b;
    LcmDivides(a, b, g);
    r
  }

  /** `monkeys.iter().map(|m| m.divisible).fold(1, lcm)`. */
  function LcmOfDivisors(ms: seq<Monkey>): (r: nat)
    requires forall j | 0 <= j < |ms| :: ms[j].divisible > 0
    ensures r > 0 && forall j | 0 <= j < |ms| :: Divides(ms[j].divisible, r)
  {
    if ms == [] then 1
    else
      var acc := LcmOfDivisors(ms[..|ms| - 1]);
      var r := Lcm(acc, ms[|ms| - 1].divisible);
      DividesEach(ms, acc, r);
      r
  }

  lemma DividesEach(ms: seq<Monkey>, acc: nat, r: nat)
    requires ms != [] && acc > 0 && Divides(acc, r) && Divides(ms[|ms| - 1].divisible, r)
    requires forall j | 0 <= j < |ms| - 1 :: Divides(ms[j].divisible, acc)
    ensures forall j | 0 <= j < |ms| :: Divides(ms[j].divisible, r)
  {
    forall j | 0 <= j < |ms| - 1
      ensures Divides(ms[j].divisible, r)
    {
      DividesTrans(ms[j].divisible, acc, r);
    }
  }

  /** The common divisors of a and b are exactly the divisors of gcd(a, b). */
  lemma {:induction false} GcdGreatest(a: nat, b: nat, d: nat)
    ensures Divides(d, a) && Divides(d, b) <==> Divides(d, Gcd(a, b))
    decreases b
  {
    var g := Gcd(a, b);
    if b > 0 {
      if Divides(d, a) && Divides(d, b) {
        DividesRemainder(a, b, d);
        GcdGreatest(b, a % b, d);
      }
    }
    if Divides(d, g) {
      DividesTrans(d, g, a);
      DividesTrans(d, g, b);
    }
  }

  // Arithmetic helpers -------------------------------------------------

  /** x % L is r whenever x = L q + r with 0 <= r < L. */
  lemma ModUnique(x: int, L: int, q: int, r: int)
    requires L > 0 && 0 <= r < L && x == L * q + r
    ensures x % L == r && x / L == q
  {
    var k := x / L - q;
    assert L * k == r - x % L;
    MulSign(L, k);
  }

  lemma MulSign(L: int, k: int)
    requires L > 0
    ensures k >= 1 ==> L * k >= L
    ensures k <= -1 ==> L * k <= -L
  {
  }

  lemma MultipleOf(g: nat, k: nat)
    ensures Divides(g, g * k)
  {
    if g > 0 {
      ModUnique(g * k, g, k, 0);
    }
  }

  lemma DividesTrans(d: nat, m: nat, n: nat)
    requires Divides(d, m) && Divides(m, n)
    ensures Divides(d, n)
  {
    if m > 0 && d > 0 {
      var p, q := m / d, n / m;
      assert m == d * p && n == m * q;
      assert n == d * (p * q);
      MultipleOf(d, p * q);
    }
  }

  /** A common divisor of b and a % b divides a. */
  lemma DividesFromRemainder(a: nat, b: nat, g: nat)
    requires b > 0 && Divides(g, b) && Divides(g, a % b)
    ensures Divides(g, a)
  {
    var p, q := b / g, (a % b) / g;
    assert b == g * p && a % b == g * q;
    assert a == g * (p * (a / b) + q) by {
      assert a == b * (a / b) + a % b;
    }
    MultipleOf(g, p * (a / b) + q);
  }

  /** A common divisor of a and b divides a % b. */
  lemma DividesRemainder(a: nat, b: nat, d: nat)
    requires b > 0 && Divides(d, a) && Divides(d, b)
    ensures Divides(d, a % b)
  {
    var p, q := a / d, b / d;
    assert a == d * p && b == d * q;
    var k := a / b;
    assert a % b == d * (p - q * k) by {
      assert a % b == a - b * k;
    }
    ModUnique(a % b, d, p - q * k, 0);
  }

  lemma LcmDivides(a: nat, b: nat, g: nat)
    requires (a > 0 || b > 0) && g == Gcd(a, b)
    ensures Divides(a, (a / g) * b) && Divides(b, (a / g) * b)
    ensures a > 0 && b > 0 ==> (a / g) * b > 0
  {
    var a', b' := a / g, b / g;
    Quotient(a, g);
    Quotient(b, g);
    Rearrange(g, a', b');
    MultipleOf(a, b');
    MultipleOf(b, a');
    if a > 0 && b > 0 {
      MulPositive(a', b);
    }
  }

  lemma Quotient(x: nat, g: nat)
    requires g > 0 && Divides(g, x)
    ensures x == g * (x / g) && (x > 0 ==> x / g > 0)
  {
  }

  lemma Rearrange(g: nat, x: nat, y: nat)
    ensures x * (g * y) == (g * x) * y && (g * y) * x == x * (g * y)
  {
  }

  lemma MulPositive(x: nat, y: nat)
    requires x > 0 && y > 0
    ensures x * y > 0
  {
  }

  // ---------------------------------------------------------------------
  // Monkeys, worry levels and the throwing rule

  datatype Operation = Add | Multi

  datatype Monkey = Monkey(
    id: nat,
    items: seq<nat>,
    operation: Operation,
    added: nat,
    divisible: nat,
    isOld: bool,
    throwTrue: nat,
    throwFalse: nat)

  /** The worry level after the monkey's operation, before any reduction:
      the item's level plus or times `added`, or the level itself when the
      operation reads `old`. */
  function Raw(w: nat, m: Monkey): nat {
    var added := if m.isOld then w else m.added;
    match m.operation
    case Add => w + added
    case Multi => w * added
  }

  /** new_worry_level: the operation's result reduced modulo `lcm`. */
  function NewWorryLevel(w: nat, m: Monkey, lcm: nat): (r: nat)
    requires lcm > 0
    ensures r < lcm
  {
    Raw(w, m) % lcm
  }

  /** The reduction keeps the residue modulo every divisor of `lcm`, so the
      divisibility test of a monkey whose divisor divides `lcm` is unchanged. */
  lemma WorryResidue(w: nat, m: Monkey, lcm: nat, d: nat)
    requires lcm > 0 && d > 0 && Divides(d, lcm)
    ensures NewWorryLevel(w, m, lcm) % d == Raw(w, m) % d
    ensures NewWorryLevel(w, m, lcm) % d == 0 <==> Raw(w, m) % d == 0
  {
    ModOfMultiple(Raw(w, m), lcm, d);
  }

  lemma ModOfMultiple(x: nat, L: nat, d: nat)
    requires d > 0 && L > 0 && L % d == 0
    ensures (x % L) % d == x % d
  {
    var e := L / d;
    assert L == d * e;
    ModUnique(x, d, (x / L) * e + (x % L) / d, (x % L) % d);
  }

  /** How a simulation computes the level an item is thrown with:
      AsWritten is the program (reduce modulo lcm, then divide by 3 in
      part 1); Unreduced is the puzzle's own rule, with no reduction;
      Corrected reduces only in part 2, where nothing is divided. */
  datatype Rule =
    | AsWritten(lcm: nat, part1: bool)
    | Corrected(lcm: nat, part1: bool)
    | Unreduced(part1: bool)

  predicate RuleOk(rule: Rule) {
    rule.Unreduced? || rule.lcm > 0
  }

  /** `if part_1 { 3 } else { 1 }`. */
  function Relief(part1: bool): nat {
    if part1 then 3 else 1
  }

  function Level(rule: Rule, w: nat, m: Monkey): nat
    requires RuleOk(rule)
  {
    match rule
    case AsWritten(lcm, part1) => NewWorryLevel(w, m, lcm) / Relief(part1)
    case Corrected(lcm, part1) => if part1 then Raw(w, m) / 3 else NewWorryLevel(w, m, lcm)
    case Unreduced(part1) => Raw(w, m) / Relief(part1)
  }

  /** The monkey an item with level w is thrown to. */
  function Target(m: Monkey, w: nat): nat
    requires m.divisible > 0
  {
    if w % m.divisible == 0 then m.throwTrue else m.throwFalse
  }

  /** The indexing in solve stays in bounds and no divisor is zero. */
  predicate WellFormed(ms: seq<Monkey>) {
    forall j | 0 <= j < |ms| ::
      ms[j].id < |ms| && ms[j].divisible > 0 && ms[j].throwTrue < |ms| && ms[j].throwFalse < |ms|
  }

  // ---------------------------------------------------------------------
  // The simulation as functions. Only the items move, so the state is the
  // list each monkey holds and the counts; the monkeys' rules are fixed.

  /** The lists after monkey m throws the items, in order: each goes to the
      end of its target's list. */
  function Throw(held: seq<seq<nat>>, m: Monkey, items: seq<nat>, rule: Rule): (r: seq<seq<nat>>)
    requires RuleOk(rule) && m.divisible > 0 && m.throwTrue < |held| && m.throwFalse < |held|
    ensures |r| == |held|
  {
    if items == [] then held
    else
      var prev := Throw(held, m, items[..|items| - 1], rule);
      var w := Level(rule, items[|items| - 1], m);
      var t := Target(m, w);
      prev[t := prev[t] + [w]]
  }

  datatype Troop = Troop(held: seq<seq<nat>>, inspects: seq<nat>)

  predicate Ready(ms: seq<Monkey>, tr: Troop) {
    WellFormed(ms) && |tr.held| == |ms| && |tr.inspects| == |ms|
  }

  /** Monkey i's turn: its count grows by the items it holds, which it
      gives up and throws; while it throws, its own list is empty. */
  function Turn(ms: seq<Monkey>, tr: Troop, i: nat, rule: Rule): (r: Troop)
    requires Ready(ms, tr) && i < |ms| && RuleOk(rule)
    ensures Ready(ms, r)
  {
    var m := ms[i].(items := []);
    var items := tr.held[i];
    Troop(Throw(tr.held[i := []], m, items, rule), tr.inspects[m.id := tr.inspects[m.id] + |items|])
  }

  /** The turns of monkeys 0 .. k-1. */
  function Round(ms: seq<Monkey>, tr: Troop, k: nat, rule: Rule): (r: Troop)
    requires Ready(ms, tr) && k <= |ms| && RuleOk(rule)
    ensures Ready(ms, r)
  {
    if k == 0 then tr else Turn(ms, Round(ms, tr, k - 1, rule), k - 1, rule)
  }

  function Rounds(ms: seq<Monkey>, tr: Troop, n: nat, rule: Rule): (r: Troop)
    requires Ready(ms, tr) && RuleOk(rule)
    ensures Ready(ms, r)
  {
    if n == 0 then tr else Round(ms, Rounds(ms, tr, n - 1, rule), |ms|, rule)
  }

  /** The items each monkey holds. */
  function Held(ms: seq<Monkey>): (r: seq<seq<nat>>)
    ensures |r| == |ms| && forall j | 0 <= j < |ms| :: r[j] == ms[j].items
  {
    seq(|ms|, j requires 0 <= j < |ms| => ms[j].items)
  }

  /** The monkeys without their items: what solve never changes. */
  function Stripped(ms: seq<Monkey>): (r: seq<Monkey>)
    ensures |r| == |ms| && forall j | 0 <= j < |ms| :: r[j] == ms[j].(items := [])
  {
    seq(|ms|, j requires 0 <= j < |ms| => ms[j].(items := []))
  }

  function Start(ms: seq<Monkey>): Troop {
    Troop(Held(ms), seq(|ms|, _ => 0))
  }

  /** The product of the two largest counts after the descending sort;
      None where `inspects[1]` is out of bounds. */
  function Business(inspects: seq<nat>): Option<int> {
    if |inspects| < 2 then None
    else
      var sorted := SortDesc(inspects);
      Some(sorted[0] * sorted[1])
  }

  // ---------------------------------------------------------------------
  // The program

  /** Replacing one monkey's items changes that list and nothing else. */
  lemma SetItems(s: seq<Monkey>, t: nat, x: seq<nat>)
    requires t < |s|
    ensures Held(s[t := s[t].(items := x)]) == Held(s)[t := x]
    ensures Stripped(s[t := s[t].(items := x)]) == Stripped(s)
  {
  }

  /** One turn of solve: the `inspects` update, then the `for item in
      items` loop. */
  method TakeTurn(ms: array<Monkey>, inspects: array<nat>, i: nat, lcm: nat, part1: bool,
                  ghost monkeys: seq<Monkey>)
    requires WellFormed(monkeys) && ms.Length == |monkeys| == inspects.Length && i < ms.Length && lcm > 0
    requires Stripped(ms[..]) == Stripped(monkeys)
    modifies ms, inspects
    ensures Stripped(ms[..]) == Stripped(monkeys)
    ensures Troop(Held(ms[..]), inspects[..])
         == Turn(monkeys, old(Troop(Held(ms[..]), inspects[..])), i, AsWritten(lcm, part1))
  {
    ghost var before := Troop(Held(ms[..]), inspects[..]);
    var m := ms[i];
    inspects[m.id] := inspects[m.id] + |m.items|;
    var items := m.items;
    SetHeld(ms, i, []);
    var monkey := ms[i];
    assert monkey == Stripped(monkeys)[i];
    ThrowAll(ms, monkey, items, AsWritten(lcm, part1));
  }

  /** The `for item in items` loop of a turn. */
  method ThrowAll(ms: array<Monkey>, monkey: Monkey, items: seq<nat>, rule: Rule)
    requires rule.AsWritten? && rule.lcm > 0
    requires monkey.divisible > 0 && monkey.throwTrue < ms.Length && monkey.throwFalse < ms.Length
    modifies ms
    ensures Held(ms[..]) == Throw(old(Held(ms[..])), monkey, items, rule)
    ensures Stripped(ms[..]) == old(Stripped(ms[..]))
  {
    ghost var start := Held(ms[..]);
    for k := 0 to |items|
      invariant Held(ms[..]) == Throw(start, monkey, items[..k], rule)
      invariant Stripped(ms[..]) == old(Stripped(ms[..]))
    {
      var w := NewWorryLevel(items[k], monkey, rule.lcm) / Relief(rule.part1);
      var t := Target(monkey, w);
      ThrowStep(start, monkey, items, k, rule);
      SetHeld(ms, t, ms[t].items + [w]);
    }
    assert items[..|items|] == items;
  }

  /** `monkeys[t].items = x`: one list replaced, every rule kept. */
  method SetHeld(ms: array<Monkey>, t: nat, x: seq<nat>)
    requires t < ms.Length
    modifies ms
    ensures Held(ms[..]) == old(Held(ms[..]))[t := x]
    ensures Stripped(ms[..]) == old(Stripped(ms[..]))
    ensures ms[t] == old(ms[t]).(items := x)
  {
    SetItems(ms[..], t, x);
    ms[t] := ms[t].(items := x);
  }

  /** A single item goes to the end of its target's list. */
  lemma ThrowOne(held: seq<seq<nat>>, m: Monkey, x: nat, rule: Rule)
    requires RuleOk(rule) && m.divisible > 0 && m.throwTrue < |held| && m.throwFalse < |held|
    ensures var w := Level(rule, x, m);
      Throw(held, m, [x], rule) == held[Target(m, w) := held[Target(m, w)] + [w]]
  {
    assert [x][..0] == [];
  }

  /** Throwing one more item appends its level to its target's list. */
  lemma ThrowStep(held: seq<seq<nat>>, m: Monkey, items: seq<nat>, k: nat, rule: Rule)
    requires RuleOk(rule) && m.divisible > 0 && m.throwTrue < |held| && m.throwFalse < |held| && k < |items|
    ensures var prev := Throw(held, m, items[..k], rule);
      var w := Level(rule, items[k], m);
      Throw(held, m, items[..k + 1], rule) == prev[Target(m, w) := prev[Target(m, w)] + [w]]
  {
    assert items[..k + 1][..k] == items[..k];
  }

  /** The turns of one round. */
  method PlayRound(ms: array<Monkey>, inspects: array<nat>, lcm: nat, part1: bool, ghost monkeys: seq<Monkey>)
    requires WellFormed(monkeys) && ms.Length == |monkeys| == inspects.Length && lcm > 0
    requires Stripped(ms[..]) == Stripped(monkeys)
    modifies ms, inspects
    ensures Stripped(ms[..]) == Stripped(monkeys)
    ensures Troop(Held(ms[..]), inspects[..])
         == Round(monkeys, old(Troop(Held(ms[..]), inspects[..])), |monkeys|, AsWritten(lcm, part1))
  {
    ghost var begin := Troop(Held(ms[..]), inspects[..]);
    for i := 0 to ms.Length
      invariant Stripped(ms[..]) == Stripped(monkeys)
      invariant Troop(Held(ms[..]), inspects[..]) == Round(monkeys, begin, i, AsWritten(lcm, part1))
    {
      TakeTurn(ms, inspects, i, lcm, part1, monkeys);
    }
  }

  /** solve: `rounds` rounds, then the product of the two largest counts. */
  method Solve(rounds: nat, monkeys: seq<Monkey>, lcm: nat, part1: bool) returns (answer: Option<int>)
    requires WellFormed(monkeys) && lcm > 0
    ensures answer == Business(Rounds(monkeys, Start(monkeys), rounds, AsWritten(lcm, part1)).inspects)
  {
    var count := |monkeys|;
    var ms := new Monkey[count](k requires 0 <= k < count => monkeys[k]);
    var inspects := new nat[count](k => 0);
    assert ms[..] == monkeys;
    assert Troop(Held(ms[..]), inspects[..]) == Start(monkeys);
    for r := 0 to rounds
      invariant Stripped(ms[..]) == Stripped(monkeys)
      invariant Troop(Held(ms[..]), inspects[..]) == Rounds(monkeys, Start(monkeys), r, AsWritten(lcm, part1))
    {
      PlayRound(ms, inspects, lcm, part1, monkeys);
    }
    if count < 2 {
      return None;
    }
    var sorted := SortDesc(inspects[..]);
    return Some(sorted[0] * sorted[1]);
  }

  /** main: the lcm of the divisors, then 20 rounds with relief and 10000
      without. Part 2 agrees with the puzzle's unreduced rule. */
  method Puzzle(monkeys: seq<Monkey>) returns (part1: Option<int>, part2: Option<int>)
    requires WellFormed(monkeys)
    ensures var lcm := LcmOfDivisors(monkeys);
      && part1 == Business(Rounds(monkeys, Start(monkeys), 20, AsWritten(lcm, true)).inspects)
      && part2 == Business(Rounds(monkeys, Start(monkeys), 10000, AsWritten(lcm, false)).inspects)
    ensures part2 == Business(Rounds(monkeys, Start(monkeys), 10000, Unreduced(false)).inspects)
  {
    var lcm := LcmOfDivisors(monkeys);
    part1 := Solve(20, monkeys, lcm, true);
    part2 := Solve(10000, monkeys, lcm, false);
    ReductionSound(monkeys, 10000, AsWritten(lcm, false));
  }

  // ---------------------------------------------------------------------
  // What a turn does

  /** The levels, in order, of the items monkey m throws to monkey j. */
  function Sent(m: Monkey, items: seq<nat>, rule: Rule, j: nat): seq<nat>
    requires RuleOk(rule) && m.divisible > 0
  {
    if items == [] then []
    else
      var w := Level(rule, items[|items| - 1], m);
      Sent(m, items[..|items| - 1], rule, j) + (if Target(m, w) == j then [w] else [])
  }

  /** Each monkey's list grows by exactly the items thrown to it, in the
      order they were thrown. */
  lemma {:induction false} ThrowMeaning(held: seq<seq<nat>>, m: Monkey, items: seq<nat>, rule: Rule, j: nat)
    requires RuleOk(rule) && m.divisible > 0 && m.throwTrue < |held| && m.throwFalse < |held| && j < |held|
    ensures Throw(held, m, items, rule)[j] == held[j] + Sent(m, items, rule, j)
  {
    if items != [] {
      ThrowMeaning(held, m, items[..|items| - 1], rule, j);
    }
  }

  /** The number of items all monkeys hold. */
  function Total(held: seq<seq<nat>>): nat {
    if held == [] then 0 else Total(held[..|held| - 1]) + |held[|held| - 1]|
  }

  lemma {:induction false} TotalUpdate(held: seq<seq<nat>>, t: nat, x: seq<nat>)
    requires t < |held|
    ensures Total(held[t := x]) + |held[t]| == Total(held) + |x|
  {
    var n := |held|;
    if t == n - 1 {
      assert held[t := x][..n - 1] == held[..n - 1];
    } else {
      assert held[t := x][..n - 1] == held[..n - 1][t := x];
      TotalUpdate(held[..n - 1], t, x);
    }
  }

  lemma {:induction false} ThrowTotal(held: seq<seq<nat>>, m: Monkey, items: seq<nat>, rule: Rule)
    requires RuleOk(rule) && m.divisible > 0 && m.throwTrue < |held| && m.throwFalse < |held|
    ensures Total(Throw(held, m, items, rule)) == Total(held) + |items|
  {
    if items != [] {
      var prev := Throw(held, m, items[..|items| - 1], rule);
      ThrowTotal(held, m, items[..|items| - 1], rule);
      var w := Level(rule, items[|items| - 1], m);
      TotalUpdate(prev, Target(m, w), prev[Target(m, w)] + [w]);
    }
  }

  /** A turn: the monkey's count grows by the number of items it held and
      no other count changes; it keeps only what it throws to itself, every
      other monkey gains what is thrown to it; no item is lost or made. */
  lemma TurnMeaning(ms: seq<Monkey>, tr: Troop, i: nat, rule: Rule)
    requires Ready(ms, tr) && i < |ms| && RuleOk(rule)
    ensures var m := ms[i].(items := []); var items := tr.held[i]; var r := Turn(ms, tr, i, rule);
      && r.inspects[m.id] == tr.inspects[m.id] + |items|
      && (forall k | 0 <= k < |ms| && k != m.id :: r.inspects[k] == tr.inspects[k])
      && r.held[i] == Sent(m, items, rule, i)
      && (forall j | 0 <= j < |ms| && j != i :: r.held[j] == tr.held[j] + Sent(m, items, rule, j))
      && Total(r.held) == Total(tr.held)
  {
    var cleared := tr.held[i := []];
    var m := ms[i].(items := []);
    forall j | 0 <= j < |ms|
      ensures Turn(ms, tr, i, rule).held[j] == cleared[j] + Sent(m, tr.held[i], rule, j)
    {
      ThrowMeaning(cleared, m, tr.held[i], rule, j);
    }
    assert [] + Sent(m, tr.held[i], rule, i) == Sent(m, tr.held[i], rule, i);
    TurnTotal(ms, tr, i, rule);
  }

  lemma TurnTotal(ms: seq<Monkey>, tr: Troop, i: nat, rule: Rule)
    requires Ready(ms, tr) && i < |ms| && RuleOk(rule)
    ensures Total(Turn(ms, tr, i, rule).held) == Total(tr.held)
  {
    ThrowTotal(tr.held[i := []], ms[i].(items := []), tr.held[i], rule);
    TotalUpdate(tr.held, i, []);
  }

  lemma {:induction false} RoundTotal(ms: seq<Monkey>, tr: Troop, k: nat, rule: Rule)
    requires Ready(ms, tr) && k <= |ms| && RuleOk(rule)
    ensures Total(Round(ms, tr, k, rule).held) == Total(tr.held)
  {
    if k > 0 {
      RoundTotal(ms, tr, k - 1, rule);
      TurnOfRoundTotal(ms, tr, k, rule);
    }
  }

  lemma TurnOfRoundTotal(ms: seq<Monkey>, tr: Troop, k: nat, rule: Rule)
    requires Ready(ms, tr) && 0 < k <= |ms| && RuleOk(rule)
    ensures Total(Round(ms, tr, k, rule).held) == Total(Round(ms, tr, k - 1, rule).held)
  {
    TurnTotal(ms, Round(ms, tr, k - 1, rule), k - 1, rule);
  }

  /** Rounds neither lose nor create items. */
  lemma {:induction false} RoundsTotal(ms: seq<Monkey>, tr: Troop, n: nat, rule: Rule)
    requires Ready(ms, tr) && RuleOk(rule)
    ensures Total(Rounds(ms, tr, n, rule).held) == Total(tr.held)
  {
    if n > 0 {
      RoundsTotal(ms, tr, n - 1, rule);
      var p := Rounds(ms, tr, n - 1, rule);
      RoundTotal(ms, p, |ms|, rule);
      assert Rounds(ms, tr, n, rule) == Round(ms, p, |ms|, rule);
    }
  }

  /** The answer is the largest product of the counts of two different
      monkeys. */
  lemma BusinessMeaning(inspects: seq<nat>)
    requires |inspects| >= 2
    ensures Business(inspects).Some?
    ensures forall j, k | 0 <= j < |inspects| && 0 <= k < |inspects| && j != k ::
      inspects[j] * inspects[k] <= Business(inspects).value
    ensures exists j, k | 0 <= j < |inspects| && 0 <= k < |inspects| ::
      j != k && inspects[j] * inspects[k] == Business(inspects).value
  {
    var s := SortDesc(inspects);
    SortDescTopTwo(inspects);
    var j0, k0 :| 0 <= j0 < |inspects| && 0 <= k0 < |inspects| && j0 != k0
      && inspects[j0] == s[0] && inspects[k0] == s[1];
    forall j, k | 0 <= j < |inspects| && 0 <= k < |inspects| && j != k
      ensures inspects[j] * inspects[k] <= s[0] * s[1]
    {
      if inspects[j] <= s[1] {
        MulMono(inspects[k], inspects[j], s[0], s[1]);
        assert inspects[j] * inspects[k] == inspects[k] * inspects[j];
      } else {
        MulMono(inspects[j], inspects[k], s[0], s[1]);
      }
    }
  }

  lemma MulMono(a: nat, b: nat, x: int, y: int)
    requires a <= x && b <= y
    ensures a * b <= x * y
  {
    assert a * b <= x * b;
    assert x * b <= x * y;
  }

  // ---------------------------------------------------------------------
  // Reducing modulo the lcm

  /** Two levels that no divisor of L tells apart: equal when L = 0,
      congruent modulo L otherwise. */
  predicate Same(w: nat, w': nat, L: nat) {
    if L == 0 then w == w' else w % L == w' % L
  }

  predicate SameItems(x: seq<nat>, y: seq<nat>, L: nat) {
    |x| == |y| && forall k | 0 <= k < |x| :: Same(x[k], y[k], L)
  }

  /** Lists of lists that agree up to Same. */
  predicate Similar(a: seq<seq<nat>>, b: seq<seq<nat>>, L: nat) {
    |a| == |b| && forall j | 0 <= j < |a| :: SameItems(a[j], b[j], L)
  }

  /** Every divisor divides L (or L = 0, exact comparison). */
  predicate DividesAll(ms: seq<Monkey>, L: nat) {
    forall j | 0 <= j < |ms| :: L == 0 || Divides(ms[j].divisible, L)
  }

  /** The rule pairs whose simulations agree: the corrected part 1 against
      the unreduced part 1, exactly; the corrected or written part 2 against
      the unreduced part 2, modulo the lcm. */
  predicate Faithful(r1: Rule, r2: Rule, L: nat) {
    || (r1.Corrected? && r1.lcm > 0 && r1.part1 && r2 == Unreduced(true) && L == 0)
    || (r1.Corrected? && r1.lcm == L > 0 && !r1.part1 && r2 == Unreduced(false))
    || (r1.AsWritten? && r1.lcm == L > 0 && !r1.part1 && r2 == Unreduced(false))
  }

  lemma RawSame(w: nat, w': nat, m: Monkey, L: nat)
    requires Same(w, w', L)
    ensures Same(Raw(w, m), Raw(w', m), L)
  {
    if L > 0 {
      var a := if m.isOld then w else m.added;
      var a' := if m.isOld then w' else m.added;
      assert a % L == a' % L;
      match m.operation {
        case Add =>
          ModAdd(w, a, L);
          ModAdd(w', a', L);
        case Multi =>
          ModMul(w, a, L);
          ModMul(w', a', L);
      }
    }
  }

  lemma ModAdd(x: nat, y: nat, L: nat)
    requires L > 0
    ensures (x + y) % L == (x % L + y % L) % L
  {
    var s := x % L + y % L;
    ModUnique(x + y, L, x / L + y / L + s / L, s % L);
  }

  lemma ModMul(x: nat, y: nat, L: nat)
    requires L > 0
    ensures (x * y) % L == ((x % L) * (y % L)) % L
  {
    var a, b := x / L, y / L;
    var c, d := x % L, y % L;
    MulSplit(x, y, L, a, b, c, d);
    ModUnique(x * y, L, a * y + c * b + (c * d) / L, (c * d) % L);
  }

  /** x * y split along x = L * a + c and y = L * b + d. */
  lemma MulSplit(x: int, y: int, L: int, a: int, b: int, c: int, d: int)
    requires L > 0 && x == L * a + c && y == L * b + d
    ensures x * y == L * (a * y + c * b + (c * d) / L) + (c * d) % L
  {
    assert x * y == L * (a * y) + c * y;
    assert c * y == L * (c * b) + c * d;
    assert c * d == L * ((c * d) / L) + (c * d) % L;
  }

  lemma LevelSame(r1: Rule, r2: Rule, L: nat, w: nat, w': nat, m: Monkey)
    requires Faithful(r1, r2, L) && Same(w, w', L)
    ensures Same(Level(r1, w, m), Level(r2, w', m), L)
  {
    RawSame(w, w', m, L);
    if L > 0 {
      ModOfMultiple(Raw(w, m), L, L);
    }
  }

  lemma TargetSame(m: Monkey, v: nat, v': nat, L: nat)
    requires m.divisible > 0 && (L == 0 || Divides(m.divisible, L)) && Same(v, v', L)
    ensures Target(m, v) == Target(m, v')
  {
    if L > 0 {
      ModOfMultiple(v, L, m.divisible);
      ModOfMultiple(v', L, m.divisible);
    }
  }

  lemma {:induction false} ThrowSim(a: seq<seq<nat>>, b: seq<seq<nat>>, m: Monkey, xs: seq<nat>, ys: seq<nat>,
                                    r1: Rule, r2: Rule, L: nat)
    requires Faithful(r1, r2, L) && Similar(a, b, L) && SameItems(xs, ys, L)
    requires m.divisible > 0 && m.throwTrue < |a| && m.throwFalse < |a| && (L == 0 || Divides(m.divisible, L))
    ensures Similar(Throw(a, m, xs, r1), Throw(b, m, ys, r2), L)
  {
    if xs != [] {
      var n := |xs|;
      ThrowSim(a, b, m, xs[..n - 1], ys[..n - 1], r1, r2, L);
      var pa := Throw(a, m, xs[..n - 1], r1);
      var pb := Throw(b, m, ys[..n - 1], r2);
      var w, w' := Level(r1, xs[n - 1], m), Level(r2, ys[n - 1], m);
      LevelSame(r1, r2, L, xs[n - 1], ys[n - 1], m);
      TargetSame(m, w, w', L);
      var t := Target(m, w);
      assert SameItems(pa[t], pb[t], L);
      assert SameItems(pa[t] + [w], pb[t] + [w'], L);
    }
  }

  lemma TurnSim(ms: seq<Monkey>, t1: Troop, t2: Troop, i: nat, r1: Rule, r2: Rule, L: nat)
    requires Faithful(r1, r2, L) && Ready(ms, t1) && Ready(ms, t2) && i < |ms| && DividesAll(ms, L)
    requires Similar(t1.held, t2.held, L) && t1.inspects == t2.inspects
    ensures Similar(Turn(ms, t1, i, r1).held, Turn(ms, t2, i, r2).held, L)
    ensures Turn(ms, t1, i, r1).inspects == Turn(ms, t2, i, r2).inspects
  {
    assert SameItems(t1.held[i], t2.held[i], L);
    ThrowSim(t1.held[i := []], t2.held[i := []], ms[i].(items := []), t1.held[i], t2.held[i], r1, r2, L);
  }

  lemma {:induction false} RoundSim(ms: seq<Monkey>, t1: Troop, t2: Troop, k: nat, r1: Rule, r2: Rule, L: nat)
    requires Faithful(r1, r2, L) && Ready(ms, t1) && Ready(ms, t2) && k <= |ms| && DividesAll(ms, L)
    requires Similar(t1.held, t2.held, L) && t1.inspects == t2.inspects
    ensures Similar(Round(ms, t1, k, r1).held, Round(ms, t2, k, r2).held, L)
    ensures Round(ms, t1, k, r1).inspects == Round(ms, t2, k, r2).inspects
  {
    if k > 0 {
      RoundSim(ms, t1, t2, k - 1, r1, r2, L);
      var p1, p2 := Round(ms, t1, k - 1, r1), Round(ms, t2, k - 1, r2);
      TurnSim(ms, p1, p2, k - 1, r1, r2, L);
      assert Round(ms, t1, k, r1) == Turn(ms, p1, k - 1, r1);
      assert Round(ms, t2, k, r2) == Turn(ms, p2, k - 1, r2);
    }
  }

  lemma {:induction false} RoundsSim(ms: seq<Monkey>, t1: Troop, t2: Troop, n: nat, r1: Rule, r2: Rule, L: nat)
    requires Faithful(r1, r2, L) && Ready(ms, t1) && Ready(ms, t2) && DividesAll(ms, L)
    requires Similar(t1.held, t2.held, L) && t1.inspects == t2.inspects
    ensures Similar(Rounds(ms, t1, n, r1).held, Rounds(ms, t2, n, r2).held, L)
    ensures Rounds(ms, t1, n, r1).inspects == Rounds(ms, t2, n, r2).inspects
  {
    if n > 0 {
      RoundsSim(ms, t1, t2, n - 1, r1, r2, L);
      var p1, p2 := Rounds(ms, t1, n - 1, r1), Rounds(ms, t2, n - 1, r2);
      RoundSim(ms, p1, p2, |ms|, r1, r2, L);
      assert Rounds(ms, t1, n, r1) == Round(ms, p1, |ms|, r1);
      assert Rounds(ms, t2, n, r2) == Round(ms, p2, |ms|, r2);
    }
  }

  /** Reducing modulo the lcm of the divisors changes no throw in part 2,
      and neither does the corrected part 1: every count, hence the answer,
      is that of the puzzle's unreduced rule. */
  lemma ReductionSound(ms: seq<Monkey>, n: nat, rule: Rule)
    requires WellFormed(ms)
    requires rule == Corrected(LcmOfDivisors(ms), true) || rule == Corrected(LcmOfDivisors(ms), false)
          || rule == AsWritten(LcmOfDivisors(ms), false)
    ensures Rounds(ms, Start(ms), n, rule).inspects == Rounds(ms, Start(ms), n, Unreduced(rule.part1)).inspects
  {
    var L := if rule.part1 then 0 else LcmOfDivisors(ms);
    var tr := Start(ms);
    assert Similar(tr.held, tr.held, L);
    RoundsSim(ms, tr, tr, n, rule, Unreduced(rule.part1), L);
  }

  /** Three monkeys with `+ 0` and divisor 5; monkey 0 holds an item of
      level 7 and throws to 1 when the test holds, to 2 otherwise. */
  function Example(): seq<Monkey> {
    [Monkey(0, [7], Add, 0, 5, false, 1, 2),
     Monkey(1, [], Add, 0, 5, false, 0, 0),
     Monkey(2, [], Add, 0, 5, false, 0, 0)]
  }

  lemma ExampleLcm()
    ensures WellFormed(Example()) && LcmOfDivisors(Example()) == 5
  {
    var ms := Example();
    assert Gcd(1, 5) == 1 && Gcd(5, 5) == 5;
    assert LcmOfDivisors(ms[..1]) == 5;
    assert ms[..2][..1] == ms[..1] && ms[..3] == ms;
    assert LcmOfDivisors(ms[..2]) == 5;
  }

  /** As written: 7 is reduced to 2 and divided to 0, so it goes to monkey
      1, which throws its 0 on to monkey 0. */
  lemma ExampleAsWritten()
    ensures Round(Example(), Start(Example()), 3, AsWritten(5, true)) == Troop([[0], [], []], [1, 1, 0])
  {
    var ms := Example();
    var rule := AsWritten(5, true);
    var tr := Start(ms);
    assert tr == Troop([[7], [], []], [0, 0, 0]);
    var none: seq<seq<nat>> := [[], [], []];
    var m0, m1 := ms[0].(items := []), ms[1].(items := []);
    assert Level(rule, 7, m0) == 0 && Target(m0, 0) == 1;
    ThrowOne(none, m0, 7, rule);
    assert none[1] + [0] == [0];
    assert tr.held[0 := []] == none;
    var a1 := Turn(ms, tr, 0, rule);
    assert a1 == Troop([[], [0], []], [1, 0, 0]);
    assert Level(rule, 0, m1) == 0 && Target(m1, 0) == 0;
    ThrowOne(none, m1, 0, rule);
    assert none[0] + [0] == [0];
    assert a1.held[1 := []] == none;
    var a2 := Turn(ms, a1, 1, rule);
    assert a2 == Troop([[0], [], []], [1, 1, 0]);
    assert Turn(ms, a2, 2, rule) == a2;
  }

  /** The puzzle's rule: 7 / 3 = 2 is not divisible by 5, so it goes to
      monkey 2, which throws 2 / 3 = 0 to monkey 0. */
  lemma ExampleUnreduced()
    ensures Round(Example(), Start(Example()), 3, Unreduced(true)) == Troop([[0], [], []], [1, 0, 1])
  {
    var ms := Example();
    var rule := Unreduced(true);
    var tr := Start(ms);
    assert tr == Troop([[7], [], []], [0, 0, 0]);
    var none: seq<seq<nat>> := [[], [], []];
    var m0, m2 := ms[0].(items := []), ms[2].(items := []);
    assert Level(rule, 7, m0) == 2 && Target(m0, 2) == 2;
    ThrowOne(none, m0, 7, rule);
    assert none[2] + [2] == [2];
    assert tr.held[0 := []] == none;
    var u1 := Turn(ms, tr, 0, rule);
    assert u1 == Troop([[], [], [2]], [1, 0, 0]);
    var u2 := Turn(ms, u1, 1, rule);
    assert u2 == u1;
    assert Level(rule, 2, m2) == 0 && Target(m2, 0) == 0;
    ThrowOne(none, m2, 2, rule);
    assert none[0] + [0] == [0];
    assert u2.held[2 := []] == none;
    assert Turn(ms, u2, 2, rule) == Troop([[0], [], []], [1, 0, 1]);
  }

  /** As written, part 1 reduces modulo the lcm before dividing by 3, which
      can change a throw: in the example the two rules already disagree on
      the counts after one round. */
  lemma PartOneReducesFirst()
    ensures WellFormed(Example())
    ensures Rounds(Example(), Start(Example()), 1, AsWritten(LcmOfDivisors(Example()), true)).inspects
         != Rounds(Example(), Start(Example()), 1, Unreduced(true)).inspects
  {
    ExampleLcm();
    ExampleAsWritten();
    ExampleUnreduced();
  }
}
