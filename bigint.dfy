/** The arbitrary-precision signed integer of 2022/bigint.rs: little-endian
    base-10^9 limbs and a sign flag. Every operation is modelled as the code
    is written; `Val` gives the integer a representation denotes, and the
    lemmas state on which inputs each operation agrees with integer
    arithmetic. */
module BigNum {
  import opened Limbs
  import opened Results

  const U64_MAX: nat := 0xFFFF_FFFF_FFFF_FFFF
  /** `usize::MAX` on the 64-bit targets the program is built for. */
  const USIZE_MAX: nat := U64_MAX

  datatype BigInt = BigInt(digits: seq<nat>, isNegative: bool)

  datatype Ordering = Less | Equal | Greater {
    function Reverse(): Ordering {
      match this
      case Less => Greater
      case Equal => Equal
      case Greater => Less
    }
  }

  /** The invariant every constructed value keeps: at least one limb, all limbs below BASE. */
  predicate Valid(x: BigInt) {
    |x.digits| > 0 && LimbsOk(x.digits)
  }

  /** Valid and without zero top limbs (the sign of a zero is not constrained). */
  predicate Canonical(x: BigInt) {
    Valid(x) && Trimmed(x.digits)
  }

  ghost function Val(x: BigInt): int {
    if x.isNegative then -(Mag(x.digits) as int) else Mag(x.digits)
  }

  function IntCmp(a: int, b: int): Ordering {
    if a < b then Less else if a > b then Greater else Equal
  }

  function Zero(): (r: BigInt)
    ensures Canonical(r) && !r.isNegative && Val(r) == 0
  {
    BigInt([0], false)
  }

  function One(): (r: BigInt)
    ensures Canonical(r) && !r.isNegative && Val(r) == 1
  {
    BigInt([1], false)
  }

  /** The magnitude with a non-negative sign. */
  function Abs(x: BigInt): (r: BigInt)
    ensures r.digits == x.digits && Val(r) == Mag(x.digits) && Val(r) >= 0
    ensures Valid(x) ==> Valid(r)
    ensures Val(x) >= 0 ==> Val(r) == Val(x)
    ensures Val(x) < 0 ==> Val(r) == -Val(x)
  {
    BigInt(x.digits, false)
  }

  /** The structural zero stays `zero()`; any other value takes the given sign. */
  function WithSign(x: BigInt, negative: bool): (r: BigInt)
    ensures r.digits == x.digits && Mag(r.digits) == Mag(x.digits)
    ensures r.isNegative <==> negative && x != Zero()
    ensures Valid(x) ==> Valid(r)
  {
    if x == Zero() then Zero() else BigInt(x.digits, negative)
  }

  // ---------------------------------------------------------------------
  // Ordering (Ord::cmp)
  // ---------------------------------------------------------------------

  /** Compares equal-length limb sequences from the top limb down. */
  function CompareTop(a: seq<nat>, b: seq<nat>): Ordering
    requires |a| == |b|
  {
    if a == [] then Equal
    else if a[|a| - 1] < b[|b| - 1] then Less
    else if a[|a| - 1] > b[|b| - 1] then Greater
    else CompareTop(a[..|a| - 1], b[..|b| - 1])
  }

  /** The derived total order: sign first, then limb count (reversed for
      negatives), then limbs from the top (reversed for negatives). */
  function Compare(a: BigInt, b: BigInt): Ordering {
    if !a.isNegative && b.isNegative then Greater
    else if a.isNegative && !b.isNegative then Less
    else if |a.digits| != |b.digits| then
      if !a.isNegative then IntCmp(|a.digits|, |b.digits|) else IntCmp(|b.digits|, |a.digits|)
    else if !a.isNegative then CompareTop(a.digits, b.digits)
    else CompareTop(a.digits, b.digits).Reverse()
  }

  method Cmp(a: BigInt, b: BigInt) returns (r: Ordering)
    ensures r == Compare(a, b)
  {
    if !a.isNegative && b.isNegative {
      return Greater;
    }
    if a.isNegative && !b.isNegative {
      return Less;
    }
    var n, m := |a.digits|, |b.digits|;
    if n != m {
      r := if !a.isNegative then IntCmp(n, m) else IntCmp(m, n);
      return;
    }
    assert a.digits[..n] == a.digits && b.digits[..n] == b.digits;
    var i := n;
    while i > 0
      invariant 0 <= i <= n
      invariant CompareTop(a.digits, b.digits) == CompareTop(a.digits[..i], b.digits[..i])
    {
      var x, y := a.digits[i - 1], b.digits[i - 1];
      if x != y {
        var ord := IntCmp(x, y);
        r := if !a.isNegative then ord else ord.Reverse();
        return;
      }
      assert a.digits[..i][..i - 1] == a.digits[..i - 1];
      assert b.digits[..i][..i - 1] == b.digits[..i - 1];
      i := i - 1;
    }
    r := Equal;
  }

  lemma {:induction false} CompareTopEqual(a: seq<nat>, b: seq<nat>)
    requires |a| == |b|
    ensures CompareTop(a, b) == Equal <==> a == b
  {
    if a != [] {
      var n := |a|;
      CompareTopEqual(a[..n - 1], b[..n - 1]);
      assert a == a[..n - 1] + [a[n - 1]];
      assert b == b[..n - 1] + [b[n - 1]];
    }
  }

  lemma {:induction false} CompareTopReverse(a: seq<nat>, b: seq<nat>)
    requires |a| == |b|
    ensures CompareTop(b, a) == CompareTop(a, b).Reverse()
  {
    if a != [] {
      CompareTopReverse(a[..|a| - 1], b[..|b| - 1]);
    }
  }

  /** On equal-length limb sequences the top-down comparison is the comparison of values. */
  lemma {:induction false} CompareTopMag(a: seq<nat>, b: seq<nat>)
    requires |a| == |b| && LimbsOk(a) && LimbsOk(b)
    ensures CompareTop(a, b) == IntCmp(Mag(a), Mag(b))
  {
    if a != [] {
      var n := |a|;
      var a', b' := a[..n - 1], b[..n - 1];
      CompareTopMag(a', b');
      assert a == a' + [a[n - 1]];
      assert b == b' + [b[n - 1]];
      MagSnoc(a', a[n - 1]);
      MagSnoc(b', b[n - 1]);
      MagBound(a');
      MagBound(b');
      if a[n - 1] < b[n - 1] {
        TopLimbDecides(Mag(a'), Mag(b'), a[n - 1], b[n - 1], Pow(n - 1));
      } else if a[n - 1] > b[n - 1] {
        TopLimbDecides(Mag(b'), Mag(a'), b[n - 1], a[n - 1], Pow(n - 1));
      }
    }
  }

  /** A smaller top limb decides, whatever the lower limbs hold. */
  lemma TopLimbDecides(lo1: nat, lo2: nat, x: nat, y: nat, p: nat)
    requires lo1 < p && lo2 < p && x < y
    ensures lo1 + p * x < lo2 + p * y
  {
    assert p * y == p * x + p * (y - x);
    MulAtLeast(p, y - x);
  }

  lemma MulAtLeast(p: nat, k: nat)
    requires k >= 1
    ensures p * k >= p
  {
    assert p * k == p + p * (k - 1);
  }

  /** `cmp` answers Equal exactly when the derived `==` holds. */
  lemma CompareEqualIff(a: BigInt, b: BigInt)
    ensures Compare(a, b) == Equal <==> a == b
  {
    if a.isNegative == b.isNegative && |a.digits| == |b.digits| {
      CompareTopEqual(a.digits, b.digits);
    }
  }

  /** Swapping the operands reverses the answer. */
  lemma CompareAntisymmetric(a: BigInt, b: BigInt)
    ensures Compare(b, a) == Compare(a, b).Reverse()
  {
    if a.isNegative == b.isNegative && |a.digits| == |b.digits| {
      CompareTopReverse(a.digits, b.digits);
    }
  }

  /** For valid values the order is lexicographic on (sign, limb count, magnitude),
      with limb count and magnitude reversed among negatives. */
  lemma CompareByKey(a: BigInt, b: BigInt)
    requires Valid(a) && Valid(b)
    ensures a.isNegative && !b.isNegative ==> Compare(a, b) == Less
    ensures !a.isNegative && b.isNegative ==> Compare(a, b) == Greater
    ensures !a.isNegative && !b.isNegative ==>
              Compare(a, b) == if |a.digits| != |b.digits| then IntCmp(|a.digits|, |b.digits|)
                               else IntCmp(Mag(a.digits), Mag(b.digits))
    ensures a.isNegative && b.isNegative ==>
              Compare(a, b) == if |a.digits| != |b.digits| then IntCmp(|b.digits|, |a.digits|)
                               else IntCmp(Mag(b.digits), Mag(a.digits))
  {
    if |a.digits| == |b.digits| {
      CompareTopMag(a.digits, b.digits);
    }
  }

  lemma CompareTransitive(a: BigInt, b: BigInt, c: BigInt)
    requires Valid(a) && Valid(b) && Valid(c)
    requires Compare(a, b) == Less && Compare(b, c) == Less
    ensures Compare(a, c) == Less
  {
    CompareByKey(a, b);
    CompareByKey(b, c);
    CompareByKey(a, c);
  }

  /** On canonical values `cmp` agrees with the integer order, except that a
      negative zero sorts below a non-negative zero. */
  lemma CompareMatchesValue(a: BigInt, b: BigInt)
    requires Canonical(a) && Canonical(b)
    requires a.isNegative == b.isNegative || Mag(a.digits) != 0 || Mag(b.digits) != 0
    ensures Compare(a, b) == IntCmp(Val(a), Val(b))
  {
    CompareByKey(a, b);
    MagBound(a.digits);
    MagBound(b.digits);
    MagTrimmedLower(a.digits);
    MagTrimmedLower(b.digits);
    var n, m := |a.digits|, |b.digits|;
    if n < m {
      PowMonotone(n, m - 1);
    } else if m < n {
      PowMonotone(m, n - 1);
    }
    if a.isNegative != b.isNegative {
      if Mag(a.digits) == 0 {
        assert Mag(b.digits) != 0;
      }
    }
  }

  /** For non-negative operands: a trimmed receiver that `cmp` does not put
      below `b` is at least `b` in magnitude, and anything `cmp` puts below a
      trimmed `b` is smaller in magnitude. */
  lemma CompareNonNegativeMag(a: BigInt, b: BigInt)
    requires Valid(a) && Valid(b) && !a.isNegative && !b.isNegative
    ensures Trimmed(a.digits) && Compare(a, b) != Less ==> Mag(a.digits) >= Mag(b.digits)
    ensures Trimmed(b.digits) && Compare(a, b) == Less ==> Mag(a.digits) < Mag(b.digits)
  {
    CompareByKey(a, b);
    MagBound(a.digits);
    MagBound(b.digits);
    var n, m := |a.digits|, |b.digits|;
    if Trimmed(a.digits) && m < n {
      MagTrimmedLower(a.digits);
      PowMonotone(m, n - 1);
    }
    if Trimmed(b.digits) && n < m {
      MagTrimmedLower(b.digits);
      PowMonotone(n, m - 1);
    }
  }

  // ---------------------------------------------------------------------
  // Unsigned addition (add_unsigned)
  // ---------------------------------------------------------------------

  /** Limb-wise sum with carry, low limb first, over the longer operand's
      length; a remaining carry becomes one more top limb. */
  function AddLimbs(a: seq<nat>, b: seq<nat>, carry: nat): seq<nat>
    decreases |a| + |b|
  {
    if a == [] && b == [] then (if carry > 0 then [carry] else [])
    else
      var s := At(a, 0) + At(b, 0) + carry;
      [s % BASE] + AddLimbs(Drop(a, 1), Drop(b, 1), s / BASE)
  }

  function Max(a: nat, b: nat): nat {
    if a < b then b else a
  }

  lemma MagAtDrop(ds: seq<nat>)
    ensures Mag(ds) == At(ds, 0) + BASE * Mag(Drop(ds, 1))
  {
  }

  lemma LimbsOkDrop(ds: seq<nat>, i: nat)
    requires LimbsOk(ds)
    ensures LimbsOk(Drop(ds, i)) && At(ds, i) < BASE
  {
  }

  /** The shape add_unsigned promises: base-10^9 limbs, and either the
      longer operand's length or one more limb holding the final carry 1. */
  lemma {:induction false} AddLimbsShape(a: seq<nat>, b: seq<nat>, carry: nat)
    requires LimbsOk(a) && LimbsOk(b) && carry <= 1
    decreases |a| + |b|
    ensures var r := AddLimbs(a, b, carry);
      && LimbsOk(r)
      && (|r| == Max(|a|, |b|) || (|r| == Max(|a|, |b|) + 1 && r[|r| - 1] == 1))
  {
    if a != [] || b != [] {
      var s := At(a, 0) + At(b, 0) + carry;
      LimbsOkDrop(a, 1);
      LimbsOkDrop(b, 1);
      LimbsOkDrop(a, 0);
      LimbsOkDrop(b, 0);
      assert s / BASE <= 1;
      AddLimbsShape(Drop(a, 1), Drop(b, 1), s / BASE);
      assert Max(|Drop(a, 1)|, |Drop(b, 1)|) == Max(|a|, |b|) - 1;
    }
  }

  /** add_unsigned computes the sum of the values. */
  lemma {:induction false} AddLimbsValue(a: seq<nat>, b: seq<nat>, carry: nat)
    decreases |a| + |b|
    ensures Mag(AddLimbs(a, b, carry)) == Mag(a) + Mag(b) + carry
  {
    if a == [] && b == [] {
      if carry > 0 {
        assert Mag([carry]) == carry + BASE * Mag([]);
      }
    } else {
      var s := At(a, 0) + At(b, 0) + carry;
      var a', b' := Drop(a, 1), Drop(b, 1);
      AddLimbsValue(a', b', s / BASE);
      MagAtDrop(a);
      MagAtDrop(b);
      var r' := AddLimbs(a', b', s / BASE);
      assert AddLimbs(a, b, carry) == [s % BASE] + r';
      assert ([s % BASE] + r')[1..] == r';
      calc {
        Mag([s % BASE] + r');
        s % BASE + BASE * Mag(r');
        s % BASE + BASE * (Mag(a') + Mag(b') + s / BASE);
        s % BASE + BASE * (s / BASE) + BASE * Mag(a') + BASE * Mag(b');
        s + BASE * Mag(a') + BASE * Mag(b');
        Mag(a) + Mag(b) + carry;
      }
    }
  }

  /** The sum has one more limb than the longer operand exactly when it
      reaches BASE to that length. */
  lemma AddLimbsProps(a: seq<nat>, b: seq<nat>, carry: nat)
    requires LimbsOk(a) && LimbsOk(b) && carry <= 1
    ensures var r := AddLimbs(a, b, carry);
      && LimbsOk(r)
      && Mag(r) == Mag(a) + Mag(b) + carry
      && |r| == Max(|a|, |b|) + (if Mag(a) + Mag(b) + carry >= Pow(Max(|a|, |b|)) then 1 else 0)
      && (|r| > Max(|a|, |b|) ==> r[|r| - 1] == 1)
  {
    var r := AddLimbs(a, b, carry);
    var n := Max(|a|, |b|);
    AddLimbsShape(a, b, carry);
    AddLimbsValue(a, b, carry);
    if |r| == n {
      MagBound(r);
    } else {
      MagTopNonZero(r);
    }
  }

  lemma {:induction false} AddLimbsCommutes(a: seq<nat>, b: seq<nat>, carry: nat)
    ensures AddLimbs(a, b, carry) == AddLimbs(b, a, carry)
    decreases |a| + |b|
  {
    if a != [] || b != [] {
      var s := At(a, 0) + At(b, 0) + carry;
      AddLimbsCommutes(Drop(a, 1), Drop(b, 1), s / BASE);
    }
  }

  /** add_unsigned: the sum of the magnitudes, always non-negative, never trimmed. */
  function MagnitudeSum(a: BigInt, b: BigInt): BigInt {
    BigInt(AddLimbs(a.digits, b.digits, 0), false)
  }

  method AddUnsigned(a: BigInt, b: BigInt) returns (r: BigInt)
    ensures r == MagnitudeSum(a, b)
  {
    var result: seq<nat> := [];
    var carry: nat := 0;
    var maxLen := Max(|a.digits|, |b.digits|);
    for i := 0 to maxLen
      invariant result + AddLimbs(Drop(a.digits, i), Drop(b.digits, i), carry) == AddLimbs(a.digits, b.digits, 0)
    {
      var x := At(a.digits, i);
      var y := At(b.digits, i);
      var sum := x + y + carry;
      assert Drop(Drop(a.digits, i), 1) == Drop(a.digits, i + 1);
      assert Drop(Drop(b.digits, i), 1) == Drop(b.digits, i + 1);
      result := result + [sum % BASE];
      carry := sum / BASE;
    }
    if carry > 0 {
      result := result + [carry];
    }
    r := BigInt(result, false);
  }

  lemma MagnitudeSumProps(a: BigInt, b: BigInt)
    requires Valid(a) && Valid(b)
    ensures var r := MagnitudeSum(a, b);
      && Valid(r) && !r.isNegative && Mag(r.digits) == Mag(a.digits) + Mag(b.digits)
      && (|r.digits| == Max(|a.digits|, |b.digits|) || |r.digits| == Max(|a.digits|, |b.digits|) + 1)
      && (Canonical(a) && Canonical(b) ==> Canonical(r))
  {
    var r := AddLimbs(a.digits, b.digits, 0);
    AddLimbsProps(a.digits, b.digits, 0);
    if Canonical(a) && Canonical(b) && |r| > 1 && r[|r| - 1] == 0 {
      var n := Max(|a.digits|, |b.digits|);
      assert |r| == n;
      MagDropTopZero(r);
      MagBound(r[..|r| - 1]);
      if |a.digits| == n {
        MagTrimmedLower(a.digits);
      } else {
        MagTrimmedLower(b.digits);
      }
      assert false;
    }
  }

  // ---------------------------------------------------------------------
  // Unsigned subtraction (sub_unsigned)
  // ---------------------------------------------------------------------

  /** Limb-wise difference with borrow over the limbs of `a`, low limb first;
      limbs of `b` above `a`'s length are never read. */
  function SubLimbs(a: seq<nat>, b: seq<nat>, borrow: nat): (r: seq<nat>)
    requires LimbsOk(b) && borrow <= 1
    ensures |r| == |a|
    decreases |a|
  {
    if a == [] then []
    else
      var diff := a[0] - At(b, 0) - borrow;
      LimbsOkDrop(b, 1);
      if diff < 0 then [diff + BASE] + SubLimbs(a[1..], Drop(b, 1), 1)
      else [diff] + SubLimbs(a[1..], Drop(b, 1), 0)
  }

  /** The borrow left over after the last limb of `a`, which the code drops. */
  ghost function BorrowOut(a: seq<nat>, b: seq<nat>, borrow: nat): (r: nat)
    requires LimbsOk(b) && borrow <= 1
    ensures r <= 1
    decreases |a|
  {
    if a == [] then borrow
    else
      var diff := a[0] - At(b, 0) - borrow;
      LimbsOkDrop(b, 1);
      BorrowOut(a[1..], Drop(b, 1), if diff < 0 then 1 else 0)
  }

  /** The value of the low n limbs of `b`. */
  ghost function MagLow(b: seq<nat>, n: nat): nat
    decreases n
  {
    if n == 0 then 0 else At(b, 0) + BASE * MagLow(Drop(b, 1), n - 1)
  }

  lemma {:induction false} MagLowSplit(b: seq<nat>, n: nat)
    decreases n
    ensures Mag(b) == MagLow(b, n) + Pow(n) * Mag(Drop(b, n))
  {
    if n > 0 {
      MagLowSplit(Drop(b, 1), n - 1);
      MagAtDrop(b);
      assert Drop(Drop(b, 1), n - 1) == Drop(b, n);
      calc {
        Mag(b);
        At(b, 0) + BASE * Mag(Drop(b, 1));
        At(b, 0) + BASE * (MagLow(Drop(b, 1), n - 1) + Pow(n - 1) * Mag(Drop(b, n)));
        At(b, 0) + BASE * MagLow(Drop(b, 1), n - 1) + BASE * (Pow(n - 1) * Mag(Drop(b, n)));
        { assert BASE * (Pow(n - 1) * Mag(Drop(b, n))) == (BASE * Pow(n - 1)) * Mag(Drop(b, n)); }
        MagLow(b, n) + Pow(n) * Mag(Drop(b, n));
      }
    } else {
      assert Drop(b, 0) == b || b == [];
    }
  }

  /** If `b` is below BASE^n, its low n limbs are all of it. */
  lemma MagLowSmall(b: seq<nat>, n: nat)
    requires Mag(b) < Pow(n)
    ensures MagLow(b, n) == Mag(b)
  {
    MagLowSplit(b, n);
    var p, m := Pow(n), Mag(Drop(b, n));
    if m > 0 {
      MulAtLeast(p, m);
    }
  }

  /** The borrow chain: the result plus `b`'s low limbs plus the incoming
      borrow is `a` plus the dropped borrow at weight BASE^|a|. */
  lemma {:induction false} SubLimbsValue(a: seq<nat>, b: seq<nat>, borrow: nat)
    requires LimbsOk(a) && LimbsOk(b) && borrow <= 1
    ensures LimbsOk(SubLimbs(a, b, borrow))
    ensures Mag(SubLimbs(a, b, borrow)) + MagLow(b, |a|) + borrow
         == Mag(a) + BorrowOut(a, b, borrow) * Pow(|a|)
    decreases |a|
  {
    if a != [] {
      var x := At(b, 0);
      var diff := a[0] - x - borrow;
      LimbsOkDrop(b, 1);
      LimbsOkDrop(b, 0);
      var br := if diff < 0 then 1 else 0;
      SubLimbsValue(a[1..], Drop(b, 1), br);
      var rest := SubLimbs(a[1..], Drop(b, 1), br);
      var d := if diff < 0 then diff + BASE else diff;
      assert SubLimbs(a, b, borrow) == [d] + rest;
      assert ([d] + rest)[1..] == rest;
      assert Mag([d] + rest) == d + BASE * Mag(rest);
      var bo := BorrowOut(a, b, borrow);
      assert bo == BorrowOut(a[1..], Drop(b, 1), br);
      BorrowArith(d, x, Mag(rest), MagLow(Drop(b, 1), |a| - 1), br, borrow, a[0], Mag(a[1..]), bo, Pow(|a| - 1));
    }
  }

  /** One limb of the borrow chain in plain arithmetic. */
  lemma BorrowArith(d: int, x: int, r: int, low: int, br: int, borrow: int, a0: int, ma: int, bo: int, p: int)
    requires d - BASE * br == a0 - x - borrow
    requires r + low + br == ma + bo * p
    ensures (d + BASE * r) + (x + BASE * low) + borrow == (a0 + BASE * ma) + bo * (BASE * p)
  {
    assert BASE * (r + low + br) == BASE * (ma + bo * p);
    assert BASE * (bo * p) == bo * (BASE * p);
  }

  /** The dropped borrow makes the result the difference modulo BASE^|a|. */
  lemma SubLimbsModular(a: seq<nat>, b: seq<nat>)
    requires LimbsOk(a) && LimbsOk(b)
    ensures Mag(SubLimbs(a, b, 0)) == (Mag(a) - MagLow(b, |a|)) % Pow(|a|)
  {
    SubLimbsValue(a, b, 0);
    var x, m, l := Mag(SubLimbs(a, b, 0)), Mag(a), MagLow(b, |a|);
    var k, p := BorrowOut(a, b, 0), Pow(|a|);
    MagBound(SubLimbs(a, b, 0));
    ModOfShift(x, m, l, k, p);
  }

  lemma ModSmall(x: int, p: int)
    requires 0 <= x < p
    ensures x % p == x
  {
  }

  /** A value x below p that is `m - l` plus k multiples of p, k at most
      one, is `m - l` modulo p. */
  lemma ModOfShift(x: nat, m: int, l: int, k: nat, p: nat)
    requires 0 <= x < p && k <= 1 && x + l == m + k * p
    ensures (m - l) % p == x
  {
    if k == 1 {
      assert m - l == x - p;
    } else {
      assert m - l == x;
    }
  }

  /** When `a` is at least `b` the borrow chain ends without a borrow: the exact difference. */
  lemma SubLimbsExact(a: seq<nat>, b: seq<nat>)
    requires LimbsOk(a) && LimbsOk(b) && Mag(a) >= Mag(b)
    ensures Mag(SubLimbs(a, b, 0)) == Mag(a) - Mag(b)
  {
    MagBound(a);
    MagLowSmall(b, |a|);
    SubLimbsModular(a, b);
    ModSmall(Mag(a) - Mag(b), Pow(|a|));
  }

  lemma {:induction false} SubLimbsSelf(a: seq<nat>)
    requires LimbsOk(a)
    ensures SubLimbs(a, a, 0) == Zeros(|a|)
    decreases |a|
  {
    if a != [] {
      assert Drop(a, 1) == a[1..];
      SubLimbsSelf(a[1..]);
      assert [0] + Zeros(|a| - 1) == Zeros(|a|) by {
        ZerosCons(|a| - 1);
      }
    }
  }

  lemma ZerosCons(n: nat)
    ensures [0] + Zeros(n) == Zeros(n + 1)
  {
  }

  lemma {:induction false} TrimZerosOfZeros(n: nat)
    requires n > 0
    ensures TrimZeros(Zeros(n)) == [0]
  {
    if n > 1 {
      assert Zeros(n)[..n - 1] == Zeros(n - 1);
      TrimZerosOfZeros(n - 1);
    }
  }

  /** The non-swapping branch of sub_unsigned: borrow subtraction over the
      receiver's limbs, then zero top limbs trimmed. */
  function DirectDifference(a: BigInt, b: BigInt): (r: BigInt)
    requires Valid(a) && Valid(b)
    ensures |r.digits| > 0
  {
    var raw := SubLimbs(a.digits, b.digits, 0);
    TrimZerosProps(raw);
    BigInt(TrimZeros(raw), false)
  }

  /** sub_unsigned: if `cmp` puts the receiver below the argument, the
      operands are swapped and the result is marked negative. */
  function MagnitudeDifference(a: BigInt, b: BigInt): BigInt
    requires Valid(a) && Valid(b)
  {
    if Compare(a, b) == Less then DirectDifference(b, a).(isNegative := true)
    else DirectDifference(a, b)
  }

  lemma DirectDifferenceProps(a: BigInt, b: BigInt)
    requires Valid(a) && Valid(b)
    ensures var r := DirectDifference(a, b);
      && Valid(r) && Trimmed(r.digits) && !r.isNegative && |r.digits| <= |a.digits|
      && Mag(r.digits) == (Mag(a.digits) - MagLow(b.digits, |a.digits|)) % Pow(|a.digits|)
      && (Mag(a.digits) >= Mag(b.digits) ==> Mag(r.digits) == Mag(a.digits) - Mag(b.digits))
  {
    var raw := SubLimbs(a.digits, b.digits, 0);
    SubLimbsValue(a.digits, b.digits, 0);
    TrimZerosProps(raw);
    SubLimbsModular(a.digits, b.digits);
    if Mag(a.digits) >= Mag(b.digits) {
      SubLimbsExact(a.digits, b.digits);
    }
  }

  lemma MagnitudeDifferenceProps(a: BigInt, b: BigInt)
    requires Valid(a) && Valid(b)
    ensures var r := MagnitudeDifference(a, b);
      && Valid(r) && Trimmed(r.digits)
      && (r.isNegative <==> Compare(a, b) == Less)
  {
    DirectDifferenceProps(a, b);
    DirectDifferenceProps(b, a);
  }

  /** On two canonical non-negative values sub_unsigned is exact: negative
      exactly when the receiver is smaller, zero (non-negative) on equal operands. */
  lemma MagnitudeDifferenceNonNegative(a: BigInt, b: BigInt)
    requires Canonical(a) && Canonical(b) && !a.isNegative && !b.isNegative
    ensures var r := MagnitudeDifference(a, b);
      && Canonical(r) && Val(r) == Val(a) - Val(b)
      && (r.isNegative <==> Mag(a.digits) < Mag(b.digits))
      && (a == b ==> r == Zero())
  {
    CompareMatchesValue(a, b);
    DirectDifferenceProps(a, b);
    DirectDifferenceProps(b, a);
    if a == b {
      SubLimbsSelf(a.digits);
      TrimZerosOfZeros(|a.digits|);
    }
  }

  method PopZeroTop(ds: seq<nat>) returns (r: seq<nat>)
    ensures r == TrimZeros(ds)
  {
    r := ds;
    while |r| > 1 && r[|r| - 1] == 0
      invariant TrimZeros(r) == TrimZeros(ds)
    {
      r := r[..|r| - 1];
    }
  }

  /** One limb of the borrow loop, at position i. */
  lemma SubLimbsStep(a: seq<nat>, b: seq<nat>, i: nat, borrow: nat)
    requires LimbsOk(b) && borrow <= 1 && i < |a|
    ensures LimbsOk(Drop(b, i)) && LimbsOk(Drop(b, i + 1))
    ensures var diff := a[i] as int - At(b, i) - borrow;
      SubLimbs(a[i..], Drop(b, i), borrow)
      == if diff < 0 then [diff + BASE] + SubLimbs(a[i + 1..], Drop(b, i + 1), 1)
         else [diff] + SubLimbs(a[i + 1..], Drop(b, i + 1), 0)
  {
    LimbsOkDrop(b, i);
    LimbsOkDrop(b, i + 1);
    assert Drop(Drop(b, i), 1) == Drop(b, i + 1);
    assert a[i..][1..] == a[i + 1..];
  }

  /** One limb of the borrow loop: the limb's difference is appended and the
      borrow carried to the next limb. */
  method BorrowDigit(a: seq<nat>, b: seq<nat>, i: nat, borrow: nat, result: seq<nat>)
    returns (result': seq<nat>, borrow': nat)
    requires LimbsOk(b) && borrow <= 1 && i < |a|
    ensures borrow' <= 1 && LimbsOk(Drop(b, i)) && LimbsOk(Drop(b, i + 1))
    ensures result' + SubLimbs(a[i + 1..], Drop(b, i + 1), borrow') == result + SubLimbs(a[i..], Drop(b, i), borrow)
  {
    var x := a[i];
    var y := At(b, i);
    SubLimbsStep(a, b, i, borrow);
    var diff := x as int - y - borrow;
    borrow' := 0;
    if diff < 0 {
      diff := diff + BASE;
      borrow' := 1;
    }
    result' := result + [diff];
  }

  /** The borrow loop of sub_unsigned over the receiver's limbs, then the trim. */
  method BorrowSubtract(a: BigInt, b: BigInt) returns (r: BigInt)
    requires Valid(a) && Valid(b)
    ensures r == DirectDifference(a, b)
  {
    var result: seq<nat> := [];
    var borrow: nat := 0;
    for i := 0 to |a.digits|
      invariant borrow <= 1
      invariant result + SubLimbs(a.digits[i..], Drop(b.digits, i), borrow) == SubLimbs(a.digits, b.digits, 0)
    {
      result, borrow := BorrowDigit(a.digits, b.digits, i, borrow, result);
    }
    assert a.digits[|a.digits|..] == [];
    assert result == SubLimbs(a.digits, b.digits, 0);
    result := PopZeroTop(result);
    r := BigInt(result, false);
    assert r == BigInt(TrimZeros(SubLimbs(a.digits, b.digits, 0)), false);
  }

  method SubUnsigned(a: BigInt, b: BigInt) returns (r: BigInt)
    requires Valid(a) && Valid(b)
    ensures r == MagnitudeDifference(a, b)
    decreases if Compare(a, b) == Less then 1 else 0
  {
    var ord := Cmp(a, b);
    if ord == Less {
      CompareAntisymmetric(a, b);
      r := SubUnsigned(b, a);
      r := r.(isNegative := true);
      return;
    }
    r := BorrowSubtract(a, b);
  }

  // ---------------------------------------------------------------------
  // Signed dispatch (add, sub)
  // ---------------------------------------------------------------------

  function Sum(a: BigInt, b: BigInt): BigInt
    requires Valid(a) && Valid(b)
  {
    match (a.isNegative, b.isNegative)
    case (false, false) => MagnitudeSum(a, b)
    case (false, true) => MagnitudeDifference(a, b)
    case (true, false) => MagnitudeDifference(b, a)
    case (true, true) => MagnitudeSum(a, b).(isNegative := true)
  }

  function Difference(a: BigInt, b: BigInt): BigInt
    requires Valid(a) && Valid(b)
  {
    match (a.isNegative, b.isNegative)
    case (false, false) => MagnitudeDifference(a, b)
    case (false, true) => MagnitudeSum(a, b)
    case (true, false) => MagnitudeSum(a, b).(isNegative := true)
    case (true, true) => MagnitudeDifference(b, a)
  }

  method Add(a: BigInt, b: BigInt) returns (r: BigInt)
    requires Valid(a) && Valid(b)
    ensures r == Sum(a, b)
  {
    match (a.isNegative, b.isNegative)
    case (false, false) => r := AddUnsigned(a, b);
    case (false, true) => r := SubUnsigned(a, b);
    case (true, false) => r := SubUnsigned(b, a);
    case (true, true) =>
      r := AddUnsigned(a, b);
      r := r.(isNegative := true);
  }

  method Sub(a: BigInt, b: BigInt) returns (r: BigInt)
    requires Valid(a) && Valid(b)
    ensures r == Difference(a, b)
  {
    match (a.isNegative, b.isNegative)
    case (false, false) => r := SubUnsigned(a, b);
    case (false, true) => r := AddUnsigned(a, b);
    case (true, false) =>
      r := AddUnsigned(a, b);
      r := r.(isNegative := true);
    case (true, true) => r := SubUnsigned(b, a);
  }

  lemma SumValid(a: BigInt, b: BigInt)
    requires Valid(a) && Valid(b)
    ensures Valid(Sum(a, b)) && Valid(Difference(a, b))
  {
    MagnitudeSumProps(a, b);
    MagnitudeDifferenceProps(a, b);
    MagnitudeDifferenceProps(b, a);
  }

  /** The magnitude-subtracting case of add and sub, for a non-negative
      receiver `p` and a negative argument `n`: the result is non-negative and
      exact exactly when |p| >= |n|. */
  lemma MixedDifference(p: BigInt, n: BigInt)
    requires Canonical(p) && Canonical(n) && !p.isNegative && n.isNegative
    ensures var r := MagnitudeDifference(p, n);
      && Canonical(r) && !r.isNegative
      && (Val(r) == Mag(p.digits) - Mag(n.digits) <==> Mag(p.digits) >= Mag(n.digits))
  {
    DirectDifferenceProps(p, n);
  }

  /** add is exact exactly when the signs agree or the non-negative operand
      is at least as large in magnitude as the negative one. */
  lemma SumExactIff(a: BigInt, b: BigInt)
    requires Canonical(a) && Canonical(b)
    ensures Canonical(Sum(a, b))
    ensures Val(Sum(a, b)) == Val(a) + Val(b) <==>
      (a.isNegative == b.isNegative
       || (!a.isNegative && Mag(a.digits) >= Mag(b.digits))
       || (!b.isNegative && Mag(b.digits) >= Mag(a.digits)))
  {
    MagnitudeSumProps(a, b);
    if !a.isNegative && b.isNegative {
      MixedDifference(a, b);
    } else if a.isNegative && !b.isNegative {
      MixedDifference(b, a);
    }
  }

  /** sub is exact except on two negatives of different magnitude. */
  lemma DifferenceExactIff(a: BigInt, b: BigInt)
    requires Canonical(a) && Canonical(b)
    ensures Canonical(Difference(a, b))
    ensures Val(Difference(a, b)) == Val(a) - Val(b) <==>
      (!a.isNegative || !b.isNegative || Mag(a.digits) == Mag(b.digits))
  {
    MagnitudeSumProps(a, b);
    if !a.isNegative && !b.isNegative {
      MagnitudeDifferenceNonNegative(a, b);
    } else if a.isNegative && b.isNegative {
      // Both negative: the code runs b.sub_unsigned(a).
      CompareByKey(b, a);
      DirectDifferenceProps(a, b);
      DirectDifferenceProps(b, a);
      CompareMatchesValue(b, a);
      if Mag(a.digits) == Mag(b.digits) {
        TrimmedUnique(a.digits, b.digits);
      }
    }
  }

  /** add does not depend on the order of its operands. */
  lemma SumCommutes(a: BigInt, b: BigInt)
    requires Valid(a) && Valid(b)
    ensures Sum(a, b) == Sum(b, a)
  {
    AddLimbsCommutes(a.digits, b.digits, 0);
  }

  /** x - x is the non-negative zero for every valid x. */
  lemma DifferenceSelf(a: BigInt)
    requires Valid(a)
    ensures Difference(a, a) == Zero()
  {
    CompareEqualIff(a, a);
    SubLimbsSelf(a.digits);
    TrimZerosOfZeros(|a.digits|);
  }

  /** Adding zero to a canonical non-negative value returns it unchanged. */
  lemma SumZeroNonNegative(a: BigInt)
    requires Canonical(a) && !a.isNegative
    ensures Sum(a, Zero()) == a
  {
    MagnitudeSumProps(a, Zero());
    TrimmedUnique(AddLimbs(a.digits, [0], 0), a.digits);
  }

  /** Adding zero to -5 does not give -5: the swap test sees 0 > -5, so the
      borrow subtraction 0 - 5 runs and its final borrow is dropped. */
  lemma SumZeroNegativeFive()
    ensures Sum(BigInt([5], true), Zero()) == BigInt([999_999_995], false)
  {
    assert Compare(Zero(), BigInt([5], true)) == Greater;
    assert SubLimbs([0], [5], 0) == [999_999_995];
  }
}
