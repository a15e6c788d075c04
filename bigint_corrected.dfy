/** Corrected definitions for the places where add, sub, modulo and div_rem
    of 2022/bigint.rs depart from integer arithmetic, with the intended
    property proved about each. The as-written definitions live in BigNum
    and BigDiv. */
module BigCorrected {
  import opened Limbs
  import opened BigNum
  import opened BigMul
  import opened BigDiv
  import opened Results

  // ---------------------------------------------------------------------
  // sub_unsigned deciding the swap on magnitudes

  /** sub_unsigned with the swap decided by comparing magnitudes instead of
      the signed values. */
  function MagnitudeGap(a: BigInt, b: BigInt): BigInt
    requires Valid(a) && Valid(b)
  {
    if Compare(Abs(a), Abs(b)) == Less then DirectDifference(b, a).(isNegative := true)
    else DirectDifference(a, b)
  }

  /** The gap is exactly |a| - |b| on canonical values. */
  lemma MagnitudeGapExact(a: BigInt, b: BigInt)
    requires Canonical(a) && Canonical(b)
    ensures Canonical(MagnitudeGap(a, b))
    ensures Val(MagnitudeGap(a, b)) == Mag(a.digits) as int - Mag(b.digits) as int
  {
    CompareNonNegativeMag(Abs(a), Abs(b));
    DirectDifferenceProps(a, b);
    DirectDifferenceProps(b, a);
  }

  function SumByMagnitude(a: BigInt, b: BigInt): BigInt
    requires Valid(a) && Valid(b)
  {
    match (a.isNegative, b.isNegative)
    case (false, false) => MagnitudeSum(a, b)
    case (false, true) => MagnitudeGap(a, b)
    case (true, false) => MagnitudeGap(b, a)
    case (true, true) => MagnitudeSum(a, b).(isNegative := true)
  }

  function DifferenceByMagnitude(a: BigInt, b: BigInt): BigInt
    requires Valid(a) && Valid(b)
  {
    match (a.isNegative, b.isNegative)
    case (false, false) => MagnitudeGap(a, b)
    case (false, true) => MagnitudeSum(a, b)
    case (true, false) => MagnitudeSum(a, b).(isNegative := true)
    case (true, true) => MagnitudeGap(b, a)
  }

  /** With the magnitude swap test add is integer addition on every pair of
      canonical values. */
  lemma SumByMagnitudeExact(a: BigInt, b: BigInt)
    requires Canonical(a) && Canonical(b)
    ensures Canonical(SumByMagnitude(a, b))
    ensures Val(SumByMagnitude(a, b)) == Val(a) + Val(b)
  {
    MagnitudeSumProps(a, b);
    MagnitudeGapExact(a, b);
    MagnitudeGapExact(b, a);
  }

  /** ... and sub is integer subtraction. */
  lemma DifferenceByMagnitudeExact(a: BigInt, b: BigInt)
    requires Canonical(a) && Canonical(b)
    ensures Canonical(DifferenceByMagnitude(a, b))
    ensures Val(DifferenceByMagnitude(a, b)) == Val(a) - Val(b)
  {
    MagnitudeSumProps(a, b);
    MagnitudeGapExact(a, b);
    MagnitudeGapExact(b, a);
  }

  /** Where the as-written add is exact it agrees with the corrected one. */
  lemma SumAgrees(a: BigInt, b: BigInt)
    requires Canonical(a) && Canonical(b) && Val(Sum(a, b)) == Val(a) + Val(b)
    ensures Val(SumByMagnitude(a, b)) == Val(Sum(a, b))
  {
    SumByMagnitudeExact(a, b);
  }

  // ---------------------------------------------------------------------
  // modulo with a negative dividend

  /** modulo with the floored residue for a negative dividend: the
      subtraction loop runs on |a|, and a negative dividend with a non-zero
      residue r gives |b| - r. */
  function FlooredResidue(a: BigInt, b: BigInt): BigInt
    requires Valid(a) && Valid(b) && Mag(b.digits) > 0
  {
    var r := SubtractLoop(Abs(a), Abs(b)).0;
    if a.isNegative && r != Zero() then
      Difference(Abs(b), r)
    else r
  }

  /** The subtraction loop on |a| leaves the canonical remainder of |a| by |b|. */
  lemma AbsLoop(a: BigInt, b: BigInt)
    requires Canonical(a) && Canonical(b) && Mag(b.digits) > 0
    ensures var res := SubtractLoop(Abs(a), Abs(b));
      && Canonical(res.0) && !res.0.isNegative
      && Mag(a.digits) == res.1 * Mag(b.digits) + Mag(res.0.digits)
      && Mag(res.0.digits) < Mag(b.digits)
      && (res.0 == Zero() <==> Mag(res.0.digits) == 0)
  {
    SubtractLoopDivides(Abs(a), Abs(b));
    var r := SubtractLoop(Abs(a), Abs(b)).0;
    if Mag(r.digits) == 0 {
      TrimmedUnique(r.digits, [0]);
    }
    assert Mag([0]) == 0 + BASE * Mag([]);
  }

  /** The corrected modulo is the floored residue a mod |b| in [0, |b|),
      for every canonical dividend, negative ones included. */
  lemma FlooredResidueValue(a: BigInt, b: BigInt)
    requires Canonical(a) && Canonical(b) && Mag(b.digits) > 0
    ensures Canonical(FlooredResidue(a, b)) && !FlooredResidue(a, b).isNegative
    ensures Val(FlooredResidue(a, b)) == Val(a) % Mag(b.digits)
  {
    AbsLoop(a, b);
    var d := Mag(b.digits);
    var res := SubtractLoop(Abs(a), Abs(b));
    var q, rr := res.1, Mag(res.0.digits);
    if a.isNegative && rr > 0 {
      MagnitudeDifferenceNonNegative(Abs(b), res.0);
      NegativeResidue(Mag(a.digits), d, q, rr);
    } else if a.isNegative {
      NegativeResidue(Mag(a.digits), d, q, rr);
    } else {
      IntModUnique(Val(a), d, q, rr);
    }
  }

  /** -(q·d + r) mod d is d - r, or 0 when r is 0. */
  lemma NegativeResidue(m: nat, d: nat, q: nat, r: nat)
    requires d > 0 && m == q * d + r && r < d
    ensures r > 0 ==> (-(m as int)) % d == d - r
    ensures r == 0 ==> (-(m as int)) % d == 0
  {
    if r > 0 {
      IntModUnique(-(m as int), d, -(q as int) - 1, d - r);
    } else {
      IntModUnique(-(m as int), d, -(q as int), 0);
    }
  }

  /** On a non-negative dividend the corrected modulo is the written one. */
  lemma FlooredResidueAgrees(a: BigInt, b: BigInt)
    requires Valid(a) && !a.isNegative && Valid(b) && Mag(b.digits) > 0
    ensures FlooredResidue(a, b) == Residue(a, b)
  {
  }

  /** -7 % 3 is 2 in the corrected modulo. */
  lemma FlooredMinusSeven()
    ensures FlooredResidue(BigInt([7], true), BigInt([3], false)) == BigInt([2], false)
  {
    var a, b := BigInt([7], true), BigInt([3], false);
    MinusSevenByThree(a, b);
    FlooredResidueValue(a, b);
    var r := FlooredResidue(a, b);
    assert Val(r) == (-7) % 3 == 2;
    SingleLimbOf(r.digits, 2);
  }

  lemma MinusSevenByThree(a: BigInt, b: BigInt)
    requires a == BigInt([7], true) && b == BigInt([3], false)
    ensures Canonical(a) && Canonical(b) && Val(a) == -7 && Mag(b.digits) == 3
  {
    assert Mag([7]) == 7 + BASE * Mag([]);
    assert Mag([3]) == 3 + BASE * Mag([]);
  }

  lemma IntModUnique(x: int, d: nat, k: int, s: nat)
    requires d > 0 && x == k * d + s && s < d
    ensures x % d == s
  {
    var k', s' := x / d, x % d;
    assert x == k' * d + s';
    MulPositive(d, k' - k);
    MulPositive(d, k - k');
    assert (k' - k) * d == k' * d - k * d;
    assert (k - k') * d == k * d - k' * d;
  }

  // ---------------------------------------------------------------------
  // div_rem with an exact remainder shift

  /** `remainder * BASE + digit` as an exact value: the shifted limbs with
      zero top limbs trimmed, so a zero remainder gives the one limb d. */
  function ShiftExact(rem: BigInt, d: nat): (r: BigInt)
    requires Valid(rem)
    ensures Valid(r)
  {
    var s := ShiftIn(rem, d);
    TrimZerosProps(s.digits);
    BigInt(TrimZeros(s.digits), s.isNegative)
  }

  function LongDivisionExact(ds: seq<nat>, rem: BigInt, divisor: BigInt): (seq<nat>, BigInt)
    requires Valid(rem) && Valid(divisor) && !divisor.isNegative && Mag(divisor.digits) > 0
    decreases |ds|
  {
    if ds == [] then ([], rem)
    else
      var next := SubtractLoop(ShiftExact(rem, ds[0]), divisor);
      var rest := LongDivisionExact(ds[1..], next.0, divisor);
      ([next.1] + rest.0, rest.1)
  }

  /** div_rem with a zero test on the divisor's limbs, so that "-0" and
      untrimmed zeros are refused as zero() is, and with the exact shift;
      everything else as written. */
  function ExactQuotientRemainder(a: BigInt, b: BigInt): Result<(BigInt, BigInt), DivError>
    requires Valid(a) && Valid(b)
  {
    if AllZero(b.digits) then Err(DivisionByZero)
    else
      AllZeroMag(b.digits);
      var dividend := Abs(a);
      var divisor := Abs(b);
      if Compare(dividend, divisor) == Less then
        Ok((Zero(), WithSign(dividend, a.isNegative)))
      else
        var (qs, rem) := LongDivisionExact(Reverse(dividend.digits), Zero(), divisor);
        Ok((BigInt(TrimZeros(Reverse(qs)), a.isNegative != b.isNegative), WithSign(rem, a.isNegative)))
  }

  /** The number whose base-10^9 digits are acc followed by ds, most
      significant first. */
  ghost function Horner(acc: int, ds: seq<nat>): int
    decreases |ds|
  {
    if ds == [] then acc else Horner(acc * BASE + ds[0], ds[1..])
  }

  /** Reading limbs top first is the magnitude of their reversal. */
  lemma {:induction false} HornerReverse(acc: int, ds: seq<nat>)
    decreases |ds|
    ensures Horner(acc, ds) == acc * Pow(|ds|) + Mag(Reverse(ds))
  {
    if ds != [] {
      var n := |ds|;
      HornerReverse(acc * BASE + ds[0], ds[1..]);
      assert Reverse(ds) == Reverse(ds[1..]) + [ds[0]];
      MagSnoc(Reverse(ds[1..]), ds[0]);
      HornerArith(acc, ds[0], Pow(n - 1), Mag(Reverse(ds[1..])));
    }
  }

  lemma HornerArith(acc: int, d: nat, p: nat, m: nat)
    ensures (acc * BASE + d) * p + m == acc * (BASE * p) + (m + p * d)
  {
  }

  lemma ReverseTwice<T>(s: seq<T>)
    ensures Reverse(Reverse(s)) == s
  {
  }

  /** The shifted remainder is trimmed, non-negative, and worth rem·BASE + d. */
  lemma ShiftExactProps(rem: BigInt, d: nat)
    requires Canonical(rem) && !rem.isNegative && d < BASE
    ensures Canonical(ShiftExact(rem, d)) && !ShiftExact(rem, d).isNegative
    ensures Mag(ShiftExact(rem, d).digits) == d + BASE * Mag(rem.digits)
  {
    ShiftInLimbs(rem, d);
    var ds := [d] + rem.digits;
    TrimZerosProps(ds);
    assert ds[1..] == rem.digits;
  }

  /** The exact shift differs from the written one only on a zero remainder. */
  lemma ShiftExactAgrees(rem: BigInt, d: nat)
    requires Canonical(rem) && !rem.isNegative && rem != Zero() && d < BASE
    ensures ShiftExact(rem, d) == ShiftIn(rem, d)
  {
    ShiftInLimbs(rem, d);
    TrimZerosOfTrimmed([d] + rem.digits);
  }

  /** Each step of the exact long division yields one base-10^9 quotient
      limb and a remainder below the divisor. */
  lemma {:induction false} LongDivisionExactShape(ds: seq<nat>, rem: BigInt, divisor: BigInt)
    requires LimbsOk(ds) && Canonical(rem) && !rem.isNegative
    requires Canonical(divisor) && !divisor.isNegative && Mag(divisor.digits) > 0
    requires Mag(rem.digits) < Mag(divisor.digits)
    decreases |ds|
    ensures var res := LongDivisionExact(ds, rem, divisor);
      && |res.0| == |ds| && LimbsOk(res.0)
      && Canonical(res.1) && !res.1.isNegative && Mag(res.1.digits) < Mag(divisor.digits)
  {
    if ds != [] {
      ExactStep(ds, rem, divisor);
      var next := SubtractLoop(ShiftExact(rem, ds[0]), divisor);
      LongDivisionExactShape(ds[1..], next.0, divisor);
      var tail := LongDivisionExact(ds[1..], next.0, divisor);
      assert LongDivisionExact(ds, rem, divisor) == ([next.1] + tail.0, tail.1);
    }
  }

  /** Long division on plain numbers: the quotient digits and the last
      remainder from reading the limbs ds, top first, after the remainder m. */
  ghost function Quotients(ds: seq<nat>, m: nat, dv: nat): (seq<nat>, nat)
    requires dv > 0
    decreases |ds|
  {
    if ds == [] then ([], m)
    else
      var s := m * BASE + ds[0];
      var rest := Quotients(ds[1..], s % dv, dv);
      ([s / dv] + rest.0, rest.1)
  }

  /** The numeric long division accounts for the limbs it reads: the quotient
      digits after acc, times the divisor, plus the last remainder. */
  lemma {:induction false} QuotientsValue(ds: seq<nat>, m: nat, dv: nat, acc: int)
    requires dv > 0
    decreases |ds|
    ensures Horner(acc, Quotients(ds, m, dv).0) * dv + Quotients(ds, m, dv).1 == Horner(acc * dv + m, ds)
  {
    if ds != [] {
      var s := m * BASE + ds[0];
      var acc' := acc * BASE + s / dv;
      QuotientsValue(ds[1..], s % dv, dv, acc');
      var rest := Quotients(ds[1..], s % dv, dv);
      assert Quotients(ds, m, dv) == ([s / dv] + rest.0, rest.1);
      HornerCons(acc, s / dv, rest.0, acc');
      QuotientsArith(acc, m, ds[0], dv, s, acc');
      HornerUnfold(acc * dv + m, ds, acc' * dv + s % dv);
      ScaleEqual(Horner(acc, Quotients(ds, m, dv).0), Horner(acc', rest.0), dv);
    }
  }

  lemma QuotientsArith(acc: int, m: nat, x: nat, dv: nat, s: nat, acc': int)
    requires dv > 0 && s == m * BASE + x && acc' == acc * BASE + s / dv
    ensures acc' * dv + s % dv == (acc * dv + m) * BASE + x
  {
    assert s == s / dv * dv + s % dv;
    assert acc' * dv == acc * BASE * dv + s / dv * dv;
    assert (acc * dv + m) * BASE == acc * BASE * dv + m * BASE;
  }

  /** The limbs the exact long division produces are the numeric quotient
      digits, and its last remainder is the numeric one. */
  lemma {:induction false} LongDivisionExactTrace(ds: seq<nat>, rem: BigInt, divisor: BigInt)
    requires LimbsOk(ds) && Canonical(rem) && !rem.isNegative
    requires Canonical(divisor) && !divisor.isNegative && Mag(divisor.digits) > 0
    requires Mag(rem.digits) < Mag(divisor.digits)
    decreases |ds|
    ensures var res := LongDivisionExact(ds, rem, divisor);
      var t := Quotients(ds, Mag(rem.digits), Mag(divisor.digits));
      res.0 == t.0 && Mag(res.1.digits) == t.1
  {
    if ds != [] {
      ExactStep(ds, rem, divisor);
      var next := SubtractLoop(ShiftExact(rem, ds[0]), divisor);
      QuotientsCons(ds, Mag(rem.digits), Mag(divisor.digits), next.1, Mag(next.0.digits));
      LongDivisionExactTrace(ds[1..], next.0, divisor);
      var tail := LongDivisionExact(ds[1..], next.0, divisor);
      assert LongDivisionExact(ds, rem, divisor) == ([next.1] + tail.0, tail.1);
    }
  }

  /** A quotient digit and remainder that divide the first step exactly are
      the ones the numeric long division takes. */
  lemma QuotientsCons(ds: seq<nat>, m: nat, dv: nat, q: nat, r: nat)
    requires ds != [] && dv > 0 && q * dv + r == ds[0] + BASE * m && r < dv
    ensures Quotients(ds, m, dv) == ([q] + Quotients(ds[1..], r, dv).0, Quotients(ds[1..], r, dv).1)
  {
    DivModUnique(m * BASE + ds[0], dv, q, r);
  }

  /** Together the quotient limbs and the last remainder account for the
      dividend limbs read: with acc the quotient so far, reading ds on top
      of the remainder rem gives back acc·divisor + rem followed by ds. */
  lemma LongDivisionExactValue(ds: seq<nat>, rem: BigInt, divisor: BigInt, acc: nat)
    requires LimbsOk(ds) && Canonical(rem) && !rem.isNegative
    requires Canonical(divisor) && !divisor.isNegative && Mag(divisor.digits) > 0
    requires Mag(rem.digits) < Mag(divisor.digits)
    ensures var res := LongDivisionExact(ds, rem, divisor);
      Horner(acc, res.0) * Mag(divisor.digits) + Mag(res.1.digits)
      == Horner(acc * Mag(divisor.digits) + Mag(rem.digits), ds)
  {
    LongDivisionExactTrace(ds, rem, divisor);
    QuotientsValue(ds, Mag(rem.digits), Mag(divisor.digits), acc);
  }

  lemma ScaleEqual(x: int, y: int, k: int)
    requires x == y
    ensures x * k == y * k
  {
  }

  lemma HornerCons(acc: int, q: nat, qs: seq<nat>, acc': int)
    requires acc' == acc * BASE + q
    ensures Horner(acc, [q] + qs) == Horner(acc', qs)
  {
    assert ([q] + qs)[1..] == qs;
  }

  lemma HornerUnfold(v: int, ds: seq<nat>, w: int)
    requires ds != [] && w == v * BASE + ds[0]
    ensures Horner(v, ds) == Horner(w, ds[1..])
  {
  }

  /** One step of the exact long division: the quotient limb and remainder
      it produces and how the rest of the division continues. */
  lemma ExactStep(ds: seq<nat>, rem: BigInt, divisor: BigInt)
    requires ds != [] && LimbsOk(ds) && Canonical(rem) && !rem.isNegative
    requires Canonical(divisor) && !divisor.isNegative && Mag(divisor.digits) > 0
    requires Mag(rem.digits) < Mag(divisor.digits)
    ensures var next := SubtractLoop(ShiftExact(rem, ds[0]), divisor);
      && Canonical(next.0) && !next.0.isNegative && Mag(next.0.digits) < Mag(divisor.digits)
      && next.1 < BASE
      && next.1 * Mag(divisor.digits) + Mag(next.0.digits) == ds[0] + BASE * Mag(rem.digits)
  {
    var s := ShiftExact(rem, ds[0]);
    ShiftExactProps(rem, ds[0]);
    SubtractLoopDivides(s, divisor);
    var next := SubtractLoop(s, divisor);
    QuotientLimb(Mag(s.digits), ds[0], Mag(rem.digits), next.1, Mag(divisor.digits), Mag(next.0.digits));
  }

  /** The count of subtractions from rem·BASE + x, rem < divisor, is a limb. */
  lemma QuotientLimb(s: nat, x: nat, m: nat, q: nat, dv: nat, r: nat)
    requires s == x + BASE * m && x < BASE && m < dv && s == q * dv + r
    ensures q < BASE
  {
    MulMonoLeft(m + 1, dv, BASE);
    MulMonoLeft(BASE, q, dv);
  }

  lemma MulMonoLeft(x: nat, y: nat, k: nat)
    ensures x <= y ==> x * k <= y * k
  {
  }

  /** The corrected division refuses exactly the divisors of zero
      magnitude, among them "-0", which from_str("-0") returns; every other
      divisor gets an answer. */
  lemma ExactByZero(a: BigInt, b: BigInt)
    requires Valid(a) && Valid(b)
    ensures ExactQuotientRemainder(a, b) == Err(DivisionByZero) <==> Mag(b.digits) == 0
    ensures ExactQuotientRemainder(a, b).Err? ==> Mag(b.digits) == 0
    ensures ExactQuotientRemainder(a, BigInt([0], true)) == Err(DivisionByZero)
  {
    AllZeroMag(b.digits);
    assert AllZero([0]);
  }

  /** The corrected division is truncating division on all canonical
      operands: |a| = q·|b| + r with 0 <= r < |b|, the quotient's sign the
      XOR of the signs (for a non-zero quotient) and the remainder's the
      dividend's (for a non-zero remainder). */
  lemma ExactDivRem(a: BigInt, b: BigInt)
    requires Canonical(a) && Canonical(b) && Mag(b.digits) > 0
    ensures ExactQuotientRemainder(a, b).Ok?
    ensures var (q, r) := ExactQuotientRemainder(a, b).value;
      && Canonical(q) && Canonical(r)
      && Mag(q.digits) * Mag(b.digits) + Mag(r.digits) == Mag(a.digits)
      && Mag(r.digits) < Mag(b.digits)
      && (r.isNegative <==> a.isNegative && Mag(r.digits) > 0)
      && (Mag(q.digits) > 0 ==> (q.isNegative <==> a.isNegative != b.isNegative))
  {
    if Compare(Abs(a), Abs(b)) != Less {
      ExactDivRemLong(a, b);
    } else {
      ExactDivRemShort(a, b);
    }
  }

  lemma ExactDivRemLong(a: BigInt, b: BigInt)
    requires Canonical(a) && Canonical(b) && Mag(b.digits) > 0
    requires Compare(Abs(a), Abs(b)) != Less
    ensures ExactQuotientRemainder(a, b).Ok?
    ensures var (q, r) := ExactQuotientRemainder(a, b).value;
      && Canonical(q) && Canonical(r)
      && Mag(q.digits) * Mag(b.digits) + Mag(r.digits) == Mag(a.digits)
      && Mag(r.digits) < Mag(b.digits)
      && (r.isNegative <==> a.isNegative && Mag(r.digits) > 0)
      && (Mag(q.digits) > 0 ==> (q.isNegative <==> a.isNegative != b.isNegative))
  {
    var divisor := Abs(b);
    ExactLong(a.digits, divisor);
    var rem := LongDivisionExact(Reverse(a.digits), Zero(), divisor).1;
    if Mag(rem.digits) == 0 {
      TrimmedUnique(rem.digits, [0]);
    }
  }

  lemma ExactDivRemShort(a: BigInt, b: BigInt)
    requires Canonical(a) && Canonical(b) && Mag(b.digits) > 0
    requires Compare(Abs(a), Abs(b)) == Less
    ensures ExactQuotientRemainder(a, b).Ok?
    ensures var (q, r) := ExactQuotientRemainder(a, b).value;
      && Canonical(q) && Canonical(r)
      && Mag(q.digits) * Mag(b.digits) + Mag(r.digits) == Mag(a.digits)
      && Mag(r.digits) < Mag(b.digits)
      && (r.isNegative <==> a.isNegative && Mag(r.digits) > 0)
      && (Mag(q.digits) > 0 ==> (q.isNegative <==> a.isNegative != b.isNegative))
  {
    CompareNonNegativeMag(Abs(a), Abs(b));
    if Mag(a.digits) == 0 {
      TrimmedUnique(a.digits, [0]);
    }
  }

  /** The long-division branch: the trimmed quotient limbs and the last
      remainder divide the dividend's magnitude exactly. */
  lemma ExactLong(x: seq<nat>, divisor: BigInt)
    requires |x| > 0 && LimbsOk(x) && Trimmed(x)
    requires Canonical(divisor) && !divisor.isNegative && Mag(divisor.digits) > 0
    ensures var res := LongDivisionExact(Reverse(x), Zero(), divisor);
      var q := TrimZeros(Reverse(res.0));
      && |q| > 0 && LimbsOk(q) && Trimmed(q)
      && Mag(q) * Mag(divisor.digits) + Mag(res.1.digits) == Mag(x)
      && Canonical(res.1) && !res.1.isNegative && Mag(res.1.digits) < Mag(divisor.digits)
  {
    var tops := Reverse(x);
    var dv := Mag(divisor.digits);
    assert LimbsOk(tops);
    LongDivisionExactShape(tops, Zero(), divisor);
    LongDivisionExactValue(tops, Zero(), divisor, 0);
    var res := LongDivisionExact(tops, Zero(), divisor);
    var zero := 0 * dv + Mag(Zero().digits);
    assert zero == 0;
    var quotient := Horner(0, res.0);
    assert quotient * dv + Mag(res.1.digits) == Horner(zero, tops);
    HornerReverse(0, res.0);
    assert quotient == Mag(Reverse(res.0));
    HornerReverse(0, tops);
    ReverseTwice(x);
    assert Horner(0, tops) == Mag(x);
    assert LimbsOk(Reverse(res.0));
    TrimZerosProps(Reverse(res.0));
    assert Mag(TrimZeros(Reverse(res.0))) == quotient;
  }

  /** [5, 1] / [7] divides correctly once the shift is exact. */
  lemma ExactTwoLimbs()
    ensures ExactQuotientRemainder(BigInt([5, 1], false), BigInt([7], false)).Ok?
    ensures var res := ExactQuotientRemainder(BigInt([5, 1], false), BigInt([7], false)).value;
      Mag(res.0.digits) == 142857143 && Mag(res.1.digits) == 4
  {
    var a, b := BigInt([5, 1], false), BigInt([7], false);
    assert Mag([5, 1]) == 5 + BASE * 1 by {
      assert Mag([1]) == 1 + BASE * Mag([]);
      assert [5, 1][1..] == [1];
    }
    assert Mag([7]) == 7 + BASE * Mag([]);
    ExactByValue(a, b, BASE + 5, 7);
  }

  lemma ExactByValue(a: BigInt, b: BigInt, m: nat, d: nat)
    requires Canonical(a) && Canonical(b) && Mag(a.digits) == m && Mag(b.digits) == d && d > 0
    ensures ExactQuotientRemainder(a, b).Ok?
    ensures var res := ExactQuotientRemainder(a, b).value;
      Mag(res.0.digits) == m / d && Mag(res.1.digits) == m % d
  {
    ExactDivRem(a, b);
    var res := ExactQuotientRemainder(a, b).value;
    DivModUnique(m, d, Mag(res.0.digits), Mag(res.1.digits));
  }
}
