/** Repeated-subtraction modulo and long division (modulo, div_rem and div
    of 2022/bigint.rs), modelled as the code composes them from cmp, sub,
    mul, add and from_u64. */
module BigDiv {
  import opened Limbs
  import opened BigNum
  import opened BigConvert
  import opened BigMul
  import opened Results

  datatype DivError = DivisionByZero

  /** One pass of `while r >= d { r = r - d }` with a non-negative `d`:
      r is non-negative, and r - d is a trimmed non-negative value that is
      exact when r is trimmed. */
  lemma SubtractStep(r: BigInt, d: BigInt)
    requires Valid(r) && Valid(d) && !d.isNegative && Compare(r, d) != Less
    ensures !r.isNegative
    ensures var r' := Difference(r, d);
      && Valid(r') && Trimmed(r'.digits) && !r'.isNegative
      && (Trimmed(r.digits) ==> Mag(r'.digits) == Mag(r.digits) - Mag(d.digits))
  {
    DirectDifferenceProps(r, d);
    CompareNonNegativeMag(r, d);
  }

  /** The loop `while r >= d { r = r - d }` ends: always when `r` is
      negative or `d`'s magnitude is positive; for a divisor of magnitude
      zero (zero(), or limbs [0, 0] as mul leaves them) exactly when `d` has
      more limbs than `r` without its zero top limbs. */
  ghost predicate Ends(r: BigInt, d: BigInt) {
    r.isNegative || Mag(d.digits) > 0 || |TrimZeros(r.digits)| < |d.digits|
  }

  /** Against a non-negative divisor of magnitude zero, cmp ranks a
      non-negative r below it exactly when r has fewer limbs, and r - d is
      r with its zero top limbs removed. */
  lemma ZeroMagnitude(r: BigInt, d: BigInt)
    requires Valid(r) && !r.isNegative && Valid(d) && !d.isNegative && Mag(d.digits) == 0
    ensures Compare(r, d) != Less <==> |r.digits| >= |d.digits|
    ensures |r.digits| >= |d.digits| ==>
              var t := Difference(r, d);
              && t == BigInt(TrimZeros(r.digits), false)
              && Canonical(t) && Mag(t.digits) == Mag(r.digits) && TrimZeros(t.digits) == t.digits
  {
    CompareByKey(r, d);
    if |r.digits| >= |d.digits| {
      TrimZerosProps(r.digits);
      DirectDifferenceProps(r, d);
      var t := DirectDifference(r, d);
      TrimmedUnique(t.digits, TrimZeros(r.digits));
      TrimZerosOfTrimmed(t.digits);
    }
  }

  /** A pass of the loop keeps it ending; against a divisor of magnitude
      zero the pass happens only on an untrimmed r, and trims it. */
  lemma EndsStep(r: BigInt, d: BigInt)
    requires Valid(r) && Valid(d) && !d.isNegative && Compare(r, d) != Less && Ends(r, d)
    ensures Valid(Difference(r, d)) && Ends(Difference(r, d), d)
    ensures Mag(d.digits) == 0 ==> !Trimmed(r.digits) && Compare(Difference(r, d), d) == Less
  {
    SubtractStep(r, d);
    if Mag(d.digits) == 0 {
      ZeroMagnitude(r, d);
      var t := Difference(r, d);
      ZeroMagnitude(t, d);
    }
  }

  /** The loop `while r >= d { r = r - d; q += 1 }`: the final value and the
      number of subtractions, on the inputs where it ends. */
  function SubtractLoop(r: BigInt, d: BigInt): (res: (BigInt, nat))
    requires Valid(r) && Valid(d) && !d.isNegative && Ends(r, d)
    decreases if Trimmed(r.digits) then 0 else 1, Mag(r.digits)
    ensures Valid(res.0) && Compare(res.0, d) == Less
  {
    if Compare(r, d) == Less then (r, 0)
    else
      SubtractStep(r, d);
      EndsStep(r, d);
      var next := SubtractLoop(Difference(r, d), d);
      (next.0, next.1 + 1)
  }

  /** With a trimmed non-zero divisor, the loop divides exactly, provided the
      start value is trimmed or at least the divisor. */
  lemma {:induction false} SubtractLoopDivides(r: BigInt, d: BigInt)
    requires Valid(r) && Canonical(d) && !d.isNegative && !r.isNegative && Mag(d.digits) > 0
    requires Trimmed(r.digits) || Mag(r.digits) >= Mag(d.digits)
    decreases if Trimmed(r.digits) then 0 else 1, Mag(r.digits)
    ensures Canonical(SubtractLoop(r, d).0) && !SubtractLoop(r, d).0.isNegative
    ensures Mag(r.digits) == SubtractLoop(r, d).1 * Mag(d.digits) + Mag(SubtractLoop(r, d).0.digits)
    ensures Mag(SubtractLoop(r, d).0.digits) < Mag(d.digits)
  {
    CompareNonNegativeMag(r, d);
    if Compare(r, d) != Less {
      SubtractStep(r, d);
      var r' := Difference(r, d);
      SubtractLoopDivides(r', d);
      SubtractLoopUnfold(r, d);
      DirectDifferenceProps(r, d);
      AddOneMultiple(Mag(r.digits), Mag(r'.digits), SubtractLoop(r', d).1, Mag(d.digits), Mag(SubtractLoop(r', d).0.digits));
    }
  }

  lemma SubtractLoopUnfold(r: BigInt, d: BigInt)
    requires Valid(r) && Valid(d) && !d.isNegative && Mag(d.digits) > 0 && Compare(r, d) != Less
    ensures Valid(Difference(r, d))
    ensures SubtractLoop(r, d) == (SubtractLoop(Difference(r, d), d).0, SubtractLoop(Difference(r, d), d).1 + 1)
  {
    EndsStep(r, d);
  }

  lemma AddOneMultiple(x: nat, x': nat, q: nat, m: nat, rem: nat)
    requires x == x' + m && x' == q * m + rem
    ensures x == (q + 1) * m + rem
  {
  }

  /** modulo: the subtraction loop on a copy of the receiver against |b|;
      for a negative receiver the result is |b| - r. */
  function Residue(a: BigInt, b: BigInt): BigInt
    requires Valid(a) && Valid(b) && Ends(a, Abs(b))
  {
    var absOther := Abs(b);
    var r := SubtractLoop(a, absOther).0;
    if a.isNegative then
      SumValid(absOther, a);
      Difference(absOther, r)
    else r
  }

  /** For a canonical non-negative receiver and a trimmed non-zero divisor,
      modulo is the remainder of the magnitudes, whatever the divisor's sign. */
  lemma ResidueNonNegative(a: BigInt, b: BigInt)
    requires Canonical(a) && !a.isNegative && Canonical(b) && Mag(b.digits) > 0
    ensures Canonical(Residue(a, b)) && !Residue(a, b).isNegative
    ensures Mag(Residue(a, b).digits) == Mag(a.digits) % Mag(b.digits)
    ensures Val(Residue(a, b)) < Mag(b.digits)
  {
    SubtractLoopDivides(a, Abs(b));
    var res := SubtractLoop(a, Abs(b));
    DivModUnique(Mag(a.digits), Mag(b.digits), res.1, Mag(res.0.digits));
  }

  lemma DivModUnique(x: nat, d: nat, q: nat, r: nat)
    requires d > 0 && x == q * d + r && r < d
    ensures x % d == r && x / d == q
  {
    var q', r' := x / d, x % d;
    assert x == q' * d + r';
    MulPositive(d, q' - q);
    MulPositive(d, q - q');
    assert (q' - q) * d == q' * d - q * d;
    assert (q - q') * d == q * d - q' * d;
  }

  lemma MulPositive(d: nat, k: int)
    ensures k >= 1 ==> k * d >= d
  {
    if k >= 1 {
      MulAtLeast(d, k);
    }
  }

  /** For a negative receiver the loop never runs (a negative value is below
      |b|), and the result is |b| + |a|, not a remainder. */
  lemma ResidueNegative(a: BigInt, b: BigInt)
    requires Valid(a) && a.isNegative && Valid(b)
    ensures Residue(a, b) == MagnitudeSum(Abs(b), a)
    ensures Valid(Residue(a, b)) && !Residue(a, b).isNegative
    ensures Mag(Residue(a, b).digits) == Mag(b.digits) + Mag(a.digits)
  {
    MagnitudeSumProps(Abs(b), a);
  }

  /** -7 % 3 evaluates to 10. */
  lemma ResidueMinusSeven()
    ensures Residue(BigInt([7], true), BigInt([3], false)) == BigInt([10], false)
  {
    assert AddLimbs([3], [7], 0) == [10];
  }

  // ---------------------------------------------------------------------
  // Divisors of magnitude zero

  /** A divisor of magnitude zero with more limbs than the trimmed
      non-negative receiver: modulo returns the receiver, trimmed when it is
      at least as long as the divisor (after one pass). */
  lemma ResidueZeroMagnitude(a: BigInt, b: BigInt)
    requires Valid(a) && !a.isNegative && Valid(b) && Mag(b.digits) == 0
    requires |TrimZeros(a.digits)| < |b.digits|
    ensures !Residue(a, b).isNegative && Mag(Residue(a, b).digits) == Mag(a.digits)
    ensures |a.digits| < |b.digits| ==> Residue(a, b) == a
    ensures |a.digits| >= |b.digits| ==> Residue(a, b) == BigInt(TrimZeros(a.digits), false)
  {
    var d := Abs(b);
    ZeroMagnitude(a, d);
    if |a.digits| >= |b.digits| {
      EndsStep(a, d);
      var t := Difference(a, d);
      ZeroMagnitude(t, d);
      assert SubtractLoop(t, d) == (t, 0);
      assert SubtractLoop(a, d).0 == t;
    }
  }

  /** 5 modulo [0, 0] is 5: cmp ranks the one-limb 5 below the two-limb
      zero, so the loop never runs; [5, 0] modulo [0, 0] is [5] after one
      pass. */
  lemma ResidueZeroPair()
    ensures Residue(BigInt([5], false), BigInt([0, 0], false)) == BigInt([5], false)
    ensures Residue(BigInt([5, 0], false), BigInt([0, 0], false)) == BigInt([5], false)
  {
    assert Mag([0, 0]) == 0 + BASE * (0 + BASE * Mag([]));
    assert TrimZeros([5, 0]) == [5];
    ResidueZeroMagnitude(BigInt([5], false), BigInt([0, 0], false));
    ResidueZeroMagnitude(BigInt([5, 0], false), BigInt([0, 0], false));
  }

  /** x after k passes of `x = x - d`, for a divisor d of magnitude zero on
      which the loop does not end. */
  ghost function SubtractZero(x: BigInt, d: BigInt, k: nat): (s: BigInt)
    requires Valid(x) && !x.isNegative && Valid(d) && !d.isNegative && Mag(d.digits) == 0
    requires !Ends(x, d)
    ensures Valid(s) && !s.isNegative && !Ends(s, d)
  {
    if k == 0 then x
    else
      var s := SubtractZero(x, d, k - 1);
      TrimZerosProps(s.digits);
      ZeroMagnitude(s, d);
      Difference(s, d)
  }

  /** Off Ends the loops of modulo and div_rem never stop: after any number
      k of passes the magnitude is unchanged and the condition `x >= d`
      still holds. This covers 5 modulo 0, a non-negative receiver modulo
      zero() or "-0", and div_rem's inner loop for the divisor "-0". */
  lemma {:induction false} ZeroDivisorSpins(x: BigInt, d: BigInt, k: nat)
    requires Valid(x) && !x.isNegative && Valid(d) && !d.isNegative && Mag(d.digits) == 0
    requires !Ends(x, d)
    ensures Compare(SubtractZero(x, d, k), d) != Less
    ensures Mag(SubtractZero(x, d, k).digits) == Mag(x.digits)
  {
    var s := SubtractZero(x, d, k);
    TrimZerosProps(s.digits);
    ZeroMagnitude(s, d);
    if k > 0 {
      ZeroDivisorSpins(x, d, k - 1);
      var p := SubtractZero(x, d, k - 1);
      TrimZerosProps(p.digits);
      ZeroMagnitude(p, d);
    }
  }

  /** div_rem's digit steps against the divisor [0, 0] on a zero remainder:
      it shifts to [digit, 0], which one pass trims to [digit]. So
      [5, 0] / [0, 0] returns quotient limbs [1, 1] and remainder [5]. */
  lemma ZeroPairReturns()
    ensures ShiftIn(Zero(), 0) == BigInt([0, 0], false)
    ensures SubtractLoop(BigInt([0, 0], false), BigInt([0, 0], false)) == (Zero(), 1)
    ensures ShiftIn(Zero(), 5) == BigInt([5, 0], false)
    ensures SubtractLoop(BigInt([5, 0], false), BigInt([0, 0], false)) == (BigInt([5], false), 1)
  {
    ShiftInLimbs(Zero(), 0);
    ShiftInLimbs(Zero(), 5);
    ZeroPairPass(0);
    ZeroPairPass(5);
  }

  /** One pass of the inner loop takes [x, 0] to [x] against [0, 0]. */
  lemma ZeroPairPass(x: nat)
    requires x < BASE
    ensures SubtractLoop(BigInt([x, 0], false), BigInt([0, 0], false)) == (BigInt([x], false), 1)
  {
    var d := BigInt([0, 0], false);
    assert Mag([0, 0]) == 0 + BASE * (0 + BASE * Mag([]));
    assert TrimZeros([x, 0]) == [x];
    ResidueZeroMagnitude(BigInt([x, 0], false), d);
    ZeroMagnitude(BigInt([x, 0], false), d);
    ZeroMagnitude(BigInt([x], false), d);
  }

  /** A non-zero remainder [x] shifts to [digit, x] against [0, 0], off
      Ends, where ZeroDivisorSpins applies: a dividend with a non-zero limb
      above the lowest makes div_rem spin. */
  lemma ZeroPairSpins()
    ensures ShiftIn(BigInt([5], false), 0) == BigInt([0, 5], false)
    ensures !Ends(BigInt([0, 5], false), BigInt([0, 0], false))
  {
    ShiftInLimbs(BigInt([5], false), 0);
    assert Mag([0, 0]) == 0 + BASE * (0 + BASE * Mag([]));
    assert TrimZeros([0, 5]) == [0, 5];
  }

  /** The divisor "-0" (what from_str("-0") returns) is valid and passes
      div_rem's structural zero test, yet its absolute value is zero(), so
      div_rem reaches its digit loop, where ZeroDivisorSpins applies. */
  lemma NegativeZeroDivisor()
    ensures Valid(BigInt([0], true)) && BigInt([0], true) != Zero()
    ensures Abs(BigInt([0], true)) == Zero()
    ensures forall a: BigInt | Valid(a) :: Compare(Abs(a), Abs(BigInt([0], true))) != Less
  {
    assert Mag([0]) == 0 + BASE * Mag([]);
    forall a: BigInt | Valid(a)
      ensures Compare(Abs(a), Zero()) != Less
    {
      ZeroMagnitude(Abs(a), Zero());
    }
  }

  method Modulo(a: BigInt, b: BigInt) returns (r: BigInt)
    requires Valid(a) && Valid(b) && Ends(a, Abs(b))
    ensures r == Residue(a, b)
  {
    var result := a;
    var absOther := BigInt(b.digits, false);
    var ord := Cmp(result, absOther);
    while ord != Less
      invariant Valid(result) && Ends(result, absOther)
      invariant ord == Compare(result, absOther)
      invariant SubtractLoop(result, absOther).0 == SubtractLoop(a, absOther).0
      decreases if Trimmed(result.digits) then 0 else 1, Mag(result.digits)
    {
      SubtractStep(result, absOther);
      EndsStep(result, absOther);
      result := Sub(result, absOther);
      ord := Cmp(result, absOther);
    }
    if a.isNegative {
      r := Sub(absOther, result);
    } else {
      r := result;
    }
  }

  /** `remainder * from_u64(BASE) + from_u64(digit)` of div_rem. */
  function ShiftIn(rem: BigInt, d: nat): (r: BigInt)
    requires Valid(rem)
    ensures Valid(r)
  {
    OfNatProps(BASE);
    OfNatProps(d);
    ProductProps(rem, OfNat(BASE));
    SumValid(Product(rem, OfNat(BASE)), OfNat(d));
    Sum(Product(rem, OfNat(BASE)), OfNat(d))
  }

  /** The digit loop of div_rem over the dividend's limbs from the top: shift
      the next limb into the remainder, subtract the divisor while it fits,
      record the count. Returns the counts in order and the last remainder. */
  function LongDivision(ds: seq<nat>, rem: BigInt, divisor: BigInt): (seq<nat>, BigInt)
    requires Valid(rem) && Valid(divisor) && !divisor.isNegative && Mag(divisor.digits) > 0
    decreases |ds|
  {
    if ds == [] then ([], rem)
    else
      var (rem', q) := SubtractLoop(ShiftIn(rem, ds[0]), divisor);
      var (qs, last) := LongDivision(ds[1..], rem', divisor);
      ([q] + qs, last)
  }

  /** div_rem: Err on the structural zero divisor (the code panics); the
      dividend itself when its magnitude sorts below the divisor's; otherwise
      the long division, with the quotient sign the XOR of the operand signs
      and the remainder taking the dividend's sign through with_sign. */
  function QuotientRemainder(a: BigInt, b: BigInt): Result<(BigInt, BigInt), DivError>
    requires Valid(a) && Valid(b)
    requires b == Zero() || Mag(b.digits) > 0
  {
    if b == Zero() then Err(DivisionByZero)
    else
      var dividend := Abs(a);
      var divisor := Abs(b);
      if Compare(dividend, divisor) == Less then
        Ok((Zero(), WithSign(dividend, a.isNegative)))
      else
        var (qs, rem) := LongDivision(Reverse(dividend.digits), Zero(), divisor);
        Ok((BigInt(TrimZeros(Reverse(qs)), a.isNegative != b.isNegative), WithSign(rem, a.isNegative)))
  }

  /** div: the quotient of div_rem. */
  function Quotient(a: BigInt, b: BigInt): Result<BigInt, DivError>
    requires Valid(a) && Valid(b)
    requires b == Zero() || Mag(b.digits) > 0
  {
    match QuotientRemainder(a, b)
    case Err(e) => Err(e)
    case Ok((q, _)) => Ok(q)
  }

  /** Multiplying by from_u64(BASE) puts one zero limb below the limbs. */
  lemma ProductByBase(rem: BigInt)
    requires Valid(rem)
    ensures Product(rem, OfNat(BASE)) == BigInt([0] + rem.digits, rem.isNegative)
  {
    assert LimbsOf(BASE) == [0, 1] by {
      assert LimbsOf(1) == [1];
    }
    ScaleByZero(rem.digits);
    ScaleByOne(rem.digits);
    var n := |rem.digits|;
    assert Zeros(0) + Zeros(n) == Zeros(n);
    assert Accumulated(rem.digits, [0, 1], 1) == Zeros(n) by {
      assert Zeros(1) == [0];
      AddZerosPrefix(1, Zeros(n));
    }
    assert Row(rem.digits, 1, 1) == [0] + rem.digits by {
      assert Zeros(1) == [0];
    }
    assert Accumulated(rem.digits, [0, 1], 2) == [0] + rem.digits by {
      AddZerosPrefix(n, [0] + rem.digits);
    }
  }

  /** from_u64 of a single limb is that limb. */
  lemma OfNatLimb(d: nat)
    requires d < BASE
    ensures OfNat(d).digits == [d]
  {
    if d > 0 {
      assert LimbsOf(d) == [d % BASE] + LimbsOf(d / BASE);
    }
  }

  lemma AddNothing(ds: seq<nat>)
    requires LimbsOk(ds)
    ensures AddLimbs(ds, [], 0) == ds
  {
    AddLimbsCommutes(ds, [], 0);
    AddZerosPrefix(0, ds);
  }

  lemma AddLimbsHead(a: seq<nat>, b: seq<nat>)
    requires a != []
    ensures AddLimbs(a, b, 0)
         == [(At(a, 0) + At(b, 0)) % BASE] + AddLimbs(Drop(a, 1), Drop(b, 1), (At(a, 0) + At(b, 0)) / BASE)
  {
  }

  /** Adding a limb d to a value whose low limb is 0 puts d there. */
  lemma AddLowLimb(ds: seq<nat>, d: nat)
    requires LimbsOk(ds) && d < BASE
    ensures AddLimbs([0] + ds, [d], 0) == [d] + ds
  {
    var a := [0] + ds;
    AddLimbsHead(a, [d]);
    assert At(a, 0) == 0;
    assert At([d], 0) == d;
    assert Drop(a, 1) == ds;
    assert Drop([d], 1) == [];
    AddNothing(ds);
  }

  /** Shifting a limb into a non-negative remainder prepends it: a zero()
      remainder becomes the two limbs [d, 0]. */
  lemma ShiftInLimbs(rem: BigInt, d: nat)
    requires Valid(rem) && !rem.isNegative && d < BASE
    ensures ShiftIn(rem, d) == BigInt([d] + rem.digits, false)
  {
    OfNatProps(d);
    OfNatLimb(d);
    ProductByBase(rem);
    AddLowLimb(rem.digits, d);
  }

  lemma {:induction false} ScaleByZero(ds: seq<nat>)
    ensures ScaleLimbs(ds, 0, 0) == Zeros(|ds|)
  {
    if ds != [] {
      ScaleByZero(ds[1..]);
      ZerosCons(|ds| - 1);
    }
  }

  lemma {:induction false} ScaleByOne(ds: seq<nat>)
    requires LimbsOk(ds)
    ensures ScaleLimbs(ds, 1, 0) == ds
  {
    if ds != [] {
      ScaleByOne(ds[1..]);
      assert ds == [ds[0]] + ds[1..];
    }
  }

  /** Adding k zero limbs, k no more than the other operand's length, changes nothing. */
  lemma {:induction false} AddZerosPrefix(k: nat, ds: seq<nat>)
    requires LimbsOk(ds) && k <= |ds|
    ensures AddLimbs(Zeros(k), ds, 0) == ds
    decreases |ds|
  {
    if ds != [] {
      if k > 0 {
        ZerosCons(k - 1);
        assert Drop(Zeros(k), 1) == Zeros(k - 1);
        AddZerosPrefix(k - 1, ds[1..]);
      } else {
        AddZerosPrefix(0, ds[1..]);
      }
      assert Drop(ds, 1) == ds[1..];
      assert ds == [ds[0]] + ds[1..];
    }
  }

  /** The body of div_rem's digit loop: shift the limb in, then subtract
      the divisor while cmp does not put the remainder below it. */
  method DivideStep(rem: BigInt, d: nat, divisor: BigInt, base: BigInt) returns (remainder: BigInt, q: nat)
    requires Valid(rem) && Valid(divisor) && !divisor.isNegative && Mag(divisor.digits) > 0
    requires d < BASE && base == OfNat(BASE)
    ensures (remainder, q) == SubtractLoop(ShiftIn(rem, d), divisor)
  {
    OfNatProps(BASE);
    var digit := FromU64(d);
    OfNatProps(d);
    var shifted := Mul(rem, base);
    ProductProps(rem, base);
    var sum := Add(shifted, digit);
    SumValid(shifted, digit);
    remainder, q := SubtractWhile(sum, divisor);
  }

  /** The inner loop of div_rem: subtract the divisor, counting, while cmp
      does not put the remainder below it. */
  method SubtractWhile(start: BigInt, divisor: BigInt) returns (remainder: BigInt, q: nat)
    requires Valid(start) && Valid(divisor) && !divisor.isNegative && Mag(divisor.digits) > 0
    ensures (remainder, q) == SubtractLoop(start, divisor)
  {
    remainder := start;
    q := 0;
    var more := Cmp(remainder, divisor);
    while more != Less
      invariant Valid(remainder) && more == Compare(remainder, divisor)
      invariant SubtractLoop(start, divisor) == (SubtractLoop(remainder, divisor).0, q + SubtractLoop(remainder, divisor).1)
      decreases if Trimmed(remainder.digits) then 0 else 1, Mag(remainder.digits)
    {
      SubtractLoopUnfold(remainder, divisor);
      SubtractStep(remainder, divisor);
      remainder := Sub(remainder, divisor);
      q := q + 1;
      more := Cmp(remainder, divisor);
    }
  }

  lemma LongDivisionStep(ds: seq<nat>, k: nat, rem: BigInt, divisor: BigInt)
    requires k < |ds|
    requires Valid(rem) && Valid(divisor) && !divisor.isNegative && Mag(divisor.digits) > 0
    ensures var next := SubtractLoop(ShiftIn(rem, ds[k]), divisor);
      && LongDivision(ds[k..], rem, divisor).0 == [next.1] + LongDivision(ds[k + 1..], next.0, divisor).0
      && LongDivision(ds[k..], rem, divisor).1 == LongDivision(ds[k + 1..], next.0, divisor).1
  {
    assert ds[k..][1..] == ds[k + 1..];
  }

  /** The digit loop of div_rem, over the dividend's limbs from the top. */
  method DigitLoop(tops: seq<nat>, divisor: BigInt) returns (quotientDigits: seq<nat>, remainder: BigInt)
    requires LimbsOk(tops) && Valid(divisor) && !divisor.isNegative && Mag(divisor.digits) > 0
    ensures (quotientDigits, remainder) == LongDivision(tops, Zero(), divisor)
  {
    quotientDigits := [];
    remainder := Zero();
    var base := FromU64(BASE);
    OfNatProps(BASE);
    ghost var whole := LongDivision(tops, Zero(), divisor);
    assert tops[0..] == tops;
    assert [] + whole.0 == whole.0;
    for k := 0 to |tops|
      invariant Valid(remainder)
      invariant whole.0 == quotientDigits + LongDivision(tops[k..], remainder, divisor).0
      invariant whole.1 == LongDivision(tops[k..], remainder, divisor).1
    {
      LongDivisionStep(tops, k, remainder, divisor);
      var q;
      remainder, q := DivideStep(remainder, tops[k], divisor, base);
      quotientDigits := quotientDigits + [q];
    }
    assert tops[|tops|..] == [];
    assert quotientDigits + [] == quotientDigits;
  }

  method DivRem(a: BigInt, b: BigInt) returns (r: Result<(BigInt, BigInt), DivError>)
    requires Valid(a) && Valid(b)
    requires b == Zero() || Mag(b.digits) > 0
    ensures r == QuotientRemainder(a, b)
  {
    if b == Zero() {
      return Err(DivisionByZero);
    }
    var dividend := Abs(a);
    var divisor := Abs(b);
    var ord := Cmp(dividend, divisor);
    if ord == Less {
      return Ok((Zero(), WithSign(dividend, a.isNegative)));
    }
    var quotientDigits, remainder := DigitLoop(Reverse(dividend.digits), divisor);
    quotientDigits := Reverse(quotientDigits);
    quotientDigits := PopZeroTop(quotientDigits);
    var quotient := BigInt(quotientDigits, a.isNegative != b.isNegative);
    r := Ok((quotient, WithSign(remainder, a.isNegative)));
  }

  method Div(a: BigInt, b: BigInt) returns (r: Result<BigInt, DivError>)
    requires Valid(a) && Valid(b)
    requires b == Zero() || Mag(b.digits) > 0
    ensures r == Quotient(a, b)
  {
    if b == Zero() {
      return Err(DivisionByZero);
    }
    var qr := DivRem(a, b);
    r := Ok(qr.value.0);
  }

  /** div_rem fails exactly on the structural zero divisor; div with it. */
  lemma QuotientRemainderByZero(a: BigInt, b: BigInt)
    requires Valid(a) && Valid(b)
    requires b == Zero() || Mag(b.digits) > 0
    ensures QuotientRemainder(a, b).Err? <==> b == Zero()
    ensures Quotient(a, b).Err? <==> b == Zero()
  {
  }

  /** The remainder is negative only for a negative dividend. */
  lemma RemainderSign(a: BigInt, b: BigInt)
    requires Valid(a) && Valid(b)
    requires b == Zero() || Mag(b.digits) > 0
    requires QuotientRemainder(a, b).Ok?
    ensures QuotientRemainder(a, b).value.1.isNegative ==> a.isNegative
  {
  }

  /** Long division of one limb x, not below the divisor: a single quotient
      limb q with x = q·|b| + r. */
  lemma SingleLimbLongDivision(x: nat, divisor: BigInt)
    requires x < BASE && Canonical(divisor) && !divisor.isNegative && 0 < Mag(divisor.digits) <= x
    ensures var res := LongDivision([x], Zero(), divisor);
      && |res.0| == 1 && res.0[0] < BASE
      && res.0[0] * Mag(divisor.digits) + Mag(res.1.digits) == x
      && Canonical(res.1) && !res.1.isNegative && Mag(res.1.digits) < Mag(divisor.digits)
  {
    var start := BigInt([x, 0], false);
    assert ShiftIn(Zero(), x) == start by {
      ShiftInLimbs(Zero(), x);
    }
    assert Mag(start.digits) == x by {
      assert Mag([0]) == 0 + BASE * Mag([]);
      assert [x, 0][1..] == [0];
    }
    SubtractLoopDivides(start, divisor);
    var res := SubtractLoop(start, divisor);
    LongDivisionOne(x, Zero(), divisor);
    QuotientBelowDividend(x, res.1, Mag(divisor.digits), Mag(res.0.digits));
  }

  lemma LongDivisionOne(x: nat, rem: BigInt, divisor: BigInt)
    requires Valid(rem) && Valid(divisor) && !divisor.isNegative && Mag(divisor.digits) > 0
    ensures var res := SubtractLoop(ShiftIn(rem, x), divisor);
      LongDivision([x], rem, divisor) == ([res.1], res.0)
  {
    var res := SubtractLoop(ShiftIn(rem, x), divisor);
    LongDivisionStep([x], 0, rem, divisor);
    assert [x][0..] == [x];
    assert [x][1..] == [];
    LongDivisionEmpty(res.0, divisor);
    assert [res.1] + [] == [res.1];
  }

  lemma LongDivisionEmpty(rem: BigInt, divisor: BigInt)
    requires Valid(rem) && Valid(divisor) && !divisor.isNegative && Mag(divisor.digits) > 0
    ensures LongDivision([], rem, divisor) == ([], rem)
  {
  }

  /** For a dividend of one limb and a canonical non-zero divisor div_rem is
      truncating division: |a| = q·|b| + r with r < |b|, the quotient's sign
      is the XOR of the signs and the remainder's the dividend's. */
  lemma DivRemSingleLimb(a: BigInt, b: BigInt)
    requires Canonical(a) && |a.digits| == 1 && Canonical(b) && Mag(b.digits) > 0
    ensures QuotientRemainder(a, b).Ok?
    ensures var (q, r) := QuotientRemainder(a, b).value;
      && Canonical(q) && Canonical(r)
      && Mag(q.digits) * Mag(b.digits) + Mag(r.digits) == Mag(a.digits)
      && Mag(r.digits) < Mag(b.digits)
      && (r.isNegative <==> a.isNegative && Mag(r.digits) > 0)
      && (Mag(q.digits) > 0 ==> (q.isNegative <==> a.isNegative != b.isNegative))
  {
    CompareNonNegativeMag(Abs(a), Abs(b));
    if Compare(Abs(a), Abs(b)) != Less {
      DivRemSingleLimbLarge(a, b);
    } else {
      DivRemSingleLimbSmall(a, b);
    }
  }

  /** A one-limb dividend below the divisor: quotient zero, remainder the dividend. */
  lemma DivRemSingleLimbSmall(a: BigInt, b: BigInt)
    requires Canonical(a) && |a.digits| == 1 && Canonical(b) && Mag(b.digits) > 0
    requires Compare(Abs(a), Abs(b)) == Less && Mag(a.digits) < Mag(b.digits)
    ensures QuotientRemainder(a, b).Ok?
    ensures var (q, r) := QuotientRemainder(a, b).value;
      && Canonical(q) && Canonical(r)
      && Mag(q.digits) * Mag(b.digits) + Mag(r.digits) == Mag(a.digits)
      && Mag(r.digits) < Mag(b.digits)
      && (r.isNegative <==> a.isNegative && Mag(r.digits) > 0)
      && (Mag(q.digits) > 0 ==> (q.isNegative <==> a.isNegative != b.isNegative))
  {
    assert WithSign(Abs(a), a.isNegative).digits == a.digits;
  }

  /** The long-division branch of a one-limb dividend: one quotient limb. */
  lemma DivRemSingleLimbLarge(a: BigInt, b: BigInt)
    requires Canonical(a) && |a.digits| == 1 && Canonical(b) && Mag(b.digits) > 0
    requires Mag(b.digits) <= Mag(a.digits) && Compare(Abs(a), Abs(b)) != Less
    ensures QuotientRemainder(a, b).Ok?
    ensures var (q, r) := QuotientRemainder(a, b).value;
      && Canonical(q) && Canonical(r)
      && Mag(q.digits) * Mag(b.digits) + Mag(r.digits) == Mag(a.digits)
      && Mag(r.digits) < Mag(b.digits)
      && (r.isNegative <==> a.isNegative && Mag(r.digits) > 0)
      && (Mag(q.digits) > 0 ==> (q.isNegative <==> a.isNegative != b.isNegative))
  {
    var x := a.digits[0];
    assert Mag(a.digits) == x by {
      assert Mag(a.digits) == x + BASE * Mag([]);
    }
    assert Reverse(Abs(a).digits) == [x];
    SingleLimbLongDivision(x, Abs(b));
    var qs := LongDivision([x], Zero(), Abs(b)).0;
    assert Reverse(qs) == qs;
    assert Mag(qs) == qs[0] + BASE * Mag([]);
  }

  lemma QuotientBelowDividend(x: nat, q: nat, d: nat, r: nat)
    requires d > 0 && x == q * d + r
    ensures q <= x
  {
    MulPositive(d, 1);
    assert q * d >= q by {
      MulAtLeast(q, d);
    }
  }

  /** The first quotient limb of [5, 1] / [7]: [1, 0] wraps to 10^18 - 6,
      which the loop then divides by 7. */
  lemma TwoLimbsFirstStep()
    ensures SubtractLoop(ShiftIn(Zero(), 1), BigInt([7], false)).1 >= BASE
  {
    var d := BigInt([7], false);
    assert Mag(d.digits) == 7 by {
      assert Mag([7]) == 7 + BASE * Mag([]);
    }
    ShiftInLimbs(Zero(), 1);
    var start := BigInt([1, 0], false);
    assert Compare(start, d) == Greater;
    var wrapped := BigInt([BASE - 6, BASE - 1], false);
    assert SubLimbs([1, 0], [7], 0) == [BASE - 6, BASE - 1];
    assert Difference(start, d) == wrapped;
    assert Mag(wrapped.digits) == BASE * BASE - 6 by {
      assert Mag([BASE - 1]) == BASE - 1 + BASE * Mag([]);
      assert [BASE - 6, BASE - 1][1..] == [BASE - 1];
    }
    SubtractLoopUnfold(start, d);
    SubtractLoopDivides(wrapped, d);
    var count := SubtractLoop(wrapped, d).1;
    assert BASE * BASE - 6 == count * 7 + Mag(SubtractLoop(wrapped, d).0.digits);
  }

  /** 10^9 + 5, two limbs. */
  const TwoLimbDividend: BigInt := BigInt([5, 1], false)
  const Seven: BigInt := BigInt([7], false)

  /** A two-limb dividend breaks the long division: [5, 1] (10^9 + 5) by 7
      shifts the top limb into zero() as [1, 0], which cmp puts above [7] by
      limb count; the borrow subtraction wraps to 10^18 - 6, and the first
      quotient limb pushed is about 1.4 * 10^17, not a base-10^9 digit. The
      true quotient fits in one limb. */
  lemma DivRemTwoLimbs()
    ensures QuotientRemainder(TwoLimbDividend, Seven).Ok?
    ensures !Valid(QuotientRemainder(TwoLimbDividend, Seven).value.0)
    ensures Mag(TwoLimbDividend.digits) / 7 < BASE
  {
    TwoLimbsInputs();
    TwoLimbsFirstStep();
    FirstQuotientLimb(Reverse(TwoLimbDividend.digits), Seven);
    QuotientOverflow(TwoLimbDividend, Seven);
  }

  /** The operands of the two-limb example: both valid, 10^9 + 5 and 7,
      compared by limb count. */
  lemma TwoLimbsInputs()
    ensures Valid(TwoLimbDividend) && Valid(Seven) && Seven != Zero()
    ensures Mag(TwoLimbDividend.digits) == BASE + 5 && Mag(Seven.digits) == 7
    ensures Compare(Abs(TwoLimbDividend), Abs(Seven)) == Greater
    ensures Reverse(TwoLimbDividend.digits) == [1, 5]
  {
    assert Mag([5, 1]) == 5 + BASE * 1 by {
      assert Mag([1]) == 1 + BASE * Mag([]);
      assert [5, 1][1..] == [1];
    }
    assert Mag([7]) == 7 + BASE * Mag([]);
    assert Reverse([5, 1]) == [1, 5];
  }

  /** When the long division pushes a top quotient limb that is not below
      the base, div_rem returns a quotient that breaks the limb invariant. */
  lemma QuotientOverflow(a: BigInt, b: BigInt)
    requires Valid(a) && Valid(b) && b != Zero() && Mag(b.digits) > 0
    requires Compare(Abs(a), Abs(b)) != Less
    requires var qs := LongDivision(Reverse(a.digits), Zero(), Abs(b)).0;
      |qs| == 2 && Reverse(qs)[1] >= BASE
    ensures QuotientRemainder(a, b).Ok?
    ensures !Valid(QuotientRemainder(a, b).value.0)
  {
    var top := Reverse(LongDivision(Reverse(a.digits), Zero(), Abs(b)).0);
    assert TrimZeros(top) == top;
  }

  /** The first count of a two-limb long division from zero() is the top
      quotient limb. */
  lemma FirstQuotientLimb(ds: seq<nat>, d: BigInt)
    requires |ds| == 2 && Valid(d) && !d.isNegative && Mag(d.digits) > 0
    ensures var qs := LongDivision(ds, Zero(), d).0;
      |qs| == 2 && Reverse(qs)[1] == SubtractLoop(ShiftIn(Zero(), ds[0]), d).1
  {
    LongDivisionStep(ds, 0, Zero(), d);
    LongDivisionStep(ds, 1, SubtractLoop(ShiftIn(Zero(), ds[0]), d).0, d);
    assert ds[0..] == ds;
    assert ds[2..] == [];
  }
}
