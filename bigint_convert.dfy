/** Conversions between machine integers and BigInt: from_u64 and to_usize
    of 2022/bigint.rs. */
module BigConvert {
  import opened Limbs
  import opened BigNum
  import opened Results

  /** The base-10^9 limbs of n, low limb first, with no limb for 0. */
  function LimbsOf(n: nat): seq<nat>
    decreases n
  {
    if n == 0 then [] else [n % BASE] + LimbsOf(n / BASE)
  }

  /** from_u64: zero() for 0, else the limbs of n, non-negative. */
  function OfNat(n: nat): BigInt {
    if n == 0 then Zero() else BigInt(LimbsOf(n), false)
  }

  lemma {:induction false} LimbsOfProps(n: nat)
    decreases n
    ensures LimbsOk(LimbsOf(n)) && Mag(LimbsOf(n)) == n
    ensures n > 0 ==> |LimbsOf(n)| > 0 && LimbsOf(n)[|LimbsOf(n)| - 1] != 0
  {
    if n > 0 {
      LimbsOfProps(n / BASE);
      var rest := LimbsOf(n / BASE);
      assert ([n % BASE] + rest)[1..] == rest;
      if n / BASE == 0 {
        assert LimbsOf(n) == [n % BASE];
      }
    }
  }

  /** from_u64 yields the canonical non-negative representation of n. */
  lemma OfNatProps(n: nat)
    ensures Canonical(OfNat(n)) && !OfNat(n).isNegative && Val(OfNat(n)) == n
    ensures n == 0 <==> OfNat(n) == Zero()
  {
    LimbsOfProps(n);
  }

  /** from_u64 is injective: different numbers get different representations. */
  lemma OfNatInjective(m: nat, n: nat)
    requires OfNat(m) == OfNat(n)
    ensures m == n
  {
    OfNatProps(m);
    OfNatProps(n);
  }

  method FromU64(n: nat) returns (r: BigInt)
    requires n <= U64_MAX
    ensures r == OfNat(n)
  {
    if n == 0 {
      return Zero();
    }
    var digits: seq<nat> := [];
    var m: nat := n;
    while m > 0
      invariant digits + LimbsOf(m) == LimbsOf(n)
      decreases m
    {
      assert LimbsOf(m) == [m % BASE] + LimbsOf(m / BASE);
      digits := digits + [m % BASE];
      m := m / BASE;
    }
    assert digits + [] == digits;
    r := BigInt(digits, false);
  }

  /** The checked fold of to_usize from the top limb down: each step is a
      checked multiplication by BASE followed by a checked addition in u64. */
  function CheckedFold(ds: seq<nat>): Option<nat> {
    if ds == [] then Some(0)
    else
      match CheckedFold(ds[1..])
      case None => None
      case Some(high) =>
        if high * BASE > U64_MAX then None
        else if high * BASE + ds[0] > U64_MAX then None
        else Some(high * BASE + ds[0])
  }

  /** to_usize: None for a negative value or on overflow, else the fold,
      which is then checked against usize::MAX. */
  function UsizeValue(x: BigInt): Option<nat> {
    if x.isNegative then None
    else
      match CheckedFold(x.digits)
      case None => None
      case Some(v) => if v <= USIZE_MAX then Some(v) else None
  }

  /** The fold overflows exactly when the magnitude exceeds u64::MAX. */
  lemma {:induction false} CheckedFoldMag(ds: seq<nat>)
    ensures CheckedFold(ds) == if Mag(ds) <= U64_MAX then Some(Mag(ds)) else None
  {
    if ds != [] {
      CheckedFoldMag(ds[1..]);
      var high := Mag(ds[1..]);
      if high > U64_MAX {
        MulAtLeast(high, BASE);
        assert Mag(ds) >= high * BASE;
      }
    }
  }

  /** to_usize returns the magnitude exactly when the value is non-negative
      and fits in usize, and None otherwise. */
  lemma UsizeValueProps(x: BigInt)
    ensures UsizeValue(x).Some? <==> !x.isNegative && Mag(x.digits) <= USIZE_MAX
    ensures UsizeValue(x).Some? ==> UsizeValue(x).value == Mag(x.digits)
  {
    CheckedFoldMag(x.digits);
  }

  /** to_usize(from_u64(n)) == Some(n) for every u64 n. */
  lemma ToUsizeOfNat(n: nat)
    requires n <= U64_MAX
    ensures UsizeValue(OfNat(n)) == Some(n)
  {
    OfNatProps(n);
    UsizeValueProps(OfNat(n));
  }

  method ToUsize(x: BigInt) returns (r: Option<nat>)
    ensures r == UsizeValue(x)
  {
    if x.isNegative {
      return None;
    }
    var ds := x.digits;
    var result: nat := 0;
    var i := |ds|;
    while i > 0
      invariant 0 <= i <= |ds|
      invariant CheckedFold(ds[i..]) == Some(result)
    {
      i := i - 1;
      assert ds[i..][1..] == ds[i + 1..];
      if result * BASE > U64_MAX || result * BASE + ds[i] > U64_MAX {
        assert CheckedFold(ds[i..]) == None;
        CheckedFoldNoneUp(ds, i);
        return None;
      }
      result := result * BASE + ds[i];
    }
    assert ds[0..] == ds;
    if result <= USIZE_MAX {
      r := Some(result);
    } else {
      r := None;
    }
  }

  /** An overflow in the high limbs is an overflow of the whole fold. */
  lemma CheckedFoldNoneUp(ds: seq<nat>, i: nat)
    requires i <= |ds| && CheckedFold(ds[i..]) == None
    ensures CheckedFold(ds) == None
  {
    CheckedFoldMag(ds[i..]);
    CheckedFoldMag(ds);
    MagSplit(ds, i);
    MulAtLeast(Mag(ds[i..]), Pow(i));
  }
}
