/** The limb-level spine of the arbitrary-precision integer: a magnitude is a
    little-endian sequence of base-10^9 limbs. `Mag` is the abstraction
    function from a limb sequence to the natural number it denotes. */
module Limbs {

  const BASE: nat := 1_000_000_000

  /** BASE raised to the n-th power. */
  ghost function Pow(n: nat): (r: nat)
    ensures r >= 1
  {
    if n == 0 then 1 else BASE * Pow(n - 1)
  }

  /** The natural number denoted by a little-endian limb sequence. */
  ghost function Mag(ds: seq<nat>): nat {
    if ds == [] then 0 else ds[0] + BASE * Mag(ds[1..])
  }

  /** Every limb is a base-10^9 digit. */
  predicate LimbsOk(ds: seq<nat>) {
    forall i | 0 <= i < |ds| :: ds[i] < BASE
  }

  /** Non-empty, and no zero top limb unless the sequence is the single limb. */
  predicate Trimmed(ds: seq<nat>) {
    |ds| == 1 || (|ds| > 1 && ds[|ds| - 1] != 0)
  }

  /** Limb i, or 0 past the end (`Vec::get(i).unwrap_or(0)`). */
  function At(ds: seq<nat>, i: nat): nat {
    if i < |ds| then ds[i] else 0
  }

  /** The limbs from position i on, or nothing past the end. */
  function Drop(ds: seq<nat>, i: nat): seq<nat> {
    if i < |ds| then ds[i..] else []
  }

  function Zeros(n: nat): (r: seq<nat>)
    ensures |r| == n && forall i | 0 <= i < n :: r[i] == 0
  {
    if n == 0 then [] else Zeros(n - 1) + [0]
  }

  /** Pops zero top limbs while more than one limb is left. */
  function TrimZeros(ds: seq<nat>): seq<nat> {
    if |ds| > 1 && ds[|ds| - 1] == 0 then TrimZeros(ds[..|ds| - 1]) else ds
  }

  function Reverse<T>(s: seq<T>): (r: seq<T>)
    ensures |r| == |s|
    ensures forall i | 0 <= i < |s| :: r[i] == s[|s| - 1 - i]
  {
    if s == [] then [] else Reverse(s[1..]) + [s[0]]
  }

  lemma {:induction false} PowMonotone(m: nat, n: nat)
    requires m <= n
    ensures Pow(m) <= Pow(n)
  {
    if m < n {
      PowMonotone(m, n - 1);
    }
  }

  lemma {:induction false} PowAdd(m: nat, n: nat)
    ensures Pow(m + n) == Pow(m) * Pow(n)
  {
    if m > 0 {
      PowAdd(m - 1, n);
      calc {
        Pow(m + n);
        BASE * Pow(m - 1 + n);
        BASE * (Pow(m - 1) * Pow(n));
        (BASE * Pow(m - 1)) * Pow(n);
      }
    }
  }

  /** Appending a limb on top adds it at weight BASE^|ds|. */
  lemma {:induction false} MagSnoc(ds: seq<nat>, d: nat)
    ensures Mag(ds + [d]) == Mag(ds) + Pow(|ds|) * d
  {
    if ds != [] {
      assert (ds + [d])[1..] == ds[1..] + [d];
      MagSnoc(ds[1..], d);
      calc {
        Mag(ds + [d]);
        ds[0] + BASE * Mag(ds[1..] + [d]);
        ds[0] + BASE * (Mag(ds[1..]) + Pow(|ds| - 1) * d);
        ds[0] + BASE * Mag(ds[1..]) + (BASE * Pow(|ds| - 1)) * d;
      }
    }
  }

  lemma {:induction false} MagAppend(a: seq<nat>, b: seq<nat>)
    ensures Mag(a + b) == Mag(a) + Pow(|a|) * Mag(b)
  {
    if a == [] {
      assert a + b == b;
    } else {
      assert (a + b)[1..] == a[1..] + b;
      MagAppend(a[1..], b);
      calc {
        Mag(a + b);
        a[0] + BASE * Mag(a[1..] + b);
        a[0] + BASE * (Mag(a[1..]) + Pow(|a| - 1) * Mag(b));
        a[0] + BASE * Mag(a[1..]) + BASE * (Pow(|a| - 1) * Mag(b));
        { assert BASE * (Pow(|a| - 1) * Mag(b)) == (BASE * Pow(|a| - 1)) * Mag(b); }
        a[0] + BASE * Mag(a[1..]) + (BASE * Pow(|a| - 1)) * Mag(b);
        Mag(a) + Pow(|a|) * Mag(b);
      }
    }
  }

  lemma {:induction false} MagBound(ds: seq<nat>)
    requires LimbsOk(ds)
    ensures Mag(ds) < Pow(|ds|)
  {
    if ds != [] {
      MagBound(ds[1..]);
    }
  }

  lemma {:induction false} MagZeros(n: nat)
    ensures Mag(Zeros(n)) == 0
  {
    if n > 0 {
      MagZeros(n - 1);
      MagSnoc(Zeros(n - 1), 0);
    }
  }

  /** Every limb is zero. */
  predicate AllZero(ds: seq<nat>) {
    forall i | 0 <= i < |ds| :: ds[i] == 0
  }

  /** A limb sequence denotes zero exactly when all its limbs are zero. */
  lemma {:induction false} AllZeroMag(ds: seq<nat>)
    ensures AllZero(ds) <==> Mag(ds) == 0
  {
    if ds != [] {
      AllZeroMag(ds[1..]);
      assert AllZero(ds) <==> ds[0] == 0 && AllZero(ds[1..]) by {
        assert forall i | 1 <= i < |ds| :: ds[i] == ds[1..][i - 1];
      }
    }
  }

  lemma MagDropTopZero(ds: seq<nat>)
    requires |ds| > 0 && ds[|ds| - 1] == 0
    ensures Mag(ds) == Mag(ds[..|ds| - 1])
  {
    assert ds == ds[..|ds| - 1] + [0];
    MagSnoc(ds[..|ds| - 1], 0);
  }

  /** A limb sequence whose top limb is non-zero is at least BASE^(n-1). */
  lemma MagTopNonZero(ds: seq<nat>)
    requires |ds| > 0 && ds[|ds| - 1] != 0
    ensures Mag(ds) >= Pow(|ds| - 1)
  {
    var n := |ds|;
    assert ds == ds[..n - 1] + [ds[n - 1]];
    MagSnoc(ds[..n - 1], ds[n - 1]);
    var low, p, top := Mag(ds[..n - 1]), Pow(n - 1), ds[n - 1];
    TopWeight(low, p, top);
  }

  lemma TopWeight(low: nat, p: nat, top: nat)
    requires top >= 1
    ensures low + p * top >= p
  {
    assert p * top == p + p * (top - 1);
  }

  /** A trimmed sequence of more than one limb is at least BASE^(n-1). */
  lemma MagTrimmedLower(ds: seq<nat>)
    requires Trimmed(ds)
    ensures |ds| > 1 ==> Mag(ds) >= Pow(|ds| - 1)
  {
    if |ds| > 1 {
      MagTopNonZero(ds);
    }
  }

  /** A trimmed sequence denoting a value below the base is that one limb. */
  lemma SingleLimbOf(ds: seq<nat>, v: nat)
    requires Trimmed(ds) && Mag(ds) == v && v < BASE
    ensures ds == [v]
  {
    MagTrimmedLower(ds);
    assert Pow(1) == BASE * Pow(0);
    assert |ds| == 1;
    assert Mag(ds) == ds[0] + BASE * Mag(ds[1..]);
  }

  lemma {:induction false} TrimZerosProps(ds: seq<nat>)
    requires |ds| > 0
    ensures var t := TrimZeros(ds);
      && Trimmed(t) && Mag(t) == Mag(ds) && |t| <= |ds| && t == ds[..|t|]
      && (LimbsOk(ds) ==> LimbsOk(t))
  {
    if |ds| > 1 && ds[|ds| - 1] == 0 {
      MagDropTopZero(ds);
      TrimZerosProps(ds[..|ds| - 1]);
    }
  }

  lemma TrimZerosOfTrimmed(ds: seq<nat>)
    requires Trimmed(ds)
    ensures TrimZeros(ds) == ds
  {
  }

  /** Splitting a magnitude at limb n. */
  lemma MagSplit(ds: seq<nat>, n: nat)
    requires n <= |ds|
    ensures Mag(ds) == Mag(ds[..n]) + Pow(n) * Mag(ds[n..])
  {
    assert ds == ds[..n] + ds[n..];
    MagAppend(ds[..n], ds[n..]);
  }

  /** Two limb sequences of the same length and value are the same sequence. */
  lemma {:induction false} MagInjective(a: seq<nat>, b: seq<nat>)
    requires LimbsOk(a) && LimbsOk(b) && |a| == |b| && Mag(a) == Mag(b)
    ensures a == b
  {
    if a != [] {
      assert a[0] + BASE * Mag(a[1..]) == b[0] + BASE * Mag(b[1..]);
      assert a[0] == b[0];
      MagInjective(a[1..], b[1..]);
      assert a == [a[0]] + a[1..];
      assert b == [b[0]] + b[1..];
    }
  }

  /** A value has exactly one trimmed representation. */
  lemma TrimmedUnique(a: seq<nat>, b: seq<nat>)
    requires LimbsOk(a) && LimbsOk(b) && Trimmed(a) && Trimmed(b) && Mag(a) == Mag(b)
    ensures a == b
  {
    MagBound(a);
    MagBound(b);
    MagTrimmedLower(a);
    MagTrimmedLower(b);
    if |a| < |b| {
      PowMonotone(|a|, |b| - 1);
    } else if |b| < |a| {
      PowMonotone(|b|, |a| - 1);
    }
    MagInjective(a, b);
  }
}
