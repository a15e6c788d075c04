/** Schoolbook multiplication (mul of 2022/bigint.rs): one shifted row per
    limb of the argument, each added into the running result with add. */
module BigMul {
  import opened Limbs
  import opened BigNum

  /** The receiver's limbs times one limb m, with a carry, low limb first;
      a remaining carry becomes one more top limb. */
  function ScaleLimbs(ds: seq<nat>, m: nat, carry: nat): seq<nat>
    decreases |ds|
  {
    if ds == [] then (if carry > 0 then [carry] else [])
    else
      var p := ds[0] * m + carry;
      [p % BASE] + ScaleLimbs(ds[1..], m, p / BASE)
  }

  /** Row i of the schoolbook product: i zero limbs, then the scaled receiver. */
  function Row(a: seq<nat>, m: nat, i: nat): seq<nat> {
    Zeros(i) + ScaleLimbs(a, m, 0)
  }

  /** The running result after the rows of the first n limbs of b, starting
      from zero() and adding each row with add on two non-negative values. */
  function Accumulated(a: seq<nat>, b: seq<nat>, n: nat): seq<nat>
    requires n <= |b|
  {
    if n == 0 then [0]
    else AddLimbs(Accumulated(a, b, n - 1), Row(a, b[n - 1], n - 1), 0)
  }

  /** mul: the accumulated rows, with the sign set to the XOR of the operand signs. */
  function Product(a: BigInt, b: BigInt): BigInt {
    BigInt(Accumulated(a.digits, b.digits, |b.digits|), a.isNegative != b.isNegative)
  }

  lemma {:induction false} ScaleLimbsProps(ds: seq<nat>, m: nat, carry: nat)
    requires LimbsOk(ds) && m < BASE && carry < BASE
    decreases |ds|
    ensures LimbsOk(ScaleLimbs(ds, m, carry)) && |ScaleLimbs(ds, m, carry)| >= |ds|
    ensures Mag(ScaleLimbs(ds, m, carry)) == Mag(ds) * m + carry
  {
    if ds == [] {
      if carry > 0 {
        assert Mag([carry]) == carry + BASE * Mag([]);
      }
    } else {
      var p := ds[0] * m + carry;
      CarryBound(ds[0], m, carry);
      ScaleLimbsProps(ds[1..], m, p / BASE);
      var rest := ScaleLimbs(ds[1..], m, p / BASE);
      assert ScaleLimbs(ds, m, carry) == [p % BASE] + rest;
      assert ([p % BASE] + rest)[1..] == rest;
      assert Mag([p % BASE] + rest) == p % BASE + BASE * Mag(rest);
      ScaleArith(ds[0], Mag(ds[1..]), m, carry);
    }
  }

  /** The carry out of one limb product stays a limb. */
  lemma CarryBound(d: nat, m: nat, carry: nat)
    requires d < BASE && m < BASE && carry < BASE
    ensures (d * m + carry) / BASE < BASE
  {
    MulMono(d, m, BASE - 1);
  }

  /** One step of the scaling identity, on plain integers. */
  lemma ScaleArith(d: nat, rest: nat, m: nat, carry: nat)
    ensures (d * m + carry) % BASE + BASE * (rest * m + (d * m + carry) / BASE)
            == (d + BASE * rest) * m + carry
  {
    var p := d * m + carry;
    assert p % BASE + BASE * (p / BASE) == p;
    assert BASE * (rest * m + p / BASE) == BASE * rest * m + BASE * (p / BASE);
    assert (d + BASE * rest) * m == d * m + BASE * rest * m;
  }

  lemma MulMono(x: nat, y: nat, k: nat)
    requires x <= k && y <= k
    ensures x * y <= k * k
  {
    assert x * y <= x * k;
    assert x * k <= k * k;
  }

  lemma RowProps(a: seq<nat>, m: nat, i: nat)
    requires LimbsOk(a) && m < BASE
    ensures LimbsOk(Row(a, m, i)) && Mag(Row(a, m, i)) == Pow(i) * (Mag(a) * m)
  {
    ScaleLimbsProps(a, m, 0);
    MagAppend(Zeros(i), ScaleLimbs(a, m, 0));
    MagZeros(i);
  }

  /** The running result is the receiver times the low n limbs of b. */
  lemma {:induction false} AccumulatedProps(a: seq<nat>, b: seq<nat>, n: nat)
    requires LimbsOk(a) && LimbsOk(b) && n <= |b|
    ensures |Accumulated(a, b, n)| > 0 && LimbsOk(Accumulated(a, b, n))
    ensures Mag(Accumulated(a, b, n)) == Mag(a) * Mag(b[..n])
  {
    if n == 0 {
      assert Mag([0]) == 0 + BASE * Mag([]);
    } else {
      var prev := Accumulated(a, b, n - 1);
      var row := Row(a, b[n - 1], n - 1);
      AccumulatedProps(a, b, n - 1);
      RowProps(a, b[n - 1], n - 1);
      AddLimbsProps(prev, row, 0);
      PrefixSnoc(b, n);
      AccumulateArith(Mag(a), Mag(b[..n - 1]), Mag(b[..n]), Pow(n - 1), b[n - 1], Mag(prev), Mag(row));
    }
  }

  /** The value identity of one accumulation step. */
  lemma AccumulateArith(x: nat, low: nat, next: nat, p: nat, d: nat, prev: nat, row: nat)
    requires prev == x * low && row == p * (x * d) && next == low + p * d
    ensures prev + row == x * next
  {
    Distribute(x, low, p, d);
  }

  lemma PrefixSnoc(b: seq<nat>, n: nat)
    requires 0 < n <= |b|
    ensures Mag(b[..n]) == Mag(b[..n - 1]) + Pow(n - 1) * b[n - 1]
  {
    assert b[..n] == b[..n - 1] + [b[n - 1]];
    MagSnoc(b[..n - 1], b[n - 1]);
  }

  lemma Distribute(x: nat, low: nat, p: nat, d: nat)
    ensures x * low + p * (x * d) == x * (low + p * d)
  {
  }

  /** mul computes the product of the magnitudes in valid limbs, and its sign
      is the XOR of the signs whatever the magnitude, zero included. */
  lemma ProductProps(a: BigInt, b: BigInt)
    requires Valid(a) && Valid(b)
    ensures Valid(Product(a, b))
    ensures Mag(Product(a, b).digits) == Mag(a.digits) * Mag(b.digits)
    ensures Product(a, b).isNegative <==> a.isNegative != b.isNegative
  {
    AccumulatedProps(a.digits, b.digits, |b.digits|);
    assert b.digits[..|b.digits|] == b.digits;
  }

  /** mul is integer multiplication on every valid pair; a zero product may
      carry a minus sign or an extra zero limb, but its value is still 0. */
  lemma ProductValue(a: BigInt, b: BigInt)
    requires Valid(a) && Valid(b)
    ensures Val(Product(a, b)) == Val(a) * Val(b)
  {
    ProductProps(a, b);
    var x, y := Mag(a.digits), Mag(b.digits);
    SignedProduct(x, y, a.isNegative, b.isNegative);
  }

  /** The sign rule of multiplication on magnitudes. */
  lemma SignedProduct(x: int, y: int, na: bool, nb: bool)
    ensures (if na != nb then -(x * y) else x * y)
         == (if na then -x else x) * (if nb then -y else y)
  {
  }

  /** Zero times a non-negative two-limb value keeps a zero top limb, and a
      negative operand times zero gives a negative zero. */
  lemma ProductZeroUntrimmed()
    ensures Product(Zero(), BigInt([0, 1], false)) == BigInt([0, 0], false)
    ensures Product(BigInt([5], true), Zero()) == BigInt([0], true)
  {
    assert ScaleLimbs([0], 0, 0) == [0];
    assert ScaleLimbs([0], 1, 0) == [0];
    assert Row([0], 1, 1) == [0, 0];
    assert AddLimbs([0], [0], 0) == [0];
    assert AddLimbs([0], [0, 0], 0) == [0, 0];
    assert Accumulated([0], [0, 1], 1) == [0];
    assert Accumulated([0], [0, 1], 2) == [0, 0];
    assert ScaleLimbs([5], 0, 0) == [0];
    assert Accumulated([5], [0], 1) == [0];
  }

  /** The inner loop of mul: i zero limbs, then each receiver limb times
      `digit` plus the carry, and a final carry limb if any. */
  method ScaledRow(a: seq<nat>, digit: nat, i: nat) returns (temp: seq<nat>)
    requires LimbsOk(a) && digit < BASE
    ensures temp == Row(a, digit, i)
  {
    temp := Zeros(i);
    var carry: nat := 0;
    for j := 0 to |a|
      invariant carry < BASE
      invariant temp + ScaleLimbs(a[j..], digit, carry) == Row(a, digit, i)
    {
      var d := a[j];
      var product := d * digit + carry;
      assert product < BASE * BASE by {
        MulMono(d, digit, BASE - 1);
      }
      assert a[j..][1..] == a[j + 1..];
      temp := temp + [product % BASE];
      carry := product / BASE;
    }
    assert a[|a|..] == [];
    if carry > 0 {
      temp := temp + [carry];
    }
  }

  method Mul(a: BigInt, b: BigInt) returns (r: BigInt)
    requires Valid(a) && Valid(b)
    ensures r == Product(a, b)
  {
    var result := Zero();
    for i := 0 to |b.digits|
      invariant result == BigInt(Accumulated(a.digits, b.digits, i), false)
      invariant Valid(result)
    {
      var digit := b.digits[i];
      var temp := ScaledRow(a.digits, digit, i);
      RowProps(a.digits, digit, i);
      ScaleLimbsProps(a.digits, digit, 0);
      AccumulatedProps(a.digits, b.digits, i + 1);
      result := Add(result, BigInt(temp, false));
    }
    result := result.(isNegative := a.isNegative != b.isNegative);
    r := result;
  }
}
