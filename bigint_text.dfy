/** Decimal text and BigInt: from_str and Display::fmt of 2022/bigint.rs,
    and the right-aligned chunking that from_str evidently intends. */
module BigText {
  import opened Limbs
  import opened BigNum
  import opened Results
  import opened TextNum

  const BASE_DIGITS: nat := 9
  const U32_MAX: int := 0xFFFF_FFFF

  datatype ParseError = EmptyString | InvalidDigit(chunk: string)

  /** `chunk.parse::<u32>()` for the text of one limb. */
  function ParseLimb(chunk: string): Option<int> {
    ParseInt(chunk, 0, U32_MAX)
  }

  /** An error, or the given limbs in front of the ones parsed so far. */
  function Prefixed(ds: seq<nat>, r: Result<seq<nat>, ParseError>): Result<seq<nat>, ParseError> {
    match r
    case Err(e) => Err(e)
    case Ok(t) => Ok(ds + t)
  }

  lemma PrefixedNothing(r: Result<seq<nat>, ParseError>)
    ensures Prefixed([], r) == r
  {
    if r.Ok? {
      assert [] + r.value == r.value;
    }
  }

  lemma PrefixedTwice(a: seq<nat>, b: seq<nat>, r: Result<seq<nat>, ParseError>)
    ensures Prefixed(a, Prefixed(b, r)) == Prefixed(a + b, r)
  {
    if r.Ok? {
      assert a + (b + r.value) == (a + b) + r.value;
    }
  }

  /** The limbs from_str pushes: chunks of nine bytes cut from the left, the
      last one shorter, each parsed as a u32, in text order. */
  function LeftChunks(s: string): Result<seq<nat>, ParseError>
    decreases |s|
  {
    if s == [] then Ok([])
    else
      var k := if |s| < BASE_DIGITS then |s| else BASE_DIGITS;
      match ParseLimb(s[..k])
      case None => Err(InvalidDigit(s[..k]))
      case Some(v) => Prefixed([v as nat], LeftChunks(s[k..]))
  }

  /** from_str: one leading `-` sets the sign; an empty remainder is an
      error; the pushed chunks are reversed and zero top limbs are popped
      down to one. */
  function Parse(s: string): Result<BigInt, ParseError> {
    var negative := |s| > 0 && s[0] == '-';
    var body := if negative then s[1..] else s;
    if body == [] then Err(EmptyString)
    else
      match LeftChunks(body)
      case Err(e) => Err(e)
      case Ok(chunks) =>
        var ds := TrimZeros(Reverse(chunks));
        Ok(BigInt(if ds == [] then [0] else ds, negative))
  }

  method FromStr(s: string) returns (r: Result<BigInt, ParseError>)
    ensures r == Parse(s)
  {
    var body := s;
    var negative := false;
    if |s| > 0 && s[0] == '-' {
      body := s[1..];
      negative := true;
    }
    if body == [] {
      return Err(EmptyString);
    }
    var pushed := PushChunks(body);
    if pushed.Err? {
      return Err(pushed.error);
    }
    var digits := PopZeroTop(Reverse(pushed.value));
    if digits == [] {
      digits := [0];
    }
    r := Ok(BigInt(digits, negative));
  }

  /** The chunks of a suffix of the text: the next chunk, then the rest. */
  lemma LeftChunksAt(body: string, start: nat, end: nat)
    requires start < |body| && end == (if start + BASE_DIGITS < |body| then start + BASE_DIGITS else |body|)
    ensures LeftChunks(body[start..]) ==
      match ParseLimb(body[start..end])
      case None => Err(InvalidDigit(body[start..end]))
      case Some(v) => Prefixed([v as nat], LeftChunks(body[end..]))
  {
    assert body[start..][..end - start] == body[start..end];
    assert body[start..][end - start..] == body[end..];
  }

  /** The chunk loop of from_str: parse nine bytes at a time from the left
      and push each value; the first chunk that is not a u32 is the error. */
  method PushChunks(body: string) returns (r: Result<seq<nat>, ParseError>)
    ensures r == LeftChunks(body)
  {
    var digits: seq<nat> := [];
    var start := 0;
    var len := |body|;
    PrefixedNothing(LeftChunks(body));
    while start < len
      invariant 0 <= start <= len
      invariant LeftChunks(body) == Prefixed(digits, LeftChunks(body[start..]))
      decreases len - start
    {
      var end := if start + BASE_DIGITS < len then start + BASE_DIGITS else len;
      var chunk := body[start..end];
      LeftChunksAt(body, start, end);
      var parsed := ParseLimb(chunk);
      if parsed.None? {
        return Err(InvalidDigit(chunk));
      }
      PrefixedTwice(digits, [parsed.value as nat], LeftChunks(body[end..]));
      digits := digits + [parsed.value as nat];
      start := end;
    }
    assert body[len..] == [];
    assert digits + [] == digits;
    r := Ok(digits);
  }

  /** The lower limbs, top down, each zero-padded to nine digits. */
  function PaddedLimbs(ds: seq<nat>): string {
    if ds == [] then [] else Padded(ds[|ds| - 1], BASE_DIGITS) + PaddedLimbs(ds[..|ds| - 1])
  }

  /** The digits Display::fmt writes after the sign: the top limb as is,
      then the lower limbs zero-padded. */
  function Digits(ds: seq<nat>): string
    requires |ds| > 0
  {
    Decimal(ds[|ds| - 1]) + PaddedLimbs(ds[..|ds| - 1])
  }

  /** Display::fmt: `-` for a negative value, then the digits. */
  function Text(x: BigInt): string
    requires |x.digits| > 0
  {
    (if x.isNegative then "-" else "") + Digits(x.digits)
  }

  method Fmt(x: BigInt) returns (out: string)
    requires |x.digits| > 0
    ensures out == Text(x)
  {
    out := [];
    if x.isNegative {
      out := out + "-";
    }
    var n := |x.digits|;
    out := out + Decimal(x.digits[n - 1]);
    var i := n - 1;
    while i > 0
      invariant 0 <= i <= n - 1
      invariant out + PaddedLimbs(x.digits[..i]) == Text(x)
    {
      assert x.digits[..i][..i - 1] == x.digits[..i - 1];
      i := i - 1;
      out := out + Padded(x.digits[i], BASE_DIGITS);
    }
  }

  // ---------------------------------------------------------------------
  // Lemmas about from_str

  lemma BaseDigits()
    ensures Pow10(BASE_DIGITS) == BASE
  {
  }

  /** A chunk of at most nine bytes that parses denotes a value below BASE. */
  lemma ChunkBound(c: string)
    requires |c| <= BASE_DIGITS && ParseLimb(c).Some?
    ensures 0 <= ParseLimb(c).value < BASE
  {
    var body := if c[0] == '+' then c[1..] else c;
    DigitsValueBound(body);
    Pow10Monotone(|body|, BASE_DIGITS);
    BaseDigits();
  }

  /** A non-empty chunk of at most nine digits always parses, to its value. */
  lemma ChunkParses(c: string)
    requires c != [] && |c| <= BASE_DIGITS && AllDigits(c)
    ensures ParseLimb(c) == Some(DigitsValue(c) as int)
  {
    DigitsValueBound(c);
    Pow10Monotone(|c|, BASE_DIGITS);
    BaseDigits();
    ParseIntDigits(c, 0, U32_MAX);
  }

  /** The pushed limbs are base-10^9 digits, and the chunker never reports an
      empty string. */
  lemma {:induction false} LeftChunksProps(s: string)
    decreases |s|
    ensures LeftChunks(s).Ok? ==> LimbsOk(LeftChunks(s).value)
    ensures LeftChunks(s).Ok? && s != [] ==> |LeftChunks(s).value| > 0
    ensures LeftChunks(s) != Err(EmptyString)
  {
    if s != [] {
      var k := if |s| < BASE_DIGITS then |s| else BASE_DIGITS;
      LeftChunksProps(s[k..]);
      if ParseLimb(s[..k]).Some? {
        ChunkBound(s[..k]);
      }
    }
  }

  /** from_str reports an empty string exactly for "" and "-". */
  lemma ParseEmpty(s: string)
    ensures Parse(s) == Err(EmptyString) <==> s == "" || s == "-"
  {
    var negative := |s| > 0 && s[0] == '-';
    var body := if negative then s[1..] else s;
    LeftChunksProps(body);
    if s == "-" {
      assert body == [];
    }
  }

  /** Whatever from_str accepts is canonical, negative exactly when the text
      starts with `-` (so "-0" is a negative zero). */
  lemma ParseCanonical(s: string)
    requires Parse(s).Ok?
    ensures Canonical(Parse(s).value)
    ensures Parse(s).value.isNegative <==> |s| > 0 && s[0] == '-'
  {
    var negative := |s| > 0 && s[0] == '-';
    var body := if negative then s[1..] else s;
    LeftChunksProps(body);
    var chunks := LeftChunks(body).value;
    assert LimbsOk(Reverse(chunks));
    TrimZerosProps(Reverse(chunks));
  }

  lemma NegativeZero()
    ensures Parse("-0") == Ok(BigInt([0], true))
  {
    LeftChunksZero();
    assert "-0"[1..] == "0";
    var limb: seq<nat> := [0];
    assert Reverse(limb) == limb;
    assert TrimZeros(limb) == limb;
  }

  lemma LeftChunksZero()
    ensures LeftChunks("0") == Ok([0])
  {
    var zero := "0";
    assert zero[..0] == [];
    assert DigitsValue(zero) == 0;
    ChunkParses(zero);
    assert zero[..1] == zero;
    assert zero[1..] == [];
    assert ParseLimb(zero[..1]) == Some(0);
    var none: seq<nat> := [];
    var limb: seq<nat> := [0];
    assert LeftChunks(zero[1..]) == Ok(none);
    assert limb + none == limb;
  }

  /** A non-empty run of digits is always accepted. */
  lemma {:induction false} LeftChunksOfDigits(s: string)
    requires AllDigits(s)
    decreases |s|
    ensures LeftChunks(s).Ok?
  {
    if s != [] {
      var k := if |s| < BASE_DIGITS then |s| else BASE_DIGITS;
      ChunkParses(s[..k]);
      LeftChunksOfDigits(s[k..]);
    }
  }

  lemma {:induction false} LeftChunksWhole(s: string)
    requires AllDigits(s) && |s| % BASE_DIGITS == 0
    decreases |s|
    ensures LeftChunks(s).Ok? && |LeftChunks(s).value| * BASE_DIGITS == |s|
    ensures Mag(Reverse(LeftChunks(s).value)) == DigitsValue(s)
  {
    if s != [] {
      var head := s[..BASE_DIGITS];
      var tail := s[BASE_DIGITS..];
      LeftChunksCons(s);
      LeftChunksWhole(tail);
      var rest := LeftChunks(tail).value;
      var v := DigitsValue(head);
      assert LeftChunks(s).value == [v] + rest;
      ReverseConsMag(v, rest);
      PowDigits(|rest|);
      HeadTailValue(s);
      assert BASE_DIGITS * |rest| == |tail|;
      Rearrange(Mag(Reverse(rest)), Pow(|rest|), v, DigitsValue(tail), Pow10(|tail|));
    }
  }

  lemma ReverseConsMag(v: nat, rest: seq<nat>)
    ensures Mag(Reverse([v] + rest)) == Mag(Reverse(rest)) + Pow(|rest|) * v
  {
    assert ([v] + rest)[1..] == rest;
    assert Reverse([v] + rest) == Reverse(rest) + [v];
    MagSnoc(Reverse(rest), v);
  }

  lemma HeadTailValue(s: string)
    requires AllDigits(s) && |s| >= BASE_DIGITS
    ensures DigitsValue(s) == DigitsValue(s[..BASE_DIGITS]) * Pow10(|s| - BASE_DIGITS) + DigitsValue(s[BASE_DIGITS..])
  {
    assert s == s[..BASE_DIGITS] + s[BASE_DIGITS..];
    DigitsValueAppend(s[..BASE_DIGITS], s[BASE_DIGITS..]);
  }

  /** The first chunk of a text of at least nine digits is its first nine digits. */
  lemma LeftChunksCons(s: string)
    requires AllDigits(s) && |s| >= BASE_DIGITS
    ensures LeftChunks(s) == Prefixed([DigitsValue(s[..BASE_DIGITS])], LeftChunks(s[BASE_DIGITS..]))
  {
    ChunkParses(s[..BASE_DIGITS]);
  }

  lemma Rearrange(m: nat, p: nat, v: nat, t: nat, q: nat)
    requires m == t && p == q
    ensures m + p * v == v * q + t
  {
  }

  /** One limb is nine decimal digits. */
  lemma {:induction false} PowDigits(n: nat)
    ensures Pow(n) == Pow10(BASE_DIGITS * n)
  {
    if n > 0 {
      PowDigits(n - 1);
      Pow10Add(BASE_DIGITS, BASE_DIGITS * (n - 1));
      BaseDigits();
    }
  }

  /** Left chunking reads a run of digits correctly when it is one chunk or
      a whole number of chunks. */
  lemma LeftChunksValue(s: string)
    requires AllDigits(s) && (|s| <= BASE_DIGITS || |s| % BASE_DIGITS == 0)
    ensures LeftChunks(s).Ok? && Mag(Reverse(LeftChunks(s).value)) == DigitsValue(s)
  {
    if |s| % BASE_DIGITS == 0 {
      LeftChunksWhole(s);
    } else {
      ChunkParses(s);
      assert s[..|s|] == s;
      assert s[|s|..] == [];
      assert LeftChunks(s).value == [DigitsValue(s)];
      assert Mag([DigitsValue(s)]) == DigitsValue(s) + BASE * Mag([]);
    }
  }

  /** On such runs from_str is exact: an optional `-` and the digits give
      the number they denote, trimmed. */
  lemma ParseValue(s: string)
    requires var body := if |s| > 0 && s[0] == '-' then s[1..] else s;
      body != [] && AllDigits(body) && (|body| <= BASE_DIGITS || |body| % BASE_DIGITS == 0)
    ensures Parse(s).Ok?
    ensures var body := if |s| > 0 && s[0] == '-' then s[1..] else s;
      Mag(Parse(s).value.digits) == DigitsValue(body)
  {
    var body := if |s| > 0 && s[0] == '-' then s[1..] else s;
    LeftChunksValue(body);
    LeftChunksProps(body);
    TrimZerosProps(Reverse(LeftChunks(body).value));
  }

  lemma TenDigitsValue()
    ensures DigitsValue("1000000000"[..9]) == 100000000
    ensures DigitsValue("1000000000") == BASE
  {
    var s := "1000000000";
    var one := "1";
    assert one[..0] == [];
    DigitsValueZeroes(8);
    DigitsValueZeroes(9);
    assert s[..9] == one + Zeroes(8);
    assert s == one + Zeroes(9);
    DigitsValueAppend(one, Zeroes(8));
    DigitsValueAppend(one, Zeroes(9));
  }

  lemma TenDigitsChunks()
    ensures LeftChunks("1000000000") == Ok([100000000, 0])
  {
    var s := "1000000000";
    var zero := "0";
    assert zero[..0] == [];
    TenDigitsValue();
    LeftChunksCons(s);
    assert s[9..] == zero;
    ChunkParses(zero);
    LeftChunksZero();
    var high: seq<nat> := [100000000];
    var low: seq<nat> := [0];
    assert LeftChunks(s) == Ok(high + low);
    assert high + low == [100000000, 0];
  }

  /** Ten digits are cut as nine and one, so "1000000000" reads as 10^17. */
  lemma TenDigits()
    ensures Parse("1000000000") == Ok(BigInt([0, 100000000], false))
    ensures Mag([0, 100000000]) != DigitsValue("1000000000")
  {
    TenDigitsValue();
    TenDigitsChunks();
    var high: seq<nat> := [100000000];
    var low: seq<nat> := [0];
    assert Reverse(high + low) == [0, 100000000];
    assert TrimZeros([0, 100000000]) == [0, 100000000];
    assert Mag([0, 100000000]) == 0 + BASE * (100000000 + BASE * Mag([]));
  }

  // ---------------------------------------------------------------------
  // Lemmas about Display::fmt

  lemma {:induction false} PaddedLimbsProps(ds: seq<nat>)
    requires LimbsOk(ds)
    ensures |PaddedLimbs(ds)| == BASE_DIGITS * |ds| && AllDigits(PaddedLimbs(ds))
    ensures DigitsValue(PaddedLimbs(ds)) == Mag(ds)
  {
    if ds != [] {
      var n := |ds|;
      var low := ds[..n - 1];
      var top := ds[n - 1];
      var rest := PaddedLimbs(low);
      PaddedLimbsProps(low);
      BaseDigits();
      PaddedProps(top, BASE_DIGITS);
      assert PaddedLimbs(ds) == Padded(top, BASE_DIGITS) + rest;
      DigitsValueAppend(Padded(top, BASE_DIGITS), rest);
      PowDigits(n - 1);
      assert ds == low + [top];
      MagSnoc(low, top);
      Rearrange(Mag(low), Pow(n - 1), top, DigitsValue(rest), Pow10(|rest|));
    }
  }

  /** The digits written for valid limbs denote the magnitude; their count is
      the top limb's digit count plus nine per lower limb; the first digit is
      not a zero unless the value is the single limb 0. */
  lemma DigitsProps(ds: seq<nat>)
    requires |ds| > 0 && LimbsOk(ds)
    ensures AllDigits(Digits(ds)) && DigitsValue(Digits(ds)) == Mag(ds)
    ensures |Digits(ds)| == |Decimal(ds[|ds| - 1])| + BASE_DIGITS * (|ds| - 1)
    ensures Trimmed(ds) && ds != [0] ==> Digits(ds)[0] != '0'
  {
    var n := |ds|;
    var low := ds[..n - 1];
    var top := ds[n - 1];
    var rest := PaddedLimbs(low);
    PaddedLimbsProps(low);
    DecimalProps(top);
    assert Digits(ds) == Decimal(top) + rest;
    DigitsValueAppend(Decimal(top), rest);
    PowDigits(n - 1);
    assert ds == low + [top];
    MagSnoc(low, top);
    Rearrange(Mag(low), Pow(n - 1), top, DigitsValue(rest), Pow10(|rest|));
  }

  /** The text of a single limb, or of limbs whose top has nine digits, is
      one chunk or whole chunks of digits. */
  lemma DigitsShape(ds: seq<nat>)
    requires |ds| > 0 && LimbsOk(ds)
    requires |ds| == 1 || ds[|ds| - 1] >= BASE / 10
    ensures Digits(ds) != [] && AllDigits(Digits(ds)) && Digits(ds)[0] != '-'
    ensures DigitsValue(Digits(ds)) == Mag(ds)
    ensures |Digits(ds)| <= BASE_DIGITS || |Digits(ds)| % BASE_DIGITS == 0
  {
    var body := Digits(ds);
    DigitsProps(ds);
    DecimalLength(ds[|ds| - 1], BASE_DIGITS);
    BaseDigits();
    assert body[0] != '-' by {
      assert IsDigit(body[0]);
    }
  }

  /** Display then from_str gives back a canonical value when its text is
      one chunk or whole chunks: a single limb, or a top limb of nine digits. */
  lemma RoundTrip(x: BigInt)
    requires Canonical(x)
    requires |x.digits| == 1 || x.digits[|x.digits| - 1] >= BASE / 10
    ensures Parse(Text(x)) == Ok(x)
  {
    var ds := x.digits;
    var t := Text(x);
    var body := Digits(ds);
    DigitsShape(ds);
    if x.isNegative {
      assert t[1..] == body;
    } else {
      assert t == body;
    }
    ParseValue(t);
    ParseCanonical(t);
    TrimmedUnique(Parse(t).value.digits, ds);
  }

  // ---------------------------------------------------------------------
  // Right-aligned chunking

  /** The limbs a decimal text denotes when chunks of nine are cut from the
      right, low limb first, the most significant chunk the short one. */
  function RightLimbs(s: string): Result<seq<nat>, ParseError>
    decreases |s|
  {
    if s == [] then Ok([])
    else
      var cut := Cut(|s|);
      match ParseLimb(s[cut..])
      case None => Err(InvalidDigit(s[cut..]))
      case Some(v) => Prefixed([v as nat], RightLimbs(s[..cut]))
  }

  /** Where the lowest aligned chunk of a text of length n starts. */
  function Cut(n: nat): (r: nat)
    requires n > 0
    ensures r < n && n - r <= BASE_DIGITS
  {
    if n < BASE_DIGITS then 0 else n - BASE_DIGITS
  }

  /** from_str with right-aligned chunks: no reversal is needed. */
  function ParseAligned(s: string): Result<BigInt, ParseError> {
    var negative := |s| > 0 && s[0] == '-';
    var body := if negative then s[1..] else s;
    if body == [] then Err(EmptyString)
    else
      match RightLimbs(body)
      case Err(e) => Err(e)
      case Ok(limbs) =>
        var ds := TrimZeros(limbs);
        Ok(BigInt(if ds == [] then [0] else ds, negative))
  }

  method FromStrAligned(s: string) returns (r: Result<BigInt, ParseError>)
    ensures r == ParseAligned(s)
  {
    var body := s;
    var negative := false;
    if |s| > 0 && s[0] == '-' {
      body := s[1..];
      negative := true;
    }
    if body == [] {
      return Err(EmptyString);
    }
    var pushed := PushAligned(body);
    if pushed.Err? {
      return Err(pushed.error);
    }
    var digits := PopZeroTop(pushed.value);
    if digits == [] {
      digits := [0];
    }
    r := Ok(BigInt(digits, negative));
  }

  /** The aligned chunk loop: nine bytes at a time from the right end, each
      value pushed as the next higher limb. */
  method PushAligned(body: string) returns (r: Result<seq<nat>, ParseError>)
    ensures r == RightLimbs(body)
  {
    var digits: seq<nat> := [];
    var end := |body|;
    PrefixedNothing(RightLimbs(body));
    assert body[..|body|] == body;
    while end > 0
      invariant 0 <= end <= |body|
      invariant RightLimbs(body) == Prefixed(digits, RightLimbs(body[..end]))
    {
      var start := if end < BASE_DIGITS then 0 else end - BASE_DIGITS;
      var chunk := body[start..end];
      assert start == Cut(|body[..end]|);
      assert body[..end][start..] == chunk;
      assert body[..end][..start] == body[..start];
      var parsed := ParseLimb(chunk);
      if parsed.None? {
        return Err(InvalidDigit(chunk));
      }
      PrefixedTwice(digits, [parsed.value as nat], RightLimbs(body[..start]));
      digits := digits + [parsed.value as nat];
      end := start;
    }
    assert digits + [] == digits;
    r := Ok(digits);
  }

  lemma {:induction false} RightLimbsProps(s: string)
    decreases |s|
    ensures RightLimbs(s).Ok? ==> LimbsOk(RightLimbs(s).value)
    ensures RightLimbs(s).Ok? && s != [] ==> |RightLimbs(s).value| > 0
    ensures RightLimbs(s) != Err(EmptyString)
  {
    if s != [] {
      var cut := Cut(|s|);
      RightLimbsProps(s[..cut]);
      if ParseLimb(s[cut..]).Some? {
        ChunkBound(s[cut..]);
      }
    }
  }

  lemma RightLimbsCons(s: string)
    requires AllDigits(s) && s != []
    ensures RightLimbs(s) == Prefixed([DigitsValue(s[Cut(|s|)..])], RightLimbs(s[..Cut(|s|)]))
  {
    ChunkParses(s[Cut(|s|)..]);
  }

  /** Right-aligned chunks read every run of digits correctly. */
  lemma {:induction false} RightLimbsValue(s: string)
    requires AllDigits(s)
    decreases |s|
    ensures RightLimbs(s).Ok? && Mag(RightLimbs(s).value) == DigitsValue(s)
  {
    if s != [] {
      var cut := Cut(|s|);
      var high := s[..cut];
      var chunk := s[cut..];
      RightLimbsCons(s);
      RightLimbsValue(high);
      var rest := RightLimbs(high).value;
      var v := DigitsValue(chunk);
      assert RightLimbs(s).value == [v] + rest;
      assert ([v] + rest)[1..] == rest;
      assert Mag([v] + rest) == v + BASE * Mag(rest);
      assert s == high + chunk;
      DigitsValueAppend(high, chunk);
      if cut > 0 {
        BaseDigits();
        Rearrange(v, BASE, Mag(rest), v, Pow10(|chunk|));
      } else {
        assert high == [];
      }
    }
  }

  /** With right-aligned chunks every digit run reads as its value. */
  lemma ParseAlignedValue(s: string)
    requires var body := if |s| > 0 && s[0] == '-' then s[1..] else s;
      body != [] && AllDigits(body)
    ensures ParseAligned(s).Ok? && Canonical(ParseAligned(s).value)
    ensures ParseAligned(s).value.isNegative <==> |s| > 0 && s[0] == '-'
    ensures var body := if |s| > 0 && s[0] == '-' then s[1..] else s;
      Mag(ParseAligned(s).value.digits) == DigitsValue(body)
  {
    var body := if |s| > 0 && s[0] == '-' then s[1..] else s;
    RightLimbsValue(body);
    RightLimbsProps(body);
    TrimZerosProps(RightLimbs(body).value);
  }

  /** Display then the aligned parse gives back every canonical value. */
  lemma RoundTripAligned(x: BigInt)
    requires Canonical(x)
    ensures ParseAligned(Text(x)) == Ok(x)
  {
    var ds := x.digits;
    var t := Text(x);
    var body := Digits(ds);
    DigitsProps(ds);
    assert body[0] != '-' by {
      assert IsDigit(body[0]);
    }
    if x.isNegative {
      assert t[1..] == body;
    } else {
      assert t == body;
    }
    ParseAlignedValue(t);
    TrimmedUnique(ParseAligned(t).value.digits, ds);
  }

  /** Both chunkings agree exactly where from_str is exact. */
  lemma AlignedAgrees(s: string)
    requires var body := if |s| > 0 && s[0] == '-' then s[1..] else s;
      body != [] && AllDigits(body) && (|body| <= BASE_DIGITS || |body| % BASE_DIGITS == 0)
    ensures Parse(s) == ParseAligned(s)
  {
    ParseValue(s);
    ParseCanonical(s);
    ParseAlignedValue(s);
    TrimmedUnique(Parse(s).value.digits, ParseAligned(s).value.digits);
  }
}
