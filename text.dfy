/** The pieces of Rust's standard text handling that the puzzles and the
    arbitrary-precision integer rely on: decimal digits, `str::parse` for
    the integer types, `{}` and zero-padded width formatting of naturals, and
    `split` / `split_once` on one character. Text is ASCII throughout. */
module TextNum {
  import opened Results

  predicate IsDigit(c: char) {
    '0' <= c <= '9'
  }

  function DigitValue(c: char): (r: nat)
    requires IsDigit(c)
    ensures r < 10
  {
    (c as int - '0' as int) as nat
  }

  function DigitChar(d: nat): (c: char)
    requires d < 10
    ensures IsDigit(c) && DigitValue(c) == d
  {
    ('0' as int + d) as char
  }

  predicate AllDigits(s: string) {
    forall i | 0 <= i < |s| :: IsDigit(s[i])
  }

  function Pow10(n: nat): (r: nat)
    ensures r >= 1
  {
    if n == 0 then 1 else 10 * Pow10(n - 1)
  }

  /** The number a run of decimal digits denotes, most significant first. */
  function DigitsValue(s: string): nat
    requires AllDigits(s)
  {
    if s == [] then 0 else DigitsValue(s[..|s| - 1]) * 10 + DigitValue(s[|s| - 1])
  }

  /** `str::parse` for an integer type whose range is [lo, hi]: an optional
      `+` (or `-` when the type is signed, lo < 0), then at least one digit
      and nothing else, and the value must lie in the range. */
  function ParseInt(s: string, lo: int, hi: int): (r: Option<int>)
    ensures r.Some? ==> lo <= r.value <= hi
  {
    if |s| == 0 || (|s| == 1 && (s[0] == '+' || s[0] == '-')) then None
    else
      var negative := s[0] == '-' && lo < 0;
      var body := if s[0] == '+' || negative then s[1..] else s;
      if !AllDigits(body) then None
      else
        var v: int := if negative then -(DigitsValue(body) as int) else DigitsValue(body);
        if lo <= v <= hi then Some(v) else None
  }

  /** `{}` of a natural: its decimal digits with no leading zero. */
  function Decimal(n: nat): string
    decreases n
  {
    if n < 10 then [DigitChar(n)] else Decimal(n / 10) + [DigitChar(n % 10)]
  }

  /** Width-w formatting of a natural: its decimal digits, zero-padded on the left up to w. */
  function Padded(n: nat, w: nat): string {
    var d := Decimal(n);
    if |d| >= w then d else Zeroes(w - |d|) + d
  }

  function Zeroes(k: nat): (r: string)
    ensures |r| == k && forall i | 0 <= i < k :: r[i] == '0'
  {
    if k == 0 then [] else Zeroes(k - 1) + ['0']
  }

  /** `split(c)`: the pieces between occurrences of c, empty pieces included. */
  function Split(s: string, c: char): (r: seq<string>)
    ensures |r| >= 1
  {
    if s == [] then [[]]
    else
      var rest := Split(s[1..], c);
      if s[0] == c then [[]] + rest
      else [[s[0]] + rest[0]] + rest[1..]
  }

  /** `split_once(c)`: the text before and after the first c, if there is one. */
  function SplitOnce(s: string, c: char): (r: Option<(string, string)>)
  {
    if s == [] then None
    else if s[0] == c then Some(([], s[1..]))
    else
      match SplitOnce(s[1..], c)
      case None => None
      case Some(p) => Some(([s[0]] + p.0, p.1))
  }

  /** `char::is_whitespace`: the characters with the Unicode White_Space
      property. */
  predicate IsWhitespace(c: char) {
    || ('\U{9}' <= c <= '\U{D}') || c == ' ' || c == '\U{85}' || c == '\U{A0}'
    || c == '\U{1680}' || ('\U{2000}' <= c <= '\U{200A}') || c == '\U{2028}' || c == '\U{2029}'
    || c == '\U{202F}' || c == '\U{205F}' || c == '\U{3000}'
  }

  /** The length of the run of non-whitespace characters that starts s. */
  function WordLength(s: string): (n: nat)
    ensures n <= |s|
    ensures forall i | 0 <= i < n :: !IsWhitespace(s[i])
    ensures n < |s| ==> IsWhitespace(s[n])
  {
    if s == [] || IsWhitespace(s[0]) then 0 else 1 + WordLength(s[1..])
  }

  /** `split_whitespace()`: the maximal runs of non-whitespace characters,
      left to right. */
  function Words(s: string): (r: seq<string>)
    decreases |s|
  {
    if s == [] then []
    else if IsWhitespace(s[0]) then Words(s[1..])
    else
      var n := WordLength(s);
      [s[..n]] + Words(s[n..])
  }

  /** `trim()`: s without its leading and trailing whitespace. */
  function Trim(s: string): (r: string)
    decreases |s|
  {
    if s != [] && IsWhitespace(s[0]) then Trim(s[1..])
    else if s != [] && IsWhitespace(s[|s| - 1]) then Trim(s[..|s| - 1])
    else s
  }

  // ---------------------------------------------------------------------
  // Lemmas

  lemma {:induction false} DigitsValueAppend(a: string, b: string)
    requires AllDigits(a) && AllDigits(b)
    ensures AllDigits(a + b)
    ensures DigitsValue(a + b) == DigitsValue(a) * Pow10(|b|) + DigitsValue(b)
  {
    if b != [] {
      var b' := b[..|b| - 1];
      assert (a + b)[..|a + b| - 1] == a + b';
      DigitsValueAppend(a, b');
      assert b[..|b| - 1] == b';
      ShiftDigit(DigitsValue(a), Pow10(|b'|), DigitsValue(b'), DigitValue(b[|b| - 1]));
    } else {
      assert a + b == a;
    }
  }

  lemma ShiftDigit(x: nat, p: nat, y: nat, e: nat)
    ensures (x * p + y) * 10 + e == x * (10 * p) + (y * 10 + e)
  {
  }

  lemma {:induction false} DigitsValueBound(s: string)
    requires AllDigits(s)
    ensures DigitsValue(s) < Pow10(|s|)
  {
    if s != [] {
      DigitsValueBound(s[..|s| - 1]);
    }
  }

  lemma {:induction false} DigitsValueZeroes(k: nat)
    ensures AllDigits(Zeroes(k)) && DigitsValue(Zeroes(k)) == 0
  {
    if k > 0 {
      DigitsValueZeroes(k - 1);
      assert Zeroes(k)[..k - 1] == Zeroes(k - 1);
    }
  }

  /** `{}` prints digits denoting n, with no leading zero, and with exactly
      as many digits as n needs: 10^(len-1) <= n < 10^len for n > 0. */
  lemma {:induction false} DecimalProps(n: nat)
    decreases n
    ensures var d := Decimal(n);
      && |d| >= 1 && AllDigits(d) && DigitsValue(d) == n
      && (n > 0 ==> d[0] != '0' && Pow10(|d| - 1) <= n)
      && n < Pow10(|d|)
  {
    var d := Decimal(n);
    if n >= 10 {
      DecimalProps(n / 10);
      var h := Decimal(n / 10);
      assert d[..|d| - 1] == h;
      assert d[0] == h[0];
    }
  }

  /** A natural below 10^w prints in at most w digits, and one at least
      10^(w-1) in at least w. */
  lemma DecimalLength(n: nat, w: nat)
    ensures w >= 1 && n < Pow10(w) ==> |Decimal(n)| <= w
    ensures w >= 1 && n >= Pow10(w - 1) ==> |Decimal(n)| >= w
  {
    DecimalProps(n);
    var d := Decimal(n);
    if w >= 1 && n < Pow10(w) && |d| > w {
      Pow10Monotone(w, |d| - 1);
    }
    if w >= 1 && n >= Pow10(w - 1) && |d| < w {
      Pow10Monotone(|d|, w - 1);
    }
  }

  lemma {:induction false} Pow10Monotone(m: nat, n: nat)
    requires m <= n
    ensures Pow10(m) <= Pow10(n)
  {
    if m < n {
      Pow10Monotone(m, n - 1);
    }
  }

  lemma {:induction false} Pow10Add(m: nat, n: nat)
    ensures Pow10(m + n) == Pow10(m) * Pow10(n)
  {
    if n > 0 {
      Pow10Add(m, n - 1);
    }
  }

  /** Zero-padded width-w formatting of a number below 10^w is exactly w digits denoting that number. */
  lemma PaddedProps(n: nat, w: nat)
    requires w >= 1 && n < Pow10(w)
    ensures |Padded(n, w)| == w && AllDigits(Padded(n, w)) && DigitsValue(Padded(n, w)) == n
  {
    DecimalProps(n);
    DecimalLength(n, w);
    var d := Decimal(n);
    if |d| < w {
      var z := Zeroes(w - |d|);
      assert Padded(n, w) == z + d;
      DigitsValueZeroes(w - |d|);
      DigitsValueAppend(z, d);
      assert DigitsValue(z + d) == 0 * Pow10(|d|) + n;
    }
  }

  /** `parse` reads back the digits of `{}` whenever the value is in range. */
  lemma ParseIntDecimal(n: nat, lo: int, hi: int)
    requires lo <= 0 && n <= hi
    ensures ParseInt(Decimal(n), lo, hi) == Some(n)
  {
    DecimalProps(n);
  }

  /** `parse` accepts a non-empty run of digits exactly when its value is in
      range, and a text starting with a character other than a digit or a
      sign is always refused. */
  lemma ParseIntDigits(s: string, lo: int, hi: int)
    requires lo <= 0 && s != [] && AllDigits(s)
    ensures ParseInt(s, lo, hi) == if DigitsValue(s) <= hi then Some(DigitsValue(s) as int) else None
  {
  }

  lemma ParseIntRefuses(s: string, lo: int, hi: int)
    requires s == [] || !(IsDigit(s[0]) || s[0] == '+' || s[0] == '-')
    ensures ParseInt(s, lo, hi) == None
  {
    if s != [] {
      assert !AllDigits(s);
    }
  }

  /** `split_once` finds the first occurrence: the part before it has none,
      and joining the parts around c gives back the text. */
  lemma {:induction false} SplitOnceProps(s: string, c: char)
    ensures SplitOnce(s, c).Some? <==> c in s
    ensures SplitOnce(s, c).Some? ==>
      var p := SplitOnce(s, c).value;
      s == p.0 + [c] + p.1 && c !in p.0
  {
    if s != [] && s[0] != c {
      SplitOnceProps(s[1..], c);
      assert s == [s[0]] + s[1..];
    }
  }

  /** `split` cuts at every occurrence: no piece contains c, and joining the
      pieces with c gives back the text. */
  lemma {:induction false} SplitProps(s: string, c: char)
    ensures forall i | 0 <= i < |Split(s, c)| :: c !in Split(s, c)[i]
    ensures Join(Split(s, c), c) == s
  {
    if s != [] {
      var rest := Split(s[1..], c);
      SplitProps(s[1..], c);
      if s[0] == c {
        assert Join([[]] + rest, c) == [] + [c] + Join(rest, c);
      } else {
        var r := [[s[0]] + rest[0]] + rest[1..];
        assert r[1..] == rest[1..];
        if |rest| == 1 {
          assert Join(r, c) == [s[0]] + rest[0];
        } else {
          assert Join(rest, c) == rest[0] + [c] + Join(rest[1..], c);
        }
        assert s == [s[0]] + s[1..];
      }
    }
  }

  /** The pieces of a split glued back together with the separator. */
  function Join(parts: seq<string>, c: char): string
    requires |parts| >= 1
  {
    if |parts| == 1 then parts[0] else parts[0] + [c] + Join(parts[1..], c)
  }

  /** No word of split_whitespace is empty or holds whitespace. */
  lemma {:induction false} WordsProps(s: string)
    decreases |s|
    ensures forall k | 0 <= k < |Words(s)| ::
      Words(s)[k] != [] && forall i | 0 <= i < |Words(s)[k]| :: !IsWhitespace(Words(s)[k][i])
  {
    if s != [] {
      if IsWhitespace(s[0]) {
        WordsProps(s[1..]);
      } else {
        WordsProps(s[WordLength(s)..]);
      }
    }
  }

  /** A text without whitespace is one word, itself. */
  lemma {:induction false} WordsOfWord(s: string)
    requires s != [] && forall i | 0 <= i < |s| :: !IsWhitespace(s[i])
    ensures Words(s) == [s]
  {
    assert WordLength(s) == |s| by {
      WordLengthAll(s);
    }
    assert s[|s|..] == [];
    assert s[..|s|] == s;
  }

  lemma {:induction false} WordLengthAll(s: string)
    requires forall i | 0 <= i < |s| :: !IsWhitespace(s[i])
    ensures WordLength(s) == |s|
  {
    if s != [] {
      WordLengthAll(s[1..]);
    }
  }

  /** trim leaves no whitespace at either end and is idempotent. */
  lemma {:induction false} TrimProps(s: string)
    decreases |s|
    ensures Trim(s) != [] ==> !IsWhitespace(Trim(s)[0]) && !IsWhitespace(Trim(s)[|Trim(s)| - 1])
    ensures Trim(Trim(s)) == Trim(s)
  {
    if s != [] && IsWhitespace(s[0]) {
      TrimProps(s[1..]);
    } else if s != [] && IsWhitespace(s[|s| - 1]) {
      TrimProps(s[..|s| - 1]);
    }
  }

  /** split_once finds c right after a text that does not contain it. */
  lemma {:induction false} SplitOnceAt(a: string, c: char, b: string)
    requires c !in a
    ensures SplitOnce(a + [c] + b, c) == Some((a, b))
  {
    if a != [] {
      assert (a + [c] + b)[1..] == a[1..] + [c] + b;
      SplitOnceAt(a[1..], c, b);
      assert [a[0]] + a[1..] == a;
    } else {
      assert a + [c] + b == [c] + b;
    }
  }

  /** A text without c is split into itself alone. */
  lemma {:induction false} SplitNone(a: string, c: char)
    requires c !in a
    ensures Split(a, c) == [a]
  {
    if a != [] {
      SplitNone(a[1..], c);
      assert [a[0]] + a[1..] == a;
    }
  }

  /** split cuts at the first c after a text that does not contain it. */
  lemma {:induction false} SplitAt(a: string, c: char, b: string)
    requires c !in a
    ensures Split(a + [c] + b, c) == [a] + Split(b, c)
  {
    if a != [] {
      assert (a + [c] + b)[1..] == a[1..] + [c] + b;
      SplitAt(a[1..], c, b);
      assert [a[0]] + a[1..] == a;
    } else {
      assert (a + [c] + b)[1..] == b;
    }
  }

  /** The digits of a natural hold no space. */
  lemma DecimalNoSpace(n: nat)
    ensures ' ' !in Decimal(n) && Decimal(n) != [] && IsDigit(Decimal(n)[0])
  {
    DecimalProps(n);
    var d := Decimal(n);
    forall k | 0 <= k < |d|
      ensures d[k] != ' '
    {
      assert IsDigit(d[k]);
    }
  }
}
