/** Decimal digit strings and the string operations the unit conversions
    use: rendering a non-negative big integer (`BigInt.prototype.toString`),
    parsing a string of digits (`BigInt(s)`, where the empty string is 0),
    `padStart`/`padEnd` with '0', `slice(0, n)`, the trailing-zero strip
    `replace(/0+$/, '')` and `split` on a one-character separator. */
module DecimalText {

  predicate IsDigit(c: char) {
    '0' <= c <= '9'
  }

  predicate IsDigits(s: string) {
    forall i :: 0 <= i < |s| ==> IsDigit(s[i])
  }

  /** The shape `toString` gives a non-negative integer: "0", or a
      non-empty run of digits that does not start with '0'. */
  predicate IsCanonical(s: string) {
    IsDigits(s) && |s| >= 1 && (s[0] == '0' ==> |s| == 1)
  }

  function DigitChar(d: nat): (c: char)
    requires d < 10
    ensures IsDigit(c)
  {
    ('0' as int + d) as char
  }

  function DigitValue(c: char): (d: nat)
    requires IsDigit(c)
    ensures d < 10
    ensures DigitChar(d) == c
  {
    c as int - '0' as int
  }

  function Pow10(n: nat): (p: nat)
    ensures p >= 1
  {
    if n == 0 then 1 else 10 * Pow10(n - 1)
  }

  /** `a` followed by `k` zero digits, that is a * 10^k. */
  function Shift(a: nat, k: nat): nat {
    if k == 0 then a else 10 * Shift(a, k - 1)
  }

  lemma {:induction false} ShiftZero(k: nat)
    ensures Shift(0, k) == 0
  {
    if k > 0 { ShiftZero(k - 1); }
  }

  lemma {:induction false} ShiftIsProduct(a: nat, k: nat)
    ensures Shift(a, k) == a * Pow10(k)
  {
    if k > 0 {
      ShiftIsProduct(a, k - 1);
      MulLeft(a, Pow10(k - 1));
    }
  }

  lemma MulLeft(p: nat, q: nat)
    ensures 10 * (p * q) == p * (10 * q)
  {
  }

  /** `n.toString()` for a non-negative integer `n`. */
  function ToDecimal(n: nat): (s: string)
    ensures IsCanonical(s)
    ensures s == "0" <==> n == 0
  {
    if n < 10 then [DigitChar(n)] else ToDecimal(n / 10) + [DigitChar(n % 10)]
  }

  /** `BigInt(s)` for a string of decimal digits; the empty string is 0. */
  function ParseDigits(s: string): (n: nat)
    requires IsDigits(s)
    ensures n < Pow10(|s|)
  {
    if s == [] then 0 else 10 * ParseDigits(s[..|s| - 1]) + DigitValue(s[|s| - 1])
  }

  function Zeros(k: nat): (z: string)
    ensures |z| == k && IsDigits(z)
    ensures forall i :: 0 <= i < k ==> z[i] == '0'
  {
    seq(k, i => '0')
  }

  /** `s.padStart(len, '0')`. */
  function PadStart(s: string, len: nat): (r: string)
    ensures |r| == if |s| >= len then |s| else len
    ensures r[|r| - |s|..] == s
    ensures forall i :: 0 <= i < |r| - |s| ==> r[i] == '0'
  {
    if |s| >= len then s else Zeros(len - |s|) + s
  }

  /** `s.padEnd(len, '0')`. */
  function PadEnd(s: string, len: nat): (r: string)
    ensures |r| == if |s| >= len then |s| else len
    ensures r[..|s|] == s
    ensures forall i :: |s| <= i < |r| ==> r[i] == '0'
  {
    if |s| >= len then s else s + Zeros(len - |s|)
  }

  /** `s.slice(0, n)`. */
  function Take(s: string, n: nat): (r: string)
    ensures |r| == if n < |s| then n else |s|
    ensures r <= s
  {
    if n < |s| then s[..n] else s
  }

  /** `s.replace(/0+$/, '')`: the maximal run of trailing zeros is removed. */
  function TrimTrailingZeros(s: string): (r: string)
    ensures |r| <= |s|
    ensures s == r + Zeros(|s| - |r|)
    ensures r == [] || r[|r| - 1] != '0'
  {
    if s != [] && s[|s| - 1] == '0' then
      var r := TrimTrailingZeros(s[..|s| - 1]);
      assert s == s[..|s| - 1] + ['0'];
      assert Zeros(|s| - |r|) == Zeros(|s| - 1 - |r|) + ['0'];
      r
    else
      s
  }

  /** The pieces joined back with `sep` between them. */
  function Join(parts: seq<string>, sep: char): string
    requires |parts| >= 1
  {
    if |parts| == 1 then parts[0] else parts[0] + [sep] + Join(parts[1..], sep)
  }

  /** `s.split(sep)` for a one-character separator: every piece, in order,
      including empty ones; the empty string gives one empty piece. */
  function Split(s: string, sep: char): (parts: seq<string>)
    ensures |parts| >= 1
    ensures forall i :: 0 <= i < |parts| ==> sep !in parts[i]
    ensures Join(parts, sep) == s
  {
    if s == [] then [[]]
    else
      var rest := Split(s[1..], sep);
      if s[0] == sep then
        assert ([[]] + rest)[1..] == rest;
        [[]] + rest
      else
        var parts := [[s[0]] + rest[0]] + rest[1..];
        assert s == [s[0]] + s[1..];
        if |rest| == 1 then parts
        else
          assert parts[1..] == rest[1..];
          parts
  }

  // ----- Properties of the digit strings -----

  /** Parsing what `toString` renders gives the number back. */
  lemma {:induction false} ParseToDecimal(n: nat)
    ensures ParseDigits(ToDecimal(n)) == n
  {
    if n >= 10 {
      var s := ToDecimal(n);
      ParseToDecimal(n / 10);
      assert s[..|s| - 1] == ToDecimal(n / 10);
    }
  }

  /** Rendering is injective: different numbers give different strings. */
  lemma ToDecimalInjective(m: nat, n: nat)
    requires m != n
    ensures ToDecimal(m) != ToDecimal(n)
  {
    ParseToDecimal(m);
    ParseToDecimal(n);
  }

  lemma {:induction false} ParsePositive(s: string)
    requires IsDigits(s) && |s| >= 1 && s[0] != '0'
    ensures ParseDigits(s) >= 1
  {
    if |s| > 1 {
      ParsePositive(s[..|s| - 1]);
    }
  }

  /** Rendering what was parsed gives back any canonical digit string. */
  lemma {:induction false} ToDecimalParse(s: string)
    requires IsCanonical(s)
    ensures ToDecimal(ParseDigits(s)) == s
  {
    if |s| > 1 {
      var p := s[..|s| - 1];
      ParsePositive(p);
      ToDecimalParse(p);
      assert s == p + [s[|s| - 1]];
    }
  }

  /** Padding digits at the start with zeros up to `len` puts exactly the
      missing zeros in front and keeps the text digits. */
  lemma PadStartZeros(s: string, len: nat)
    requires IsDigits(s) && |s| <= len
    ensures PadStart(s, len) == Zeros(len - |s|) + s
    ensures |PadStart(s, len)| == len && IsDigits(PadStart(s, len))
  {
    if |s| == len {
      assert Zeros(0) + s == s;
    }
    var r := Zeros(len - |s|) + s;
    assert forall i :: 0 <= i < |r| ==> r[i] == (if i < len - |s| then '0' else s[i - (len - |s|)]);
  }

  /** Canonical texts with the same value are the same text. */
  lemma CanonicalEqual(s: string, t: string)
    requires IsCanonical(s) && IsCanonical(t) && ParseDigits(s) == ParseDigits(t)
    ensures s == t
  {
    ToDecimalParse(s);
    ToDecimalParse(t);
  }

  /** Leading zeros do not change the value. */
  lemma {:induction false} ParseLeadingZeros(k: nat, s: string)
    requires IsDigits(s)
    ensures ParseDigits(Zeros(k) + s) == ParseDigits(s)
  {
    if s == [] {
      assert Zeros(k) + s == Zeros(k);
      ParseZeros(k);
    } else {
      var t := Zeros(k) + s;
      assert t[..|t| - 1] == Zeros(k) + s[..|s| - 1];
      ParseLeadingZeros(k, s[..|s| - 1]);
    }
  }

  lemma {:induction false} ParseZeros(k: nat)
    ensures ParseDigits(Zeros(k)) == 0
  {
    if k > 0 {
      assert Zeros(k)[..k - 1] == Zeros(k - 1);
      ParseZeros(k - 1);
    }
  }

  /** Trailing zeros shift the value left by one decimal place each. */
  lemma {:induction false} ParseTrailingZeros(s: string, k: nat)
    requires IsDigits(s)
    ensures ParseDigits(s + Zeros(k)) == Shift(ParseDigits(s), k)
  {
    if k == 0 {
      assert s + Zeros(0) == s;
    } else {
      var t := s + Zeros(k);
      assert t[..|t| - 1] == s + Zeros(k - 1);
      assert t[|t| - 1] == '0';
      ParseTrailingZeros(s, k - 1);
    }
  }

  /** A number below 10^d (d >= 1) renders in at most d digits. */
  lemma {:induction false} ToDecimalLength(n: nat, d: nat)
    requires 1 <= d && n < Pow10(d)
    ensures |ToDecimal(n)| <= d
  {
    if n >= 10 {
      assert Pow10(1) == 10;
      assert d != 1;
      assert n / 10 < Pow10(d - 1);
      ToDecimalLength(n / 10, d - 1);
    }
  }

  /** The first piece of a split is everything before the first separator. */
  lemma {:induction false} SplitPrefix(a: string, rest: string, sep: char)
    requires sep !in a
    ensures Split(a + rest, sep) == [a + Split(rest, sep)[0]] + Split(rest, sep)[1..]
  {
    if a != [] {
      var x := a + rest;
      var r := Split(rest, sep);
      assert x[0] == a[0] && a[0] != sep;
      assert x[1..] == a[1..] + rest;
      SplitPrefix(a[1..], rest, sep);
      var tail := Split(x[1..], sep);
      assert tail == [a[1..] + r[0]] + r[1..];
      assert tail[0] == a[1..] + r[0];
      assert tail[1..] == r[1..];
      assert Split(x, sep) == [[x[0]] + tail[0]] + tail[1..];
      assert [x[0]] + tail[0] == a + r[0];
    } else {
      var r := Split(rest, sep);
      assert a + rest == rest;
      assert a + r[0] == r[0];
      assert r == [r[0]] + r[1..];
    }
  }

  /** A string without the separator splits into itself alone. */
  lemma SplitNone(a: string, sep: char)
    requires sep !in a
    ensures Split(a, sep) == [a]
  {
    SplitPrefix(a, [], sep);
    assert a + [] == a;
  }

  /** A leading separator splits off an empty first piece. */
  lemma SplitLeadingSep(b: string, sep: char)
    ensures Split([sep] + b, sep) == [[]] + Split(b, sep)
  {
    assert ([sep] + b)[1..] == b;
  }

  /** `a + sep + b` with `a` and `b` free of `sep` splits into `[a, b]`. */
  lemma SplitOnce(a: string, b: string, sep: char)
    requires sep !in a && sep !in b
    ensures Split(a + [sep] + b, sep) == [a, b]
  {
    var rest := [sep] + b;
    assert a + [sep] + b == a + rest;
    SplitPrefix(a, rest, sep);
    SplitLeadingSep(b, sep);
    SplitNone(b, sep);
    var r := Split(rest, sep);
    assert r == [[], b];
    assert a + r[0] == a;
  }

  /** Text made only of digits and '.', the input the amount parser accepts. */
  predicate IsAmountText(s: string) {
    forall i :: 0 <= i < |s| ==> IsDigit(s[i]) || s[i] == '.'
  }

  lemma DigitsHaveNoDot(s: string)
    requires IsDigits(s)
    ensures '.' !in s && IsAmountText(s)
  {
  }

  /** Every piece of an amount text split on '.' is a digit string. */
  lemma {:induction false} SplitAmountDigits(s: string)
    requires IsAmountText(s)
    ensures forall i :: 0 <= i < |Split(s, '.')| ==> IsDigits(Split(s, '.')[i])
  {
    if s != [] {
      var rest := Split(s[1..], '.');
      SplitAmountDigits(s[1..]);
      if s[0] != '.' {
        var first := [s[0]] + rest[0];
        assert IsDigits(first) by {
          assert IsDigit(s[0]);
          assert forall j :: 1 <= j < |first| ==> first[j] == rest[0][j - 1];
        }
      }
    }
  }

  /** Padding with zeros and then cutting at `d` keeps the first `d`
      characters and fills the rest with zeros. */
  lemma PadEndTake(f: string, d: nat)
    ensures Take(PadEnd(f, d), d) == Take(f, d) + Zeros(d - |Take(f, d)|)
  {
    if |f| >= d {
      assert Zeros(0) == [];
      assert Take(f, d) + Zeros(0) == Take(f, d);
    }
  }

  /** Two digit strings of one length with one value are the same string. */
  lemma {:induction false} ParseInjective(s: string, t: string)
    requires IsDigits(s) && IsDigits(t) && |s| == |t| && ParseDigits(s) == ParseDigits(t)
    ensures s == t
  {
    if s != [] {
      var n := |s| - 1;
      assert DigitValue(s[n]) == ParseDigits(s) % 10;
      assert DigitValue(t[n]) == ParseDigits(t) % 10;
      ParseInjective(s[..n], t[..n]);
      assert s == s[..n] + [s[n]];
      assert t == t[..n] + [t[n]];
    }
  }

  lemma ParseLastNonzero(s: string)
    requires IsDigits(s) && |s| >= 1 && s[|s| - 1] != '0'
    ensures ParseDigits(s) >= 1
  {
  }

  lemma {:induction false} ShiftBound(a: nat, m: nat, k: nat)
    requires a < Pow10(m)
    ensures a <= Shift(a, k) < Pow10(m + k)
  {
    if k > 0 {
      ShiftBound(a, m, k - 1);
    }
  }

  /** Quotient and remainder are unique. */
  lemma DivUnique(v: nat, q: nat, r: nat, p: nat)
    requires p >= 1 && r < p && q * p + r == v
    ensures v / p == q && v % p == r
  {
    var q', r' := v / p, v % p;
    assert v == q' * p + r';
    assert (q - q') * p == r' - r by {
      assert (q - q') * p == q * p - q' * p;
    }
    if q > q' {
      MulAtLeast(q - q', p);
    } else if q < q' {
      MulAtLeast(q' - q, p);
    }
  }

  lemma MulAtLeast(a: int, p: int)
    requires a >= 1 && p >= 1
    ensures a * p >= p
  {
  }
}
