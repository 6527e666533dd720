/** The few PHP runtime semantics the plugin leans on: `empty()` on strings, `intval()`,
    `sprintf('%d')`, integer division and remainder that truncate toward zero, the ASCII case
    mappings of `strtolower`/`strtoupper`, `trim()` with its default character list, the
    character classes of PCRE (`\s`, `\w`) and substring search. */
module Php {

  // ---------------------------------------------------------------- truthiness

  /** `empty($s)` for a string: the empty string and "0" are falsy. */
  predicate Empty(s: string) {
    s == "" || s == "0"
  }

  // ---------------------------------------------------------------- arithmetic

  function Abs(a: int): nat {
    if a < 0 then -a else a
  }

  /** `intval($a / $b)`: division truncating toward zero (Dafny's `/` is Euclidean). */
  function TruncDiv(a: int, b: int): (q: int)
    requires b != 0
    ensures b > 0 && a >= 0 ==> q == a / b
  {
    if (a >= 0) == (b > 0) then Abs(a) / Abs(b) else -(Abs(a) / Abs(b))
  }

  /** `$a % $b`: the remainder takes the sign of the dividend. */
  function TruncRem(a: int, b: int): (r: int)
    requires b != 0
  {
    a - b * TruncDiv(a, b)
  }

  lemma MulNonneg(a: nat, b: nat)
    ensures a * b >= 0
  {
  }

  lemma {:induction false} MulAtLeast(y: nat, d: int)
    requires d >= 1
    ensures y * d >= y
  {
    assert y * d == y * (d - 1) + y;
    MulNonneg(y, d - 1);
  }

  /** Euclidean division is determined by quotient and remainder. */
  lemma DivUnique(a: int, y: int, q: int, r: int)
    requires y > 0 && 0 <= r < y && a == y * q + r
    ensures a / y == q
  {
    var q2 := a / y;
    assert a == y * q2 + a % y;
    if q2 > q {
      MulAtLeast(y, q2 - q);
    } else if q2 < q {
      MulAtLeast(y, q - q2);
    }
  }

  lemma MulDivCancel(x: nat, y: nat)
    requires y > 0
    ensures (x * y) / y == x
  {
    DivUnique(x * y, y, x, 0);
  }

  lemma AbsMul(n: int, m: int)
    ensures Abs(n * m) == Abs(n) * Abs(m)
  {
    if n < 0 && m < 0 {
      assert n * m == (-n) * (-m);
    } else if n < 0 {
      assert -(n * m) == (-n) * m;
    } else if m < 0 {
      assert -(n * m) == n * (-m);
    }
  }

  /** `q` is `a / b` rounded toward zero: `b * q` has the sign of `a`, is no larger in size,
      and falls short of it by less than one `b`. */
  ghost predicate TruncatedQuotient(a: int, b: int, q: int) {
    Abs(b * q) <= Abs(a) < Abs(b * q) + Abs(b) && (a >= 0 ==> b * q >= 0) && (a <= 0 ==> b * q <= 0)
  }

  lemma EuclidBounds(x: nat, y: nat)
    requires y > 0
    ensures y * (x / y) <= x < y * (x / y) + y
  {
    assert x == y * (x / y) + x % y;
  }

  lemma MulNeg(x: int, y: int)
    ensures (-x) * y == -(x * y) && x * (-y) == -(x * y)
  {
  }

  lemma TruncDivTruncates(a: int, b: int)
    requires b != 0
    ensures TruncatedQuotient(a, b, TruncDiv(a, b))
  {
    var n := Abs(a) / Abs(b);
    EuclidBounds(Abs(a), Abs(b));
    MulNonneg(Abs(b), n);
    if b < 0 {
      MulNeg(Abs(b), n);
      MulNeg(Abs(b), -n);
    } else {
      MulNeg(b, n);
    }
  }

  /** Dividing an exact multiple gives the factor back, whatever the signs. */
  lemma TruncDivExact(n: int, m: int)
    requires m != 0
    ensures TruncDiv(n * m, m) == n
  {
    AbsMul(n, m);
    MulDivCancel(Abs(n), Abs(m));
    if n == 0 {
    } else if (n > 0) == (m > 0) {
      assert n * m > 0;
    } else {
      assert n * m < 0;
    }
  }

  // ---------------------------------------------------------------- characters

  predicate IsDigit(c: char) { '0' <= c <= '9' }
  predicate IsUpper(c: char) { 'A' <= c <= 'Z' }
  predicate IsLower(c: char) { 'a' <= c <= 'z' }
  predicate IsLetter(c: char) { IsUpper(c) || IsLower(c) }
  predicate IsAlnum(c: char) { IsLetter(c) || IsDigit(c) }

  /** PCRE `\w` without the `u` flag: ASCII letters, digits and underscore. */
  predicate IsWordChar(c: char) { IsAlnum(c) || c == '_' }

  /** PCRE `\s`: tab, line feed, vertical tab, form feed, carriage return and space. */
  predicate IsSpace(c: char) { c == ' ' || '\t' <= c <= '\r' }

  /** The characters `trim()` strips by default: " \t\n\r\0\x0B" (no form feed). */
  predicate IsTrimmable(c: char) {
    c == ' ' || c == '\t' || c == '\n' || c == '\r' || c == '\0' || c == '\U{000B}'
  }

  function LowerChar(c: char): char {
    if IsUpper(c) then (c as int + 32) as char else c
  }

  function UpperChar(c: char): char {
    if IsLower(c) then (c as int - 32) as char else c
  }

  /** `strtolower` (ASCII only, as PHP 8.2 and later do; earlier versions follow the locale,
      which is ASCII in the default C locale). */
  function Lower(s: string): (r: string)
    ensures |r| == |s|
    ensures forall i :: 0 <= i < |s| ==> r[i] == LowerChar(s[i])
  {
    seq(|s|, i requires 0 <= i < |s| => LowerChar(s[i]))
  }

  /** `strtoupper` (ASCII only). */
  function Upper(s: string): (r: string)
    ensures |r| == |s|
    ensures forall i :: 0 <= i < |s| ==> r[i] == UpperChar(s[i])
  {
    seq(|s|, i requires 0 <= i < |s| => UpperChar(s[i]))
  }

  lemma LowerConcat(a: string, b: string)
    ensures Lower(a + b) == Lower(a) + Lower(b)
  {
    assert forall i :: 0 <= i < |a + b| ==> Lower(a + b)[i] == (Lower(a) + Lower(b))[i];
  }

  // ---------------------------------------------------------------- trim

  function TrimLeft(s: string): (r: string)
    ensures |r| <= |s| && r == s[|s| - |r|..]
    ensures r == [] || !IsTrimmable(r[0])
  {
    if |s| > 0 && IsTrimmable(s[0]) then TrimLeft(s[1..]) else s
  }

  function TrimRight(s: string): (r: string)
    ensures |r| <= |s| && r == s[..|r|]
    ensures r == [] || !IsTrimmable(r[|r| - 1])
  {
    if |s| > 0 && IsTrimmable(s[|s| - 1]) then TrimRight(s[..|s| - 1]) else s
  }

  /** `trim($s)`: the longest infix without trimmable characters at either end. */
  function Trim(s: string): (r: string)
    ensures r == [] || (!IsTrimmable(r[0]) && !IsTrimmable(r[|r| - 1]))
  {
    TrimRight(TrimLeft(s))
  }

  /** A string that ends in a character `trim()` keeps still ends in the same suffix after
      trimming, as long as that suffix begins with a kept character too. */
  lemma {:induction false} TrimKeepsSuffix(x: string, suffix: string)
    requires |suffix| > 0 && !IsTrimmable(suffix[0]) && !IsTrimmable(suffix[|suffix| - 1])
    ensures exists y :: Trim(x + suffix) == y + suffix
  {
    var l := TrimLeftOfSuffixed(x, suffix);
    assert TrimRight(l + suffix) == l + suffix;
  }

  lemma {:induction false} TrimLeftOfSuffixed(x: string, suffix: string) returns (l: string)
    requires |suffix| > 0 && !IsTrimmable(suffix[0])
    ensures TrimLeft(x + suffix) == l + suffix
  {
    if |x| == 0 {
      assert x + suffix == suffix;
      l := [];
    } else if IsTrimmable(x[0]) {
      assert (x + suffix)[1..] == x[1..] + suffix;
      l := TrimLeftOfSuffixed(x[1..], suffix);
    } else {
      l := x;
    }
  }

  // ---------------------------------------------------------------- search

  predicate StartsWith(s: string, prefix: string) {
    |prefix| <= |s| && s[..|prefix|] == prefix
  }

  /** Substring test (`strpos($h, $n) !== false`). */
  predicate Contains(hay: string, needle: string)
    decreases |hay|
  {
    StartsWith(hay, needle) || (|hay| > 0 && Contains(hay[1..], needle))
  }

  lemma {:induction false} ContainsSuffix(x: string, needle: string)
    ensures Contains(x + needle, needle)
  {
    if StartsWith(x + needle, needle) {
    } else {
      assert |x| > 0;
      assert (x + needle)[1..] == x[1..] + needle;
      ContainsSuffix(x[1..], needle);
    }
  }

  /** `stripos($hay, $needle) !== false`, with ASCII case folding. */
  predicate ContainsIgnoreCase(hay: string, needle: string) {
    Contains(Lower(hay), Lower(needle))
  }

  /** `implode($sep, $parts)`. */
  function Join(parts: seq<string>, sep: string): string {
    if |parts| == 0 then ""
    else if |parts| == 1 then parts[0]
    else parts[0] + sep + Join(parts[1..], sep)
  }

  // ---------------------------------------------------------------- decimal numbers

  function DigitChar(d: nat): (c: char)
    requires d < 10
    ensures IsDigit(c)
  {
    ('0' as int + d) as char
  }

  function NatToString(n: nat): (s: string)
    ensures |s| > 0 && forall i :: 0 <= i < |s| ==> IsDigit(s[i])
    ensures n < 10 <==> |s| == 1
  {
    if n < 10 then [DigitChar(n)] else NatToString(n / 10) + [DigitChar(n % 10)]
  }

  /** `sprintf('%d', $i)` and PHP's integer-to-string conversion. */
  function IntToString(i: int): (s: string)
    ensures |s| > 0 && forall k :: 0 <= k < |s| ==> IsDigit(s[k]) || s[k] == '-'
    ensures s[0] == '-' <==> i < 0
  {
    if i < 0 then "-" + NatToString(-i) else NatToString(i)
  }

  lemma {:induction false} NatToStringInjective(a: nat, b: nat)
    requires NatToString(a) == NatToString(b)
    ensures a == b
  {
    var s := NatToString(a);
    if a < 10 || b < 10 {
      assert a < 10 && b < 10;
      assert s[0] == DigitChar(a) == DigitChar(b);
    } else {
      var k := |s| - 1;
      assert s[k] == DigitChar(a % 10) == DigitChar(b % 10);
      assert NatToString(a / 10) == s[..k] == NatToString(b / 10);
      NatToStringInjective(a / 10, b / 10);
    }
  }

  /** Distinct integers print differently. */
  lemma IntToStringInjective(a: int, b: int)
    requires IntToString(a) == IntToString(b)
    ensures a == b
  {
    var s := IntToString(a);
    if a < 0 && b < 0 {
      assert NatToString(-a) == s[1..] == NatToString(-b);
      NatToStringInjective(-a, -b);
    } else if a >= 0 && b >= 0 {
      NatToStringInjective(a, b);
    } else {
      assert false;
    }
  }

  function DigitValue(c: char): nat
    requires IsDigit(c)
  {
    c as int - '0' as int
  }

  /** Value of a run of decimal digits, read left to right. */
  function DigitsValue(d: string): nat
    requires forall i :: 0 <= i < |d| ==> IsDigit(d[i])
  {
    if |d| == 0 then 0 else DigitsValue(d[..|d| - 1]) * 10 + DigitValue(d[|d| - 1])
  }

  /** The longest prefix made of digits. */
  function LeadingDigits(s: string): (d: string)
    ensures |d| <= |s| && d == s[..|d|]
    ensures forall i :: 0 <= i < |d| ==> IsDigit(s[i])
    ensures |d| < |s| ==> !IsDigit(s[|d|])
  {
    if |s| > 0 && IsDigit(s[0]) then [s[0]] + LeadingDigits(s[1..]) else []
  }

  /** Whitespace `intval()` skips before the number. */
  predicate IsNumericSpace(c: char) {
    c == ' ' || c == '\t' || c == '\n' || c == '\r' || c == '\U{000B}' || c == '\U{000C}'
  }

  function SkipSpace(s: string): (r: string)
    ensures |r| <= |s|
  {
    if |s| > 0 && IsNumericSpace(s[0]) then SkipSpace(s[1..]) else s
  }

  /** `intval($s)` for a string: optional leading whitespace, an optional sign, then as many
      decimal digits as follow; anything else reads as 0. */
  function IntVal(s: string): int {
    var t := SkipSpace(s);
    if |t| > 0 && t[0] == '-' then -(DigitsValue(LeadingDigits(t[1..])) as int)
    else if |t| > 0 && t[0] == '+' then DigitsValue(LeadingDigits(t[1..]))
    else DigitsValue(LeadingDigits(t))
  }

  lemma {:induction false} DigitsValueOfNat(n: nat)
    ensures DigitsValue(NatToString(n)) == n
  {
    var s := NatToString(n);
    if n >= 10 {
      assert s[..|s| - 1] == NatToString(n / 10);
      DigitsValueOfNat(n / 10);
    }
  }

  lemma {:induction false} LeadingDigitsOfDigits(s: string)
    requires forall i :: 0 <= i < |s| ==> IsDigit(s[i])
    ensures LeadingDigits(s) == s
  {
    if |s| > 0 {
      LeadingDigitsOfDigits(s[1..]);
    }
  }

  lemma NatValue(n: nat)
    ensures DigitsValue(LeadingDigits(NatToString(n))) == n
  {
    LeadingDigitsOfDigits(NatToString(n));
    DigitsValueOfNat(n);
  }

  /** `intval` reads back what `%d` printed. */
  lemma IntValOfIntToString(i: int)
    ensures IntVal(IntToString(i)) == i
  {
    var s := IntToString(i);
    if i < 0 {
      assert s == "-" + NatToString(-i);
      assert s[0] == '-' && !IsNumericSpace(s[0]);
      assert SkipSpace(s) == s;
      assert s[1..] == NatToString(-i);
      NatValue(-i);
    } else {
      assert s == NatToString(i);
      assert IsDigit(s[0]) && !IsNumericSpace(s[0]);
      assert SkipSpace(s) == s;
      NatValue(i);
    }
  }
}
