/** Shared value types and the few string operations of Go's standard library that
    the shield relies on, over ASCII text. */
module Prelude {

  datatype Option<+T> = None | Some(value: T)

  datatype Result<+T, +E> = Success(value: T) | Failure(error: E)

  /** ASCII case folding: `strings.ToLower` and the `(?i)` flag on one byte. */
  function Lower(c: char): char {
    if 'A' <= c <= 'Z' then (c as int + 32) as char else c
  }

  /** Two bytes fold alike exactly when they are equal or the two cases of one letter. */
  lemma LowerIsAsciiCase(c: char, d: char)
    ensures Lower(c) == Lower(d)
       <==> || c == d
            || ('a' <= c <= 'z' && c as int - d as int == 32)
            || ('a' <= d <= 'z' && d as int - c as int == 32)
  {
  }

  function ToLower(s: string): (r: string)
    ensures |r| == |s|
    ensures forall i :: 0 <= i < |s| ==> r[i] == Lower(s[i])
  {
    seq(|s|, i requires 0 <= i < |s| => Lower(s[i]))
  }

  lemma ToLowerConcat(a: string, b: string)
    ensures ToLower(a + b) == ToLower(a) + ToLower(b)
  {
  }

  lemma ToLowerIdempotent(s: string)
    ensures ToLower(ToLower(s)) == ToLower(s)
  {
  }

  /** `strings.HasPrefix`. */
  predicate HasPrefix(s: string, prefix: string) {
    prefix <= s
  }

  /** `strings.Contains`: `sub` occurs in `s` at some position. */
  predicate Contains(s: string, sub: string) {
    exists i | 0 <= i <= |s| :: sub <= s[i..]
  }

  /** Index of the last `c` in `s`, or -1: `strings.LastIndex` for a one-byte needle. */
  function LastIndex(s: string, c: char): (idx: int)
    ensures -1 <= idx < |s|
    ensures idx >= 0 ==> s[idx] == c
    ensures forall i :: idx < i < |s| ==> s[i] != c
  {
    if s == "" then -1
    else if s[|s| - 1] == c then |s| - 1
    else LastIndex(s[..|s| - 1], c)
  }

  /** A digit of `strconv.FormatInt` for bases up to 36. */
  function Digit(d: nat): (c: char)
    requires d < 36
    ensures c != '-'
  {
    if d < 10 then ('0' as int + d) as char else ('a' as int + d - 10) as char
  }

  /** The two bases in use. */
  predicate IsBase(base: nat) {
    base == 10 || base == 36
  }

  function FormatNat(n: nat, base: nat): (s: string)
    requires IsBase(base)
    ensures s != "" && '-' !in s
    decreases n
  {
    if n < base then [Digit(n)]
    else if base == 10 then FormatNat(n / 10, base) + [Digit(n % 10)]
    else FormatNat(n / 36, base) + [Digit(n % 36)]
  }

  /** `strconv.FormatInt`. */
  function FormatInt(n: int, base: nat): (s: string)
    requires IsBase(base)
    ensures s != ""
    ensures n >= 0 ==> '-' !in s
    ensures n < 0 ==> s[0] == '-'
  {
    if n < 0 then "-" + FormatNat(-n, base) else FormatNat(n, base)
  }

  /** What a digit stands for. */
  function DigitValue(c: char): int {
    if '0' <= c <= '9' then c as int - '0' as int
    else if 'a' <= c <= 'z' then c as int - 'a' as int + 10
    else -1
  }

  /** A numeral read positionally, the last digit being the units. */
  function ValueOf(s: string, base: nat): int {
    if s == "" then 0 else ValueOf(s[..|s| - 1], base) * base + DigitValue(s[|s| - 1])
  }

  predicate IsNumeral(s: string, base: nat) {
    s != "" && forall i :: 0 <= i < |s| ==> 0 <= DigitValue(s[i]) < base
  }

  /** One more digit behind a numeral. */
  lemma AppendDigit(s: string, base: nat, d: nat)
    requires IsBase(base) && d < base && (s == "" || IsNumeral(s, base))
    ensures IsNumeral(s + [Digit(d)], base)
    ensures ValueOf(s + [Digit(d)], base) == ValueOf(s, base) * base + d
  {
    var t := s + [Digit(d)];
    assert t[..|t| - 1] == s && t[|t| - 1] == Digit(d);
    assert DigitValue(Digit(d)) == d;
  }

  lemma OneDigit(n: nat, base: nat)
    requires IsBase(base) && n < base
    ensures var s := [Digit(n)]; IsNumeral(s, base) && ValueOf(s, base) == n && (s[0] == '0' ==> n == 0)
  {
    if base == 10 { AppendDigit("", 10, n); } else { AppendDigit("", 36, n); }
    assert "" + [Digit(n)] == [Digit(n)];
    assert ValueOf("", 10) == 0 == ValueOf("", 36);
  }

  /** Formatting writes the numeral of the number, without a leading zero. */
  lemma {:induction false} FormatNatValue(n: nat, base: nat)
    requires IsBase(base)
    ensures var s := FormatNat(n, base);
            IsNumeral(s, base) && ValueOf(s, base) == n && (s[0] == '0' ==> n == 0)
    decreases n
  {
    if n < base {
      OneDigit(n, base);
    } else if base == 10 {
      FormatNatValue(n / 10, base);
      AppendDigit(FormatNat(n / 10, base), 10, n % 10);
    } else {
      FormatNatValue(n / 36, base);
      AppendDigit(FormatNat(n / 36, base), 36, n % 36);
    }
  }

  lemma FormatNatInjective(a: nat, b: nat)
    requires FormatNat(a, 36) == FormatNat(b, 36)
    ensures a == b
  {
    FormatNatValue(a, 36);
    FormatNatValue(b, 36);
  }

  lemma FormatIntInjective(a: int, b: int)
    requires FormatInt(a, 36) == FormatInt(b, 36)
    ensures a == b
  {
    if a >= 0 && b >= 0 {
      FormatNatInjective(a, b);
    } else if a < 0 && b < 0 {
      assert FormatInt(a, 36)[1..] == FormatNat(-a, 36);
      assert FormatInt(b, 36)[1..] == FormatNat(-b, 36);
      FormatNatInjective(-a, -b);
    }
  }
}
