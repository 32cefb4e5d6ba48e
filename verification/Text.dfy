/** Character classes, decimal text and key order: the small string layer that
    the tree, the codecs and the parsers share. A `char` stands for one byte of
    a C++ `String`; nothing below depends on its upper bound. */
module Text {

  datatype Option<+T> = None | Some(value: T)

  // ----- C locale character classes -----

  predicate IsSpace(c: char) {
    c == ' ' || '\t' <= c <= '\r'
  }

  predicate IsDigit(c: char) {
    '0' <= c <= '9'
  }

  predicate IsAlpha(c: char) {
    'a' <= c <= 'z' || 'A' <= c <= 'Z'
  }

  predicate IsAlnum(c: char) {
    IsAlpha(c) || IsDigit(c)
  }

  /** `trim` */
  function Trim(s: string): string {
    if s != "" && IsSpace(s[0]) then Trim(s[1..])
    else if s != "" && IsSpace(s[|s| - 1]) then Trim(s[..|s| - 1])
    else s
  }

  predicate Blank(s: string) {
    forall i | 0 <= i < |s| :: IsSpace(s[i])
  }

  lemma {:induction false} TrimmedAway(s: string)
    ensures Trim(s) == "" <==> Blank(s)
  {
    if s != "" && IsSpace(s[0]) {
      TrimmedAway(s[1..]);
      assert forall i | 0 < i < |s| :: s[i] == s[1..][i - 1];
    } else if s != "" && IsSpace(s[|s| - 1]) {
      TrimmedAway(s[..|s| - 1]);
      assert s[0] == s[..|s| - 1][0];
    }
  }

  function SkipSpace(s: string): (r: string)
    ensures |r| <= |s| && (r != "" ==> !IsSpace(r[0]))
  {
    if s != "" && IsSpace(s[0]) then SkipSpace(s[1..]) else s
  }

  lemma {:induction false} BlankSkipped(s: string, rest: string)
    requires Blank(s)
    ensures SkipSpace(s + rest) == SkipSpace(rest)
  {
    if s == "" {
      assert s + rest == rest;
    } else {
      assert (s + rest)[1..] == s[1..] + rest;
      BlankSkipped(s[1..], rest);
    }
  }

  lemma SkipsTo(s: string, rest: string)
    requires Blank(s) && rest != "" && !IsSpace(rest[0])
    ensures SkipSpace(s + rest) == rest
  {
    BlankSkipped(s, rest);
  }

  // ----- searching -----

  predicate Without(s: string, d: char) {
    forall i | 0 <= i < |s| :: s[i] != d
  }

  /** Index of the first `d` from `at` on, or the length (`find`). */
  function Find(s: string, d: char, at: nat): (n: nat)
    requires at <= |s|
    ensures at <= n <= |s| && (n < |s| ==> s[n] == d) && forall i | at <= i < n :: s[i] != d
    decreases |s| - at
  {
    if at == |s| || s[at] == d then at else Find(s, d, at + 1)
  }

  predicate StartsWith(s: string, p: string) {
    |p| <= |s| && s[..|p|] == p
  }

  /** `t` stands in `s` at `p`. */
  predicate At(s: string, p: nat, t: string) {
    p + |t| <= |s| && s[p..p + |t|] == t
  }

  /** First place from `at` on where `t` stands, or the end. */
  function FindText(s: string, t: string, at: nat): (p: nat)
    requires at <= |s|
    ensures at <= p <= |s| && (p < |s| ==> At(s, p, t)) && forall k | at <= k < p :: !At(s, k, t)
    decreases |s| - at
  {
    if at == |s| || At(s, at, t) then at else FindText(s, t, at + 1)
  }

  // ----- hexadecimal digits, and decimal numerals (std::to_string of an unsigned value) -----

  /** A digit of `to_hex`. */
  function HexDigit(d: nat): char
    requires d < 16
  {
    if d < 10 then ('0' as int + d) as char else ('A' as int + d - 10) as char
  }

  /** A hexadecimal digit as it may be written: of the lower or of the upper case. */
  datatype Figure = Figure(value: nat, lower: bool)

  const LOWER_DIGITS := "0123456789abcdef"
  const UPPER_DIGITS := "0123456789ABCDEF"

  function FigureChar(f: Figure): char
    requires f.value < 16
  {
    if f.lower then LOWER_DIGITS[f.value] else UPPER_DIGITS[f.value]
  }

  function Digit(d: nat): char
    requires d < 10
  {
    ('0' as int + d) as char
  }

  function Dec(n: nat): (r: string)
    ensures r != "" && forall i | 0 <= i < |r| :: IsDigit(r[i])
  {
    if n < 10 then [Digit(n)] else Dec(n / 10) + [Digit(n % 10)]
  }

  function DigitOf(c: char): (d: nat)
    requires IsDigit(c)
    ensures d < 10 && Digit(d) == c
  {
    c as int - '0' as int
  }

  /** The value of a run of digits; the left inverse of `Dec`. */
  function DigitsValue(s: string): nat
    requires forall i | 0 <= i < |s| :: IsDigit(s[i])
  {
    if s == "" then 0
    else DigitsValue(s[..|s| - 1]) * 10 + DigitOf(s[|s| - 1])
  }

  lemma {:induction false} DecReadsBack(n: nat)
    ensures DigitsValue(Dec(n)) == n
  {
    if n >= 10 {
      DecReadsBack(n / 10);
      assert Dec(n)[..|Dec(n)| - 1] == Dec(n / 10);
    }
  }

  lemma DecInjective(a: nat, b: nat)
    requires Dec(a) == Dec(b)
    ensures a == b
  {
    DecReadsBack(a);
    DecReadsBack(b);
  }

  // ----- std::map key order: byte-wise lexicographic -----

  predicate Less(a: string, b: string) {
    if b == "" then false
    else if a == "" then true
    else if a[0] != b[0] then a[0] < b[0]
    else Less(a[1..], b[1..])
  }

  lemma {:induction false} LessIrreflexive(a: string)
    ensures !Less(a, a)
  {
    if a != "" { LessIrreflexive(a[1..]); }
  }

  lemma {:induction false} LessTransitive(a: string, b: string, c: string)
    requires Less(a, b) && Less(b, c)
    ensures Less(a, c)
  {
    if a != "" && a[0] == b[0] && b[0] == c[0] {
      LessTransitive(a[1..], b[1..], c[1..]);
    }
  }

  lemma {:induction false} LessTotal(a: string, b: string)
    ensures a == b || Less(a, b) || Less(b, a)
  {
    if a != "" && b != "" && a[0] == b[0] {
      LessTotal(a[1..], b[1..]);
      assert a == [a[0]] + a[1..] && b == [b[0]] + b[1..];
    }
  }
}
