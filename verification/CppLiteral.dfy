/** The C++ string literals that template text is compiled into
    (src/lib/compiler-parser.cpp:24-66): raw strings whose delimiter is chosen so
    that the text cannot end them early. */
module CppLiteral {
  import opened Text
  import opened Arith
  import opened Bits
  import Json

  const WORD := 0x1_0000_0000_0000_0000

  // ----- the candidates for a delimiter -----

  /** The FNV hash of the content, in 64 bits. */
  function Hash(content: string): nat {
    if content == "" then 1469598103934665603
    else Xor(Hash(content[..|content| - 1]), content[|content| - 1] as int % 256) * 1099511628211 % WORD
  }

  /** `to_hex`: the low `n` hexadecimal digits. */
  function HexText(w: nat, n: nat): (r: string)
    ensures |r| == n
  {
    if n == 0 then "" else HexText(w / 16, n - 1) + [HexDigit(w % 16)]
  }

  const GOLDEN := 0x9E3779B97F4A7C15

  function Suffixed(hash: nat, i: nat): string {
    "UCE" + HexText(Xor(hash, i * GOLDEN % WORD), 12)
  }

  const FIXED := ["", "UCE", "UCE_LITERAL", "uce_literal_0", "uce_literal_1"]

  function AllSuffixed(hash: nat, n: nat): (r: seq<string>)
    ensures |r| == n
  {
    seq(n, i requires 0 <= i < n => Suffixed(hash, i))
  }

  function Candidates(content: string): (r: seq<string>)
    ensures |r| == 69
  {
    FIXED + AllSuffixed(Hash(content), 64)
  }

  // ----- the choice -----

  predicate Contains(s: string, t: string) {
    exists p | 0 <= p <= |s| :: At(s, p, t)
  }

  function Terminator(delimiter: string): string {
    ")" + delimiter + "\""
  }

  function FirstFree(candidates: seq<string>, content: string): string {
    if candidates == [] then ""
    else if !Contains(content, Terminator(candidates[0])) then candidates[0]
    else FirstFree(candidates[1..], content)
  }

  function Delimiter(content: string): string {
    FirstFree(Candidates(content), content)
  }

  method RawStringDelimiter(content: string) returns (delimiter: string)
    ensures delimiter == Delimiter(content)
  {
    hide Xor, HexText, Contains, Terminator;
    var candidates := FIXED;
    var hash := 1469598103934665603;
    var k := 0;
    while k < |content|
      invariant k <= |content| && hash == Hash(content[..k])
    {
      assert content[..k + 1][..k] == content[..k];
      hash := Xor(hash, content[k] as int % 256) * 1099511628211 % WORD;
      k := k + 1;
    }
    assert content[..|content|] == content;
    var i := 0;
    while i < 64
      invariant i <= 64 && candidates == FIXED + AllSuffixed(hash, i)
    {
      candidates := candidates + [Suffixed(hash, i)];
      i := i + 1;
    }
    var c := 0;
    while c < |candidates|
      invariant c <= |candidates| && FirstFree(candidates[c..], content) == Delimiter(content)
    {
      assert candidates[c..][1..] == candidates[c + 1..];
      if !Contains(content, Terminator(candidates[c])) { return candidates[c]; }
      c := c + 1;
    }
    return "";
  }

  function Raw(content: string, delimiter: string): string {
    "R\"" + delimiter + "(" + content + ")" + delimiter + "\""
  }

  /** All candidates occur in the content: no raw string will do. */
  predicate NeedsFallback(content: string) {
    Delimiter(content) == "" && Contains(content, ")\"")
  }

  /** `compiler_cpp_string_literal` */
  function Literal(content: string): string {
    if NeedsFallback(content) then Json.Escape(content, '"') else Raw(content, Delimiter(content))
  }

  // ----- reading a raw string, [lex.string] of ISO C++ -----

  predicate LegalDelimiter(d: string) {
    |d| <= 16 && forall i | 0 <= i < |d| :: IsAlnum(d[i]) || d[i] == '_'
  }

  /** Content of the raw string at the front of `s`, and what follows it. */
  function ReadRaw(s: string): Option<(string, string)> {
    if |s| < 2 || s[..2] != "R\"" then None
    else
      var open := Find(s, '(', 2);
      if open == |s| || !LegalDelimiter(s[2..open]) then None
      else
        var t := Terminator(s[2..open]);
        var close := FindText(s, t, open + 1);
        if close == |s| then None else Some((s[open + 1..close], s[close + |t|..]))
  }

  /** A terminator cannot begin inside the content and end in the real one: a
      closing parenthesis only stands at its front. */
  lemma NoEarlyEnd(content: string, d: string, rest: string, p: nat)
    requires LegalDelimiter(d) && !Contains(content, Terminator(d)) && p < |content|
    ensures !At(content + Terminator(d) + rest, p, Terminator(d))
  {
    var t := Terminator(d);
    var s := content + t + rest;
    if p + |t| <= |content| {
      assert s[p..p + |t|] == content[p..p + |t|];
      assert !At(content, p, t);
    } else {
      var k := |content| - p;
      assert s[|content|] == ')';
      assert t[k] != ')' by { InsideTerminator(d, k); }
      assert p + |t| <= |s| ==> s[p..p + |t|][k] == ')';
    }
  }

  lemma InsideTerminator(d: string, k: nat)
    requires LegalDelimiter(d) && 0 < k < |Terminator(d)|
    ensures Terminator(d)[k] != ')'
  {
  }

  lemma OpensAt(d: string, tail: string)
    requires LegalDelimiter(d)
    ensures var s := "R\"" + d + "(" + tail;
      && s[..2] == "R\"" && s[2..2 + |d|] == d && s[3 + |d|..] == tail && Find(s, '(', 2) == 2 + |d|
  {
    var s := "R\"" + d + "(" + tail;
    assert forall i | 2 <= i < 2 + |d| :: s[i] == d[i - 2];
    assert s[2 + |d|] == '(';
  }

  lemma ClosesAt(front: string, content: string, d: string, rest: string)
    requires LegalDelimiter(d) && !Contains(content, Terminator(d))
    ensures FindText(front + (content + Terminator(d) + rest), Terminator(d), |front|) == |front| + |content|
  {
    hide *;
    var t := Terminator(d);
    var tail := content + t + rest;
    AtOwnPlace(content, t, rest);
    TerminatorNotEmpty(d);
    forall k: nat | k < |content| ensures !At(tail, k, t) {
      NoEarlyEnd(content, d, rest, k);
    }
    FirstBehind(front, tail, t, |content|);
  }

  lemma FirstBehind(front: string, tail: string, t: string, n: nat)
    requires n < |tail| && At(tail, n, t) && forall k: nat | k < n :: !At(tail, k, t)
    ensures FindText(front + tail, t, |front|) == |front| + n
  {
    hide At, FindText;
    var s := front + tail;
    AtBehind(front, tail, n, t);
    forall k | |front| <= k < |front| + n ensures !At(s, k, t) {
      AtBehind(front, tail, k - |front|, t);
    }
    FoundAt(s, t, |front|, |front| + n);
  }

  lemma {:induction false} FoundAt(s: string, t: string, at: nat, close: nat)
    requires at <= close < |s| && At(s, close, t) && forall k | at <= k < close :: !At(s, k, t)
    ensures FindText(s, t, at) == close
    decreases close - at
  {
    hide At;
    if at < close { FoundAt(s, t, at + 1, close); }
  }

  lemma AtFits(content: string, p: nat, t: string)
    requires At(content, p, t)
    ensures p + |t| <= |content|
  {
  }

  lemma AtOwnPlace(content: string, t: string, rest: string)
    ensures At(content + t + rest, |content|, t)
  {
    assert (content + t + rest)[|content|..|content| + |t|] == t;
  }

  lemma TerminatorNotEmpty(d: string)
    ensures Terminator(d) != ""
  {
  }

  lemma AtBehind(front: string, tail: string, p: nat, t: string)
    ensures At(front + tail, |front| + p, t) <==> At(tail, p, t)
  {
    if p + |t| <= |tail| {
      assert (front + tail)[|front| + p..|front| + p + |t|] == tail[p..p + |t|];
    }
  }

  /** A raw string with a legal delimiter whose terminator is not in the content
      reads back as exactly the content, whatever follows it. */
  lemma RawReadsBack(content: string, d: string, rest: string)
    requires LegalDelimiter(d) && !Contains(content, Terminator(d))
    ensures ReadRaw(Raw(content, d) + rest) == Some((content, rest))
  {
    hide LegalDelimiter, Contains, Find, FindText;
    var t := Terminator(d);
    var tail := content + t + rest;
    var front := "R\"" + d + "(";
    var s := front + tail;
    assert Raw(content, d) + rest == s;
    OpensAt(d, tail);
    ClosesAt(front, content, d, rest);
    SliceBehind(front, content, t, rest);
  }

  lemma SliceBehind(front: string, content: string, t: string, rest: string)
    ensures var s, close := front + (content + t + rest), |front| + |content|;
      s[|front|..close] == content && s[close + |t|..] == rest
  {
  }

  // ----- the choice is legal, and free where there is one -----

  lemma HexTextLegal(w: nat, n: nat)
    ensures forall i | 0 <= i < n :: IsAlnum(HexText(w, n)[i])
  {
    if n > 0 { HexTextLegal(w / 16, n - 1); }
  }

  /** Every candidate is a legal delimiter of at most sixteen characters. */
  lemma CandidatesLegal(content: string, k: nat)
    requires k < 69
    ensures LegalDelimiter(Candidates(content)[k])
  {
    if k >= 5 {
      var x := Xor(Hash(content), (k - 5) * GOLDEN % WORD);
      HexTextLegal(x, 12);
      assert Candidates(content)[k] == "UCE" + HexText(x, 12);
    } else {
      assert Candidates(content)[k] == FIXED[k];
    }
  }

  lemma {:induction false} FirstFreeIs(candidates: seq<string>, content: string)
    ensures var d := FirstFree(candidates, content);
      || (d in candidates && !Contains(content, Terminator(d)))
      || (d == "" && forall c | c in candidates :: Contains(content, Terminator(c)))
  {
    hide Contains, Terminator;
    if candidates != [] { FirstFreeIs(candidates[1..], content); }
  }

  /** Unless every candidate occurs in the content, the literal is a raw string
      that reads back as exactly the content. */
  lemma LiteralReadsBack(content: string, rest: string)
    requires !NeedsFallback(content)
    ensures ReadRaw(Literal(content) + rest) == Some((content, rest))
  {
    hide Contains, Candidates, LegalDelimiter;
    var d := Delimiter(content);
    FirstFreeIs(Candidates(content), content);
    if d in Candidates(content) {
      var k :| 0 <= k < 69 && Candidates(content)[k] == d;
      CandidatesLegal(content, k);
    } else {
      assert LegalDelimiter("") by { EmptyLegal(); }
    }
    assert !Contains(content, Terminator(d)) by { EmptyTerminator(); }
    RawReadsBack(content, d, rest);
  }

  lemma EmptyLegal()
    ensures LegalDelimiter("")
  {
  }

  lemma EmptyTerminator()
    ensures Terminator("") == ")\""
  {
  }

  // ----- when there is none -----

  lemma {:induction false} HexTextInjective(w: nat, v: nat, n: nat)
    requires HexText(w, n) == HexText(v, n)
    ensures w % TwoTo(4 * n) == v % TwoTo(4 * n)
  {
    if n > 0 {
      var a, b := HexText(w, n), HexText(v, n);
      assert a[..n - 1] == HexText(w / 16, n - 1) && b[..n - 1] == HexText(v / 16, n - 1);
      HexTextInjective(w / 16, v / 16, n - 1);
      assert HexDigit(w % 16) == a[n - 1] == b[n - 1] == HexDigit(v % 16);
      HexDigitInjective(w % 16, v % 16);
      FourBits(n);
      DivDiv(w, 16, TwoTo(4 * (n - 1)));
      DivDiv(v, 16, TwoTo(4 * (n - 1)));
    }
  }

  lemma HexDigitInjective(x: nat, y: nat)
    requires x < 16 && y < 16 && HexDigit(x) == HexDigit(y)
    ensures x == y
  {
  }

  lemma FourBits(n: nat)
    requires n > 0
    ensures TwoTo(4 * n) == 16 * TwoTo(4 * (n - 1))
  {
    FourDoubled(4 * (n - 1));
  }

  lemma FourDoubled(k: nat)
    ensures TwoTo(k + 4) == 16 * TwoTo(k)
  {
    hide TwoTo;
    Doubled(k);
    Doubled(k + 1);
    Doubled(k + 2);
    Doubled(k + 3);
  }

  lemma Doubled(k: nat)
    ensures TwoTo(k + 1) == 2 * TwoTo(k)
  {
  }

  const LOW48 := 0x1_0000_0000_0000

  lemma FortyEightBits()
    ensures TwoTo(48) == LOW48
  {
    assert TwoTo(8) == 256 by { assert TwoTo(4) == 16; }
    assert TwoTo(16) == 0x1_0000 by { assert TwoTo(12) == 0x1000; }
    assert TwoTo(24) == 0x100_0000 by { assert TwoTo(20) == 0x10_0000; }
    assert TwoTo(32) == 0x1_0000_0000 by { assert TwoTo(28) == 0x1000_0000; }
    assert TwoTo(40) == 0x100_0000_0000 by { assert TwoTo(36) == 0x10_0000_0000; }
    assert TwoTo(44) == 0x1000_0000_0000;
  }

  /** The factor is odd, so the low 48 bits of its first 64 multiples differ. */
  lemma MultiplesDiffer(i: nat, j: nat)
    requires i < 64 && j < 64 && i * GOLDEN % WORD % LOW48 == j * GOLDEN % WORD % LOW48
    ensures i == j
  {
    MultipleTells(i);
    MultipleTells(j);
  }

  lemma MultipleTells(i: nat)
    requires i < 64
    ensures i * GOLDEN % WORD % LOW48 * INVERSE % LOW48 == i
  {
    LowOfWord(i * GOLDEN);
    FactorUndone(i, GOLDEN, INVERSE, LOW48);
  }

  const INVERSE := 0x83E19937733D

  lemma LowOfWord(x: nat)
    ensures x % WORD % LOW48 == x % LOW48
  {
    AddMultiple(x % WORD, x / WORD * 0x1_0000, LOW48);
  }

  lemma SuffixedDiffer(hash: nat, i: nat, j: nat)
    requires i < 64 && j < 64 && Suffixed(hash, i) == Suffixed(hash, j)
    ensures i == j
  {
    var x, y := i * GOLDEN % WORD, j * GOLDEN % WORD;
    assert Suffixed(hash, i)[3..] == HexText(Xor(hash, x), 12);
    assert Suffixed(hash, j)[3..] == HexText(Xor(hash, y), 12);
    HexTextInjective(Xor(hash, x), Xor(hash, y), 12);
    XorOfLow(hash, x, 48);
    XorOfLow(hash, y, 48);
    FortyEightBits();
    XorInjective(hash % LOW48, x % LOW48, y % LOW48);
    MultiplesDiffer(i, j);
  }

  lemma CandidatesDiffer(content: string, i: nat, j: nat)
    requires i < j < 69
    ensures Candidates(content)[i] != Candidates(content)[j]
  {
    hide HexText, Xor;
    var c := Candidates(content);
    if i >= 5 {
      if c[i] == c[j] { SuffixedDiffer(Hash(content), i - 5, j - 5); }
    } else if j >= 5 {
      assert |c[j]| == 15 && |c[i]| <= 13;
    } else {
      assert c[i] == FIXED[i] && c[j] == FIXED[j];
    }
  }

  // ----- occurrences take room -----

  function Place(content: string, t: string): nat {
    FindText(content, t, 0)
  }

  lemma PlaceIs(content: string, t: string)
    requires Contains(content, t) && t != ""
    ensures At(content, Place(content, t), t)
  {
    var p :| 0 <= p <= |content| && At(content, p, t);
  }

  lemma CharAt(content: string, p: nat, t: string, k: nat)
    requires At(content, p, t) && k < |t|
    ensures content[p + k] == t[k]
  {
    assert content[p..p + |t|][k] == content[p + k];
  }

  /** Two different terminators cannot overlap: the parenthesis is only at the
      front, the quote only at the end. */
  lemma NoOverlap(content: string, d1: string, p1: nat, d2: string, p2: nat)
    requires LegalDelimiter(d1) && LegalDelimiter(d2) && d1 != d2 && p1 <= p2
    requires At(content, p1, Terminator(d1)) && At(content, p2, Terminator(d2))
    ensures p1 + |Terminator(d1)| <= p2
  {
    var t1, t2 := Terminator(d1), Terminator(d2);
    if p2 < p1 + |t1| {
      var k := p2 - p1;
      CharAt(content, p1, t1, k);
      CharAt(content, p2, t2, 0);
      assert t1[k] == content[p2] == t2[0] == ')';
      if k > 0 { InsideTerminator(d1, k); }
      SameFront(content, d1, d2, p1);
    }
  }

  lemma SameFront(content: string, d1: string, d2: string, p: nat)
    requires LegalDelimiter(d1) && LegalDelimiter(d2)
    requires At(content, p, Terminator(d1)) && At(content, p, Terminator(d2))
    ensures d1 == d2
  {
    var t1, t2 := Terminator(d1), Terminator(d2);
    assert forall k | 0 <= k < |t1| :: content[p + k] == t1[k] by { assert content[p..p + |t1|] == t1; }
    assert forall k | 0 <= k < |t2| :: content[p + k] == t2[k] by { assert content[p..p + |t2|] == t2; }
    var n := if |d1| < |d2| then |d1| else |d2|;
    assert t1[n + 1] == t2[n + 1];
    assert |d1| == |d2|;
    forall k | 0 <= k < |d1| ensures d1[k] == d2[k] {
      assert d1[k] == t1[k + 1] && d2[k] == t2[k + 1];
    }
  }

  predicate Inside(x: int, a: int, n: nat) {
    a <= x < a + n
  }

  function Span(a: int, n: nat): set<int> {
    set x | a <= x < a + n && Inside(x, a, n)
  }

  lemma {:induction false} SpanSize(a: int, n: nat)
    ensures |Span(a, n)| == n
  {
    if n > 0 {
      SpanSize(a, n - 1);
      assert Span(a, n) == Span(a, n - 1) + {a + n - 1};
    } else {
      assert Span(a, 0) == {};
    }
  }

  function Total(ds: seq<string>): nat {
    if ds == [] then 0 else Total(ds[..|ds| - 1]) + |Terminator(ds[|ds| - 1])|
  }

  predicate Distinct(ds: seq<string>) {
    forall i, j | 0 <= i < j < |ds| :: ds[i] != ds[j]
  }

  /** The places in the content that the terminators take up. */
  lemma {:induction false} Covered(content: string, ds: seq<string>) returns (taken: set<int>)
    requires Distinct(ds) && forall i | 0 <= i < |ds| :: LegalDelimiter(ds[i]) && Contains(content, Terminator(ds[i]))
    ensures |taken| == Total(ds) && taken <= Span(0, |content|)
    ensures forall x | x in taken :: exists i | 0 <= i < |ds|
        :: x in Span(Place(content, Terminator(ds[i])), |Terminator(ds[i])|)
  {
    hide Terminator, Contains, LegalDelimiter, Place, At;
    if ds == [] {
      taken := {};
    } else {
      var n := |ds| - 1;
      var before := Covered(content, ds[..n]);
      var d := ds[n];
      var t := Terminator(d);
      TerminatorNotEmpty(d);
      PlaceIs(content, t);
      AtFits(content, Place(content, t), t);
      var span := Span(Place(content, t), |t|);
      SpanSize(Place(content, t), |t|);
      forall x | x in before ensures x !in span {
        var i :| 0 <= i < n && x in Span(Place(content, Terminator(ds[..n][i])), |Terminator(ds[..n][i])|);
        assert ds[..n][i] == ds[i];
        ApartFrom(content, ds[i], d, x);
      }
      assert before * span == {};
      taken := before + span;
    }
  }

  lemma ApartFrom(content: string, d1: string, d2: string, x: int)
    requires LegalDelimiter(d1) && LegalDelimiter(d2) && d1 != d2
    requires Contains(content, Terminator(d1)) && Contains(content, Terminator(d2))
    requires x in Span(Place(content, Terminator(d1)), |Terminator(d1)|)
    ensures x !in Span(Place(content, Terminator(d2)), |Terminator(d2)|)
  {
    hide Terminator, Contains, LegalDelimiter, Place, At;
    var t1, t2 := Terminator(d1), Terminator(d2);
    TerminatorNotEmpty(d1);
    TerminatorNotEmpty(d2);
    PlaceIs(content, t1);
    PlaceIs(content, t2);
    if Place(content, t1) <= Place(content, t2) {
      NoOverlap(content, d1, Place(content, t1), d2, Place(content, t2));
    } else {
      NoOverlap(content, d2, Place(content, t2), d1, Place(content, t1));
    }
  }

  lemma {:induction false} SpanSubset(taken: set<int>, n: nat)
    requires taken <= Span(0, n)
    ensures |taken| <= n
  {
    SpanSize(0, n);
    SubsetSize(taken, Span(0, n));
  }

  lemma {:induction false} SubsetSize(a: set<int>, b: set<int>)
    requires a <= b
    ensures |a| <= |b|
  {
    assert b == a + (b - a);
  }

  lemma {:induction false} TotalOfSuffixed(content: string, n: nat)
    requires n <= 64
    ensures Total(Candidates(content)[..5 + n]) == 50 + 17 * n
  {
    hide HexText, Xor;
    var c := Candidates(content);
    if n == 0 {
      assert c[..5] == FIXED;
      TotalOfFixed();
    } else {
      TotalOfSuffixed(content, n - 1);
      assert c[..5 + n][..4 + n] == c[..4 + n];
      assert |c[4 + n]| == 15;
    }
  }

  lemma TotalOfFixed()
    ensures Total(FIXED) == 50
  {
    assert FIXED[..4] == ["", "UCE", "UCE_LITERAL", "uce_literal_0"];
    assert FIXED[..4][..3] == ["", "UCE", "UCE_LITERAL"];
    assert FIXED[..4][..3][..2] == ["", "UCE"];
    assert FIXED[..4][..3][..2][..1] == [""];
    assert Total([""]) == Total([""][..0]) + 2;
    assert Total(["", "UCE"]) == 7;
    assert Total(["", "UCE", "UCE_LITERAL"]) == 20;
    assert Total(["", "UCE", "UCE_LITERAL", "uce_literal_0"]) == 35;
  }

  /** The fallback needs 69 different terminators side by side, so it does not
      occur for content of fewer than 1138 characters. */
  lemma FallbackIsLong(content: string)
    requires NeedsFallback(content)
    ensures |content| >= 1138
  {
    hide Contains, Candidates, LegalDelimiter, Total, Terminator;
    var c := Candidates(content);
    FirstFreeIs(c, content);
    EmptyTerminator();
    forall i | 0 <= i < |c| ensures LegalDelimiter(c[i]) && Contains(content, Terminator(c[i])) {
      CandidatesLegal(content, i);
      assert c[i] in c;
    }
    forall i, j | 0 <= i < j < |c| ensures c[i] != c[j] {
      CandidatesDiffer(content, i, j);
    }
    var taken := Covered(content, c);
    TotalOfSuffixed(content, 64);
    assert c[..69] == c;
    SpanSubset(taken, |content|);
  }

  /** Shorter content is always read back exactly. */
  lemma ShortLiteralReadsBack(content: string, rest: string)
    requires |content| < 1138
    ensures ReadRaw(Literal(content) + rest) == Some((content, rest))
  {
    hide NeedsFallback, Literal, ReadRaw;
    if NeedsFallback(content) { FallbackIsLong(content); }
    LiteralReadsBack(content, rest);
  }
}
