/** Cutting a byte stream into lines, as both ends of the executor socket do
    (src/linux_fastcgi.cpp:344-353, 513-522): append what was read, then take
    every complete line off the front. */
module LineStream {
  import opened Text

  /** Index of the first newline, or the length. */
  function LineEnd(s: string): (n: nat)
    ensures n <= |s| && (n < |s| ==> s[n] == '\n') && forall i | 0 <= i < n :: s[i] != '\n'
  {
    Find(s, '\n', 0)
  }

  predicate HasLine(s: string) {
    LineEnd(s) < |s|
  }

  /** The complete lines of `s`, and the unfinished rest. */
  function Split(s: string): (seq<string>, string)
    decreases |s|
  {
    var n := LineEnd(s);
    if n == |s| then ([], s)
    else var more := Split(s[n + 1..]); ([s[..n]] + more.0, more.1)
  }

  predicate NoNewline(s: string) {
    Without(s, '\n')
  }

  lemma LineEndAt(body: string, rest: string)
    requires NoNewline(body)
    ensures LineEnd(body + "\n" + rest) == |body|
  {
    var s := body + "\n" + rest;
    var n := LineEnd(s);
    assert s[|body|] == '\n';
    assert forall i | 0 <= i < |body| :: s[i] == body[i];
  }

  lemma LineEndExtends(a: string, b: string)
    requires HasLine(a)
    ensures LineEnd(a + b) == LineEnd(a)
  {
    var n, m := LineEnd(a), LineEnd(a + b);
    assert (a + b)[n] == '\n';
    if m < n { assert (a + b)[m] == a[m]; }
  }

  /** Reassembly does not depend on where the stream is cut: reading `a` and then
      `b` yields the lines of `a + b`. */
  lemma {:induction false} SplitIndependentOfChunks(a: string, b: string)
    ensures var first := Split(a);
      var second := Split(first.1 + b);
      Split(a + b) == (first.0 + second.0, second.1)
    decreases |a|
  {
    hide Split;
    SplitOnce(a);
    SplitOnce(a + b);
    if HasLine(a) {
      var n := LineEnd(a);
      var rest := a[n + 1..];
      LineEndExtends(a, b);
      assert (a + b)[..n] == a[..n] && (a + b)[n + 1..] == rest + b;
      SplitIndependentOfChunks(rest, b);
      var second := Split(Split(rest).1 + b);
      assert [a[..n]] + Split(rest).0 + second.0 == [a[..n]] + (Split(rest).0 + second.0);
    } else {
      assert [] + Split(a + b).0 == Split(a + b).0;
    }
  }

  lemma SplitOnce(s: string)
    ensures !HasLine(s) ==> Split(s) == ([], s)
    ensures HasLine(s) ==> var n := LineEnd(s);
      Split(s) == ([s[..n]] + Split(s[n + 1..]).0, Split(s[n + 1..]).1)
  {
  }

  function Concat(chunks: seq<string>): string {
    if chunks == [] then "" else Concat(chunks[..|chunks| - 1]) + chunks[|chunks| - 1]
  }

  /** Takes every complete line off the front of the buffer. */
  method TakeLines(before: seq<string>, filled: string) returns (lines: seq<string>, buffer: string)
    ensures lines == before + Split(filled).0 && buffer == Split(filled).1
  {
    hide LineEnd;
    lines, buffer := before, filled;
    while HasLine(buffer)
      invariant lines + Split(buffer).0 == before + Split(filled).0 && Split(buffer).1 == Split(filled).1
      decreases |buffer|
    {
      SplitOnce(buffer);
      var end := LineEnd(buffer);
      assert lines + ([buffer[..end]] + Split(buffer[end + 1..]).0) == lines + [buffer[..end]] + Split(buffer[end
          + 1..]).0;
      lines := lines + [buffer[..end]];
      buffer := buffer[end + 1..];
    }
    SplitOnce(buffer);
    assert lines + [] == lines;
  }

  /** The read loop: feeding chunks one by one leaves the lines of the whole
      stream taken and its unfinished end in the buffer. */
  method ReadLines(chunks: seq<string>) returns (lines: seq<string>, buffer: string)
    ensures (lines, buffer) == Split(Concat(chunks))
  {
    lines, buffer := [], "";
    var k := 0;
    assert chunks[..0] == [];
    while k < |chunks|
      invariant k <= |chunks| && (lines, buffer) == Split(Concat(chunks[..k]))
    {
      SplitIndependentOfChunks(Concat(chunks[..k]), chunks[k]);
      assert chunks[..k + 1][..k] == chunks[..k];
      lines, buffer := TakeLines(lines, buffer + chunks[k]);
      k := k + 1;
    }
    assert chunks[..|chunks|] == chunks;
  }
}
