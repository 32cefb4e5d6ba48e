/** Turning a template into C++ (src/lib/compiler-parser.cpp:13-26, 68-121,
    193-222, 492-593): the character loop, and the segmentation it refines. */
module Template {
  import opened Text
  import opened CppLiteral

  // ----- the code's own idea of quotes and comments -----

  /** `escaped` is whether the character before is a backslash. */
  datatype Lex = Neutral | Quote(mark: char, escaped: bool) | LineComment | BlockComment

  /** The state after the token at the front of `s`, and the token's length. */
  function Token(st: Lex, s: string): (r: (Lex, nat))
    requires s != ""
    ensures 1 <= r.1 <= |s|
  {
    var c := s[0];
    match st
    case Quote(mark, escaped) => (if c == mark && !escaped then Neutral else Quote(mark, c == '\\'), 1)
    case LineComment => (if c == '\n' then Neutral else LineComment, 1)
    case BlockComment => if StartsWith(s, "*/") then (Neutral, 2) else (BlockComment, 1)
    case Neutral =>
      if StartsWith(s, "//") then (LineComment, 2)
      else if StartsWith(s, "/*") then (BlockComment, 2)
      else if c == '"' || c == '\'' then (Quote(c, false), 1)
      else (Neutral, 1)
  }

  /** `CompilerCodeState` */
  class CodeState {
    var quoteChar: char
    var insideQuote: bool
    var insideLineComment: bool
    var insideBlockComment: bool

    constructor ()
      ensures Valid() && IsNeutral()
    {
      quoteChar, insideQuote, insideLineComment, insideBlockComment := '\0', false, false, false;
    }

    /** At most one flag is up, and the mark is no backslash. */
    predicate Valid()
      reads this
    {
      && !(insideQuote && insideLineComment) && !(insideQuote && insideBlockComment)
      && !(insideLineComment && insideBlockComment)
      && quoteChar != '\\'
    }

    predicate IsNeutral()
      reads this
    {
      !insideQuote && !insideLineComment && !insideBlockComment
    }

    /** The state with which the character at `i` is met. */
    function At(content: string, i: nat): Lex
      requires i <= |content|
      reads this
    {
      if insideQuote then Quote(quoteChar, i > 0 && content[i - 1] == '\\')
      else if insideLineComment then LineComment
      else if insideBlockComment then BlockComment
      else Neutral
    }

    /** `compiler_code_state_consume`: the token at `i` goes to the buffer; the
        result is the index of its last character. */
    method Consume(buffer: string, content: string, i: nat) returns (longer: string, last: nat)
      requires Valid() && i < |content|
      modifies this
      ensures Valid() && i <= last < |content|
      ensures var t := Token(old(At(content, i)), content[i..]);
        last + 1 == i + t.1 && At(content, last + 1) == t.0 && longer == buffer + content[i..last + 1]
    {
      var c := content[i];
      var c1 := if i + 1 < |content| then content[i + 1] else '\0';
      longer, last := buffer + [c], i;
      if insideQuote {
        if quoteChar == c && (i == 0 || content[i - 1] != '\\') { insideQuote := false; }
        return;
      }
      if insideLineComment {
        if c == '\n' { insideLineComment := false; }
        return;
      }
      if insideBlockComment {
        if c == '*' && c1 == '/' {
          longer, last := longer + [c1], i + 1;
          insideBlockComment := false;
        }
        return;
      }
      if c == '/' && c1 == '/' {
        longer, last := longer + [c1], i + 1;
        insideLineComment := true;
        return;
      }
      if c == '/' && c1 == '*' {
        longer, last := longer + [c1], i + 1;
        insideBlockComment := true;
        return;
      }
      if c == '"' || c == '\'' {
        insideQuote := true;
        quoteChar := c;
      }
    }
  }

  // ----- segmentation -----

  /** A field ends at "?>", code also where markup begins. */
  predicate Ends(s: string, field: bool) {
    StartsWith(s, "?>") || (!field && StartsWith(s, "<>"))
  }

  /** How much of `s` is code. */
  function CodeEnd(st: Lex, s: string, field: bool): (n: nat)
    ensures n <= |s| && (n < |s| ==> Ends(s[n..], field) && n + 2 <= |s|)
    decreases |s|
  {
    if s == "" || (st.Neutral? && Ends(s, field)) then 0
    else
      var t := Token(st, s);
      var k := CodeEnd(t.0, s[t.1..], field);
      SliceTwice(s, t.1, k);
      t.1 + k
  }

  lemma SliceTwice(s: string, i: nat, k: nat)
    requires i + k <= |s|
    ensures s[i..][k..] == s[i + k..]
  {
  }

  predicate LeavesLiteral(s: string) {
    StartsWith(s, "<?") || StartsWith(s, "</>")
  }

  /** How much of `s` is literal text. */
  function LiteralEnd(s: string): (n: nat)
    ensures n <= |s| && (n < |s| ==> LeavesLiteral(s[n..])) && forall k | 0 <= k < n :: !LeavesLiteral(s[k..])
  {
    if s == "" || LeavesLiteral(s) then 0
    else
      assert forall k | 1 <= k <= |s| :: s[k..] == s[1..][k - 1..];
      assert forall k | 0 <= k <= |s| - 1 :: s[1..][k..] == s[k + 1..];
      1 + LiteralEnd(s[1..])
  }

  datatype Kind = Code | Literal | Escaped | Verbatim

  /** A stretch of the source and the delimiter that ends it; "" at the end. */
  datatype Segment = Segment(kind: Kind, text: string, close: string)

  function CodeSegments(s: string): seq<Segment>
    decreases |s|
  {
    var n := CodeEnd(Neutral, s, false);
    if n == |s| then [Segment(Code, s, "")]
    else [Segment(Code, s[..n], s[n..n + 2])] + LiteralSegments(s[n + 2..])
  }

  predicate IsField(s: string) {
    StartsWith(s, "<?=") || StartsWith(s, "<?:")
  }

  function LiteralSegments(s: string): seq<Segment>
    decreases |s|
  {
    var n := LiteralEnd(s);
    if n == |s| then [Segment(Literal, s, "")]
    else if IsField(s[n..]) then
      var body := s[n + 3..];
      var m := CodeEnd(Neutral, body, true);
      var kind := if s[n + 2] == '=' then Escaped else Verbatim;
      [Segment(Literal, s[..n], s[n..n + 3]), Segment(kind, body[..m], FieldClose(body,
          m))] + LiteralSegments(Behind(body, m))
    else if StartsWith(s[n..], "<?") then [Segment(Literal, s[..n], "<?")] + CodeSegments(s[n + 2..])
    else [Segment(Literal, s[..n], "</>")] + CodeSegments(s[n + 3..])
  }

  function FieldClose(body: string, m: nat): string
    requires m <= |body|
  {
    if m == |body| then "" else "?>"
  }

  /** What follows the two characters at `m`, if there are any. */
  function Behind(body: string, m: nat): string
    requires m == |body| || m + 2 <= |body|
  {
    if m == |body| then "" else body[m + 2..]
  }

  // ----- the C++ each segment becomes -----

  /** `compiler_append_text_literal_output` */
  function PrintText(text: string): string {
    if text == "" then "" else "print(" + CppLiteral.Literal(text) + ");"
  }

  function Emit(g: Segment): string {
    match g.kind
    case Code => g.text
    case Literal => PrintText(g.text)
    case Escaped => "print(html_escape( " + g.text + " )); "
    case Verbatim => "print( " + g.text + " ); "
  }

  function EmitAll(gs: seq<Segment>): string {
    if gs == [] then "" else Emit(gs[0]) + EmitAll(gs[1..])
  }

  // ----- nothing is lost or reordered -----

  function Rebuild(gs: seq<Segment>): string {
    if gs == [] then "" else gs[0].text + gs[0].close + Rebuild(gs[1..])
  }

  lemma RebuildOne(g: Segment, more: seq<Segment>)
    ensures Rebuild([g] + more) == g.text + g.close + Rebuild(more)
  {
    assert ([g] + more)[1..] == more;
  }

  /** The segments with their delimiters, in order, are the source. */
  lemma {:induction false} CodeRebuilds(s: string)
    ensures Rebuild(CodeSegments(s)) == s
    decreases |s|
  {
    hide Rebuild, CodeEnd, LiteralSegments;
    var n := CodeEnd(Neutral, s, false);
    if n == |s| {
      RebuildOne(Segment(Code, s, ""), []);
      RebuildNone();
      assert [Segment(Code, s, "")] + [] == [Segment(Code, s, "")];
    } else {
      LiteralRebuilds(s[n + 2..]);
      RebuildOne(Segment(Code, s[..n], s[n..n + 2]), LiteralSegments(s[n + 2..]));
      ThreeParts(s, n, n + 2);
    }
  }

  lemma RebuildNone()
    ensures Rebuild([]) == ""
  {
  }

  lemma ThreeParts(s: string, i: nat, j: nat)
    requires i <= j <= |s|
    ensures s[..i] + s[i..j] + s[j..] == s
  {
  }

  lemma {:induction false} LiteralRebuilds(s: string)
    ensures Rebuild(LiteralSegments(s)) == s
    decreases |s|
  {
    hide Rebuild, CodeEnd, CodeSegments, LiteralEnd;
    var n := LiteralEnd(s);
    if n == |s| {
      RebuildOne(Segment(Literal, s, ""), []);
      RebuildNone();
      assert [Segment(Literal, s, "")] + [] == [Segment(Literal, s, "")];
    } else if IsField(s[n..]) {
      FieldRebuilds(s, n);
    } else if StartsWith(s[n..], "<?") {
      CodeRebuilds(s[n + 2..]);
      RebuildOne(Segment(Literal, s[..n], "<?"), CodeSegments(s[n + 2..]));
      assert s[n..n + 2] == s[n..][..2];
      ThreeParts(s, n, n + 2);
    } else {
      CodeRebuilds(s[n + 3..]);
      RebuildOne(Segment(Literal, s[..n], "</>"), CodeSegments(s[n + 3..]));
      assert s[n..n + 3] == s[n..][..3];
      ThreeParts(s, n, n + 3);
    }
  }

  lemma FieldRebuilds(s: string, n: nat)
    requires n == LiteralEnd(s) < |s| && IsField(s[n..])
    ensures Rebuild(LiteralSegments(s)) == s
    decreases |s|, 0
  {
    hide Rebuild, CodeEnd, LiteralEnd, LiteralSegments, FieldClose, Behind;
    var body := s[n + 3..];
    var m := CodeEnd(Neutral, body, true);
    var kind := if s[n + 2] == '=' then Escaped else Verbatim;
    var rest := Behind(body, m);
    var first, second := Segment(Literal, s[..n], s[n..n + 3]), Segment(kind, body[..m], FieldClose(body, m));
    FieldSegments(s, n);
    BehindIsShorter(body, m);
    LiteralRebuilds(rest);
    RebuildOne(second, LiteralSegments(rest));
    RebuildOne(first, [second] + LiteralSegments(rest));
    ThreeParts(s, n, n + 3);
  }

  lemma FieldSegments(s: string, n: nat)
    requires n == LiteralEnd(s) < |s| && IsField(s[n..])
    ensures var body := s[n + 3..];
      var m := CodeEnd(Neutral, body, true);
      var kind := if s[n + 2] == '=' then Escaped else Verbatim;
      LiteralSegments(s) == [Segment(Literal, s[..n], s[n..n + 3])] + ([Segment(kind, body[..m], FieldClose(body,
          m))] + LiteralSegments(Behind(body, m)))
  {
    hide CodeEnd, LiteralEnd, CodeSegments, FieldClose, Behind, LeavesLiteral;
    var body := s[n + 3..];
    var m := CodeEnd(Neutral, body, true);
    var kind := if s[n + 2] == '=' then Escaped else Verbatim;
    TwoThenMore(Segment(Literal, s[..n], s[n..n + 3]), Segment(kind, body[..m], FieldClose(body, m)),
        LiteralSegments(Behind(body, m)));
  }

  lemma TwoThenMore(a: Segment, b: Segment, more: seq<Segment>)
    ensures [a, b] + more == [a] + ([b] + more)
  {
  }

  lemma BehindIsShorter(body: string, m: nat)
    requires m == CodeEnd(Neutral, body, true)
    ensures |Behind(body, m)| <= |body| && body[..m] + FieldClose(body, m) + Behind(body, m) == body
  {
    hide CodeEnd;
    if m < |body| {
      assert body[m..m + 2] == body[m..][..2];
      ThreeParts(body, m, m + 2);
    }
  }

  // ----- delimiters inside quotes and comments are inert -----

  /** The state in which the character at `i` is met; None inside a token. */
  function LexAt(st: Lex, s: string, i: nat): Option<Lex>
    decreases |s|
  {
    if i == 0 then Some(st)
    else if s == "" then None
    else
      var t := Token(st, s);
      if i < t.1 then None else LexAt(t.0, s[t.1..], i - t.1)
  }

  /** Code ends at the first delimiter that is met outside of quotes and comments,
      and at no other. */
  lemma {:induction false} CodeEndIsFirst(st: Lex, s: string, field: bool)
    ensures var n := CodeEnd(st, s, field);
      && (n < |s| ==> LexAt(st, s, n) == Some(Neutral))
      && forall i | 0 <= i < n :: LexAt(st, s, i) == Some(Neutral) ==> !Ends(s[i..], field)
    decreases |s|
  {
    hide *;
    var n := CodeEnd(st, s, field);
    if s == "" || (st.Neutral? && Ends(s, field)) {
      CodeEndHere(st, s, field);
      LexAtStart(st, s);
    } else {
      var t := Token(st, s);
      var rest := s[t.1..];
      CodeEndIsFirst(t.0, rest, field);
      CodeEndStep(st, s, field);
      LexAtStart(st, s);
      forall i | 0 <= i < n && LexAt(st, s, i) == Some(Neutral) ensures !Ends(s[i..], field) {
        if i > 0 { LexAtStep(st, s, i); }
        if i >= t.1 {
          assert rest[i - t.1..] == s[i..];
        } else {
          assert s[0..] == s;
        }
      }
      LexAtStep(st, s, n);
    }
  }

  lemma LexAtStart(st: Lex, s: string)
    ensures LexAt(st, s, 0) == Some(st)
  {
  }

  lemma LexAtStep(st: Lex, s: string, i: nat)
    requires s != "" && i > 0
    ensures var t := Token(st, s);
      LexAt(st, s, i) == if i < t.1 then None else LexAt(t.0, s[t.1..], i - t.1)
  {
    hide Token;
  }

  lemma CodeEndStep(st: Lex, s: string, field: bool)
    requires s != "" && !(st.Neutral? && Ends(s, field))
    ensures CodeEnd(st, s, field) == Token(st, s).1 + CodeEnd(Token(st, s).0, s[Token(st, s).1..], field)
  {
    hide Token, Ends;
  }

  lemma CodeEndHere(st: Lex, s: string, field: bool)
    ensures s == "" || (st.Neutral? && Ends(s, field)) ==> CodeEnd(st, s, field) == 0
  {
    hide Ends;
  }

  // ----- the loop -----

  function CodeOut(st: Lex, s: string): string {
    var n := CodeEnd(st, s, false);
    s[..n] + if n == |s| then "" else EmitAll(LiteralSegments(s[n + 2..]))
  }

  function FieldText(escape: bool, text: string): string {
    if escape then "print(html_escape( " + text + " )); " else "print( " + text + " ); "
  }

  function AfterLiteral(s: string): string
    requires LeavesLiteral(s)
  {
    if IsField(s) then
      var body := s[3..];
      var m := CodeEnd(Neutral, body, true);
      FieldText(s[2] == '=', body[..m]) + EmitAll(LiteralSegments(Behind(body, m)))
    else if StartsWith(s, "<?") then EmitAll(CodeSegments(s[2..]))
    else EmitAll(CodeSegments(s[3..]))
  }

  function LiteralOut(buffer: string, s: string): string {
    var n := LiteralEnd(s);
    PrintText(buffer + s[..n]) + if n == |s| then "" else AfterLiteral(s[n..])
  }

  lemma EmitOne(g: Segment, more: seq<Segment>)
    ensures EmitAll([g] + more) == Emit(g) + EmitAll(more)
  {
    assert ([g] + more)[1..] == more;
  }

  lemma CodeOutStarts(s: string)
    ensures EmitAll(CodeSegments(s)) == CodeOut(Neutral, s)
  {
    hide EmitAll, CodeEnd, LiteralSegments;
    var n := CodeEnd(Neutral, s, false);
    if n == |s| {
      EmitOne(Segment(Code, s, ""), []);
      EmitNone();
      assert [Segment(Code, s, "")] + [] == [Segment(Code, s, "")];
    } else {
      EmitOne(Segment(Code, s[..n], s[n..n + 2]), LiteralSegments(s[n + 2..]));
    }
  }

  lemma EmitNone()
    ensures EmitAll([]) == ""
  {
  }

  lemma LiteralOutStarts(s: string)
    ensures EmitAll(LiteralSegments(s)) == LiteralOut("", s)
  {
    hide EmitAll, CodeEnd, LiteralEnd, CodeSegments, LiteralSegments, PrintText;
    var n := LiteralEnd(s);
    assert "" + s[..n] == s[..n];
    LiteralSegmentsAre(s);
    if n == |s| {
      assert s[..n] == s;
      EmitOne(Segment(Literal, s, ""), []);
      EmitNone();
    } else if IsField(s[n..]) {
      FieldOutStarts(s, n);
    } else if StartsWith(s[n..], "<?") {
      EmitOne(Segment(Literal, s[..n], "<?"), CodeSegments(s[n + 2..]));
      assert s[n..][2..] == s[n + 2..];
    } else {
      EmitOne(Segment(Literal, s[..n], "</>"), CodeSegments(s[n + 3..]));
      assert s[n..][3..] == s[n + 3..];
    }
  }

  lemma LiteralSegmentsAre(s: string)
    ensures var n := LiteralEnd(s);
      && (n == |s| ==> LiteralSegments(s) == [Segment(Literal, s, "")] + [])
      && (n < |s| && !IsField(s[n..]) ==>
            LiteralSegments(s) == if StartsWith(s[n..], "<?") then [Segment(Literal, s[..n],
                "<?")] + CodeSegments(s[n + 2..])
              else [Segment(Literal, s[..n], "</>")] + CodeSegments(s[n + 3..]))
  {
    hide LiteralEnd, CodeSegments, CodeEnd;
  }

  lemma FieldOutStarts(s: string, n: nat)
    requires n == LiteralEnd(s) < |s| && IsField(s[n..])
    ensures EmitAll(LiteralSegments(s)) == PrintText(s[..n]) + AfterLiteral(s[n..])
  {
    hide EmitAll, CodeEnd, LiteralEnd, CodeSegments, LiteralSegments, PrintText, Behind, FieldClose;
    var body := s[n + 3..];
    assert s[n..][3..] == body && s[n..][2] == s[n + 2];
    var m := CodeEnd(Neutral, body, true);
    var kind := if s[n + 2] == '=' then Escaped else Verbatim;
    var more := LiteralSegments(Behind(body, m));
    FieldSegments(s, n);
    EmitOne(Segment(Literal, s[..n], s[n..n + 3]), [Segment(kind, body[..m], FieldClose(body, m))] + more);
    EmitOne(Segment(kind, body[..m], FieldClose(body, m)), more);
  }

  lemma CodeOutStep(st: Lex, s: string)
    requires s != "" && !(st.Neutral? && Ends(s, false))
    ensures var t := Token(st, s);
      CodeOut(st, s) == s[..t.1] + CodeOut(t.0, s[t.1..])
  {
    hide Token, Ends, LiteralSegments, EmitAll, CodeEnd;
    var t := Token(st, s);
    var rest := s[t.1..];
    CodeEndStep(st, s, false);
    var k := CodeEnd(t.0, rest, false);
    assert s[..t.1 + k] == s[..t.1] + rest[..k];
    if k < |rest| { assert s[t.1 + k + 2..] == rest[k + 2..]; }
  }

  lemma CodeOutLeaves(s: string)
    requires Ends(s, false)
    ensures CodeOut(Neutral, s) == LiteralOut("", s[2..])
  {
    hide LiteralOut;
    LiteralOutStarts(s[2..]);
  }

  lemma LiteralOutStep(buffer: string, s: string)
    requires s != "" && !LeavesLiteral(s)
    ensures LiteralOut(buffer, s) == LiteralOut(buffer + [s[0]], s[1..])
  {
    hide PrintText, AfterLiteral;
    var k := LiteralEnd(s[1..]);
    assert buffer + s[..1 + k] == buffer + [s[0]] + s[1..][..k];
    assert s[1..][k..] == s[1 + k..];
  }

  lemma LiteralOutLeaves(buffer: string, s: string)
    requires LeavesLiteral(s) || s == ""
    ensures LiteralOut(buffer, s) == PrintText(buffer) + if s == "" then "" else AfterLiteral(s)
  {
    hide PrintText, AfterLiteral;
    assert buffer + s[..0] == buffer && s[0..] == s;
  }

  /** What is left from `i` on; the index may stand one past the end. */
  function From(content: string, i: nat): string {
    if i <= |content| then content[i..] else ""
  }

  /** `compiler_capture_code_until_php_close`; the index ends on the last character
      of the delimiter, or at the end. */
  method CaptureField(content: string, start: nat) returns (buffer: string, i: nat)
    requires start <= |content|
    ensures var n := CodeEnd(Neutral, content[start..], true);
      && buffer == content[start..start + n]
      && i == if start + n == |content| then |content| else start + n + 1
  {
    hide CodeEnd, Token, Ends, StartsWith;
    var state := new CodeState();
    buffer, i := "", start;
    while i < |content|
      invariant start <= i <= |content| && fresh(state) && state.Valid()
      invariant buffer == content[start..i]
      invariant i + CodeEnd(state.At(content, i), content[i..], true) == start + CodeEnd(Neutral, content[start..],
          true)
    {
      CodeEndHere(state.At(content, i), content[i..], true);
      EndsHere(content, i);
      if state.IsNeutral() && content[i] == '?' && (if i + 1 < |content| then content[i + 1] else '\0') == '>' {
        i := i + 1;
        return;
      }
      CodeEndStep(state.At(content, i), content[i..], true);
      ghost var at := i;
      buffer, i := state.Consume(buffer, content, i);
      i := i + 1;
      assert content[at..][i - at..] == content[i..];
    }
    CodeEndHere(state.At(content, i), content[i..], true);
  }

  lemma EndsHere(content: string, i: nat)
    requires i < |content|
    ensures var c1 := if i + 1 < |content| then content[i + 1] else '\0';
      && (Ends(content[i..], true) <==> content[i] == '?' && c1 == '>')
      && (Ends(content[i..], false) <==> (content[i] == '?' && c1 == '>') || (content[i] == '<' && c1 == '>'))
  {
  }

  lemma LeavesHere(content: string, i: nat)
    requires i < |content|
    ensures var c, c1, c2 := content[i], (if i + 1 < |content| then content[i + 1] else '\0'),
        (if i + 2 < |content| then content[i + 2] else '\0');
      && (IsField(content[i..]) <==> c == '<' && c1 == '?' && (c2 == '=' || c2 == ':'))
      && (StartsWith(content[i..], "<?") <==> c == '<' && c1 == '?')
      && (StartsWith(content[i..], "</>") <==> c == '<' && c1 == '/' && c2 == '>')
      && (LeavesLiteral(content[i..]) <==> c == '<' && (c1 == '?' || (c1 == '/' && c2 == '>')))
      && (c == '<' && c1 == '?' ==> i + 2 <= |content|) && (c1 == '/' && c2 == '>' ==> i + 3 <= |content|)
      && (c1 == '?' && (c2 == '=' || c2 == ':') ==> i + 3 <= |content|)
  {
  }

  // ----- lines of code that are rewritten -----

  /** A line of code, with its end, of which the loop makes something else. */
  predicate Rewritten(line: string) {
    StartsWith(line, "#load ") || var t := Trim(line); |t| > 7 && t[..6] == "EXPORT" && IsSpace(t[6])
  }

  /** There is such a line in the code from here on or behind it; `line` is what the
      loop has gathered of this one, the first character of each token. */
  predicate CodeRewrites(st: Lex, s: string, line: string)
    decreases |s|, 0
  {
    if s == "" then false
    else if st.Neutral? && Ends(s, false) then LiteralRewrites(s[2..])
    else
      var t := Token(st, s);
      if s[0] != '\n' then CodeRewrites(t.0, s[t.1..], line + [s[0]])
      else Rewritten(line + [s[0]]) || CodeRewrites(t.0, s[t.1..], "")
  }

  predicate LiteralRewrites(s: string)
    decreases |s|, 2
  {
    var n := LiteralEnd(s);
    n < |s| && LeftRewrites(s[n..])
  }

  /** Where a literal is left. */
  predicate LeftRewrites(s: string)
    requires LeavesLiteral(s)
    decreases |s|, 1
  {
    if IsField(s) then LiteralRewrites(Behind(s[3..], CodeEnd(Neutral, s[3..], true)))
    else if StartsWith(s, "<?") then CodeRewrites(Neutral, s[2..], "")
    else CodeRewrites(Neutral, s[3..], "")
  }

  lemma LiteralRewritesHere(s: string)
    ensures s == "" ==> !LiteralRewrites(s)
    ensures LeavesLiteral(s) ==> LiteralRewrites(s) == LeftRewrites(s)
    ensures s != "" && !LeavesLiteral(s) ==> LiteralRewrites(s) == LiteralRewrites(s[1..])
  {
    hide LeftRewrites, LeavesLiteral;
    LiteralEndHere(s);
    assert s[0..] == s;
    if s != "" { assert s[1..][LiteralEnd(s[1..])..] == s[1 + LiteralEnd(s[1..])..]; }
  }

  lemma LiteralEndHere(s: string)
    ensures s == "" || LeavesLiteral(s) ==> LiteralEnd(s) == 0
    ensures s != "" && !LeavesLiteral(s) ==> LiteralEnd(s) == 1 + LiteralEnd(s[1..])
    ensures LeavesLiteral(s) ==> s != ""
  {
  }

  lemma CodeRewritesHere(st: Lex, s: string, line: string)
    requires s != ""
    ensures st.Neutral? && Ends(s, false) ==> CodeRewrites(st, s, line) == LiteralRewrites(s[2..])
    ensures !(st.Neutral? && Ends(s, false)) ==>
      var t := Token(st, s);
      var grown := line + [s[0]];
      CodeRewrites(st, s, line) ==
        if s[0] != '\n' then CodeRewrites(t.0, s[t.1..], grown) else Rewritten(grown) || CodeRewrites(t.0, s[t.1..], "")
  {
    hide LiteralRewrites, Rewritten, Token;
  }

  /** `compiler_preprocess_shared_unit_char_wise` behind the prelude `head`: for a
      source with no line of code that is rewritten, the loop over characters yields
      the C++ of the segments, in order; at the first such line it is left here. */
  method Preprocess(content: string, head: string) returns (parsed: string, rewrites: bool)
    ensures rewrites == CodeRewrites(Neutral, content, "")
    ensures !rewrites ==> parsed == head + EmitAll(CodeSegments(content))
  {
    hide CodeOut, LiteralOut, Token, EmitAll, CodeSegments, PrintText, Ends, CodeRewrites, LiteralRewrites, Rewritten;
    ghost var whole := head + EmitAll(CodeSegments(content));
    ghost var met := CodeRewrites(Neutral, content, "");
    parsed, rewrites := head, false;
    var state := new CodeState();
    var currentLine := "";
    var buffer := "";
    var insideLiteral := false;
    var i := 0;
    CodeOutStarts(content);
    assert content[0..] == content;
    while i < |content|
      invariant i <= |content| + 1 && fresh(state) && state.Valid()
      invariant insideLiteral ==> state.IsNeutral() && whole == parsed + LiteralOut(buffer, From(content, i))
      invariant !insideLiteral ==> i <= |content| && whole == parsed + CodeOut(state.At(content, i), content[i..])
      invariant insideLiteral ==> currentLine == "" && met == LiteralRewrites(From(content, i))
      invariant !insideLiteral ==> met == CodeRewrites(state.At(content, i), content[i..], currentLine)
    {
      if insideLiteral {
        parsed, buffer, insideLiteral, i := LiteralStep(content, parsed, buffer, i, whole);
        if !insideLiteral { state := new CodeState(); }
      } else {
        EndsHere(content, i);
        CodeRewritesHere(state.At(content, i), content[i..], currentLine);
        var c1 := if i + 1 < |content| then content[i + 1] else '\0';
        if state.IsNeutral() && ((content[i] == '<' && c1 == '>') || (content[i] == '?' && c1 == '>')) {
          CodeOutLeaves(content[i..]);
          assert content[i..][2..] == content[i + 2..] by { assert i + 2 <= |content|; }
          insideLiteral, buffer, currentLine := true, "", "";
          i := i + 1;
        } else {
          CodeOutStep(state.At(content, i), content[i..]);
          var at := i;
          currentLine := currentLine + [content[i]];
          parsed, i := state.Consume(parsed, content, i);
          assert content[at..][..i + 1 - at] == content[at..i + 1];
          assert content[at..][i + 1 - at..] == content[i + 1..];
          if content[at] == '\n' {
            if Rewritten(currentLine) { return parsed, true; }
            currentLine := "";
          }
        }
        i := i + 1;
      }
    }
    NothingRewrites(state.At(content, |content|), currentLine);
    if insideLiteral {
      LiteralOutLeaves(buffer, "");
      parsed := AppendLiteral(parsed, buffer);
    } else {
      CodeOutEnds(state.At(content, i));
    }
  }

  lemma NothingRewrites(st: Lex, line: string)
    ensures !CodeRewrites(st, "", line) && !LiteralRewrites("")
  {
  }

  lemma CodeOutEnds(st: Lex)
    ensures CodeOut(st, "") == ""
  {
  }

  method AppendLiteral(parsed: string, buffer: string) returns (longer: string)
    ensures longer == parsed + PrintText(buffer)
  {
    if buffer == "" { return parsed; }
    longer := parsed + ("print(" + CppLiteral.Literal(buffer) + ");");
  }

  lemma LiteralLeft(content: string, buffer: string, i: nat)
    requires i < |content| && LeavesLiteral(content[i..])
    ensures LiteralOut(buffer, content[i..]) == PrintText(buffer) + AfterLiteral(content[i..])
    ensures LiteralRewrites(content[i..]) == LeftRewrites(content[i..])
  {
    hide LiteralOut, PrintText, AfterLiteral, LiteralRewrites, LeftRewrites;
    LiteralOutLeaves(buffer, content[i..]);
    LiteralRewritesHere(content[i..]);
  }

  lemma LiteralGoesOn(content: string, buffer: string, i: nat)
    requires i < |content| && !LeavesLiteral(content[i..])
    ensures LiteralOut(buffer, content[i..]) == LiteralOut(buffer + [content[i]], From(content, i + 1))
    ensures LiteralRewrites(content[i..]) == LiteralRewrites(From(content, i + 1))
  {
    hide LiteralOut, LiteralRewrites, LeavesLiteral;
    assert content[i..][1..] == content[i + 1..];
    LiteralOutStep(buffer, content[i..]);
    LiteralRewritesHere(content[i..]);
  }

  /** One turn of the loop inside a literal. */
  method LiteralStep(content: string, parsed: string, buffer: string, i: nat, ghost whole: string)
    returns (longer: string, rest: string, insideLiteral: bool, next: nat)
    requires i < |content| && whole == parsed + LiteralOut(buffer, content[i..])
    ensures i < next <= |content| + 1
    ensures insideLiteral ==> whole == longer + LiteralOut(rest, From(content, next))
    ensures !insideLiteral ==> next <= |content| && whole == longer + CodeOut(Neutral, content[next..])
    ensures LiteralRewrites(content[i..]) ==
      if insideLiteral then LiteralRewrites(From(content, next))
      else next <= |content| && CodeRewrites(Neutral, content[next..], "")
  {
    hide LiteralRewrites, CodeRewrites, LeftRewrites, CodeOut, LiteralOut, EmitAll, CodeSegments, LiteralSegments,
      PrintText, CodeEnd, AfterLiteral, Behind, FieldText, LeavesLiteral, IsField, StartsWith;
    var c1 := if i + 1 < |content| then content[i + 1] else '\0';
    var c2 := if i + 2 < |content| then content[i + 2] else '\0';
    LeavesHere(content, i);
    if content[i] == '<' && c1 == '?' && (c2 == '=' || c2 == ':') {
      LiteralLeft(content, buffer, i);
      longer := AppendLiteral(parsed, buffer);
      var field;
      field, next := FieldStep(content, i, c2 == '=');
      longer := longer + field;
      rest, insideLiteral, next := "", true, next + 1;
    } else if content[i] == '<' && c1 == '?' {
      LiteralLeft(content, buffer, i);
      CodeLeft(content, i, 2);
      longer := AppendLiteral(parsed, buffer);
      rest, insideLiteral, next := "", false, i + 2;
    } else if content[i] == '<' && c1 == '/' && c2 == '>' {
      LiteralLeft(content, buffer, i);
      CodeLeft(content, i, 3);
      longer := AppendLiteral(parsed, buffer);
      rest, insideLiteral, next := "", false, i + 3;
    } else {
      LiteralGoesOn(content, buffer, i);
      longer, rest, insideLiteral, next := parsed, buffer + [content[i]], true, i + 1;
    }
  }

  method FieldStep(content: string, i: nat, escape: bool) returns (text: string, next: nat)
    requires i + 3 <= |content| && IsField(content[i..]) && escape == (content[i + 2] == '=')
    ensures i < next <= |content|
    ensures AfterLiteral(content[i..]) == text + LiteralOut("", From(content, next + 1))
    ensures LeftRewrites(content[i..]) == LiteralRewrites(From(content, next + 1))
  {
    hide LeftRewrites, LiteralRewrites, LiteralOut, LiteralSegments, EmitAll, CodeEnd, AfterLiteral, FieldText, From;
    var code;
    code, next := CaptureField(content, i + 3);
    FieldLeft(content, i, next);
    text := FieldText(escape, code);
  }

  lemma FieldLeft(content: string, i: nat, next: nat)
    requires i < |content| && IsField(content[i..])
    requires var n := CodeEnd(Neutral, content[i + 3..], true);
      next == if i + 3 + n == |content| then |content| else i + 3 + n + 1
    ensures var n := CodeEnd(Neutral, content[i + 3..], true);
      && i < next <= |content|
      && AfterLiteral(content[i..]) == FieldText(content[i + 2] == '=', content[i + 3..i + 3 + n]) + LiteralOut("",
          From(content, next + 1))
      && LeftRewrites(content[i..]) == LiteralRewrites(From(content, next + 1))
  {
    hide LiteralRewrites, CodeRewrites, LiteralOut, LiteralSegments, EmitAll, CodeEnd, FieldText;
    var body := content[i + 3..];
    var n := CodeEnd(Neutral, body, true);
    assert content[i..][3..] == body && body[..n] == content[i + 3..i + 3 + n];
    LiteralOutStarts(Behind(body, n));
    if n < |body| { assert body[n + 2..] == content[next + 1..]; }
  }

  lemma CodeLeft(content: string, i: nat, k: nat)
    requires i + k <= |content| && LeavesLiteral(content[i..]) && !IsField(content[i..])
    requires k == if StartsWith(content[i..], "<?") then 2 else 3
    ensures AfterLiteral(content[i..]) == CodeOut(Neutral, content[i + k..])
    ensures LeftRewrites(content[i..]) == CodeRewrites(Neutral, content[i + k..], "")
  {
    hide CodeRewrites, CodeOut, CodeSegments, EmitAll, CodeEnd;
    CodeOutStarts(content[i + k..]);
    assert content[i..][k..] == content[i + k..];
  }

  // ----- line numbers -----

  function Newlines(s: string): nat {
    if s == "" then 0 else Newlines(s[..|s| - 1]) + if s[|s| - 1] == '\n' then 1 else 0
  }

  lemma {:induction false} NewlinesAdd(a: string, b: string)
    ensures Newlines(a + b) == Newlines(a) + Newlines(b)
  {
    if b == "" {
      assert a + b == a;
    } else {
      NewlinesAdd(a, b[..|b| - 1]);
      assert (a + b)[..|a + b| - 1] == a + b[..|b| - 1];
    }
  }

  lemma {:induction false} NoNewlines(s: string)
    requires Without(s, '\n')
    ensures Newlines(s) == 0
  {
    if s != "" { NoNewlines(s[..|s| - 1]); }
  }

  lemma Wrapped(front: string, text: string, back: string)
    requires Without(front, '\n') && Without(back, '\n')
    ensures Newlines(front + text + back) == Newlines(text)
  {
    NewlinesAdd(front + text, back);
    NewlinesAdd(front, text);
    NoNewlines(front);
    NoNewlines(back);
  }

  lemma DelimiterOnOneLine(content: string)
    ensures Without(Delimiter(content), '\n')
  {
    hide Candidates, Contains, Terminator;
    var c := Candidates(content);
    FirstFreeIs(c, content);
    if Delimiter(content) in c {
      var k :| 0 <= k < |c| && c[k] == Delimiter(content);
      CandidatesLegal(content, k);
    }
  }

  lemma LiteralKeepsLines(text: string)
    requires !NeedsFallback(text)
    ensures Newlines(PrintText(text)) == Newlines(text)
  {
    hide Delimiter, NeedsFallback, Newlines;
    if text != "" {
      DelimiterOnOneLine(text);
      PrintTextIs(text);
      Wrapped("print(R\"" + Delimiter(text) + "(", text, ")" + Delimiter(text) + "\");");
    }
  }

  lemma PrintTextIs(text: string)
    requires text != "" && !NeedsFallback(text)
    ensures PrintText(text) == "print(R\"" + Delimiter(text) + "(" + text + (")" + Delimiter(text) + "\");")
  {
    hide Delimiter, NeedsFallback;
    Reassociated(Delimiter(text), text);
  }

  lemma Reassociated(d: string, text: string)
    ensures "print(" + ("R\"" + d + "(" + text + ")" + d + "\"") + ");" == "print(R\"" + d + "(" + text + (")" + d
        + "\");")
  {
  }

  /** Every literal is printed as a raw string; `FallbackIsLong` says when not. */
  ghost predicate AllRaw(gs: seq<Segment>) {
    forall g | g in gs :: g.kind == Literal ==> !NeedsFallback(g.text)
  }

  ghost predicate ClosedOnOneLine(gs: seq<Segment>) {
    forall g | g in gs :: Without(g.close, '\n')
  }

  lemma EmitKeepsLines(g: Segment)
    requires g.kind == Literal ==> !NeedsFallback(g.text)
    ensures Newlines(Emit(g)) == Newlines(g.text)
  {
    hide PrintText, Newlines;
    match g.kind
    case Code =>
    case Literal => LiteralKeepsLines(g.text);
    case Escaped => Wrapped("print(html_escape( ", g.text, " )); ");
    case Verbatim => Wrapped("print( ", g.text, " ); ");
  }

  lemma {:induction false} EmitAllKeepsLines(gs: seq<Segment>)
    requires AllRaw(gs) && ClosedOnOneLine(gs)
    ensures Newlines(EmitAll(gs)) == Newlines(Rebuild(gs))
  {
    if gs != [] {
      hide Newlines, Emit, NeedsFallback;
      EmitAllKeepsLines(gs[1..]);
      assert gs[0] in gs;
      EmitKeepsLines(gs[0]);
      NoNewlines(gs[0].close);
      NewlinesAdd(Emit(gs[0]), EmitAll(gs[1..]));
      NewlinesAdd(gs[0].text + gs[0].close, Rebuild(gs[1..]));
      NewlinesAdd(gs[0].text, gs[0].close);
    }
  }

  lemma {:induction false} CodeCloses(s: string)
    ensures ClosedOnOneLine(CodeSegments(s))
    decreases |s|
  {
    hide CodeEnd, LiteralSegments;
    var n := CodeEnd(Neutral, s, false);
    if n < |s| {
      assert Without(s[n..n + 2], '\n') by { assert s[n..n + 2] == s[n..][..2]; }
      LiteralCloses(s[n + 2..]);
    }
  }

  lemma {:induction false} LiteralCloses(s: string)
    ensures ClosedOnOneLine(LiteralSegments(s))
    decreases |s|
  {
    hide CodeEnd, CodeSegments, LiteralSegments, LiteralEnd, Behind;
    var n := LiteralEnd(s);
    LiteralSegmentsAre(s);
    if n < |s| {
      if IsField(s[n..]) {
        FieldSegments(s, n);
        assert Without(s[n..n + 3], '\n') by { assert s[n..n + 3] == s[n..][..3]; }
        var body := s[n + 3..];
        BehindIsShorter(body, CodeEnd(Neutral, body, true));
        LiteralCloses(Behind(body, CodeEnd(Neutral, body, true)));
      } else if StartsWith(s[n..], "<?") {
        CodeCloses(s[n + 2..]);
      } else {
        CodeCloses(s[n + 3..]);
      }
    }
  }

  /** Behind `#line 1`, every character of code stands on the line on which it
      stands in the source. */
  lemma CodeKeepsItsLine(source: string, k: nat, j: nat)
    requires k < |CodeSegments(source)| && j <= |CodeSegments(source)[k].text| && AllRaw(CodeSegments(source))
    ensures var gs := CodeSegments(source);
      && Newlines(EmitAll(gs[..k]) + gs[k].text[..j]) == Newlines(Rebuild(gs[..k]) + gs[k].text[..j])
      && EmitAll(gs) == EmitAll(gs[..k]) + EmitAll(gs[k..])
      && source == Rebuild(gs[..k]) + Rebuild(gs[k..])
  {
    hide CodeSegments, Newlines, NeedsFallback, EmitAll, Rebuild;
    var gs := CodeSegments(source);
    CodeCloses(source);
    CodeRebuilds(source);
    EmitAllKeepsLines(gs[..k]);
    NewlinesAdd(EmitAll(gs[..k]), gs[k].text[..j]);
    NewlinesAdd(Rebuild(gs[..k]), gs[k].text[..j]);
    assert gs[..k] + gs[k..] == gs;
    Splits(gs[..k], gs[k..]);
  }

  lemma {:induction false} Splits(a: seq<Segment>, b: seq<Segment>)
    ensures EmitAll(a + b) == EmitAll(a) + EmitAll(b) && Rebuild(a + b) == Rebuild(a) + Rebuild(b)
  {
    hide EmitAll, Rebuild, Emit;
    if a == [] {
      assert a + b == b;
      EmitNone();
      RebuildNone();
    } else {
      Splits(a[1..], b);
      assert (a + b)[1..] == a[1..] + b;
      SplitOne(a, b);
    }
  }

  lemma SplitOne(a: seq<Segment>, b: seq<Segment>)
    requires a != [] && (a + b)[1..] == a[1..] + b
    ensures EmitAll(a + b) == Emit(a[0]) + EmitAll(a[1..] + b) && EmitAll(a) == Emit(a[0]) + EmitAll(a[1..])
    ensures Rebuild(a + b) == a[0].text + a[0].close + Rebuild(a[1..] + b)
    ensures Rebuild(a) == a[0].text + a[0].close + Rebuild(a[1..])
  {
    hide Emit;
  }
}
