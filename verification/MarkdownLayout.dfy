/** How the blocks of Markdown are laid out in lines: a relation between lines and
    block nodes, defined without the parser, and the proof that the parser makes of
    any lines the one list of nodes that they lay out
    (src/lib/markdown.cpp:711-1150, 1356-1366). */
module MarkdownLayout {
  import opened Text
  import opened MarkdownInline
  import opened Markdown
  import opened MarkdownSpelling
  import opened MarkdownForms
  import Query

  // ----- single lines -----

  /** Indented by `b` blanks at least. */
  predicate Deep(line: string, b: nat) {
    b <= |line| && forall i | 0 <= i < b :: line[i] == ' '
  }

  /** `x` is `line` without its first `b` blanks, if it has that many. */
  predicate Cut(line: string, b: nat, x: string) {
    if Deep(line, b) then x == line[b..] else x == line
  }

  lemma DeepIff(line: string, b: nat)
    ensures Deep(line, b) <==> CountIndent(line) >= b
  {
    var n := CountIndent(line);
    IndentIs(line, n);
  }

  lemma CutIff(line: string, b: nat, x: string)
    ensures Cut(line, b, x) <==> x == Dedented(line, b)
  {
    hide Deep, CountIndent;
    DeepIff(line, b);
  }

  /** The first character that is not blank is `c`. */
  ghost predicate Starts(raw: string, c: char) {
    exists t :: Trimmed(raw, t) && t != "" && t[0] == c
  }

  lemma StartsIff(raw: string, c: char)
    ensures Starts(raw, c) <==> StartsWith(Trim(raw), [c])
  {
    hide Trim, Trimmed;
    var t := Trim(raw);
    forall u ensures Trimmed(raw, u) <==> u == t { TrimIff(raw, u); }
    if t != "" { assert t[..1] == [t[0]]; }
  }

  /** What stands behind the first '>' and one blank. */
  ghost predicate BehindMark(raw: string, x: string) {
    exists n: nat :: n < |raw| && FirstAt(raw, 0, ">", n) && WithoutBlank(raw[n + 1..], x)
  }

  predicate WithoutBlank(s: string, x: string) {
    if StartsWith(s, " ") then s == " " + x else x == s
  }

  lemma BehindMarkIff(raw: string, x: string)
    requires '>' in raw
    ensures BehindMark(raw, x) <==> x == Unquoted(raw)
  {
    hide Find, FirstAt, WithoutBlank;
    var n := Find(raw, '>', 0);
    forall m: nat ensures FirstAt(raw, 0, ">", m) <==> m < |raw| && m == n { FirstCharIff(raw, 0, '>', m); }
    assert n < |raw| && FirstAt(raw, 0, ">", n);
    WithoutBlankIff(raw[n + 1..], x);
    assert BehindMark(raw, x) <==> WithoutBlank(raw[n + 1..], x);
  }

  lemma WithoutBlankIff(s: string, x: string)
    ensures WithoutBlank(s, x) <==> x == if s != "" && s[0] == ' ' then s[1..] else s
  {
    assert (" " + x)[1..] == x;
    if s != "" {
      assert s[..1] == [s[0]];
      assert s == [s[0]] + s[1..];
    }
  }

  /** `text` is the lines, with a line feed between them. */
  predicate Joined(text: string, body: seq<string>) {
    if body == [] then text == ""
    else if |body| == 1 then text == body[0]
    else StartsWith(text, body[0] + "\n") && Joined(text[|body[0]| + 1..], body[1..])
  }

  lemma {:induction false} JoinedIff(text: string, body: seq<string>)
    ensures Joined(text, body) <==> text == JoinLines(body)
  {
    if |body| > 1 {
      var front := body[0] + "\n";
      if StartsWith(text, front) {
        JoinedIff(text[|front|..], body[1..]);
        assert text == front + text[|front|..];
      }
      if text == JoinLines(body) {
        assert text == front + JoinLines(body[1..]);
        assert text[..|front|] == front && text[|front|..] == JoinLines(body[1..]);
      }
    }
  }

  // ----- the lines of one block -----

  ghost predicate ClosesFence(line: string, b: nat, c: char, length: nat) {
    exists x, t, n: nat :: Cut(line, b, x) && Trimmed(x, t) && RunOf(t, c, n) && n >= length
  }

  /** The body of a fence, k lines with its end. */
  ghost predicate CodeIs(ls: seq<string>, b: nat, c: char, length: nat, body: seq<string>, k: nat)
    decreases |ls|
  {
    if ls == [] then body == [] && k == 0
    else if ClosesFence(ls[0], b, c, length) then body == [] && k == 1
    else body != [] && k > 0 && Cut(ls[0], b, body[0]) && CodeIs(ls[1..], b, c, length, body[1..], k - 1)
  }

  ghost predicate Closer(x: string) {
    Trimmed(x, ":::")
  }

  /** The parser comes back from the line. */
  ghost predicate Returns(x: string) {
    IsHead(x) ==> exists name, title :: OpenerIs(x, name, title)
  }

  /** The body of a directive, up to the ":::" that closes its own opener. */
  ghost predicate BodyIs(ls: seq<string>, b: nat, depth: nat, body: seq<string>, k: nat)
    requires depth > 0
    decreases |ls|, 1
  {
    if ls == [] then body == [] && k == 0
    else exists x :: Cut(ls[0], b, x) && BodyFrom(ls, b, depth, x, body, k)
  }

  ghost predicate BodyFrom(ls: seq<string>, b: nat, depth: nat, x: string, body: seq<string>, k: nat)
    requires depth > 0 && ls != []
    decreases |ls|, 0
  {
    if Closer(x) && depth == 1 then body == [] && k == 1
    else
      && body != [] && k > 0 && x == body[0] && Returns(x)
      && BodyIs(ls[1..], b, if Closer(x) then depth - 1 else if IsHead(x) then depth + 1 else depth, body[1..], k - 1)
  }

  ghost predicate QuoteLine(line: string, b: nat) {
    Deep(line, b) && Starts(line[b..], '>')
  }

  /** The lines of a quote without their marks; blank ones belong to it. */
  ghost predicate QuotedIs(ls: seq<string>, b: nat, body: seq<string>, k: nat)
    decreases |ls|
  {
    if ls != [] && Blank(ls[0]) then body != [] && k > 0 && body[0] == "" && QuotedIs(ls[1..], b, body[1..], k - 1)
    else if ls != [] && QuoteLine(ls[0], b) then
      body != [] && k > 0 && BehindMark(ls[0][b..], body[0]) && QuotedIs(ls[1..], b, body[1..], k - 1)
    else body == [] && k == 0
  }

  /** What belongs to a list item: blank lines, and lines two blanks deeper. */
  predicate ItemIs(ls: seq<string>, b: nat, body: seq<string>, k: nat)
    decreases |ls|
  {
    if ls != [] && Blank(ls[0]) then body != [] && k > 0 && body[0] == "" && ItemIs(ls[1..], b, body[1..], k - 1)
    else if ls != [] && Deep(ls[0], b + 2) then
      body != [] && k > 0 && body[0] == ls[0][b + 2..] && ItemIs(ls[1..], b, body[1..], k - 1)
    else body == [] && k == 0
  }

  /** A line of the block: not blank, and as deep. */
  predicate Goes(ls: seq<string>, b: nat) {
    ls != [] && !Blank(ls[0]) && Deep(ls[0], b)
  }

  ghost predicate HtmlIs(ls: seq<string>, b: nat, body: seq<string>, k: nat)
    decreases |ls|
  {
    if Goes(ls, b) && Starts(ls[0][b..], '<') then
      body != [] && k > 0 && body[0] == ls[0][b..] && HtmlIs(ls[1..], b, body[1..], k - 1)
    else body == [] && k == 0
  }

  ghost predicate TableAt(ls: seq<string>, b: nat, aligns: seq<string>, o: Options)
    requires ls != [] && b <= |ls[0]|
  {
    && o.gfm && |ls| > 1 && '|' in ls[0][b..] && Deep(ls[1], b)
    && SeparatorIs(ls[1][b..], aligns)
  }

  ghost predicate OtherStart(raw: string) {
    || (exists level: nat, content :: AtxIs(raw, level, content))
    || (exists c, length: nat, info :: FenceIs(raw, c, length, info))
    || RuleIs(raw) || Starts(raw, '>') || exists m :: MarkerIs(raw, m)
  }

  /** What ends a paragraph at a line that is not its first. */
  ghost predicate Interrupts(ls: seq<string>, b: nat, o: Options)
    requires ls != [] && b <= |ls[0]|
  {
    var raw := ls[0][b..];
    || OtherStart(raw) || (exists name, title :: OpenerIs(raw, name, title))
    || (!IsHead(raw) && exists aligns :: TableAt(ls, b, aligns, o))
  }

  ghost predicate TextIs(ls: seq<string>, b: nat, o: Options, first: bool, body: seq<string>, k: nat)
    decreases |ls|
  {
    if Goes(ls, b) && (first || !Interrupts(ls, b, o)) then
      && body != [] && k > 0 && body[0] == ls[0][b..] && (first || !IsHead(ls[0][b..]))
      && TextIs(ls[1..], b, o, false, body[1..], k - 1)
    else body == [] && k == 0
  }

  // ----- they are the lines that the parser takes -----

  lemma ClosesFenceIff(line: string, b: nat, c: char, length: nat)
    ensures ClosesFence(line, b, c, length) <==> Run(Trim(Dedented(line, b)), c) >= length
  {
    hide Cut, Trimmed, RunOf, Trim, Run, Dedented;
    var x := Dedented(line, b);
    var t := Trim(x);
    var n := Run(t, c);
    CutIff(line, b, x);
    TrimIff(x, t);
    RunIs(t, c, n);
    if ClosesFence(line, b, c, length) {
      var y, u, m: nat :| Cut(line, b, y) && Trimmed(y, u) && RunOf(u, c, m) && m >= length;
      CutIff(line, b, y);
      TrimIff(y, u);
      RunIs(u, c, m);
    }
  }

  lemma {:induction false} CodeIff(ls: seq<string>, b: nat, c: char, length: nat, body: seq<string>, k: nat)
    ensures CodeIs(ls, b, c, length, body, k) <==> CodeLines(ls, b, c, length) == Taken(body, k)
    decreases |ls|
  {
    hide ClosesFence, Cut, Dedented, Trim, Run;
    if ls != [] {
      ClosesFenceIff(ls[0], b, c, length);
      if body != [] && k > 0 {
        CutIff(ls[0], b, body[0]);
        CodeIff(ls[1..], b, c, length, body[1..], k - 1);
      }
      assert body != [] ==> body == [body[0]] + body[1..];
    }
  }

  lemma CloserIff(x: string)
    ensures Closer(x) <==> Trim(x) == ":::"
  {
    hide Trim, Trimmed;
    TrimIff(x, ":::");
  }

  /** A line that does not start with ":::" opens nothing. */
  lemma HeadStarts(x: string)
    ensures !DirectiveOpen(x).NoOpener? ==> StartsWith(Trim(x), ":::") && Trim(x) != ":::"
  {
    hide Trim, ParseAttrs, IsIdentifier, WordLength;
  }

  lemma ReturnsIff(x: string)
    ensures Returns(x) <==> !DirectiveOpen(x).OpenerHangs?
  {
    hide IsHead, OpenerIs, DirectiveOpen, TitleFrom;
    HeadIff(x);
    var d := DirectiveOpen(x);
    if d.Opener? { OpenerIff(x, d.name, TitleFrom(d.attrs)); }
    if Returns(x) && IsHead(x) {
      var name, title :| OpenerIs(x, name, title);
      OpenerIff(x, name, title);
    }
  }

  function Inner(x: string, depth: nat): int {
    if Trim(x) == ":::" then depth - 1 else if DirectiveOpen(x).Opener? then depth + 1 else depth
  }

  lemma LinesStep(ls: seq<string>, b: nat, depth: nat)
    requires depth > 0 && ls != []
    ensures var x := Dedented(ls[0], b);
      DirectiveLines(ls, b, depth) ==
        if Trim(x) == ":::" && depth == 1 then Some(Taken([], 1))
        else if DirectiveOpen(x).OpenerHangs? then None
        else match DirectiveLines(ls[1..], b, Inner(x, depth))
          case None => None
          case Some(more) => Some(More(x, more))
  {
    hide Trim, DirectiveOpen, Dedented;
    HeadStarts(Dedented(ls[0], b));
  }

  lemma {:induction false} BodyIff(ls: seq<string>, b: nat, depth: nat, body: seq<string>, k: nat)
    requires depth > 0
    ensures BodyIs(ls, b, depth, body, k) <==> DirectiveLines(ls, b, depth) == Some(Taken(body, k))
    decreases |ls|
  {
    hide Closer, Returns, IsHead, Cut, Dedented, Trim, DirectiveOpen, DirectiveLines, BodyIs;
    if ls == [] {
      NoBody(b, depth, body, k);
    } else {
      var x := Dedented(ls[0], b);
      BodyStep(ls, b, depth, x, body, k);
      LinesStep(ls, b, depth);
      CloserIff(x);
      HeadIff(x);
      ReturnsIff(x);
      if !(Closer(x) && depth == 1) && Returns(x) && body != [] && k > 0 {
        BodyIff(ls[1..], b, Inner(x, depth), body[1..], k - 1);
        assert body == [body[0]] + body[1..];
      }
    }
  }

  lemma NoBody(b: nat, depth: nat, body: seq<string>, k: nat)
    requires depth > 0
    ensures BodyIs([], b, depth, body, k) <==> DirectiveLines([], b, depth) == Some(Taken(body, k))
  {
  }

  lemma BodyStep(ls: seq<string>, b: nat, depth: nat, x: string, body: seq<string>, k: nat)
    requires depth > 0 && ls != [] && x == Dedented(ls[0], b)
    ensures BodyIs(ls, b, depth, body, k) <==> BodyFrom(ls, b, depth, x, body, k)
  {
    hide Cut, Dedented, BodyFrom;
    forall y ensures Cut(ls[0], b, y) <==> y == x { CutIff(ls[0], b, y); }
  }

  lemma QuoteLineIff(line: string, b: nat)
    ensures QuoteLine(line, b) <==> IsQuoteLine(line, b)
  {
    hide Deep, CountIndent, Trim, Starts;
    DeepIff(line, b);
    if Deep(line, b) { StartsIff(line[b..], '>'); }
  }

  lemma MarkIsThere(line: string, b: nat)
    requires IsQuoteLine(line, b)
    ensures '>' in line[b..]
  {
    hide CountIndent, Trim;
    var raw := line[b..];
    assert Trim(raw)[0] == Trim(raw)[..1][0] == '>';
    TrimContains(raw, '>');
  }

  lemma {:induction false} QuotedIff(ls: seq<string>, b: nat, body: seq<string>, k: nat)
    ensures QuotedIs(ls, b, body, k) <==> QuoteLines(ls, b) == Taken(body, k)
    decreases |ls|
  {
    hide QuoteLine, IsQuoteLine, IsBlank, Blank, BehindMark, Unquoted;
    if ls != [] {
      BlankIs(ls[0]);
      QuoteLineIff(ls[0], b);
      if body != [] && k > 0 {
        QuotedIff(ls[1..], b, body[1..], k - 1);
        if QuoteLine(ls[0], b) {
          MarkIsThere(ls[0], b);
          BehindMarkIff(ls[0][b..], body[0]);
        }
      }
      assert body != [] ==> body == [body[0]] + body[1..];
    }
  }

  lemma {:induction false} ItemIff(ls: seq<string>, b: nat, body: seq<string>, k: nat)
    ensures ItemIs(ls, b, body, k) <==> ItemLines(ls, b) == Taken(body, k)
    decreases |ls|
  {
    hide IsBlank, Blank, Deep, CountIndent;
    if ls != [] {
      BlankIs(ls[0]);
      DeepIff(ls[0], b + 2);
      if body != [] && k > 0 { ItemIff(ls[1..], b, body[1..], k - 1); }
      assert body != [] ==> body == [body[0]] + body[1..];
    }
  }

  lemma {:induction false} HtmlIff(ls: seq<string>, b: nat, body: seq<string>, k: nat)
    ensures HtmlIs(ls, b, body, k) <==> HtmlLines(ls, b) == Taken(body, k)
    decreases |ls|
  {
    hide IsBlank, Blank, Deep, CountIndent, Starts, StartsWith, Trim;
    if ls != [] {
      BlankIs(ls[0]);
      DeepIff(ls[0], b);
      if Deep(ls[0], b) { StartsIff(ls[0][b..], '<'); }
      if body != [] && k > 0 { HtmlIff(ls[1..], b, body[1..], k - 1); }
      assert body != [] ==> body == [body[0]] + body[1..];
    }
  }

  lemma OtherStartIff(raw: string)
    ensures OtherStart(raw) <==> StartsOther(raw)
  {
    hide AtxIs, FenceIs, RuleIs, Starts, MarkerIs, AtxHeading, Fence, IsRule, ListMarker, StartsWith, Trim;
    forall level: nat, content ensures AtxIs(raw, level, content) <==> AtxHeading(raw) == Some((level, content)) {
      AtxIff(raw, level, content);
    }
    forall c, length: nat, info ensures FenceIs(raw, c, length, info) <==> Fence(raw) == Some((c, length, info)) {
      FenceIff(raw, c, length, info);
    }
    forall m ensures MarkerIs(raw, m) <==> ListMarker(raw) == Some(m) { MarkerIff(raw, m); }
    RuleIff(raw);
    StartsIff(raw, '>');
    if AtxHeading(raw).Some? { assert AtxIs(raw, AtxHeading(raw).value.0, AtxHeading(raw).value.1); }
    if Fence(raw).Some? { assert FenceIs(raw, Fence(raw).value.0, Fence(raw).value.1, Fence(raw).value.2); }
    if ListMarker(raw).Some? { assert MarkerIs(raw, ListMarker(raw).value); }
  }

  lemma TableAtIff(ls: seq<string>, b: nat, aligns: seq<string>, o: Options)
    requires ls != [] && b <= |ls[0]|
    ensures TableAt(ls, b, aligns, o) <==>
      IsTableStart(ls[0][b..], ls, b, o) && TableSeparator(ls[1][b..]) == Some(aligns)
  {
    hide Deep, CountIndent, SeparatorIs, TableSeparator;
    if |ls| > 1 {
      DeepIff(ls[1], b);
      if Deep(ls[1], b) { SeparatorIff(ls[1][b..], aligns); }
    }
  }

  /** The parser stops a paragraph here, or never comes back. */
  lemma InterruptsIff(ls: seq<string>, b: nat, o: Options)
    requires ls != [] && b <= |ls[0]|
    ensures var raw := ls[0][b..];
      Interrupts(ls, b, o) <==>
        || StartsOther(raw) || DirectiveOpen(raw).Opener?
        || (!DirectiveOpen(raw).OpenerHangs? && IsTableStart(raw, ls, b, o))
  {
    hide OtherStart, StartsOther, OpenerIs, TitleFrom, IsHead, TableAt, IsTableStart, DirectiveOpen, TableSeparator;
    var raw := ls[0][b..];
    OtherStartIff(raw);
    HeadIff(raw);
    var d := DirectiveOpen(raw);
    forall name, title ensures OpenerIs(raw, name, title) ==> d.Opener? { OpenerIff(raw, name, title); }
    if d.Opener? {
      OpenerIff(raw, d.name, TitleFrom(d.attrs));
      assert OpenerIs(raw, d.name, TitleFrom(d.attrs));
    }
    forall aligns ensures TableAt(ls, b, aligns, o) ==> IsTableStart(raw, ls, b, o) { TableAtIff(ls, b, aligns, o); }
    if IsTableStart(raw, ls, b, o) { SomeTable(ls, b, o); }
  }

  lemma SomeTable(ls: seq<string>, b: nat, o: Options)
    requires ls != [] && b <= |ls[0]| && IsTableStart(ls[0][b..], ls, b, o)
    ensures exists aligns :: TableAt(ls, b, aligns, o)
  {
    hide CountIndent, TableAt;
    TableAtIff(ls, b, TableSeparator(ls[1][b..]).value, o);
  }

  lemma ParagraphStep(ls: seq<string>, b: nat, o: Options, first: bool)
    ensures ParagraphLines(ls, b, o, first) ==
      if !(ls != [] && !IsBlank(ls[0]) && CountIndent(ls[0]) >= b) then Some(Taken([], 0))
      else
        var raw := ls[0][b..];
        var hangs := !first && !StartsOther(raw) && DirectiveOpen(raw).OpenerHangs?;
        var stops := !first && (StartsOther(raw) || DirectiveOpen(raw).Opener? || IsTableStart(raw, ls, b, o));
        if hangs then None else if stops then Some(Taken([], 0))
        else match ParagraphLines(ls[1..], b, o, false)
          case None => None
          case Some(more) => Some(More(raw, more))
  {
    hide IsBlank, CountIndent, StartsOther, DirectiveOpen, IsTableStart;
  }

  lemma {:induction false} TextIff(ls: seq<string>, b: nat, o: Options, first: bool, body: seq<string>, k: nat)
    ensures TextIs(ls, b, o, first, body, k) <==> ParagraphLines(ls, b, o, first) == Some(Taken(body, k))
    decreases |ls|
  {
    hide IsBlank, Blank, Deep, CountIndent, StartsOther, DirectiveOpen, IsTableStart, Interrupts, IsHead,
      ParagraphLines;
    ParagraphStep(ls, b, o, first);
    if ls != [] {
      BlankIs(ls[0]);
      DeepIff(ls[0], b);
      if Goes(ls, b) {
        InterruptsIff(ls, b, o);
        HeadIff(ls[0][b..]);
        if body != [] && k > 0 { TextIff(ls[1..], b, o, false, body[1..], k - 1); }
        assert body != [] ==> body == [body[0]] + body[1..];
      }
    }
  }

  // ----- what a block opens with -----

  /** What the first lines of a block say that it is. */
  datatype Opening =
    | Atx(level: nat, content: string)
    | Setext(level: nat, content: string)
    | Fenced(c: char, length: nat, info: string)
    | Ruled
    | Opened
    | Quoted
    | Listed(ordered: bool, start: nat)
    | Tabled(aligns: seq<string>)
    | Html
    | Plain

  /** Of two that are possible the one of the lower order counts. */
  function Order(opening: Opening): nat {
    match opening
    case Atx(_, _) => 0
    case Setext(_, _) => 1
    case Fenced(_, _, _) => 2
    case Ruled => 3
    case Opened => 4
    case Quoted => 5
    case Listed(_, _) => 6
    case Tabled(_) => 7
    case Html => 8
    case Plain => 9
  }

  /** The block at the front of `ls`, indented by `b`, may be read that way. */
  ghost predicate Opens(ls: seq<string>, b: nat, opening: Opening, o: Options)
    requires ls != [] && b <= |ls[0]|
  {
    var raw := ls[0][b..];
    match opening
    case Atx(level, content) => AtxIs(raw, level, content)
    case Setext(level, content) => |ls| > 1 && Deep(ls[1], b) && SetextIs(raw, ls[1][b..], level, content)
    case Fenced(c, length, info) => FenceIs(raw, c, length, info)
    case Ruled => RuleIs(raw)
    case Opened => IsHead(raw)
    case Quoted => Starts(raw, '>')
    case Listed(ordered, start) => exists content :: MarkerIs(raw, Marker(ordered, start, content))
    case Tabled(aligns) => TableAt(ls, b, aligns, o)
    case Html => o.allowHtml && Starts(raw, '<')
    case Plain => true
  }

  ghost predicate OpensFirst(ls: seq<string>, b: nat, opening: Opening, o: Options)
    requires ls != [] && b <= |ls[0]|
  {
    Opens(ls, b, opening, o) && forall other: Opening :: Opens(ls, b, other, o) ==> Order(opening) <= Order(other)
  }

  // ----- the relation -----

  /** The lines lay out the nodes: blank lines, and blocks. */
  ghost predicate Lays(ls: seq<string>, ns: seq<Node>, o: Options)
    decreases ns, |ls|
  {
    if ls == [] then ns == []
    else if Blank(ls[0]) then Lays(ls[1..], ns, o)
    else ns != [] && exists b: nat, k: nat ::
      b <= |ls[0]| && 0 < k <= |ls| && RunOf(ls[0], ' ', b) && IsBlock(ls, b, ns[0], k, o) && Lays(ls[k..], ns[1..], o)
  }

  /** The first k lines are the block `n`. */
  ghost predicate IsBlock(ls: seq<string>, b: nat, n: Node, k: nat, o: Options)
    requires ls != [] && b <= |ls[0]|
    decreases n, 1
  {
    exists opening: Opening :: OpensFirst(ls, b, opening, o) && Fills(ls, b, opening, n, k, o)
  }

  ghost predicate Fills(ls: seq<string>, b: nat, opening: Opening, n: Node, k: nat, o: Options)
    requires ls != [] && b <= |ls[0]|
    decreases n, 0
  {
    var raw := ls[0][b..];
    match opening
    case Atx(level, content) => n.Heading? && n.level == level && Spells(content, n.children, o) && k == 1
    case Setext(level, content) => n.Heading? && n.level == level && Spells(content, n.children, o) && k == 2
    case Fenced(c, length, info) =>
      n.CodeBlock? && LanguageIs(info, n.lang) && k > 0
      && exists body :: CodeIs(ls[1..], b, c, length, body, k - 1) && Joined(n.text, body)
    case Ruled => n == Hr && k == 1
    case Opened =>
      n.Directive? && OpenerIs(raw, n.name, n.title) && k > 0
      && exists body :: BodyIs(ls[1..], b, 1, body, k - 1) && Lays(body, n.children, o)
    case Quoted => n.Blockquote? && exists body :: QuotedIs(ls, b, body, k) && Lays(body, n.children, o)
    case Listed(ordered, start) =>
      n.ListNode? && n.ordered == ordered && n.start == start && ItemsAre(ls, b, ordered, n.children, k, o)
    case Tabled(aligns) =>
      n.Table? && n.align == aligns && k >= 2 && |ls| >= 2
      && (exists row :: RowIs(raw, row) && CellsSpell(row, n.header, o)) && RowsAre(ls[2..], b, n.rows, k - 2, o)
    case Html => n.RawHtml? && exists body :: HtmlIs(ls, b, body, k) && Joined(n.html, body)
    case Plain =>
      n.Paragraph?
      && exists text, body :: TextIs(ls, b, o, true, body, k) && Joined(text, body) && Spells(text, n.children, o)
  }

  ghost predicate CellsSpell(row: seq<string>, cells: seq<Node>, o: Options) {
    |row| == |cells| && forall i | 0 <= i < |row| :: cells[i].Cell? && Spells(row[i], cells[i].children, o)
  }

  /** The rows of a table: lines with a bar that hold a cell. */
  ghost predicate RowsAre(ls: seq<string>, b: nat, rows: seq<Node>, k: nat, o: Options)
    decreases |ls|
  {
    if Goes(ls, b) && '|' in ls[0][b..] && !RowIs(ls[0][b..], []) then
      && rows != [] && k > 0 && rows[0].Row?
      && (exists row :: RowIs(ls[0][b..], row) && CellsSpell(row, rows[0].children, o))
      && RowsAre(ls[1..], b, rows[1..], k - 1, o)
    else rows == [] && k == 0
  }

  /** A task box counts with gfm; the text of the item's own line is behind it. */
  ghost predicate OwnIs(content: string, task: bool, checked: bool, own: string, o: Options) {
    if o.gfm && exists c, x :: TaskIs(content, c, x) then task && TaskIs(content, checked, own)
    else !task && !checked && own == content
  }

  ghost predicate ItemAt(ls: seq<string>, b: nat, ordered: bool, content: string)
    requires ls != [] && b <= |ls[0]|
  {
    exists start: nat :: MarkerIs(ls[0][b..], Marker(ordered, start, content))
  }

  /** The items of a list: each with its own line and what belongs to it. */
  ghost predicate ItemsAre(ls: seq<string>, b: nat, ordered: bool, items: seq<Node>, k: nat, o: Options)
    decreases items
  {
    if Goes(ls, b) && exists content :: ItemAt(ls, b, ordered, content) then
      && items != [] && items[0].ListItem?
      && (exists own, body, j: nat ::
        && ItemHere(ls, b, ordered, items[0], own, body, j, o) && j < k
        && Lays([own] + body, items[0].children, o) && ItemsAre(ls[1 + j..], b, ordered, items[1..], k - 1 - j, o))
    else items == [] && k == 0
  }

  /** The own line of an item, and `body` for the j lines behind it. */
  ghost predicate ItemHere(ls: seq<string>, b: nat, ordered: bool, item: Node, own: string, body: seq<string>, j: nat,
      o: Options)
    requires ls != [] && b <= |ls[0]| && item.ListItem?
  {
    j < |ls| && OwnLine(ls, b, ordered, item, own, o) && ItemIs(ls[1..], b, body, j)
  }

  ghost predicate OwnLine(ls: seq<string>, b: nat, ordered: bool, item: Node, own: string, o: Options)
    requires ls != [] && b <= |ls[0]| && item.ListItem?
  {
    exists content :: ItemAt(ls, b, ordered, content) && OwnIs(content, item.task, item.checked, own, o)
  }

  // ----- what the parser takes a block for -----

  function FoundOpening(ls: seq<string>, b: nat, order: nat, o: Options): Option<Opening>
    requires ls != [] && b <= |ls[0]|
  {
    var raw := ls[0][b..];
    match order
    case 0 => (match AtxHeading(raw) case None => None case Some((level, content)) => Some(Atx(level, content)))
    case 1 =>
      (match if |ls| > 1 && Deep(ls[1], b) then SetextHeading(raw, ls[1][b..]) else None
       case None => None
       case Some((level, content)) => Some(Setext(level, content)))
    case 2 => (match Fence(raw) case None => None case Some((c, length, info)) => Some(Fenced(c, length, info)))
    case 3 => if IsRule(raw) then Some(Ruled) else None
    case 4 => if DirectiveOpen(raw).NoOpener? then None else Some(Opened)
    case 5 => if StartsWith(Trim(raw), ">") then Some(Quoted) else None
    case 6 => (match ListMarker(raw) case None => None case Some(m) => Some(Listed(m.ordered, m.start)))
    case 7 => if IsTableStart(raw, ls, b, o) then Some(Tabled(TableSeparator(ls[1][b..]).value)) else None
    case 8 => if o.allowHtml && StartsWith(Trim(raw), "<") then Some(Html) else None
    case _ => Some(Plain)
  }

  lemma OpensIff(ls: seq<string>, b: nat, opening: Opening, o: Options)
    requires ls != [] && b <= |ls[0]|
    ensures Opens(ls, b, opening, o) <==> FoundOpening(ls, b, Order(opening), o) == Some(opening)
  {
    hide AtxIs, AtxHeading, SetextIs, SetextHeading, FenceIs, Fence, RuleIs, IsRule, IsHead, DirectiveOpen, Starts,
      Trim, StartsWith, MarkerIs, ListMarker, TableAt, IsTableStart, TableSeparator, Deep;
    var raw := ls[0][b..];
    match opening
    case Atx(level, content) => AtxIff(raw, level, content);
    case Setext(level, content) =>
      if |ls| > 1 && Deep(ls[1], b) { SetextAt(ls, b, level, content); }
    case Fenced(c, length, info) => FenceIff(raw, c, length, info);
    case Ruled => RuleIff(raw);
    case Opened => HeadIff(raw);
    case Quoted => StartsIff(raw, '>');
    case Listed(ordered, start) => ListedIff(raw, ordered, start);
    case Tabled(aligns) => TabledIff(ls, b, aligns, o);
    case Html => StartsIff(raw, '<');
    case Plain =>
  }

  lemma SetextAt(ls: seq<string>, b: nat, level: nat, content: string)
    requires |ls| > 1 && b <= |ls[0]| && Deep(ls[1], b)
    ensures SetextIs(ls[0][b..], ls[1][b..], level, content) <==>
      SetextHeading(ls[0][b..], ls[1][b..]) == Some((level, content))
  {
    hide SetextIs, SetextHeading;
    SetextIff(ls[0][b..], ls[1][b..], level, content);
  }

  lemma ListedIff(raw: string, ordered: bool, start: nat)
    ensures (exists content :: MarkerIs(raw, Marker(ordered, start, content))) <==>
      ListMarker(raw).Some? && ListMarker(raw).value.ordered == ordered && ListMarker(raw).value.start == start
  {
    hide MarkerIs, ListMarker;
    forall m ensures MarkerIs(raw, m) <==> ListMarker(raw) == Some(m) { MarkerIff(raw, m); }
    if ListMarker(raw).Some? {
      var m := ListMarker(raw).value;
      assert m == Marker(m.ordered, m.start, m.content);
    }
  }

  lemma TabledIff(ls: seq<string>, b: nat, aligns: seq<string>, o: Options)
    requires ls != [] && b <= |ls[0]|
    ensures TableAt(ls, b, aligns, o) <==> FoundOpening(ls, b, 7, o) == Some(Tabled(aligns))
  {
    hide TableAt, TableSeparator;
    TableAtIff(ls, b, aligns, o);
  }

  lemma FoundOrder(ls: seq<string>, b: nat, order: nat, o: Options)
    requires ls != [] && b <= |ls[0]| && order <= 9 && FoundOpening(ls, b, order, o).Some?
    ensures Order(FoundOpening(ls, b, order, o).value) == order
  {
    hide AtxHeading, SetextHeading, Fence, IsRule, DirectiveOpen, Trim, StartsWith, ListMarker, IsTableStart,
      TableSeparator, Deep;
  }

  function FirstOpening(ls: seq<string>, b: nat, from: nat, o: Options): Opening
    requires ls != [] && b <= |ls[0]|
    decreases 9 - from
  {
    if from >= 9 then Plain
    else
      var here := FoundOpening(ls, b, from, o);
      if here.Some? then here.value else FirstOpening(ls, b, from + 1, o)
  }

  lemma {:induction false} FirstOpeningIs(ls: seq<string>, b: nat, from: nat, o: Options)
    requires ls != [] && b <= |ls[0]| && from <= 9
    ensures var first := FirstOpening(ls, b, from, o);
      && from <= Order(first) <= 9 && FoundOpening(ls, b, Order(first), o) == Some(first)
      && forall r: nat | from <= r < Order(first) :: FoundOpening(ls, b, r, o) == None
    decreases 9 - from
  {
    if from < 9 {
      hide FoundOpening;
      if FoundOpening(ls, b, from, o).Some? {
        FoundOrder(ls, b, from, o);
      } else {
        FirstOpeningIs(ls, b, from + 1, o);
      }
    }
  }

  lemma FirstIff(ls: seq<string>, b: nat, opening: Opening, o: Options)
    requires ls != [] && b <= |ls[0]|
    ensures OpensFirst(ls, b, opening, o) <==> opening == FirstOpening(ls, b, 0, o)
  {
    hide Opens, FoundOpening, FirstOpening, Order;
    var first := FirstOpening(ls, b, 0, o);
    FirstOpeningIs(ls, b, 0, o);
    OpensIff(ls, b, opening, o);
    OpensIff(ls, b, first, o);
    forall other: Opening | Opens(ls, b, other, o) ensures Order(first) <= Order(other) {
      OpensIff(ls, b, other, o);
    }
    if OpensFirst(ls, b, opening, o) { assert Order(opening) == Order(first); }
  }

  // ----- what the parser makes of it -----

  /** There is a block at the front of `ls`, indented by `b`. */
  predicate BlockAt(ls: seq<string>, b: nat) {
    ls != [] && b == CountIndent(ls[0]) && !IsBlank(ls[0])
  }

  function Made(ls: seq<string>, b: nat, opening: Opening, o: Options): Option<(Node, nat)>
    requires BlockAt(ls, b)
  {
    var raw := ls[0][b..];
    match opening
    case Atx(level, content) => Some((Heading(level, Inline(content, "", o)), 1))
    case Setext(level, content) => Some((Heading(level, Inline(content, "", o)), 2))
    case Fenced(c, length, info) => MadeCode(ls, b, c, length, info)
    case Ruled => Some((Hr, 1))
    case Opened => MadeDirective(ls, b, o)
    case Quoted => MadeQuote(ls, b, o)
    case Listed(ordered, start) => MadeList(ls, b, ordered, start, o)
    case Tabled(aligns) => if |ls| >= 2 then MadeTable(ls, b, aligns, o) else None
    case Html => var html := HtmlLines(ls, b); Some((RawHtml(JoinLines(html.lines)), html.count))
    case Plain => MadeText(ls, b, o)
  }

  function MadeCode(ls: seq<string>, b: nat, c: char, length: nat, info: string): Option<(Node, nat)>
    requires ls != []
  {
    var body := CodeLines(ls[1..], b, c, length);
    Some((CodeBlock(JoinLines(body.lines), Trim(info[..Find(info, ' ', 0)])), body.count + 1))
  }

  function MadeDirective(ls: seq<string>, b: nat, o: Options): Option<(Node, nat)>
    requires BlockAt(ls, b)
  {
    NotBlankNotEmpty(ls[0]);
    match DirectiveOpen(ls[0][b..])
    case NoOpener => None
    case OpenerHangs => None
    case Opener(name, attrs) => DirectiveBlock(ls, b, name, attrs, o)
  }

  function MadeQuote(ls: seq<string>, b: nat, o: Options): Option<(Node, nat)> {
    match Blocks(QuoteLines(ls, b).lines, o)
    case None => None
    case Some(children) => Some((Blockquote(children), QuoteLines(ls, b).count))
  }

  function MadeList(ls: seq<string>, b: nat, ordered: bool, start: nat, o: Options): Option<(Node, nat)> {
    match ListItems(ls, b, ordered, o)
    case None => None
    case Some(items) => Some((ListNode(ordered, start, items.0), items.1))
  }

  function MadeTable(ls: seq<string>, b: nat, aligns: seq<string>, o: Options): Option<(Node, nat)>
    requires |ls| >= 2 && b <= |ls[0]|
  {
    var rows := Rows(ls[2..], b, o);
    Some((Table(Cells(PipeRow(ls[0][b..]), o), aligns, rows.0), rows.1 + 2))
  }

  function MadeText(ls: seq<string>, b: nat, o: Options): Option<(Node, nat)> {
    match ParagraphLines(ls, b, o, true)
    case None => None
    case Some(t) => Some((Paragraph(Inline(JoinLines(t.lines), "", o)), t.count))
  }

  lemma LeafIs(ls: seq<string>, b: nat, o: Options)
    requires BlockAt(ls, b)
    ensures var first := FirstOpening(ls, b, 0, o);
      LeafBlock(ls, b, o) == if Order(first) <= 3 then Made(ls, b, first, o) else None
  {
    hide AtxHeading, SetextHeading, Fence, IsRule, CountIndent, IsBlank, Inline, CodeLines, JoinLines, Find, Trim;
    var first := FirstOpening(ls, b, 0, o);
    FirstOpeningIs(ls, b, 0, o);
    if |ls| > 1 { DeepIff(ls[1], b); }
    LeafSteps(ls, b, o);
  }

  lemma LeafSteps(ls: seq<string>, b: nat, o: Options)
    requires BlockAt(ls, b)
    ensures LeafBlock(ls, b, o) ==
      if FoundOpening(ls, b, 0, o).Some? then Made(ls, b, FoundOpening(ls, b, 0, o).value, o)
      else if FoundOpening(ls, b, 1, o).Some? then Made(ls, b, FoundOpening(ls, b, 1, o).value, o)
      else if FoundOpening(ls, b, 2, o).Some? then Made(ls, b, FoundOpening(ls, b, 2, o).value, o)
      else if FoundOpening(ls, b, 3, o).Some? then Made(ls, b, FoundOpening(ls, b, 3, o).value, o)
      else None
  {
    hide AtxHeading, SetextHeading, Fence, IsRule, CountIndent, Deep, IsBlank, Inline, CodeLines, JoinLines, Find, Trim;
    if |ls| > 1 { DeepIff(ls[1], b); }
  }

  lemma PlainIs(ls: seq<string>, b: nat, o: Options)
    requires BlockAt(ls, b)
    ensures PlainBlock(ls, b, o) ==
      if FoundOpening(ls, b, 7, o).Some? then Made(ls, b, FoundOpening(ls, b, 7, o).value, o)
      else if FoundOpening(ls, b, 8, o).Some? then Made(ls, b, Html, o)
      else Made(ls, b, Plain, o)
  {
    hide CountIndent, IsBlank, Inline, JoinLines, Trim, StartsWith, TableSeparator, PipeRow, ParagraphLines, HtmlLines,
      Rows, Cells;
  }

  /** The parser goes by the first opening. */
  lemma BlockIs(ls: seq<string>, b: nat, o: Options)
    requires BlockAt(ls, b)
    ensures Block(ls, b, o) == Made(ls, b, FirstOpening(ls, b, 0, o), o)
  {
    hide FirstOpening, Made, LeafBlock, Block, FoundOpening, Order, CountIndent, IsBlank;
    var first := FirstOpening(ls, b, 0, o);
    FirstOpeningIs(ls, b, 0, o);
    LeafIs(ls, b, o);
    AtOrder(first);
    if Order(first) > 3 {
      RestOfBlock(ls, b, o);
      PlainIs(ls, b, o);
    } else {
      MadeLeaf(ls, b, first, o);
      LeafFirst(ls, b, o);
    }
  }

  lemma LeafFirst(ls: seq<string>, b: nat, o: Options)
    requires BlockAt(ls, b) && LeafBlock(ls, b, o).Some?
    ensures Block(ls, b, o) == LeafBlock(ls, b, o)
  {
    hide LeafBlock, CountIndent, IsBlank;
  }

  lemma MadeLeaf(ls: seq<string>, b: nat, opening: Opening, o: Options)
    requires BlockAt(ls, b) && Order(opening) <= 3
    ensures Made(ls, b, opening, o).Some?
  {
    hide CountIndent, IsBlank, Inline, CodeLines, JoinLines, Trim;
  }

  lemma AtOrder(opening: Opening)
    ensures Order(opening) == 4 <==> opening == Opened
    ensures Order(opening) == 5 <==> opening == Quoted
    ensures Order(opening) == 6 <==> opening.Listed?
    ensures Order(opening) == 7 <==> opening.Tabled?
    ensures Order(opening) == 8 <==> opening == Html
    ensures Order(opening) == 9 <==> opening == Plain
  {
  }

  /** What comes behind headings, fences and rules. */
  lemma RestOfBlock(ls: seq<string>, b: nat, o: Options)
    requires BlockAt(ls, b) && LeafBlock(ls, b, o) == None
    ensures Block(ls, b, o) ==
      if FoundOpening(ls, b, 4, o).Some? then Made(ls, b, Opened, o)
      else if FoundOpening(ls, b, 5, o).Some? then Made(ls, b, Quoted, o)
      else if FoundOpening(ls, b, 6, o).Some? then Made(ls, b, FoundOpening(ls, b, 6, o).value, o)
      else PlainBlock(ls, b, o)
  {
    hide LeafBlock, PlainBlock, CountIndent, IsBlank, Trim, StartsWith, ListMarker, DirectiveOpen, Blocks, QuoteLines,
      ListItems, DirectiveBlock;
  }

  // ----- the relation holds of the parser's nodes, and of no others -----

  lemma FillsHeading(ls: seq<string>, b: nat, opening: Opening, n: Node, k: nat, o: Options)
    requires BlockAt(ls, b) && (opening.Atx? || opening.Setext?)
    ensures Fills(ls, b, opening, n, k, o) <==> Made(ls, b, opening, o) == Some((n, k))
  {
    hide Spells, Inline;
    if n.Heading? { SpellsIff(opening.content, n.children, o); }
  }

  lemma FillsCode(ls: seq<string>, b: nat, c: char, length: nat, info: string, n: Node, k: nat, o: Options)
    requires BlockAt(ls, b)
    ensures Fills(ls, b, Fenced(c, length, info), n, k, o) <==>
      Made(ls, b, Fenced(c, length, info), o) == Some((n, k))
  {
    hide CodeIs, CodeLines, Joined, JoinLines, LanguageIs, Trim, Find;
    var lines := CodeLines(ls[1..], b, c, length);
    if n.CodeBlock? && k > 0 {
      LanguageIff(info, n.lang);
      CodeIff(ls[1..], b, c, length, lines.lines, k - 1);
      JoinedIff(n.text, lines.lines);
      if Fills(ls, b, Fenced(c, length, info), n, k, o) {
        var body :| CodeIs(ls[1..], b, c, length, body, k - 1) && Joined(n.text, body);
        CodeIff(ls[1..], b, c, length, body, k - 1);
      }
    }
  }

  lemma FillsHtml(ls: seq<string>, b: nat, n: Node, k: nat, o: Options)
    requires BlockAt(ls, b)
    ensures Fills(ls, b, Html, n, k, o) <==> Made(ls, b, Html, o) == Some((n, k))
  {
    hide HtmlIs, HtmlLines, Joined, JoinLines;
    var lines := HtmlLines(ls, b);
    if n.RawHtml? {
      HtmlIff(ls, b, lines.lines, k);
      JoinedIff(n.html, lines.lines);
      if Fills(ls, b, Html, n, k, o) {
        var body :| HtmlIs(ls, b, body, k) && Joined(n.html, body);
        HtmlIff(ls, b, body, k);
      }
    }
  }

  lemma FillsText(ls: seq<string>, b: nat, n: Node, k: nat, o: Options)
    requires BlockAt(ls, b)
    ensures Fills(ls, b, Plain, n, k, o) <==> Made(ls, b, Plain, o) == Some((n, k))
  {
    hide TextIs, ParagraphLines, Joined, JoinLines, Spells, Inline;
    if n.Paragraph? {
      if Fills(ls, b, Plain, n, k, o) {
        var text, body :| TextIs(ls, b, o, true, body, k) && Joined(text, body) && Spells(text, n.children, o);
        TextIff(ls, b, o, true, body, k);
        JoinedIff(text, body);
        SpellsIff(text, n.children, o);
      }
      if MadeText(ls, b, o) == Some((n, k)) {
        var body := ParagraphLines(ls, b, o, true).value.lines;
        TextIff(ls, b, o, true, body, k);
        JoinedIff(JoinLines(body), body);
        SpellsIff(JoinLines(body), n.children, o);
      }
    }
  }

  // ----- tables -----

  lemma {:induction false} CellsIff(row: seq<string>, cells: seq<Node>, o: Options)
    ensures CellsSpell(row, cells, o) <==> cells == Cells(row, o)
  {
    hide Spells, Inline;
    if row != [] && cells != [] {
      CellsIff(row[1..], cells[1..], o);
      if cells[0].Cell? { SpellsIff(row[0], cells[0].children, o); }
      CellsTail(row, cells, o);
      assert cells == [cells[0]] + cells[1..];
    }
  }

  lemma CellsTail(row: seq<string>, cells: seq<Node>, o: Options)
    requires row != [] && cells != []
    ensures CellsSpell(row, cells, o) <==>
      cells[0].Cell? && Spells(row[0], cells[0].children, o) && CellsSpell(row[1..], cells[1..], o)
  {
    hide Spells;
    if CellsSpell(row[1..], cells[1..], o) && cells[0].Cell? && Spells(row[0], cells[0].children, o) {
      forall i | 0 <= i < |row| ensures cells[i].Cell? && Spells(row[i], cells[i].children, o) {
        if i > 0 { assert row[1..][i - 1] == row[i] && cells[1..][i - 1] == cells[i]; }
      }
    }
    if CellsSpell(row, cells, o) {
      forall i | 0 <= i < |row| - 1 ensures cells[1..][i].Cell? && Spells(row[1..][i], cells[1..][i].children, o) {
        assert row[1..][i] == row[i + 1] && cells[1..][i] == cells[i + 1];
      }
    }
  }

  lemma RowCellsIff(raw: string, cells: seq<Node>, o: Options)
    ensures (exists row :: RowIs(raw, row) && CellsSpell(row, cells, o)) <==> cells == Cells(PipeRow(raw), o)
  {
    hide RowIs, PipeRow, CellsSpell, Cells;
    var row := PipeRow(raw);
    forall r ensures RowIs(raw, r) <==> r == row { RowIff(raw, r); }
    CellsIff(row, cells, o);
    assert RowIs(raw, row);
  }

  lemma {:induction false} RowsIff(ls: seq<string>, b: nat, rows: seq<Node>, k: nat, o: Options)
    ensures RowsAre(ls, b, rows, k, o) <==> Rows(ls, b, o) == (rows, k)
    decreases |ls|
  {
    hide RowIs, PipeRow, CellsSpell, Cells, IsBlank, Blank, Deep, CountIndent;
    if ls != [] {
      BlankIs(ls[0]);
      DeepIff(ls[0], b);
      if Goes(ls, b) {
        RowIff(ls[0][b..], []);
        if rows != [] && k > 0 {
          RowsIff(ls[1..], b, rows[1..], k - 1, o);
          if rows[0].Row? { RowCellsIff(ls[0][b..], rows[0].children, o); }
          assert rows == [rows[0]] + rows[1..];
        }
      }
    }
  }

  lemma FillsTable(ls: seq<string>, b: nat, aligns: seq<string>, n: Node, k: nat, o: Options)
    requires BlockAt(ls, b)
    ensures Fills(ls, b, Tabled(aligns), n, k, o) <==> Made(ls, b, Tabled(aligns), o) == Some((n, k))
  {
    hide RowIs, PipeRow, CellsSpell, Cells, RowsAre, Rows;
    if n.Table? && k >= 2 && |ls| >= 2 {
      RowCellsIff(ls[0][b..], n.header, o);
      RowsIff(ls[2..], b, n.rows, k - 2, o);
    }
  }

  // ----- lists -----

  lemma ItemAtIff(ls: seq<string>, b: nat, ordered: bool, content: string)
    requires ls != [] && b <= |ls[0]|
    ensures var m := ListMarker(ls[0][b..]);
      ItemAt(ls, b, ordered, content) <==> m.Some? && m.value.ordered == ordered && m.value.content == content
  {
    hide MarkerIs, ListMarker;
    var raw := ls[0][b..];
    forall m ensures MarkerIs(raw, m) <==> ListMarker(raw) == Some(m) { MarkerIff(raw, m); }
    if ListMarker(raw).Some? {
      var m := ListMarker(raw).value;
      assert m == Marker(m.ordered, m.start, m.content);
    }
  }

  lemma IsItemIff(ls: seq<string>, b: nat, ordered: bool)
    ensures Goes(ls, b) && (exists content :: ItemAt(ls, b, ordered, content)) <==> IsItem(ls, b, ordered)
  {
    hide ItemAt, ListMarker, IsBlank, Blank, Deep, CountIndent;
    if ls != [] {
      BlankIs(ls[0]);
      DeepIff(ls[0], b);
      if Goes(ls, b) {
        var m := ListMarker(ls[0][b..]);
        forall content ensures ItemAt(ls, b, ordered, content) ==> m.Some? && m.value.ordered == ordered {
          ItemAtIff(ls, b, ordered, content);
        }
        if m.Some? { ItemAtIff(ls, b, ordered, m.value.content); }
      }
    }
  }

  lemma OwnIff(content: string, task: bool, checked: bool, own: string, o: Options)
    ensures OwnIs(content, task, checked, own, o) <==> ItemOf(content, o) == Item(task, checked, own)
  {
    hide TaskIs, TaskPrefix;
    forall c, x ensures TaskIs(content, c, x) <==> TaskPrefix(content) == Some((c, x)) { TaskIff(content, c, x); }
    if TaskPrefix(content).Some? { assert TaskIs(content, TaskPrefix(content).value.0, TaskPrefix(content).value.1); }
  }

  lemma OwnLineIff(ls: seq<string>, b: nat, ordered: bool, item: Node, own: string, o: Options)
    requires IsItem(ls, b, ordered) && b <= |ls[0]| && item.ListItem?
    ensures OwnLine(ls, b, ordered, item, own, o) <==>
      ItemOf(ListMarker(ls[0][b..]).value.content, o) == Item(item.task, item.checked, own)
  {
    hide ItemAt, ListMarker, OwnIs, ItemOf, IsBlank, CountIndent;
    var content := ListMarker(ls[0][b..]).value.content;
    forall x ensures ItemAt(ls, b, ordered, x) <==> x == content { ItemAtIff(ls, b, ordered, x); }
    OwnIff(content, item.task, item.checked, own, o);
  }

  lemma ItemHereIff(ls: seq<string>, b: nat, ordered: bool, item: Node, own: string, body: seq<string>, j: nat,
      o: Options)
    requires IsItem(ls, b, ordered) && b <= |ls[0]| && item.ListItem?
    ensures ItemHere(ls, b, ordered, item, own, body, j, o) <==>
      && ItemOf(ListMarker(ls[0][b..]).value.content, o) == Item(item.task, item.checked, own)
      && ItemLines(ls[1..], b) == Taken(body, j)
  {
    hide OwnLine, ItemIs, ItemLines, ItemOf, ListMarker, IsBlank, CountIndent;
    OwnLineIff(ls, b, ordered, item, own, o);
    ItemIff(ls[1..], b, body, j);
  }

  lemma NoItems(ls: seq<string>, b: nat, ordered: bool, items: seq<Node>, k: nat, o: Options)
    requires !IsItem(ls, b, ordered)
    ensures ItemsAre(ls, b, ordered, items, k, o) <==> items == [] && k == 0
    ensures ListItems(ls, b, ordered, o) == Some(([], 0))
  {
    hide ItemHere, ItemAt, Lays, IsItem, Goes;
    IsItemIff(ls, b, ordered);
  }

  lemma FirstItem(ls: seq<string>, b: nat, ordered: bool, items: seq<Node>, k: nat, o: Options)
      returns (own: string, body: seq<string>, j: nat)
    requires IsItem(ls, b, ordered) && b <= |ls[0]| && ItemsAre(ls, b, ordered, items, k, o)
    ensures items != [] && items[0].ListItem? && ItemHere(ls, b, ordered, items[0], own, body, j, o) && j < k
    ensures j < |ls| && Lays([own] + body, items[0].children, o)
    ensures ItemsAre(ls[1 + j..], b, ordered, items[1..], k - 1 - j, o)
  {
    hide OwnLine, ItemIs, ItemAt, Lays, Goes, IsItem;
    IsItemIff(ls, b, ordered);
    own, body, j :| ItemHere(ls, b, ordered, items[0], own, body, j, o) && j < k
      && Lays([own] + body, items[0].children, o) && ItemsAre(ls[1 + j..], b, ordered, items[1..], k - 1 - j, o);
  }

  lemma ItemAhead(ls: seq<string>, b: nat, ordered: bool, items: seq<Node>, k: nat, own: string, body: seq<string>,
      j: nat, o: Options)
    requires IsItem(ls, b, ordered) && b <= |ls[0]| && items != [] && items[0].ListItem? && j < k && j < |ls|
    requires ItemHere(ls, b, ordered, items[0], own, body, j, o) && Lays([own] + body, items[0].children, o)
    requires ItemsAre(ls[1 + j..], b, ordered, items[1..], k - 1 - j, o)
    ensures ItemsAre(ls, b, ordered, items, k, o)
  {
    hide ItemHere, ItemAt, Lays, Goes, IsItem;
    IsItemIff(ls, b, ordered);
  }

  /** What the parser takes of the first item: its own line, and what belongs to it. */
  predicate ItemTaken(ls: seq<string>, b: nat, ordered: bool, item: Item, taken: Taken, o: Options) {
    && IsItem(ls, b, ordered) && b <= |ls[0]|
    && item == ItemOf(ListMarker(ls[0][b..]).value.content, o) && taken == ItemLines(ls[1..], b)
  }

  lemma ItemParts(ls: seq<string>, b: nat, ordered: bool, node: Node, item: Item, taken: Taken, own: string,
      body: seq<string>, j: nat, o: Options)
    requires ItemTaken(ls, b, ordered, item, taken, o) && ls != [] && b <= |ls[0]| && node.ListItem?
    requires ItemHere(ls, b, ordered, node, own, body, j, o)
    ensures item.own == own && taken.lines == body && taken.count == j
    ensures item.task == node.task && item.checked == node.checked
  {
    hide ItemHere, ItemOf, ItemLines, ListMarker;
    ItemHereIff(ls, b, ordered, node, own, body, j, o);
  }

  lemma ItemFits(ls: seq<string>, b: nat, ordered: bool, node: Node, item: Item, taken: Taken, o: Options)
    requires ItemTaken(ls, b, ordered, item, taken, o) && ls != [] && b <= |ls[0]| && node.ListItem?
    requires item.task == node.task && item.checked == node.checked
    ensures ItemHere(ls, b, ordered, node, item.own, taken.lines, taken.count, o)
  {
    hide ItemHere, ItemOf, ItemLines, ListMarker;
    ItemHereIff(ls, b, ordered, node, item.own, taken.lines, taken.count, o);
  }

  lemma OneItem(ls: seq<string>, b: nat, ordered: bool, items: seq<Node>, k: nat, item: Item, taken: Taken, o: Options)
    requires ItemTaken(ls, b, ordered, item, taken, o) && IsItem(ls, b, ordered) && ls != [] && b <= |ls[0]|
    requires ItemsAre(ls, b, ordered, items, k, o)
    ensures items != [] && items[0].ListItem? && taken.count < k && taken.count < |ls|
    ensures item.task == items[0].task && item.checked == items[0].checked
    ensures Lays([item.own] + taken.lines, items[0].children, o)
    ensures ItemsAre(ls[1 + taken.count..], b, ordered, items[1..], k - 1 - taken.count, o)
  {
    hide *;
    var own, body, j := FirstItem(ls, b, ordered, items, k, o);
    ItemParts(ls, b, ordered, items[0], item, taken, own, body, j, o);
  }

  lemma ListStep(ls: seq<string>, b: nat, ordered: bool, item: Item, taken: Taken, o: Options)
    requires ItemTaken(ls, b, ordered, item, taken, o)
    ensures ls != [] && taken.count < |ls|
    ensures ListItems(ls, b, ordered, o) ==
      var inside := Blocks([item.own] + taken.lines, o);
      var more := ListItems(ls[1 + taken.count..], b, ordered, o);
      if inside.None? || more.None? then None
      else Some(([ListItem(item.task, item.checked, inside.value)] + more.value.0, more.value.1 + taken.count + 1))
  {
    hide ListMarker, ItemOf, ItemLines, Blocks, IsBlank, CountIndent;
    assert ls[1..][taken.count..] == ls[1 + taken.count..];
  }

  // ----- everything together -----

  lemma ItemTakenShrinks(ls: seq<string>, b: nat, ordered: bool, item: Item, taken: Taken, o: Options)
    requires ItemTaken(ls, b, ordered, item, taken, o)
    ensures Total([item.own] + taken.lines) < Total(ls) && taken.count < |ls|
    ensures Total(ls[1 + taken.count..]) <= Total(ls)
  {
    hide ItemOf, ItemLines, ListMarker, Total;
    ItemShrinks(ls, b, ordered, item.own);
    assert ls[1..][taken.count..] == ls[1 + taken.count..];
  }

  lemma TakeItem(ls: seq<string>, b: nat, ordered: bool, o: Options) returns (item: Item, taken: Taken)
    requires IsItem(ls, b, ordered)
    ensures ItemTaken(ls, b, ordered, item, taken, o) && ls != [] && b <= |ls[0]|
  {
    item, taken := ItemOf(ListMarker(ls[0][b..]).value.content, o), ItemLines(ls[1..], b);
  }

  lemma {:induction false} ItemsIff(ls: seq<string>, b: nat, ordered: bool, items: seq<Node>, k: nat, o: Options)
    ensures ItemsAre(ls, b, ordered, items, k, o) <==> ListItems(ls, b, ordered, o) == Some((items, k))
    decreases Total(ls), |ls|, 0
  {
    hide *;
    if IsItem(ls, b, ordered) {
      var item, taken := TakeItem(ls, b, ordered, o);
      ListStep(ls, b, ordered, item, taken, o);
      ItemTakenShrinks(ls, b, ordered, item, taken, o);
      if items != [] && items[0].ListItem? {
        LaysIff([item.own] + taken.lines, items[0].children, o);
        if k > taken.count { ItemsIff(ls[1 + taken.count..], b, ordered, items[1..], k - 1 - taken.count, o); }
        assert items == [items[0]] + items[1..];
      }
      if ItemsAre(ls, b, ordered, items, k, o) {
        OneItem(ls, b, ordered, items, k, item, taken, o);
      } else if ListItems(ls, b, ordered, o) == Some((items, k)) {
        ItemFits(ls, b, ordered, items[0], item, taken, o);
        ItemAhead(ls, b, ordered, items, k, item.own, taken.lines, taken.count, o);
      }
    } else {
      NoItems(ls, b, ordered, items, k, o);
    }
  }

  lemma FillsList(ls: seq<string>, b: nat, ordered: bool, start: nat, n: Node, k: nat, o: Options)
    requires BlockAt(ls, b)
    ensures Fills(ls, b, Listed(ordered, start), n, k, o) <==>
      Made(ls, b, Listed(ordered, start), o) == Some((n, k))
    decreases Total(ls), |ls|, 1
  {
    hide ItemsAre, ListItems, Total;
    if n.ListNode? { ItemsIff(ls, b, ordered, n.children, k, o); }
  }

  lemma FillsQuote(ls: seq<string>, b: nat, n: Node, k: nat, o: Options)
    requires BlockAt(ls, b) && StartsWith(Trim(ls[0][b..]), ">")
    ensures Fills(ls, b, Quoted, n, k, o) <==> Made(ls, b, Quoted, o) == Some((n, k))
    decreases Total(ls), |ls|, 1
  {
    hide QuotedIs, QuoteLines, Lays, Blocks, Total, Trim, StartsWith, CountIndent, IsBlank;
    QuoteShrinks(ls, b);
    var taken := QuoteLines(ls, b);
    if n.Blockquote? {
      LaysIff(taken.lines, n.children, o);
      forall body ensures QuotedIs(ls, b, body, k) <==> taken == Taken(body, k) { QuotedIff(ls, b, body, k); }
      assert taken == Taken(taken.lines, taken.count);
    }
  }

  lemma BodyShrinks(ls: seq<string>, b: nat)
    requires BlockAt(ls, b)
    ensures ls[0] != "" && Total(ls[1..]) < Total(ls)
    ensures DirectiveLines(ls[1..], b, 1).Some? ==> Total(DirectiveLines(ls[1..], b, 1).value.lines) <= Total(ls[1..])
  {
    hide DirectiveLines;
    NotBlankNotEmpty(ls[0]);
  }

  lemma FillsDirective(ls: seq<string>, b: nat, n: Node, k: nat, o: Options)
    requires BlockAt(ls, b)
    ensures Fills(ls, b, Opened, n, k, o) <==> Made(ls, b, Opened, o) == Some((n, k))
    decreases Total(ls), |ls|, 1
  {
    hide BodyIs, DirectiveLines, Lays, Blocks, Total, CountIndent, IsBlank, OpenerIs, DirectiveOpen;
    BodyShrinks(ls, b);
    if n.Directive? {
      OpenerIff(ls[0][b..], n.name, n.title);
      var rest := ls[1..];
      var taken := DirectiveLines(rest, b, 1);
      if k > 0 {
        var j := k - 1;
        forall body ensures BodyIs(rest, b, 1, body, j) <==> taken == Some(Taken(body, j)) {
          BodyIff(rest, b, 1, body, j);
        }
      }
      if taken.Some? {
        LaysIff(taken.value.lines, n.children, o);
        assert taken.value == Taken(taken.value.lines, taken.value.count);
      }
    }
  }

  lemma FillsIff(ls: seq<string>, b: nat, n: Node, k: nat, o: Options)
    requires BlockAt(ls, b)
    ensures var first := FirstOpening(ls, b, 0, o);
      Fills(ls, b, first, n, k, o) <==> Made(ls, b, first, o) == Some((n, k))
    decreases Total(ls), |ls|, 2
  {
    var first := FirstOpening(ls, b, 0, o);
    hide *;
    match first
    case Atx(_, _) => FillsHeading(ls, b, first, n, k, o);
    case Setext(_, _) => FillsHeading(ls, b, first, n, k, o);
    case Fenced(c, length, info) => FillsCode(ls, b, c, length, info, n, k, o);
    case Ruled => FillsRule(ls, b, n, k, o);
    case Opened => FillsDirective(ls, b, n, k, o);
    case Quoted =>
      QuoteStarts(ls, b, o);
      FillsQuote(ls, b, n, k, o);
    case Listed(ordered, start) => FillsList(ls, b, ordered, start, n, k, o);
    case Tabled(aligns) => FillsTable(ls, b, aligns, n, k, o);
    case Html => FillsHtml(ls, b, n, k, o);
    case Plain => FillsText(ls, b, n, k, o);
  }

  lemma QuoteStarts(ls: seq<string>, b: nat, o: Options)
    requires BlockAt(ls, b) && FirstOpening(ls, b, 0, o) == Quoted
    ensures b <= |ls[0]| && StartsWith(Trim(ls[0][b..]), ">")
  {
    hide FirstOpening, StartsWith, Trim;
    FirstOpeningIs(ls, b, 0, o);
  }

  lemma FillsRule(ls: seq<string>, b: nat, n: Node, k: nat, o: Options)
    requires BlockAt(ls, b)
    ensures Fills(ls, b, Ruled, n, k, o) <==> Made(ls, b, Ruled, o) == Some((n, k))
  {
  }

  lemma BlockIff(ls: seq<string>, b: nat, n: Node, k: nat, o: Options)
    requires BlockAt(ls, b)
    ensures IsBlock(ls, b, n, k, o) <==> Block(ls, b, o) == Some((n, k))
    decreases Total(ls), |ls|, 3
  {
    hide Fills, Made, OpensFirst, FirstOpening, Block, CountIndent, IsBlank, Total;
    var first := FirstOpening(ls, b, 0, o);
    BlockIs(ls, b, o);
    FillsIff(ls, b, n, k, o);
    forall opening: Opening ensures OpensFirst(ls, b, opening, o) <==> opening == first { FirstIff(ls, b, opening, o); }
  }

  lemma LaysFront(ls: seq<string>, b: nat, ns: seq<Node>, o: Options)
    requires BlockAt(ls, b)
    ensures Lays(ls, ns, o) <==>
      ns != [] && exists k: nat :: 0 < k <= |ls| && IsBlock(ls, b, ns[0], k, o) && Lays(ls[k..], ns[1..], o)
  {
    hide IsBlock, IsBlank, Blank, RunOf, CountIndent;
    BlankIs(ls[0]);
    forall i: nat ensures RunOf(ls[0], ' ', i) <==> i == b { IndentIs(ls[0], i); }
  }

  lemma LaysBlank(ls: seq<string>, ns: seq<Node>, o: Options)
    requires ls != [] && IsBlank(ls[0])
    ensures Lays(ls, ns, o) <==> Lays(ls[1..], ns, o)
  {
    hide IsBlock, IsBlank, Blank;
    BlankIs(ls[0]);
  }

  lemma BlocksFront(ls: seq<string>, b: nat, ns: seq<Node>, o: Options)
    requires BlockAt(ls, b)
    ensures Blocks(ls, o) == Some(ns) <==>
      && ns != [] && Block(ls, b, o).Some? && Block(ls, b, o).value.0 == ns[0]
      && Blocks(ls[Block(ls, b, o).value.1..], o) == Some(ns[1..])
  {
    hide Block, IsBlank, CountIndent;
    if ns != [] { assert ns == [ns[0]] + ns[1..]; }
  }

  lemma NoLines(ns: seq<Node>, o: Options)
    ensures Lays([], ns, o) <==> Blocks([], o) == Some(ns)
  {
  }

  /** Lines lay out the nodes that the parser makes of them, and no others; where it
      never comes back they lay out none. */
  lemma {:induction false} LaysIff(ls: seq<string>, ns: seq<Node>, o: Options)
    ensures Lays(ls, ns, o) <==> Blocks(ls, o) == Some(ns)
    decreases Total(ls), |ls|, 4
  {
    hide *;
    if ls == [] {
      NoLines(ns, o);
    } else if IsBlank(ls[0]) {
      TotalOfRest(ls, 1);
      LaysBlank(ls, ns, o);
      BlocksBlank(ls, o);
      LaysIff(ls[1..], ns, o);
    } else {
      var b := CountIndent(ls[0]);
      AtBlock(ls);
      LaysFront(ls, b, ns, o);
      BlocksFront(ls, b, ns, o);
      if ns != [] {
        forall k: nat ensures IsBlock(ls, b, ns[0], k, o) <==> Block(ls, b, o) == Some((ns[0], k)) {
          BlockIff(ls, b, ns[0], k, o);
        }
        if Block(ls, b, o).Some? {
          var k := Block(ls, b, o).value.1;
          TotalOfRest(ls, k);
          LaysIff(ls[k..], ns[1..], o);
        }
      }
    }
  }

  lemma AtBlock(ls: seq<string>)
    requires ls != [] && !IsBlank(ls[0])
    ensures BlockAt(ls, CountIndent(ls[0]))
  {
  }

  lemma BlocksBlank(ls: seq<string>, o: Options)
    requires ls != [] && IsBlank(ls[0])
    ensures Blocks(ls, o) == Blocks(ls[1..], o)
  {
    hide IsBlank, Block;
  }

  // ----- documents -----

  predicate EndsLine(c: char) {
    c == '\n' || c == '\r'
  }

  /** A line end of k characters at the front: LF, CR LF, or CR alone. */
  predicate LineEnd(s: string, k: nat) {
    && 0 < k <= |s| && EndsLine(s[0])
    && k == if s[0] == '\r' && |s| > 1 && s[1] == '\n' then 2 else 1
  }

  /** The lines of a source. */
  ghost predicate LinesAre(src: string, ls: seq<string>)
    decreases |ls|
  {
    && ls != [] && StartsWith(src, ls[0]) && (forall i | 0 <= i < |ls[0]| :: !EndsLine(ls[0][i]))
    && var rest := src[|ls[0]|..];
       if |ls| == 1 then rest == ""
       else exists k: nat :: LineEnd(rest, k) && LinesAre(rest[k..], ls[1..])
  }

  function LineLength(s: string): (n: nat)
    ensures n <= |s| && (forall i | 0 <= i < n :: !EndsLine(s[i])) && (n < |s| ==> EndsLine(s[n]))
  {
    if s == "" || EndsLine(s[0]) then 0 else 1 + LineLength(s[1..])
  }

  lemma SplitLast(s: string, d: char)
    requires s != ""
    ensures var front := Query.Split(s[..|s| - 1], d);
      Query.Split(s, d) ==
        if s[|s| - 1] == d then front + [""] else front[..|front| - 1] + [front[|front| - 1] + [s[|s| - 1]]]
  {
  }

  lemma {:induction false} SplitFront(a: string, b: string, d: char)
    requires Without(a, d)
    ensures Query.Split(a + [d] + b, d) == [a] + Query.Split(b, d)
  {
    hide Query.Split;
    var s := a + [d] + b;
    SplitLast(s, d);
    if b == "" {
      assert s[..|s| - 1] == a;
      Query.SplitWhole(a, d);
      Query.SplitWhole("", d);
    } else {
      var front := b[..|b| - 1];
      SplitFront(a, front, d);
      assert s[..|s| - 1] == a + [d] + front;
      SplitLast(b, d);
      PartsFront(a, Query.Split(front, d), b[|b| - 1]);
    }
  }

  lemma PartsFront(a: string, parts: seq<string>, c: char)
    requires parts != []
    ensures var all := [a] + parts;
      && all[..|all| - 1] + [all[|all| - 1] + [c]] == [a] + (parts[..|parts| - 1] + [parts[|parts| - 1] + [c]])
      && all + [""] == [a] + (parts + [""])
  {
  }

  lemma {:induction false} StripLine(line: string, rest: string)
    requires Without(line, '\r')
    ensures StripNewlines(line + rest) == line + StripNewlines(rest)
  {
    if line == "" {
      assert line + rest == rest;
    } else {
      assert (line + rest)[1..] == line[1..] + rest;
      StripLine(line[1..], rest);
    }
  }

  lemma StripEnd(s: string, k: nat)
    requires LineEnd(s, k)
    ensures StripNewlines(s) == "\n" + StripNewlines(s[k..])
  {
  }

  lemma LinesFront(src: string, ls: seq<string>, k: nat)
    requires var n := LineLength(src); n < |src| && LineEnd(src[n..], k)
    ensures var n := LineLength(src);
      LinesAre(src, ls) <==> |ls| > 1 && ls[0] == src[..n] && LinesAre(src[n + k..], ls[1..])
  {
    var n := LineLength(src);
    assert src[n..][k..] == src[n + k..];
    if ls != [] { FirstLine(src, ls[0]); }
  }

  /** A line without a line end, and a line end or nothing behind it. */
  lemma FirstLine(src: string, line: string)
    requires StartsWith(src, line) ==> |line| <= |src|
    ensures line == src[..LineLength(src)] <==>
      && StartsWith(src, line) && (forall i | 0 <= i < |line| :: !EndsLine(line[i]))
      && (|line| < |src| ==> EndsLine(src[|line|]))
  {
    var n := LineLength(src);
    if StartsWith(src, line) {
      assert forall i | 0 <= i < |line| :: line[i] == src[i];
    }
    assert src[..n][..|src[..n]|] == src[..n];
  }

  lemma LastLine(src: string, ls: seq<string>)
    requires LineLength(src) == |src|
    ensures LinesAre(src, ls) <==> ls == [src]
  {
    if LinesAre(src, ls) { FirstLine(src, ls[0]); }
    assert src[..|src|] == src;
  }

  /** The lines that the parser is given. */
  lemma {:induction false} LinesIff(src: string, ls: seq<string>)
    ensures LinesAre(src, ls) <==> ls == Query.Split(StripNewlines(src), '\n')
    decreases |src|
  {
    hide LinesAre, StripNewlines, Query.Split;
    var n := LineLength(src);
    var line, rest := src[..n], src[n..];
    assert src == line + rest;
    StripLine(line, rest);
    if n == |src| {
      LastLine(src, ls);
      StripNothing();
      assert line + "" == src;
      Query.SplitWhole(src, '\n');
    } else {
      var k := if rest[0] == '\r' && |rest| > 1 && rest[1] == '\n' then 2 else 1;
      var more := src[n + k..];
      assert rest[k..] == more;
      LinesFront(src, ls, k);
      StripEnd(rest, k);
      SplitFront(line, StripNewlines(more), '\n');
      assert line + ("\n" + StripNewlines(more)) == line + ['\n'] + StripNewlines(more);
      if |ls| > 1 {
        LinesIff(more, ls[1..]);
        assert ls == [ls[0]] + ls[1..];
      }
    }
  }

  lemma StripNothing()
    ensures StripNewlines("") == ""
  {
  }

  /** The nodes of a document are those that its lines lay out. */
  lemma DocumentIff(src: string, ns: seq<Node>, o: Options)
    ensures (exists ls :: LinesAre(src, ls) && Lays(ls, ns, o)) <==> ToAst(src, o) == Some(ns)
  {
    hide LinesAre, Lays, Blocks, StripNewlines, Query.Split;
    var lines := Query.Split(StripNewlines(src), '\n');
    LinesIff(src, lines);
    LaysIff(lines, ns, o);
    if ls :| LinesAre(src, ls) && Lays(ls, ns, o) { LinesIff(src, ls); }
  }
}
