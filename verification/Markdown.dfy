/** The block parser (src/lib/markdown.cpp:86-465, 711-1150, 1356-1366), on the lines that are
    left.  Each step takes at least one line; each call for the inside of a list
    item, a quote or a directive gets strictly fewer characters. */
module Markdown {
  import opened Text
  import opened MarkdownInline
  import Query

  // ----- lines -----

  predicate IsBlank(line: string) {
    Trim(line) == ""
  }

  function CountIndent(s: string): (n: nat)
    ensures n <= |s|
  {
    if s == "" || s[0] != ' ' then 0 else 1 + CountIndent(s[1..])
  }

  function Total(ls: seq<string>): nat {
    if ls == [] then 0 else |ls[0]| + Total(ls[1..])
  }

  function JoinLines(ls: seq<string>): string {
    if ls == [] then "" else if |ls| == 1 then ls[0] else ls[0] + "\n" + JoinLines(ls[1..])
  }

  predicate IsDigits(s: string) {
    s != "" && forall i | 0 <= i < |s| :: IsDigit(s[i])
  }

  predicate IsIdentifier(s: string) {
    s != "" && forall i | 0 <= i < |s| :: IsAlnum(s[i]) || s[i] == '_' || s[i] == '-'
  }

  function Run(s: string, c: char): (n: nat)
    ensures n <= |s| && forall i | 0 <= i < n :: s[i] == c
  {
    if s == "" || s[0] != c then 0 else 1 + Run(s[1..], c)
  }

  // ----- headings, rules, fences, list markers -----

  function StripHashes(s: string): string
    decreases |s|
  {
    if s != "" && s[|s| - 1] == '#' && Trim(s[..|s| - 1]) != "" then
      TrimShrinks(s[..|s| - 1]);
      StripHashes(Trim(s[..|s| - 1]))
    else s
  }

  lemma {:induction false} TrimShrinks(s: string)
    ensures |Trim(s)| <= |s|
  {
    if s != "" && IsSpace(s[0]) {
      TrimShrinks(s[1..]);
    } else if s != "" && IsSpace(s[|s| - 1]) {
      TrimShrinks(s[..|s| - 1]);
    }
  }

  /** `markdown_parse_atx_heading`: level and content. */
  function AtxHeading(raw: string): (r: Option<(nat, string)>)
    ensures r.Some? ==> 1 <= r.value.0 <= 6
  {
    var t := Trim(raw);
    var level := Run(t, '#');
    if level == 0 || level > 6 || level >= |t| || !IsSpace(t[level]) then None
    else Some((level, StripHashes(Trim(t[level..]))))
  }

  /** `markdown_parse_setext_heading` */
  function SetextHeading(current: string, next: string): (r: Option<(nat, string)>)
    ensures r.Some? ==> 1 <= r.value.0 <= 6
  {
    var c, n := Trim(current), Trim(next);
    if c == "" || |n| < 3 then None
    else if forall i | 0 <= i < |n| :: n[i] == '=' || IsSpace(n[i]) then Some((1, c))
    else if forall i | 0 <= i < |n| :: n[i] == '-' || IsSpace(n[i]) then Some((2, c))
    else None
  }

  /** `markdown_parse_fence`: the character, the length and the info string. */
  function Fence(raw: string): Option<(char, nat, string)> {
    var t := Trim(raw);
    if |t| < 3 || (t[0] != '`' && t[0] != '~') || Run(t, t[0]) < 3 then None
    else Some((t[0], Run(t, t[0]), Trim(t[Run(t, t[0])..])))
  }

  function CountOf(s: string, c: char): nat {
    if s == "" then 0 else (if s[0] == c then 1 else 0) + CountOf(s[1..], c)
  }

  /** `markdown_is_hr` */
  predicate IsRule(raw: string) {
    var t := Trim(raw);
    && |t| >= 3 && (t[0] == '-' || t[0] == '*' || t[0] == '_')
    && (forall i | 0 <= i < |t| :: t[i] == t[0] || IsSpace(t[i]))
    && CountOf(t, t[0]) >= 3
  }

  function DigitRun(s: string): (n: nat)
    ensures n <= |s| && forall i | 0 <= i < n :: IsDigit(s[i])
  {
    if s == "" || !IsDigit(s[0]) then 0 else 1 + DigitRun(s[1..])
  }

  datatype Marker = Marker(ordered: bool, start: nat, content: string)

  /** `markdown_parse_list_marker` */
  function ListMarker(raw: string): (r: Option<Marker>)
    ensures r.Some? ==> |r.value.content| + 2 <= |raw|
  {
    if |raw| < 2 then None
    else if (raw[0] == '-' || raw[0] == '*' || raw[0] == '+') && raw[1] == ' ' then Some(Marker(false, 1, raw[2..]))
    else
      var n := DigitRun(raw);
      if n == 0 || n + 1 >= |raw| then None
      else if (raw[n] == '.' || raw[n] == ')')
          && raw[n + 1] == ' ' then Some(Marker(true, DigitsValue(raw[..n]), raw[n + 2..]))
      else None
  }

  /** `markdown_parse_task_prefix`: whether it is checked, and the rest. */
  function TaskPrefix(s: string): (r: Option<(bool, string)>)
    ensures r.Some? ==> |r.value.1| <= |s|
  {
    if |s| < 4 || s[0] != '[' || s[2] != ']' || s[3] != ' ' then None
    else if s[1] == 'x' || s[1] == 'X' then Some((true, s[4..]))
    else if s[1] == ' ' then Some((false, s[4..]))
    else None
  }

  // ----- tables -----

  /** The cells of `raw`, with the cell gathered so far. */
  function PipeCells(raw: string, cell: string): (r: seq<string>)
    ensures r != []
  {
    if raw == "" then [Trim(cell)]
    else if raw[0] == '\\' && |raw| > 1 then PipeCells(raw[2..], cell + [raw[1]])
    else if raw[0] == '\\' then [Trim(cell)]
    else if raw[0] == '|' then [Trim(cell)] + PipeCells(raw[1..], "")
    else PipeCells(raw[1..], cell + [raw[0]])
  }

  /** `markdown_split_pipe_row` */
  function PipeRow(raw: string): seq<string> {
    var cells := PipeCells(raw, "");
    var c1 := if cells[0] == "" then cells[1..] else cells;
    if c1 != [] && c1[|c1| - 1] == "" then c1[..|c1| - 1] else c1
  }

  function Alignment(cell: string): Option<string> {
    var c := Trim(cell);
    if c == "" then None
    else
      var left, right := c[0] == ':', c[|c| - 1] == ':';
      var t := Trim(WithoutColons(c));
      if |t| < 3 || exists i | 0 <= i < |t| :: t[i] != '-' then None
      else Some(if left && right then "center" else if left then "left" else if right then "right" else "")
  }

  function WithoutColons(c: string): string
    requires c != ""
  {
    var t := if c[0] == ':' then c[1..] else c;
    if c[|c| - 1] == ':' && |t| > 0 then t[..|t| - 1] else t
  }

  function Alignments(cells: seq<string>): Option<seq<string>> {
    if cells == [] then Some([])
    else match Alignment(cells[0])
      case None => None
      case Some(a) => match Alignments(cells[1..]) case None => None case Some(more) => Some([a] + more)
  }

  /** `markdown_parse_table_separator` */
  function TableSeparator(raw: string): Option<seq<string>> {
    if PipeRow(raw) == [] then None else Alignments(PipeRow(raw))
  }

  // ----- directives -----

  /** `markdown_read_quoted`, behind the opening quote: the value and the rest. */
  function ReadQuoted(s: string, quote: char): (r: (string, string))
    ensures |r.1| <= |s|
  {
    if s == "" then ("", "")
    else if s[0] == '\\' && |s| > 1 then var more := ReadQuoted(s[2..], quote); ([s[1]] + more.0, more.1)
    else if s[0] == quote then ("", s[1..])
    else var more := ReadQuoted(s[1..], quote); ([s[0]] + more.0, more.1)
  }

  function WordLength(s: string): (n: nat)
    ensures n <= |s| && (n < |s| ==> IsSpace(s[n]))
  {
    if s == "" || IsSpace(s[0]) then 0 else 1 + WordLength(s[1..])
  }

  function TokenLength(s: string): (n: nat)
    ensures n <= |s| && (n < |s| ==> IsSpace(s[n]) || s[n] == '=')
  {
    if s == "" || IsSpace(s[0]) || s[0] == '=' then 0 else 1 + TokenLength(s[1..])
  }

  predicate IsQuote(s: string) {
    s != "" && (s[0] == '"' || s[0] == '\'')
  }

  function Appended(argument: string, token: string): string {
    (if argument != "" then argument + " " else argument) + token
  }

  datatype Attrs = Attrs(values: map<string, string>, argument: string)

  /** `markdown_parse_attrs` on what is left.  At a '=' with nothing before it the
      index is not moved: the loop never ends.  That is None. */
  function ParseAttrs(s: string, sofar: Attrs): Option<Attrs>
    decreases |s|
  {
    var t := SkipSpace(s);
    if t == "" then Some(sofar)
    else if IsQuote(t) then
      var (token, rest) := ReadQuoted(t[1..], t[0]);
      ParseAttrs(rest, sofar.(argument := Appended(sofar.argument, token)))
    else
      var n := TokenLength(t);
      if n < |t| && t[n] == '=' && IsIdentifier(t[..n]) then
        var after := t[n + 1..];
        var value := if IsQuote(after) then ReadQuoted(after[1..], after[0]) else (after[..WordLength(after)],
            after[WordLength(after)..]);
        ParseAttrs(value.1, sofar.(values := sofar.values[t[..n] := TrimQuotes(value.0)]))
      else if n == 0 then None
      else ParseAttrs(t[n..], sofar.(argument := Appended(sofar.argument, t[..n])))
  }

  datatype Opener = NoOpener | OpenerHangs | Opener(name: string, attrs: Attrs)

  /** `markdown_parse_directive_open` */
  function DirectiveOpen(raw: string): Opener {
    var t := Trim(raw);
    if !StartsWith(t, ":::") || t == ":::" then NoOpener
    else
      var payload := Trim(t[3..]);
      var name := payload[..WordLength(payload)];
      if !IsIdentifier(name) then NoOpener
      else match ParseAttrs(Trim(payload[|name|..]), Attrs(map[], ""))
        case None => OpenerHangs
        case Some(attrs) => Opener(name, attrs)
  }

  // ----- the lines a block takes -----

  /** A line without the indentation of its block, if it has that much. */
  function Dedented(line: string, b: nat): (r: string)
    ensures |r| <= |line|
  {
    if CountIndent(line) >= b then line[b..] else line
  }

  /** Lines taken, and how many were read for them. */
  datatype Taken = Taken(lines: seq<string>, count: nat)

  function More(line: string, t: Taken): Taken {
    Taken([line] + t.lines, t.count + 1)
  }

  predicate Within(t: Taken, ls: seq<string>) {
    t.count <= |ls| && Total(t.lines) <= Total(ls)
  }

  /** The body of a fence, up to and with its end. */
  function CodeLines(ls: seq<string>, b: nat, c: char, length: nat): (t: Taken)
    ensures t.count <= |ls|
  {
    if ls == [] then Taken([], 0)
    else if Run(Trim(Dedented(ls[0], b)), c) >= length then Taken([], 1)
    else More(Dedented(ls[0], b), CodeLines(ls[1..], b, c, length))
  }

  /** The body of a directive: None if a line in it never comes back. */
  function DirectiveLines(ls: seq<string>, b: nat, depth: nat): (t: Option<Taken>)
    requires depth > 0
    ensures t.Some? ==> Within(t.value, ls)
  {
    if ls == [] then Some(Taken([], 0))
    else
      var raw := Dedented(ls[0], b);
      var t := Trim(raw);
      var opener := if StartsWith(t, ":::") && t != ":::" then DirectiveOpen(raw) else NoOpener;
      if t == ":::" && depth == 1 then Some(Taken([], 1))
      else if opener.OpenerHangs? then None
      else
        var inner := if t == ":::" then depth - 1 else if opener.Opener? then depth + 1 else depth;
        match DirectiveLines(ls[1..], b, inner)
        case None => None
        case Some(more) => Some(More(raw, more))
  }

  function Unquoted(raw: string): (r: string)
    ensures |r| <= |raw| && (Find(raw, '>', 0) < |raw| ==> |r| < |raw|)
  {
    var marker := Find(raw, '>', 0);
    var s := if marker < |raw| then raw[marker + 1..] else raw;
    if s != "" && s[0] == ' ' then s[1..] else s
  }

  predicate IsQuoteLine(line: string, b: nat) {
    CountIndent(line) >= b && StartsWith(Trim(line[b..]), ">")
  }

  function QuoteLines(ls: seq<string>, b: nat): (t: Taken)
    ensures Within(t, ls)
  {
    if ls == [] then Taken([], 0)
    else if IsBlank(ls[0]) then More("", QuoteLines(ls[1..], b))
    else if !IsQuoteLine(ls[0], b) then Taken([], 0)
    else More(Unquoted(ls[0][b..]), QuoteLines(ls[1..], b))
  }

  /** What belongs to a list item behind its first line. */
  function ItemLines(ls: seq<string>, b: nat): (t: Taken)
    ensures Within(t, ls)
  {
    if ls == [] then Taken([], 0)
    else if IsBlank(ls[0]) then More("", ItemLines(ls[1..], b))
    else if CountIndent(ls[0]) < b + 2 then Taken([], 0)
    else More(ls[0][b + 2..], ItemLines(ls[1..], b))
  }

  function HtmlLines(ls: seq<string>, b: nat): (t: Taken)
    ensures t.count <= |ls|
  {
    if ls == [] || IsBlank(ls[0]) || CountIndent(ls[0]) < b || !StartsWith(Trim(ls[0][b..]), "<") then Taken([], 0)
    else More(ls[0][b..], HtmlLines(ls[1..], b))
  }

  predicate IsTableStart(raw: string, ls: seq<string>, b: nat, o: Options) {
    && o.gfm && |ls| > 1 && '|' in raw && CountIndent(ls[1]) >= b && TableSeparator(ls[1][b..]).Some?
  }

  /** A line that ends a paragraph, apart from directives. */
  predicate StartsOther(raw: string) {
    AtxHeading(raw).Some? || Fence(raw).Some? || IsRule(raw) || StartsWith(Trim(raw), ">") || ListMarker(raw).Some?
  }

  /** The lines of a paragraph, behind `first` or not: None as above. */
  function ParagraphLines(ls: seq<string>, b: nat, o: Options, first: bool): (t: Option<Taken>)
    ensures t.Some? ==> t.value.count <= |ls|
    ensures t.Some? && first && ls != [] && !IsBlank(ls[0]) && CountIndent(ls[0]) >= b ==> t.value.count > 0
  {
    if ls == [] || IsBlank(ls[0]) || CountIndent(ls[0]) < b then Some(Taken([], 0))
    else
      var raw := ls[0][b..];
      if !first && StartsOther(raw) then Some(Taken([], 0))
      else
        var opener := if first then NoOpener else DirectiveOpen(raw);
        if opener.OpenerHangs? then None
        else if opener.Opener? || (!first && IsTableStart(raw, ls, b, o)) then Some(Taken([], 0))
        else match ParagraphLines(ls[1..], b, o, false)
          case None => None
          case Some(more) => Some(More(raw, more))
  }

  // ----- blocks -----

  function Cells(texts: seq<string>, o: Options): (r: seq<Node>)
    ensures !o.allowHtml ==> AllNoRaw(r)
  {
    if texts == [] then [] else [Cell(Inline(texts[0], "", o))] + Cells(texts[1..], o)
  }

  function Rows(ls: seq<string>, b: nat, o: Options): (r: (seq<Node>, nat))
    ensures r.1 <= |ls| && (!o.allowHtml ==> AllNoRaw(r.0))
  {
    if ls == [] || IsBlank(ls[0]) || CountIndent(ls[0]) < b || '|' !in ls[0][b..] || PipeRow(ls[0][b..]) == []
        then ([], 0)
    else
      var more := Rows(ls[1..], b, o);
      ([Row(Cells(PipeRow(ls[0][b..]), o))] + more.0, more.1 + 1)
  }

  /** A block that needs no block parser for its inside, and how many lines it
      takes. */
  function LeafBlock(ls: seq<string>, b: nat, o: Options): (r: Option<(Node, nat)>)
    requires ls != [] && b == CountIndent(ls[0])
    ensures r.Some? ==> 0 < r.value.1 <= |ls| && (!o.allowHtml ==> NoRaw(r.value.0))
  {
    var raw := ls[0][b..];
    var atx := AtxHeading(raw);
    if atx.Some? then Some((Heading(atx.value.0, Inline(atx.value.1, "", o)), 1))
    else
      var setext := if |ls| > 1 && CountIndent(ls[1]) >= b then SetextHeading(raw, ls[1][b..]) else None;
      if setext.Some? then Some((Heading(setext.value.0, Inline(setext.value.1, "", o)), 2))
      else
        var fence := Fence(raw);
        if fence.Some? then
          var (c, length, info) := fence.value;
          var body := CodeLines(ls[1..], b, c, length);
          Some((CodeBlock(JoinLines(body.lines), Trim(info[..Find(info, ' ', 0)])), body.count + 1))
        else if IsRule(raw) then Some((Hr, 1))
        else None
  }

  /** A table, raw HTML or a paragraph. */
  function PlainBlock(ls: seq<string>, b: nat, o: Options): (r: Option<(Node, nat)>)
    requires ls != [] && b == CountIndent(ls[0]) && !IsBlank(ls[0])
    ensures r.Some? ==> 0 < r.value.1 <= |ls| && (!o.allowHtml ==> NoRaw(r.value.0))
  {
    var raw := ls[0][b..];
    if IsTableStart(raw, ls, b, o) then
      var rows := Rows(ls[2..], b, o);
      Some((Table(Cells(PipeRow(raw), o), TableSeparator(ls[1][b..]).value, rows.0), rows.1 + 2))
    else if o.allowHtml && StartsWith(Trim(raw), "<") then
      var html := HtmlLines(ls, b);
      Some((RawHtml(JoinLines(html.lines)), html.count))
    else match ParagraphLines(ls, b, o, true)
      case None => None
      case Some(t) => Some((Paragraph(Inline(JoinLines(t.lines), "", o)), t.count))
  }

  /** `markdown_parse_blocks`: None if it never comes back. */
  function Blocks(ls: seq<string>, o: Options): (r: Option<seq<Node>>)
    decreases Total(ls), |ls|, 2
  {
    if ls == [] then Some([])
    else if IsBlank(ls[0]) then Blocks(ls[1..], o)
    else match Block(ls, CountIndent(ls[0]), o)
      case None => None
      case Some(found) =>
        TotalOfRest(ls, found.1);
        match Blocks(ls[found.1..], o)
        case None => None
        case Some(more) => Some([found.0] + more)
  }

  /** The loop with its index: None as soon as a block never comes back. */
  method ParseBlocks(lines: seq<string>, o: Options) returns (r: Option<seq<Node>>)
    ensures r == Blocks(lines, o)
  {
    hide Block, IsBlank;
    var idx := 0;
    var children := [];
    assert lines[0..] == lines;
    assert Blocks(lines, o).Some? ==> [] + Blocks(lines, o).value == Blocks(lines, o).value;
    while idx < |lines|
      invariant idx <= |lines|
      invariant match Blocks(lines[idx..], o)
        case None => Blocks(lines, o) == None
        case Some(more) => Blocks(lines, o) == Some(children + more)
    {
      assert lines[idx..][1..] == lines[idx + 1..];
      if IsBlank(lines[idx]) {
        idx := idx + 1;
        continue;
      }
      var found := Block(lines[idx..], CountIndent(lines[idx]), o);
      if found.None? { return None; }
      var n := found.value.1;
      TotalOfRest(lines[idx..], n);
      assert lines[idx..][n..] == lines[idx + n..];
      OneMore(children, found.value.0, Blocks(lines[idx + n..], o));
      children := children + [found.value.0];
      idx := idx + n;
    }
    assert lines[idx..] == [] && children + [] == children;
    return Some(children);
  }

  lemma OneMore(children: seq<Node>, n: Node, more: Option<seq<Node>>)
    ensures more.Some? ==> children + ([n] + more.value) == children + [n] + more.value
  {
  }

  lemma {:induction false} TotalOfRest(ls: seq<string>, n: nat)
    requires n <= |ls|
    ensures Total(ls[n..]) <= Total(ls)
  {
    if n > 0 {
      TotalOfRest(ls[1..], n - 1);
      assert ls[1..][n - 1..] == ls[n..];
    }
  }

  /** One block at the front, and how many lines it takes. */
  function Block(ls: seq<string>, b: nat, o: Options): (r: Option<(Node, nat)>)
    requires ls != [] && b == CountIndent(ls[0]) && !IsBlank(ls[0])
    ensures r.Some? ==> 0 < r.value.1 <= |ls|
    decreases Total(ls), |ls|, 1
  {
    var raw := ls[0][b..];
    var leaf := LeafBlock(ls, b, o);
    if leaf.Some? then leaf
    else match DirectiveOpen(raw)
      case OpenerHangs => None
      case Opener(name, attrs) => DirectiveBlock(ls, b, name, attrs, o)
      case NoOpener =>
        if StartsWith(Trim(raw), ">") then
          QuoteShrinks(ls, b);
          match Blocks(QuoteLines(ls, b).lines, o)
          case None => None
          case Some(children) => Some((Blockquote(children), QuoteLines(ls, b).count))
        else
          var marker := ListMarker(raw);
          if marker.None? then PlainBlock(ls, b, o)
          else match ListItems(ls, b, marker.value.ordered, o)
            case None => None
            case Some(items) => Some((ListNode(marker.value.ordered, marker.value.start, items.0), items.1))
  }

  lemma QuoteShrinks(ls: seq<string>, b: nat)
    requires ls != [] && b == CountIndent(ls[0]) && !IsBlank(ls[0]) && StartsWith(Trim(ls[0][b..]), ">")
    ensures Total(QuoteLines(ls, b).lines) < Total(ls) && QuoteLines(ls, b).count > 0
  {
    var raw := ls[0][b..];
    assert Trim(raw)[0] == Trim(raw)[..1][0] == '>';
    TrimIsPart(raw, '>');
  }

  lemma {:induction false} TrimIsPart(s: string, c: char)
    requires c in Trim(s)
    ensures Find(s, c, 0) < |s|
  {
    TrimContains(s, c);
  }

  lemma {:induction false} TrimContains(s: string, c: char)
    requires c in Trim(s)
    ensures c in s
  {
    if s != "" && IsSpace(s[0]) {
      TrimContains(s[1..], c);
    } else if s != "" && IsSpace(s[|s| - 1]) {
      TrimContains(s[..|s| - 1], c);
    }
  }

  function DirectiveBlock(ls: seq<string>, b: nat, name: string, attrs: Attrs, o: Options): (r: Option<(Node, nat)>)
    requires ls != [] && b == CountIndent(ls[0]) && !IsBlank(ls[0]) && ls[0] != ""
    ensures r.Some? ==> 0 < r.value.1 <= |ls|
    decreases Total(ls), |ls|, 0
  {
    match DirectiveLines(ls[1..], b, 1)
    case None => None
    case Some(body) =>
      match Blocks(body.lines, o)
      case None => None
      case Some(children) =>
        var title := if "title" in attrs.values then attrs.values["title"] else attrs.argument;
        Some((Directive(name, title, children), body.count + 1))
  }

  /** The items of a list: `markdown_parse_list`. */
  function ListItems(ls: seq<string>, b: nat, ordered: bool, o: Options): (r: Option<(seq<Node>, nat)>)
    ensures r.Some? ==> r.value.1 <= |ls|
    ensures r.Some? && IsItem(ls, b, ordered) ==> r.value.1 > 0
    decreases Total(ls), |ls|, 0
  {
    if !IsItem(ls, b, ordered) then Some(([], 0))
    else
      var (item, taken) := ItemFront(ls, b, ordered, o);
      match Blocks([item.own] + taken.lines, o)
      case None => None
      case Some(children) =>
        match ListItems(ls[1..][taken.count..], b, ordered, o)
        case None => None
        case Some(more) =>
          Some(([ListItem(item.task, item.checked, children)] + more.0, more.1 + taken.count + 1))
  }

  /** The first item, and what belongs to it behind its own line. */
  function ItemFront(ls: seq<string>, b: nat, ordered: bool, o: Options): (r: (Item, Taken))
    requires IsItem(ls, b, ordered)
    ensures ls != [] && r.1.count <= |ls[1..]|
    ensures Total([r.0.own] + r.1.lines) < Total(ls) && Total(ls[1..][r.1.count..]) <= Total(ls)
  {
    var item := ItemOf(ListMarker(ls[0][b..]).value.content, o);
    ItemShrinks(ls, b, ordered, item.own);
    (item, ItemLines(ls[1..], b))
  }

  datatype Item = Item(task: bool, checked: bool, own: string)

  /** A task box, with gfm, and the text of the item's own line. */
  function ItemOf(content: string, o: Options): (r: Item)
    ensures |r.own| <= |content|
  {
    var task := if o.gfm then TaskPrefix(content) else None;
    if task.Some? then Item(true, task.value.0, task.value.1) else Item(false, false, content)
  }

  lemma ItemShrinks(ls: seq<string>, b: nat, ordered: bool, own: string)
    requires IsItem(ls, b, ordered) && |own| <= |ListMarker(ls[0][b..]).value.content|
    ensures var taken := ItemLines(ls[1..], b);
      && Total([own] + taken.lines) < Total(ls)
      && Total(ls[1..][taken.count..]) <= Total(ls)
  {
    var taken := ItemLines(ls[1..], b);
    assert ([own] + taken.lines)[1..] == taken.lines;
    TotalOfRest(ls[1..], taken.count);
  }

  predicate IsItem(ls: seq<string>, b: nat, ordered: bool) {
    && ls != [] && !IsBlank(ls[0]) && CountIndent(ls[0]) >= b
    && ListMarker(ls[0][b..]).Some? && ListMarker(ls[0][b..]).value.ordered == ordered
  }

  // ----- documents -----

  /** `markdown_strip_newlines` */
  function StripNewlines(s: string): string {
    if s == "" then ""
    else if s[0] == '\r' then "\n" + StripNewlines(if |s| > 1 && s[1] == '\n' then s[2..] else s[1..])
    else [s[0]] + StripNewlines(s[1..])
  }

  /** `markdown_to_ast`: the children of the document. */
  function ToAst(src: string, o: Options): Option<seq<Node>> {
    Blocks(Query.Split(StripNewlines(src), '\n'), o)
  }

  // ----- raw HTML is made only on demand -----

  lemma NoRawPrepend(n: Node, more: seq<Node>)
    requires NoRaw(n) && AllNoRaw(more)
    ensures AllNoRaw([n] + more)
  {
    hide NoRaw;
  }

  lemma {:induction false} BlocksNoRaw(ls: seq<string>, o: Options)
    requires !o.allowHtml && Blocks(ls, o).Some?
    ensures AllNoRaw(Blocks(ls, o).value)
    decreases Total(ls), |ls|, 2
  {
    hide NoRaw, Block, IsBlank;
    if ls == [] {
    } else if IsBlank(ls[0]) {
      BlocksNoRaw(ls[1..], o);
    } else {
      var found := Block(ls, CountIndent(ls[0]), o).value;
      BlockNoRaw(ls, o);
      TotalOfRest(ls, found.1);
      BlocksNoRaw(ls[found.1..], o);
      NoRawPrepend(found.0, Blocks(ls[found.1..], o).value);
    }
  }

  lemma BlockNoRaw(ls: seq<string>, o: Options)
    requires !o.allowHtml && ls != [] && !IsBlank(ls[0]) && Block(ls, CountIndent(ls[0]), o).Some?
    ensures NoRaw(Block(ls, CountIndent(ls[0]), o).value.0)
    decreases Total(ls), |ls|, 1
  {
    hide IsBlank, LeafBlock, PlainBlock, DirectiveOpen, QuoteLines, ListMarker, Trim, Blocks, ListItems,
      DirectiveBlock, AllNoRaw;
    var b := CountIndent(ls[0]);
    var raw := ls[0][b..];
    NotBlankNotEmpty(ls[0]);
    if LeafBlock(ls, b, o).None? {
      match DirectiveOpen(raw)
      case Opener(name, attrs) => DirectiveNoRaw(ls, b, name, attrs, o);
      case NoOpener =>
        if StartsWith(Trim(raw), ">") {
          QuoteShrinks(ls, b);
          BlocksNoRaw(QuoteLines(ls, b).lines, o);
        } else if ListMarker(raw).Some? {
          ItemsNoRaw(ls, b, ListMarker(raw).value.ordered, o);
        }
    }
  }

  lemma NotBlankNotEmpty(line: string)
    requires !IsBlank(line)
    ensures line != ""
  {
  }

  lemma DirectiveNoRaw(ls: seq<string>, b: nat, name: string, attrs: Attrs, o: Options)
    requires !o.allowHtml && ls != [] && b == CountIndent(ls[0]) && !IsBlank(ls[0]) && ls[0] != ""
    requires DirectiveBlock(ls, b, name, attrs, o).Some?
    ensures NoRaw(DirectiveBlock(ls, b, name, attrs, o).value.0)
    decreases Total(ls), |ls|, 0
  {
    hide IsBlank, DirectiveLines, Blocks, AllNoRaw;
    BlocksNoRaw(DirectiveLines(ls[1..], b, 1).value.lines, o);
  }

  lemma ItemsNoRaw(ls: seq<string>, b: nat, ordered: bool, o: Options)
    requires !o.allowHtml && ListItems(ls, b, ordered, o).Some?
    ensures AllNoRaw(ListItems(ls, b, ordered, o).value.0)
    decreases Total(ls), |ls|, 0
  {
    hide IsBlank, ListMarker, ItemLines, ItemOf, Blocks, AllNoRaw;
    if IsItem(ls, b, ordered) {
      var item := ItemOf(ListMarker(ls[0][b..]).value.content, o);
      var taken := ItemLines(ls[1..], b);
      var rest := ls[1..][taken.count..];
      ItemShrinks(ls, b, ordered, item.own);
      BlocksNoRaw([item.own] + taken.lines, o);
      ItemsNoRaw(rest, b, ordered, o);
      var children := Blocks([item.own] + taken.lines, o).value;
      NoRawPrepend(ListItem(item.task, item.checked, children), ListItems(rest, b, ordered, o).value.0);
    } else {
      NothingRaw();
    }
  }

  lemma NothingRaw()
    ensures AllNoRaw([])
  {
  }

  /** With raw HTML off the parser makes no node that passes source text through. */
  lemma AstNoRaw(src: string, o: Options)
    requires !o.allowHtml
    ensures ToAst(src, o).Some? ==> AllNoRaw(ToAst(src, o).value)
  {
    hide Blocks, AllNoRaw;
    if ToAst(src, o).Some? { BlocksNoRaw(Query.Split(StripNewlines(src), '\n'), o); }
  }
}
