/** Markdown nodes, and the parser of running text (src/lib/markdown.cpp:467-707). */
module MarkdownInline {
  import opened Text

  datatype Node =
    | TextNode(text: string)
    | CodeSpan(text: string)
    | Strong(children: seq<Node>)
    | Em(children: seq<Node>)
    | Strike(children: seq<Node>)
    | Link(href: string, title: string, children: seq<Node>)
    | Image(alt: string, src: string, title: string)
    | RawHtml(html: string)
    | Paragraph(children: seq<Node>)
    | Heading(level: nat, children: seq<Node>)
    | Hr
    | Blockquote(children: seq<Node>)
    | ListNode(ordered: bool, start: nat, children: seq<Node>)
    | ListItem(task: bool, checked: bool, children: seq<Node>)
    | CodeBlock(text: string, lang: string)
    | Cell(children: seq<Node>)
    | Row(children: seq<Node>)
    | Table(header: seq<Node>, align: seq<string>, rows: seq<Node>)
    | Directive(name: string, title: string, children: seq<Node>)

  datatype Options = Options(gfm: bool, allowHtml: bool)

  /** No node passes source text through as markup. */
  predicate NoRaw(n: Node)
    decreases n, 0
  {
    match n
    case RawHtml(_) => false
    case TextNode(_) => true
    case CodeSpan(_) => true
    case Image(_, _, _) => true
    case Hr => true
    case CodeBlock(_, _) => true
    case Table(header, _, rows) => AllNoRaw(header) && AllNoRaw(rows)
    case _ => AllNoRaw(n.children)
  }

  predicate AllNoRaw(ns: seq<Node>)
    decreases ns, 1
  {
    forall i | 0 <= i < |ns| :: NoRaw(ns[i])
  }

  /** Running text: what the parser of running text makes. */
  predicate IsInline(n: Node)
    decreases n, 0
  {
    match n
    case TextNode(_) => true
    case CodeSpan(_) => true
    case Image(_, _, _) => true
    case RawHtml(_) => true
    case Strong(c) => AllInline(c)
    case Em(c) => AllInline(c)
    case Strike(c) => AllInline(c)
    case Link(_, _, c) => AllInline(c)
    case _ => false
  }

  predicate AllInline(ns: seq<Node>)
    decreases ns, 1
  {
    forall i | 0 <= i < |ns| :: IsInline(ns[i])
  }

  // ----- helpers -----

  function TrimQuotes(raw: string): string {
    var s := Trim(raw);
    if |s| >= 2 && ((s[0] == '"' && s[|s| - 1] == '"') || (s[0] == '\''
        && s[|s| - 1] == '\'')) then s[1..|s| - 1] else s
  }

  /** `markdown_parse_link_target` */
  function LinkTarget(raw: string): Option<(string, string)> {
    var s := Trim(raw);
    if s == "" then None
    else
      var n := Find(s, ' ', 0);
      if n == |s| then Some((TrimQuotes(s), ""))
      else
        var url := TrimQuotes(Trim(s[..n]));
        if url == "" then None else Some((url, TrimQuotes(Trim(s[n + 1..]))))
  }

  function LinkLength(s: string): (n: nat)
    ensures n <= |s|
  {
    if s == "" || IsSpace(s[0]) || s[0] == '<' || s[0] == '>' then 0 else 1 + LinkLength(s[1..])
  }

  predicate Punctuation(c: char) {
    c == '.' || c == ',' || c == '!' || c == '?' || c == ';' || c == ':'
  }

  function WithoutPunctuation(s: string): (r: string)
    ensures |r| <= |s| && r == s[..|r|]
    ensures s != "" && !Punctuation(s[0]) ==> r != ""
  {
    if s != "" && Punctuation(s[|s| - 1]) then WithoutPunctuation(s[..|s| - 1]) else s
  }

  /** `markdown_parse_autolink` at the front of `s`. */
  function Autolink(s: string): (r: Option<string>)
    ensures r.Some? ==> 0 < |r.value| <= |s|
  {
    if !StartsWith(s, "https://") && !StartsWith(s, "http://") then None
    else
      var href := WithoutPunctuation(s[..LinkLength(s)]);
      if href == "" then None else Some(href)
  }

  function Ticks(s: string): (n: nat)
    ensures n <= |s|
  {
    if s == "" || s[0] != '`' then 0 else 1 + Ticks(s[1..])
  }

  function FlushText(buffer: string): seq<Node> {
    if buffer == "" then [] else [TextNode(buffer)]
  }

  // ----- running text -----

  /** "](target)" behind a label that starts at `from`: end of the label, end of
      the target, and the target. */
  function BracketAndTarget(s: string, from: nat): (r: Option<(nat, nat, string, string)>)
    requires from <= |s|
    ensures r.Some? ==> from <= r.value.0 < r.value.1 < |s|
  {
    var bracket := Find(s, ']', from);
    if bracket + 1 < |s| && s[bracket + 1] == '(' then
      var target := Find(s, ')', bracket + 2);
      if target == |s| then None
      else match LinkTarget(s[bracket + 2..target])
        case None => None
        case Some(t) => Some((bracket, target, t.0, t.1))
    else None
  }

  /** The construct at the front of `s`, if there is one, and its length. */
  function Construct(s: string, o: Options): (r: Option<(Node, nat)>)
    requires s != ""
    ensures r.Some? ==> 0 < r.value.1 <= |s|
    ensures r.Some? ==> IsInline(r.value.0) && (!o.allowHtml ==> NoRaw(r.value.0))
    decreases |s|, 1
  {
    var c := s[0];
    var first := FirstConstruct(s, o);
    if first.Some? then first
    else
      var second := Emphasis(s, o);
      if second.Some? then second
      else
        var auto := if o.gfm then Autolink(s) else None;
        if auto.Some? then Some((Link(auto.value, "", [TextNode(auto.value)]), |auto.value|))
        else
          var close := Find(s, '>', 1);
          if o.allowHtml && c == '<' && close < |s|
              && close >= 2 then Some((RawHtml(s[..close + 1]), close + 1)) else None
  }

  /** Code spans, images and links. */
  function FirstConstruct(s: string, o: Options): (r: Option<(Node, nat)>)
    requires s != ""
    ensures r.Some? ==> 0 < r.value.1 <= |s|
    ensures r.Some? ==> IsInline(r.value.0) && (!o.allowHtml ==> NoRaw(r.value.0))
    decreases |s|, 0
  {
    if s[0] == '`' then
      var t := Ticks(s);
      var close := FindText(s, s[..t], t);
      if close < |s| then Some((CodeSpan(s[t..close]), close + t)) else None
    else
      var image := if StartsWith(s, "![") then BracketAndTarget(s, 2) else None;
      if image.Some? then
        var (bracket, target, url, title) := image.value;
        Some((Image(s[2..bracket], url, title), target + 1))
      else
        var link := if s[0] == '[' then BracketAndTarget(s, 1) else None;
        if link.Some? then
          var (bracket, target, url, title) := link.value;
          Some((Link(url, title, Inline(s[1..bracket], "", o)), target + 1))
        else None
  }

  /** Strikethrough, strong and emphasis. */
  function Emphasis(s: string, o: Options): (r: Option<(Node, nat)>)
    requires s != ""
    ensures r.Some? ==> 0 < r.value.1 <= |s|
    ensures r.Some? ==> IsInline(r.value.0) && (!o.allowHtml ==> NoRaw(r.value.0))
    decreases |s|, 0
  {
    var strike := if o.gfm && StartsWith(s, "~~") then FindText(s, "~~", 2) else |s|;
    if strike < |s| then Some((Strike(Inline(s[2..strike], "", o)), strike + 2))
    else
      var double := StartsWith(s, "**") || StartsWith(s, "__");
      var strong := if double then FindText(s, s[..2], 2) else |s|;
      if strong < |s| then Some((Strong(Inline(s[2..strong], "", o)), strong + 2))
      else
        var em := if s[0] == '*' || s[0] == '_' then Find(s, s[0], 1) else |s|;
        if em < |s| then Some((Em(Inline(s[1..em], "", o)), em + 1)) else None
  }

  /** `markdown_parse_inline` on what is left, with the text gathered so far.  Each
      call for the inside of a construct gets a strictly shorter text. */
  function Inline(s: string, buffer: string, o: Options): (r: seq<Node>)
    ensures AllInline(r) && (!o.allowHtml ==> AllNoRaw(r))
    decreases |s|, 2
  {
    if s == "" then FlushText(buffer)
    else if s[0] == '\\' && |s| > 1 then Inline(s[2..], buffer + [s[1]], o)
    else match Construct(s, o)
      case Some(found) => FlushText(buffer) + [found.0] + Inline(s[found.1..], "", o)
      case None => Inline(s[1..], buffer + [s[0]], o)
  }

  /** The same as the loop with its index, its buffer and its list of children. */
  method ParseInline(raw: string, o: Options) returns (children: seq<Node>)
    ensures children == Inline(raw, "", o)
  {
    hide Construct, FlushText, Inline, AllInline, AllNoRaw;
    var buffer, i := "", 0;
    children := [];
    assert raw[0..] == raw;
    while i < |raw|
      invariant i <= |raw| && children + Inline(raw[i..], buffer, o) == Inline(raw, "", o)
    {
      var rest := raw[i..];
      InlineStep(rest, buffer, o);
      if raw[i] == '\\' && i + 1 < |raw| {
        assert rest[2..] == raw[i + 2..];
        buffer := buffer + [raw[i + 1]];
        i := i + 2;
        continue;
      }
      match Construct(rest, o) {
        case Some(found) =>
          assert rest[found.1..] == raw[i + found.1..];
          NodesAssoc(children, FlushText(buffer) + [found.0], Inline(raw[i + found.1..], "", o));
          children := children + (FlushText(buffer) + [found.0]);
          buffer := "";
          i := i + found.1;
        case None =>
          assert rest[1..] == raw[i + 1..];
          buffer := buffer + [raw[i]];
          i := i + 1;
      }
    }
    assert raw[|raw|..] == "";
    InlineEnd(buffer, o);
    children := children + FlushText(buffer);
  }

  lemma InlineEnd(buffer: string, o: Options)
    ensures Inline("", buffer, o) == FlushText(buffer)
  {
  }

  lemma NodesAssoc(a: seq<Node>, b: seq<Node>, c: seq<Node>)
    ensures a + (b + c) == a + b + c
  {
  }

  lemma InlineStep(s: string, buffer: string, o: Options)
    requires s != ""
    ensures Inline(s, buffer, o) ==
      if s[0] == '\\' && |s| > 1 then Inline(s[2..], buffer + [s[1]], o)
      else match Construct(s, o)
        case Some(found) => FlushText(buffer) + [found.0] + Inline(s[found.1..], "", o)
        case None => Inline(s[1..], buffer + [s[0]], o)
  {
    hide Construct;
  }
}
