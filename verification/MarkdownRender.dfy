/** The renderer (src/lib/markdown.cpp:1155-1378) without component hooks,
    and an independent scanner of tags that its output satisfies. */
module MarkdownRender {
  import opened Text
  import opened MarkdownInline
  import opened Markdown

  // ----- rendering -----

  function EscapeHtmlChar(c: char): string {
    if c == '&' then "&amp;"
    else if c == '<' then "&lt;"
    else if c == '>' then "&gt;"
    else if c == '"' then "&quot;"
    else if c == '\'' then "&#39;"
    else [c]
  }

  /** `html_escape` */
  function HtmlEscape(s: string): string {
    if s == "" then "" else HtmlEscape(s[..|s| - 1]) + EscapeHtmlChar(s[|s| - 1])
  }

  method HtmlEscapeLoop(s: string) returns (result: string)
    ensures result == HtmlEscape(s)
  {
    hide EscapeHtmlChar;
    result := "";
    var i := 0;
    while i < |s|
      invariant i <= |s| && result == HtmlEscape(s[..i])
    {
      assert s[..i + 1][..i] == s[..i];
      result := result + EscapeHtmlChar(s[i]);
      i := i + 1;
    }
    assert s[..|s|] == s;
  }

  /** `safe_name` */
  function PlainName(s: string): string {
    if s == "" then "" else (if IsAlnum(s[0]) || s[0] == '_' then [s[0]] else "") + PlainName(s[1..])
  }

  function Quoted(front: string, value: string): string {
    front + "\"" + value + "\""
  }

  function Attr(name: string, value: string): string {
    Quoted(" " + name + "=", HtmlEscape(value))
  }

  function OptionalAttr(name: string, value: string): string {
    if value == "" then "" else Attr(name, value)
  }

  function Element(tag: string, attrs: string, body: string): string {
    "<" + tag + attrs + ">" + body + "</" + tag + ">"
  }

  function VoidElement(tag: string, attrs: string): string {
    "<" + tag + attrs + "/>"
  }

  function CheckBox(checked: bool): string {
    VoidElement("input", Quoted(" type=", "checkbox") + " disabled" + if checked then " checked" else "") + " "
  }

  function Depth(n: Node): nat {
    if IsInline(n) then 0 else 1
  }

  function DepthOf(ns: seq<Node>): nat {
    if AllInline(ns) then 0 else 1
  }

  function Levels(): seq<string> {
    ["h1", "h2", "h3", "h4", "h5", "h6"]
  }

  function HeadingTag(level: nat): string {
    Levels()[if level < 1 then 0 else if level > 6 then 5 else level - 1]
  }

  /** `markdown_render_node` */
  function Render(n: Node, o: Options): string
    decreases Depth(n), n, 1
  {
    match n
    case TextNode(text) => HtmlEscape(text)
    case CodeSpan(text) => Element("code", "", HtmlEscape(text))
    case Strong(c) => Element("strong", "", RenderAll(c, o))
    case Em(c) => Element("em", "", RenderAll(c, o))
    case Strike(c) => Element("del", "", RenderAll(c, o))
    case Link(href, title, c) => Element("a", Attr("href", href) + OptionalAttr("title", title), RenderAll(c, o))
    case Image(alt, src, title) => VoidElement("img", Attr("src", src) + Attr("alt", alt) + OptionalAttr("title",
        title))
    case RawHtml(html) => html
    case Paragraph(c) => Element("p", "", RenderAll(c, o))
    case Heading(level, c) => Element(HeadingTag(level), "", RenderAll(c, o))
    case Hr => VoidElement("hr", "")
    case Blockquote(c) => Element("blockquote", "", RenderAll(c, o))
    case ListNode(ordered, start, c) =>
      Element(if ordered then "ol" else "ul", if ordered
          && start > 1 then Attr("start", Dec(start)) else "", RenderAll(c, o))
    case ListItem(task, checked, c) =>
      Element("li", if task then Attr("class", "task-list-item") else "",
          (if task then CheckBox(checked) else "") + RenderAll(c, o))
    case CodeBlock(text, lang) =>
      Element("pre", "", Element("code", if lang == "" then "" else Quoted(" class=",
          "language-" + HtmlEscape(lang)), HtmlEscape(text)))
    case Cell(c) => RenderAll(c, o)
    case Row(c) => RenderAll(c, o)
    case Table(header, align, rows) =>
      Element("table", "",
        Element("thead", "", Element("tr", "", RenderCells(header, align, "th", o))) + Element("tbody", "",
            RenderRows(rows, align, o)))
    case Directive(name, title, c) =>
      Element("div", Quoted(" class=", "md-directive md-directive-" + PlainName(name)),
        (if title == "" then "" else Element("div", Attr("class", "md-directive-title"), RenderAll(Inline(title, "",
            o), o))) + RenderAll(c, o))
  }

  /** `markdown_render_children` */
  function RenderAll(ns: seq<Node>, o: Options): string
    decreases DepthOf(ns), ns, 0
  {
    if ns == [] then "" else Render(ns[0], o) + RenderAll(ns[1..], o)
  }

  /** The cells of a row; the alignments go with them from the left. */
  function RenderCells(cells: seq<Node>, align: seq<string>, tag: string, o: Options): string
    decreases 1, cells, 0
  {
    if cells == [] then ""
    else
      Element(tag, OptionalAttr("align", if align == [] then "" else align[0]), Render(cells[0], o))
        + RenderCells(cells[1..], if align == [] then [] else align[1..], tag, o)
  }

  function RenderRows(rows: seq<Node>, align: seq<string>, o: Options): string
    decreases 1, rows, 0
  {
    if rows == [] then ""
    else
      Element("tr", "", if rows[0].Row? then RenderCells(rows[0].children, align, "td",
          o) else "") + RenderRows(rows[1..], align, o)
  }

  /** `markdown_to_html` */
  function ToHtml(src: string, o: Options): Option<string> {
    match ToAst(src, o) case None => None case Some(nodes) => Some(RenderAll(nodes, o))
  }

  // ----- an independent reading of tags -----

  /** Index of the '>' that ends a tag: the first outside of quotes. */
  function TagEnd(s: string, quoted: bool): (n: nat)
    ensures n <= |s| && (n < |s| ==> s[n] == '>')
  {
    if s == "" then 0
    else if s[0] == '>' && !quoted then 0
    else 1 + TagEnd(s[1..], if s[0] == '"' then !quoted else quoted)
  }

  function Word(s: string): string {
    if s == "" || s[0] == ' ' then "" else [s[0]] + Word(s[1..])
  }

  /** Reads `s` with `stack` open; the elements open at the end, or None if a tag is
      malformed or closes what is not open, or an angle bracket is loose. */
  function Scan(s: string, stack: seq<string>): Option<seq<string>>
    decreases |s|
  {
    if s == "" then Some(stack)
    else if s[0] == '>' then None
    else if s[0] != '<' then Scan(s[1..], stack)
    else
      var end := TagEnd(s[1..], false);
      if end == |s| - 1 then None
      else
        var tag, rest := s[1..end + 1], s[end + 2..];
        if tag == "" || '<' in tag then None
        else if tag[0] == '/' then
          if stack != [] && stack[|stack| - 1] == tag[1..] then Scan(rest, stack[..|stack| - 1]) else None
        else if tag[|tag| - 1] == '/' then Scan(rest, stack)
        else Scan(rest, stack + [Word(tag)])
  }

  /** Reading `h` leaves the open elements as they were, whatever they were and
      whatever follows. */
  ghost predicate Balanced(h: string) {
    forall rest, stack :: Scan(h + rest, stack) == Scan(rest, stack)
  }

  lemma BalancedNothing()
    ensures Balanced("")
  {
    forall rest, stack ensures Scan("" + rest, stack) == Scan(rest, stack) {
      assert "" + rest == rest;
    }
  }

  lemma BalancedConcat(a: string, b: string)
    requires Balanced(a) && Balanced(b)
    ensures Balanced(a + b)
  {
    hide Scan;
    forall rest, stack ensures Scan(a + b + rest, stack) == Scan(rest, stack) {
      assert a + b + rest == a + (b + rest);
    }
  }

  lemma {:induction false} TextScans(t: string, rest: string, stack: seq<string>)
    requires Without(t, '<') && Without(t, '>')
    ensures Scan(t + rest, stack) == Scan(rest, stack)
  {
    if t == "" {
      assert t + rest == rest;
    } else {
      assert (t + rest)[1..] == t[1..] + rest;
      TextScans(t[1..], rest, stack);
    }
  }

  lemma BalancedText(t: string)
    requires Without(t, '<') && Without(t, '>')
    ensures Balanced(t)
  {
    hide Scan;
    forall rest, stack ensures Scan(t + rest, stack) == Scan(rest, stack) {
      TextScans(t, rest, stack);
    }
  }

  // ----- attributes -----

  /** Whether a quote is open behind `s`; None at an angle bracket. */
  function Quoting(s: string, quoted: bool): Option<bool> {
    if s == "" then Some(quoted)
    else if s[0] == '<' || s[0] == '>' then None
    else Quoting(s[1..], if s[0] == '"' then !quoted else quoted)
  }

  lemma {:induction false} QuotingConcat(a: string, b: string, quoted: bool)
    ensures Quoting(a + b, quoted) == match Quoting(a, quoted) case None => None case Some(q) => Quoting(b, q)
  {
    if a == "" {
      assert a + b == b;
    } else {
      assert (a + b)[1..] == a[1..] + b;
      QuotingConcat(a[1..], b, if a[0] == '"' then !quoted else quoted);
    }
  }

  lemma {:induction false} QuotingPlain(s: string, quoted: bool)
    requires Without(s, '<') && Without(s, '>') && Without(s, '"')
    ensures Quoting(s, quoted) == Some(quoted)
  {
    if s != "" { QuotingPlain(s[1..], quoted); }
  }

  lemma {:induction false} TagEndIs(t: string, rest: string, quoted: bool)
    requires Quoting(t, quoted) == Some(false)
    ensures TagEnd(t + ">" + rest, quoted) == |t|
    ensures Without(t, '<')
  {
    var s := t + ">" + rest;
    if t == "" {
      assert s[0] == '>';
    } else {
      assert s[1..] == t[1..] + ">" + rest;
      TagEndIs(t[1..], rest, if t[0] == '"' then !quoted else quoted);
    }
  }

  /** What may stand behind the name in a tag. */
  ghost predicate GoodAttrs(a: string) {
    Quoting(a, false) == Some(false) && (a == "" || (a[0] == ' ' && a[|a| - 1] != '/'))
  }

  lemma {:induction false} EscapedIsSafe(s: string)
    ensures Inert(HtmlEscape(s))
  {
    hide Inert, EscapeHtmlChar;
    if s == "" {
      InertNothing();
    } else {
      EscapedIsSafe(s[..|s| - 1]);
      InertChar(s[|s| - 1]);
      InertConcat(HtmlEscape(s[..|s| - 1]), EscapeHtmlChar(s[|s| - 1]));
    }
  }

  /** No angle bracket and no quote. */
  predicate Inert(s: string) {
    Without(s, '<') && Without(s, '>') && Without(s, '"') && Without(s, '\'')
  }

  lemma InertNothing()
    ensures Inert("")
  {
  }

  lemma InertChar(c: char)
    ensures Inert(EscapeHtmlChar(c))
  {
  }

  lemma InertConcat(a: string, b: string)
    requires Inert(a) && Inert(b)
    ensures Inert(a + b)
  {
  }

  /** An attribute whose value has neither quotes nor angle brackets. */
  lemma QuotedAttr(front: string, value: string)
    requires Without(front, '<') && Without(front, '>') && Without(front, '"') && front != "" && front[0] == ' '
    requires Without(value, '<') && Without(value, '>') && Without(value, '"')
    ensures GoodAttrs(Quoted(front, value))
  {
    var a := Quoted(front, value);
    QuotingPlain(front, false);
    QuotingPlain(value, true);
    assert Quoting("\"", false) == Some(true) && Quoting("\"", true) == Some(false);
    QuotingConcat(front, "\"", false);
    QuotingConcat(front + "\"", value, false);
    QuotingConcat(front + "\"" + value, "\"", false);
    assert a[|a| - 1] == '"';
  }

  predicate PlainWord(name: string) {
    name != "" && forall i | 0 <= i < |name| :: IsAlnum(name[i])
  }

  lemma AttrIsGood(name: string, value: string)
    requires PlainWord(name)
    ensures GoodAttrs(Attr(name, value))
  {
    EscapedIsSafe(value);
    QuotedAttr(" " + name + "=", HtmlEscape(value));
  }

  lemma GoodAttrsConcat(a: string, b: string)
    requires GoodAttrs(a) && GoodAttrs(b)
    ensures GoodAttrs(a + b)
  {
    QuotingConcat(a, b, false);
    if a == "" { assert a + b == b; }
    if b == "" { assert a + b == a; }
  }

  lemma OptionalAttrIsGood(name: string, value: string)
    requires PlainWord(name)
    ensures GoodAttrs(OptionalAttr(name, value))
  {
    AttrIsGood(name, value);
  }

  // ----- elements -----

  lemma {:induction false} WordOf(name: string, a: string)
    requires PlainWord(name) && (a == "" || a[0] == ' ')
    ensures Word(name + a) == name
  {
    assert (name + a)[1..] == name[1..] + a;
    if |name| == 1 {
      assert name[1..] + a == a;
    } else {
      WordOf(name[1..], a);
    }
  }

  lemma OpenScans(name: string, a: string, rest: string, stack: seq<string>)
    requires PlainWord(name) && GoodAttrs(a)
    ensures Scan("<" + name + a + ">" + rest, stack) == Scan(rest, stack + [name])
  {
    hide Word;
    var tag := name + a;
    var s := "<" + name + a + ">" + rest;
    QuotingPlain(name, false);
    QuotingConcat(name, a, false);
    TagEndIs(tag, rest, false);
    assert s[1..] == tag + ">" + rest;
    assert s[1..|tag| + 1] == tag && s[|tag| + 2..] == rest;
    WordOf(name, a);
    assert '<' !in tag;
    assert tag[0] == name[0] && tag[|tag| - 1] == if a == "" then name[|name| - 1] else a[|a| - 1];
  }

  lemma CloseScans(name: string, rest: string, stack: seq<string>)
    requires PlainWord(name)
    ensures Scan("</" + name + ">" + rest, stack + [name]) == Scan(rest, stack)
  {
    var tag := "/" + name;
    var s := "</" + name + ">" + rest;
    QuotingPlain(tag, false);
    TagEndIs(tag, rest, false);
    assert s[1..] == tag + ">" + rest;
    assert s[1..|tag| + 1] == tag && s[|tag| + 2..] == rest && tag[1..] == name;
    assert (stack + [name])[..|stack|] == stack;
    assert '<' !in tag;
  }

  lemma VoidScans(name: string, a: string, rest: string, stack: seq<string>)
    requires PlainWord(name) && GoodAttrs(a)
    ensures Scan(VoidElement(name, a) + rest, stack) == Scan(rest, stack)
  {
    var tag := name + a + "/";
    var s := VoidElement(name, a) + rest;
    QuotingPlain(name, false);
    QuotingConcat(name, a, false);
    QuotingPlain("/", false);
    QuotingConcat(name + a, "/", false);
    TagEndIs(tag, rest, false);
    assert s[1..] == tag + ">" + rest;
    assert s[1..|tag| + 1] == tag && s[|tag| + 2..] == rest;
    assert '<' !in tag;
    assert tag[0] == name[0];
  }

  lemma BalancedVoid(name: string, a: string)
    requires PlainWord(name) && GoodAttrs(a)
    ensures Balanced(VoidElement(name, a))
  {
    hide Scan, VoidElement;
    forall rest, stack ensures Scan(VoidElement(name, a) + rest, stack) == Scan(rest, stack) {
      VoidScans(name, a, rest, stack);
    }
  }

  lemma BalancedElement(name: string, a: string, body: string)
    requires PlainWord(name) && GoodAttrs(a) && Balanced(body)
    ensures Balanced(Element(name, a, body))
  {
    hide Scan, GoodAttrs, PlainWord;
    forall rest, stack ensures Scan(Element(name, a, body) + rest, stack) == Scan(rest, stack) {
      var close := "</" + name + ">" + rest;
      assert Element(name, a, body) + rest == "<" + name + a + ">" + (body + close);
      OpenScans(name, a, body + close, stack);
      assert Scan(body + close, stack + [name]) == Scan(close, stack + [name]);
      CloseScans(name, rest, stack);
    }
  }

  // ----- what is rendered is well nested -----

  /** The plain tag names in use. */
  lemma TagNames()
    ensures PlainWord("code") && PlainWord("strong") && PlainWord("em") && PlainWord("del") && PlainWord("a")
        && PlainWord("img")
    ensures PlainWord("p") && PlainWord("hr") && PlainWord("blockquote") && PlainWord("ol") && PlainWord("ul")
        && PlainWord("li")
    ensures PlainWord("pre") && PlainWord("table") && PlainWord("thead") && PlainWord("tbody") && PlainWord("tr")
        && PlainWord("th")
    ensures PlainWord("td") && PlainWord("div") && PlainWord("input")
    ensures PlainWord("href") && PlainWord("title") && PlainWord("src") && PlainWord("alt") && PlainWord("start")
        && PlainWord("class") && PlainWord("align")
    ensures GoodAttrs("")
  {
    hide PlainWord, GoodAttrs;
    InlineTags();
    BlockTags();
    TableTags();
    AttrNames();
    NoAttrs();
  }

  lemma InlineTags()
    ensures PlainWord("code") && PlainWord("strong") && PlainWord("em") && PlainWord("del") && PlainWord("a")
        && PlainWord("img")
  {
  }

  lemma BlockTags()
    ensures PlainWord("p") && PlainWord("hr") && PlainWord("blockquote") && PlainWord("ol") && PlainWord("ul")
        && PlainWord("li") && PlainWord("pre") && PlainWord("div")
  {
  }

  lemma TableTags()
    ensures PlainWord("table") && PlainWord("thead") && PlainWord("tbody") && PlainWord("tr") && PlainWord("th")
        && PlainWord("td") && PlainWord("input")
  {
  }

  lemma AttrNames()
    ensures PlainWord("href") && PlainWord("title") && PlainWord("src") && PlainWord("alt") && PlainWord("start")
        && PlainWord("class") && PlainWord("align")
  {
  }

  lemma HeadingTags(level: nat)
    ensures PlainWord(HeadingTag(level))
  {
    assert PlainWord("h1") && PlainWord("h2") && PlainWord("h3") && PlainWord("h4") && PlainWord("h5")
        && PlainWord("h6");
  }

  lemma BalancedEscape(text: string)
    ensures Balanced(HtmlEscape(text))
  {
    EscapedIsSafe(text);
    BalancedText(HtmlEscape(text));
  }

  lemma BalancedCheckBox(checked: bool)
    ensures Balanced(CheckBox(checked))
  {
    hide Balanced, GoodAttrs, Quoted, VoidElement;
    var flag := if checked then " checked" else "";
    var typed := Quoted(" type=", "checkbox");
    TagNames();
    QuotedAttr(" type=", "checkbox");
    PlainAttr(" disabled");
    PlainAttr(" checked");
    GoodAttrsConcat(typed, " disabled");
    GoodAttrsConcat(typed + " disabled", flag);
    BalancedVoid("input", typed + " disabled" + flag);
    BalancedText(" ");
    BalancedConcat(VoidElement("input", typed + " disabled" + flag), " ");
  }

  lemma PlainAttr(a: string)
    requires Inert(a) && a != "" && a[0] == ' ' && a[|a| - 1] != '/'
    ensures GoodAttrs(a)
  {
    QuotingPlain(a, false);
  }

  lemma LangAttr(lang: string)
    ensures GoodAttrs(if lang == "" then "" else Quoted(" class=", "language-" + HtmlEscape(lang)))
  {
    hide GoodAttrs, Quoted, HtmlEscape;
    EscapedIsSafe(lang);
    InertConcat("language-", HtmlEscape(lang));
    QuotedAttr(" class=", "language-" + HtmlEscape(lang));
    NoAttrs();
  }

  lemma NoAttrs()
    ensures GoodAttrs("")
  {
  }

  lemma DirectiveAttr(name: string)
    ensures GoodAttrs(Quoted(" class=", "md-directive md-directive-" + PlainName(name)))
  {
    PlainNameInert(name);
    var v := "md-directive md-directive-" + PlainName(name);
    InertConcat("md-directive md-directive-", PlainName(name));
    QuotedAttr(" class=", v);
  }

  lemma {:induction false} PlainNameInert(s: string)
    ensures Inert(PlainName(s))
  {
    if s != "" { PlainNameInert(s[1..]); }
  }

  lemma BalancedLeaf(n: Node, o: Options)
    requires n.TextNode? || n.CodeSpan? || n.Image? || n.Hr? || n.CodeBlock?
    ensures Balanced(Render(n, o))
  {
    hide Balanced, PlainWord, GoodAttrs, HtmlEscape, Element, VoidElement, Attr, OptionalAttr;
    TagNames();
    match n
    case TextNode(text) => BalancedEscape(text);
    case CodeSpan(text) =>
      BalancedEscape(text);
      BalancedElement("code", "", HtmlEscape(text));
    case Image(alt, src, title) =>
      AttrIsGood("src", src);
      AttrIsGood("alt", alt);
      OptionalAttrIsGood("title", title);
      GoodAttrsConcat(Attr("src", src), Attr("alt", alt));
      GoodAttrsConcat(Attr("src", src) + Attr("alt", alt), OptionalAttr("title", title));
      BalancedVoid("img", Attr("src", src) + Attr("alt", alt) + OptionalAttr("title", title));
    case Hr => BalancedVoid("hr", "");
    case CodeBlock(text, lang) =>
      LangAttr(lang);
      BalancedEscape(text);
      var attrs := if lang == "" then "" else Quoted(" class=", "language-" + HtmlEscape(lang));
      BalancedElement("code", attrs, HtmlEscape(text));
      BalancedElement("pre", "", Element("code", attrs, HtmlEscape(text)));
  }

  /** Every node without raw HTML renders to balanced tags. */
  lemma {:induction false} RenderBalanced(n: Node, o: Options)
    requires NoRaw(n) && !o.allowHtml
    ensures Balanced(Render(n, o))
    decreases Depth(n), n, 1
  {
    hide Balanced, PlainWord, GoodAttrs, Element, Attr, OptionalAttr, RenderAll, RenderCells, RenderRows, HeadingTag,
      CheckBox;
    TagNames();
    match n
    case TextNode(_) => BalancedLeaf(n, o);
    case CodeSpan(_) => BalancedLeaf(n, o);
    case Image(_, _, _) => BalancedLeaf(n, o);
    case Hr => BalancedLeaf(n, o);
    case CodeBlock(_, _) => BalancedLeaf(n, o);
    case Strong(c) => RenderAllBalanced(c, o); BalancedElement("strong", "", RenderAll(c, o));
    case Em(c) => RenderAllBalanced(c, o); BalancedElement("em", "", RenderAll(c, o));
    case Strike(c) => RenderAllBalanced(c, o); BalancedElement("del", "", RenderAll(c, o));
    case Paragraph(c) => RenderAllBalanced(c, o); BalancedElement("p", "", RenderAll(c, o));
    case Blockquote(c) => RenderAllBalanced(c, o); BalancedElement("blockquote", "", RenderAll(c, o));
    case Cell(c) => RenderAllBalanced(c, o);
    case Row(c) => RenderAllBalanced(c, o);
    case Heading(level, c) =>
      RenderAllBalanced(c, o);
      HeadingTags(level);
      BalancedElement(HeadingTag(level), "", RenderAll(c, o));
    case Link(href, title, c) =>
      RenderAllBalanced(c, o);
      AttrIsGood("href", href);
      OptionalAttrIsGood("title", title);
      GoodAttrsConcat(Attr("href", href), OptionalAttr("title", title));
      BalancedElement("a", Attr("href", href) + OptionalAttr("title", title), RenderAll(c, o));
    case ListNode(ordered, start, c) =>
      RenderAllBalanced(c, o);
      AttrIsGood("start", Dec(start));
      BalancedElement(if ordered then "ol" else "ul", if ordered
          && start > 1 then Attr("start", Dec(start)) else "", RenderAll(c, o));
    case ListItem(task, checked, c) => ItemBalanced(n, o);
    case Table(header, align, rows) => TableBalanced(n, o);
    case Directive(name, title, c) => DirectiveBalanced(n, o);
  }

  lemma ItemBalanced(n: Node, o: Options)
    requires n.ListItem? && NoRaw(n) && !o.allowHtml
    ensures Balanced(Render(n, o))
    decreases Depth(n), n, 0
  {
    hide Balanced, PlainWord, GoodAttrs, Element, Attr, RenderAll, CheckBox;
    TagNames();
    var body := RenderAll(n.children, o);
    RenderAllBalanced(n.children, o);
    AttrIsGood("class", "task-list-item");
    BalancedCheckBox(n.checked);
    BalancedNothing();
    var box := if n.task then CheckBox(n.checked) else "";
    BalancedConcat(box, body);
    BalancedElement("li", if n.task then Attr("class", "task-list-item") else "", box + body);
  }

  lemma TableBalanced(n: Node, o: Options)
    requires n.Table? && NoRaw(n) && !o.allowHtml
    ensures Balanced(Render(n, o))
    decreases Depth(n), n, 0
  {
    hide Balanced, PlainWord, GoodAttrs, Element, RenderCells, RenderRows;
    TagNames();
    var cells := RenderCells(n.header, n.align, "th", o);
    CellsBalanced(n.header, n.align, "th", o);
    BalancedElement("tr", "", cells);
    BalancedElement("thead", "", Element("tr", "", cells));
    var rows := RenderRows(n.rows, n.align, o);
    RowsBalanced(n.rows, n.align, o);
    BalancedElement("tbody", "", rows);
    BalancedConcat(Element("thead", "", Element("tr", "", cells)), Element("tbody", "", rows));
    BalancedElement("table", "", Element("thead", "", Element("tr", "", cells)) + Element("tbody", "", rows));
  }

  lemma DirectiveBalanced(n: Node, o: Options)
    requires n.Directive? && NoRaw(n) && !o.allowHtml
    ensures Balanced(Render(n, o))
    decreases Depth(n), n, 0
  {
    hide Balanced, PlainWord, GoodAttrs, Element, Attr, RenderAll, PlainName;
    TagNames();
    var body := RenderAll(n.children, o);
    RenderAllBalanced(n.children, o);
    var heading := RenderAll(Inline(n.title, "", o), o);
    RenderAllBalanced(Inline(n.title, "", o), o);
    AttrIsGood("class", "md-directive-title");
    BalancedElement("div", Attr("class", "md-directive-title"), heading);
    BalancedNothing();
    var top := if n.title == "" then "" else Element("div", Attr("class", "md-directive-title"), heading);
    BalancedConcat(top, body);
    DirectiveAttr(n.name);
    BalancedElement("div", Quoted(" class=", "md-directive md-directive-" + PlainName(n.name)), top + body);
  }

  lemma {:induction false} RenderAllBalanced(ns: seq<Node>, o: Options)
    requires AllNoRaw(ns) && !o.allowHtml
    ensures Balanced(RenderAll(ns, o))
    decreases DepthOf(ns), ns, 0
  {
    hide Balanced, Render;
    if ns == [] {
      BalancedNothing();
    } else {
      RenderBalanced(ns[0], o);
      RenderAllBalanced(ns[1..], o);
      BalancedConcat(Render(ns[0], o), RenderAll(ns[1..], o));
    }
  }

  lemma {:induction false} CellsBalanced(cells: seq<Node>, align: seq<string>, tag: string, o: Options)
    requires AllNoRaw(cells) && !o.allowHtml && PlainWord(tag)
    ensures Balanced(RenderCells(cells, align, tag, o))
    decreases 1, cells, 0
  {
    hide Balanced, Render, Element, OptionalAttr, GoodAttrs, PlainWord;
    if cells == [] {
      BalancedNothing();
    } else {
      TagNames();
      var a := OptionalAttr("align", if align == [] then "" else align[0]);
      OptionalAttrIsGood("align", if align == [] then "" else align[0]);
      RenderBalanced(cells[0], o);
      BalancedElement(tag, a, Render(cells[0], o));
      CellsBalanced(cells[1..], if align == [] then [] else align[1..], tag, o);
      BalancedConcat(Element(tag, a, Render(cells[0], o)), RenderCells(cells[1..],
          if align == [] then [] else align[1..], tag, o));
    }
  }

  lemma {:induction false} RowsBalanced(rows: seq<Node>, align: seq<string>, o: Options)
    requires AllNoRaw(rows) && !o.allowHtml
    ensures Balanced(RenderRows(rows, align, o))
    decreases 1, rows, 0
  {
    hide Balanced, RenderCells, Element, GoodAttrs, PlainWord;
    if rows == [] {
      BalancedNothing();
    } else {
      TagNames();
      BalancedNothing();
      if rows[0].Row? { CellsBalanced(rows[0].children, align, "td", o); }
      var cells := if rows[0].Row? then RenderCells(rows[0].children, align, "td", o) else "";
      BalancedElement("tr", "", cells);
      RowsBalanced(rows[1..], align, o);
      BalancedConcat(Element("tr", "", cells), RenderRows(rows[1..], align, o));
    }
  }

  /** With raw HTML off and no component hooks, the HTML of any Markdown source is
      well nested: reading it tag by tag, everything that is opened is closed, in
      order, and no angle bracket or quote of the source gets into the markup. */
  lemma HtmlIsWellNested(src: string, o: Options)
    requires !o.allowHtml
    ensures match ToHtml(src, o) case None => true case Some(h) => Balanced(h) && Scan(h, []) == Some([])
  {
    hide Scan, RenderAll, ToAst;
    if ToAst(src, o).Some? {
      var h := RenderAll(ToAst(src, o).value, o);
      AstNoRaw(src, o);
      RenderAllBalanced(ToAst(src, o).value, o);
      assert h + "" == h;
      assert Scan(h + "", []) == Scan("", []);
      ScanNothing();
    }
  }

  lemma ScanNothing()
    ensures Scan("", []) == Some([])
  {
  }
}
