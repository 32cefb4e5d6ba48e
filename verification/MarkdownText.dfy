/** What a reader of the rendered HTML sees: with the tags taken out, it is the text
    of the parsed nodes, escaped, in parse order; nothing is lost or moved
    (src/lib/markdown.cpp:1195-1354). */
module MarkdownText {
  import opened Text
  import opened MarkdownInline
  import opened Markdown
  import opened MarkdownRender

  // ----- the text of nodes -----

  function TextOf(n: Node, o: Options): string
    decreases Depth(n), n, 1
  {
    match n
    case TextNode(text) => text
    case CodeSpan(text) => text
    case CodeBlock(text, _) => text
    case Image(_, _, _) => ""
    case RawHtml(_) => ""
    case Hr => ""
    case ListItem(task, _, c) => (if task then " " else "") + TextOfAll(c, o)
    case Table(header, _, rows) => TextOfAll(header, o) + TextOfRows(rows, o)
    case Directive(_, title, c) => TextOfAll(Inline(title, "", o), o) + TextOfAll(c, o)
    case _ => TextOfAll(n.children, o)
  }

  function TextOfAll(ns: seq<Node>, o: Options): string
    decreases DepthOf(ns), ns, 0
  {
    if ns == [] then "" else TextOf(ns[0], o) + TextOfAll(ns[1..], o)
  }

  function TextOfRows(rows: seq<Node>, o: Options): string
    decreases 1, rows, 0
  {
    if rows == [] then "" else (if rows[0].Row? then TextOfAll(rows[0].children, o) else "") + TextOfRows(rows[1..], o)
  }

  // ----- taking tags out -----

  function Strip(s: string): string
    decreases |s|
  {
    if s == "" then ""
    else if s[0] != '<' then [s[0]] + Strip(s[1..])
    else
      var end := TagEnd(s[1..], false);
      if end == |s| - 1 then "" else Strip(s[end + 2..])
  }

  /** `h` shows `text`, escaped, whatever follows. */
  ghost predicate Shows(h: string, text: string) {
    forall rest :: Strip(h + rest) == HtmlEscape(text) + Strip(rest)
  }

  lemma ShowsNothing()
    ensures Shows("", "")
  {
    forall rest ensures Strip("" + rest) == HtmlEscape("") + Strip(rest) {
      assert "" + rest == rest;
    }
  }

  lemma {:induction false} EscapeConcat(a: string, b: string)
    ensures HtmlEscape(a + b) == HtmlEscape(a) + HtmlEscape(b)
  {
    hide EscapeHtmlChar, HtmlEscape;
    EscapeLast(b);
    if b == "" {
      assert a + b == a;
    } else {
      EscapeConcat(a, b[..|b| - 1]);
      EscapeLast(a + b);
      assert (a + b)[..|a + b| - 1] == a + b[..|b| - 1];
    }
  }

  lemma EscapeLast(s: string)
    ensures HtmlEscape(s) == if s == "" then "" else HtmlEscape(s[..|s| - 1]) + EscapeHtmlChar(s[|s| - 1])
  {
    hide EscapeHtmlChar;
  }

  lemma ShowsConcat(a: string, s: string, b: string, t: string)
    requires Shows(a, s) && Shows(b, t)
    ensures Shows(a + b, s + t)
  {
    hide Strip, HtmlEscape;
    EscapeConcat(s, t);
    forall rest ensures Strip(a + b + rest) == HtmlEscape(s + t) + Strip(rest) {
      assert a + b + rest == a + (b + rest);
    }
  }

  lemma {:induction false} StripText(e: string, rest: string)
    requires Without(e, '<')
    ensures Strip(e + rest) == e + Strip(rest)
  {
    if e == "" {
      assert e + rest == rest;
    } else {
      assert (e + rest)[1..] == e[1..] + rest;
      StripText(e[1..], rest);
    }
  }

  lemma ShowsText(text: string)
    ensures Shows(HtmlEscape(text), text)
  {
    hide Strip;
    EscapedIsSafe(text);
    forall rest ensures Strip(HtmlEscape(text) + rest) == HtmlEscape(text) + Strip(rest) {
      StripText(HtmlEscape(text), rest);
    }
  }

  lemma ShowsBlank()
    ensures Shows(" ", " ")
  {
    assert HtmlEscape(" ") == " " by {
      assert " "[..0] == "";
      assert HtmlEscape("") == "";
    }
    ShowsText(" ");
  }

  lemma StripTag(tag: string, rest: string)
    requires Quoting(tag, false) == Some(false)
    ensures Strip("<" + tag + ">" + rest) == Strip(rest)
  {
    var s := "<" + tag + ">" + rest;
    TagEndIs(tag, rest, false);
    assert s[1..] == tag + ">" + rest;
    assert s[|tag| + 2..] == rest;
  }

  lemma ShowsElement(name: string, a: string, body: string, text: string)
    requires PlainWord(name) && GoodAttrs(a) && Shows(body, text)
    ensures Shows(Element(name, a, body), text)
  {
    hide Strip, HtmlEscape;
    QuotingPlain(name, false);
    QuotingConcat(name, a, false);
    QuotingPlain("/" + name, false);
    forall rest ensures Strip(Element(name, a, body) + rest) == HtmlEscape(text) + Strip(rest) {
      var close := "</" + name + ">" + rest;
      assert Element(name, a, body) + rest == "<" + (name + a) + ">" + (body + close);
      StripTag(name + a, body + close);
      assert close == "<" + ("/" + name) + ">" + rest;
      StripTag("/" + name, rest);
      assert Strip(body + close) == HtmlEscape(text) + Strip(close);
    }
  }

  lemma ShowsVoid(name: string, a: string)
    requires PlainWord(name) && GoodAttrs(a)
    ensures Shows(VoidElement(name, a), "")
  {
    hide Strip;
    QuotingPlain(name, false);
    QuotingConcat(name, a, false);
    QuotingPlain("/", false);
    QuotingConcat(name + a, "/", false);
    forall rest ensures Strip(VoidElement(name, a) + rest) == HtmlEscape("") + Strip(rest) {
      assert VoidElement(name, a) + rest == "<" + (name + a + "/") + ">" + rest;
      StripTag(name + a + "/", rest);
      assert HtmlEscape("") + Strip(rest) == Strip(rest);
    }
  }

  // ----- every node shows its text -----

  lemma {:induction false} RenderShows(n: Node, o: Options)
    requires NoRaw(n) && !o.allowHtml
    ensures Shows(Render(n, o), TextOf(n, o))
    decreases Depth(n), n, 1
  {
    hide Shows, PlainWord, GoodAttrs, Element, VoidElement, Attr, OptionalAttr, RenderAll, RenderCells, RenderRows,
      HeadingTag, CheckBox, HtmlEscape, TextOfAll, TextOfRows;
    TagNames();
    match n
    case TextNode(text) => ShowsText(text);
    case CodeSpan(text) =>
      ShowsText(text);
      ShowsElement("code", "", HtmlEscape(text), text);
    case Image(alt, src, title) =>
      AttrIsGood("src", src);
      AttrIsGood("alt", alt);
      OptionalAttrIsGood("title", title);
      GoodAttrsConcat(Attr("src", src), Attr("alt", alt));
      GoodAttrsConcat(Attr("src", src) + Attr("alt", alt), OptionalAttr("title", title));
      ShowsVoid("img", Attr("src", src) + Attr("alt", alt) + OptionalAttr("title", title));
    case Hr => ShowsVoid("hr", "");
    case CodeBlock(text, lang) => CodeBlockShows(n, o);
    case Strong(c) => AllShow(c, o); ShowsElement("strong", "", RenderAll(c, o), TextOfAll(c, o));
    case Em(c) => AllShow(c, o); ShowsElement("em", "", RenderAll(c, o), TextOfAll(c, o));
    case Strike(c) => AllShow(c, o); ShowsElement("del", "", RenderAll(c, o), TextOfAll(c, o));
    case Paragraph(c) => AllShow(c, o); ShowsElement("p", "", RenderAll(c, o), TextOfAll(c, o));
    case Blockquote(c) => AllShow(c, o); ShowsElement("blockquote", "", RenderAll(c, o), TextOfAll(c, o));
    case Cell(c) => AllShow(c, o);
    case Row(c) => AllShow(c, o);
    case Heading(level, c) =>
      AllShow(c, o);
      HeadingTags(level);
      ShowsElement(HeadingTag(level), "", RenderAll(c, o), TextOfAll(c, o));
    case Link(href, title, c) =>
      AllShow(c, o);
      AttrIsGood("href", href);
      OptionalAttrIsGood("title", title);
      GoodAttrsConcat(Attr("href", href), OptionalAttr("title", title));
      ShowsElement("a", Attr("href", href) + OptionalAttr("title", title), RenderAll(c, o), TextOfAll(c, o));
    case ListNode(ordered, start, c) =>
      AllShow(c, o);
      AttrIsGood("start", Dec(start));
      ShowsElement(if ordered then "ol" else "ul", if ordered && start > 1 then Attr("start", Dec(start)) else "",
        RenderAll(c, o), TextOfAll(c, o));
    case ListItem(task, checked, c) => ItemShows(n, o);
    case Table(header, align, rows) => TableShows(n, o);
    case Directive(name, title, c) => DirectiveShows(n, o);
  }

  lemma CodeBlockShows(n: Node, o: Options)
    requires n.CodeBlock?
    ensures Shows(Render(n, o), TextOf(n, o))
  {
    hide Shows, PlainWord, GoodAttrs, Element, HtmlEscape, Quoted;
    TagNames();
    LangAttr(n.lang);
    ShowsText(n.text);
    var attrs := if n.lang == "" then "" else Quoted(" class=", "language-" + HtmlEscape(n.lang));
    ShowsElement("code", attrs, HtmlEscape(n.text), n.text);
    ShowsElement("pre", "", Element("code", attrs, HtmlEscape(n.text)), n.text);
  }

  lemma CheckBoxShows(checked: bool)
    ensures Shows(CheckBox(checked), " ")
  {
    hide Shows, GoodAttrs, Quoted, VoidElement;
    var flag := if checked then " checked" else "";
    var typed := Quoted(" type=", "checkbox");
    TagNames();
    QuotedAttr(" type=", "checkbox");
    PlainAttr(" disabled");
    PlainAttr(" checked");
    GoodAttrsConcat(typed, " disabled");
    GoodAttrsConcat(typed + " disabled", flag);
    ShowsVoid("input", typed + " disabled" + flag);
    ShowsBlank();
    ShowsConcat(VoidElement("input", typed + " disabled" + flag), "", " ", " ");
    assert "" + " " == " ";
  }

  lemma ItemShows(n: Node, o: Options)
    requires n.ListItem? && NoRaw(n) && !o.allowHtml
    ensures Shows(Render(n, o), TextOf(n, o))
    decreases Depth(n), n, 0
  {
    hide Shows, PlainWord, GoodAttrs, Element, Attr, RenderAll, CheckBox, TextOfAll;
    TagNames();
    AllShow(n.children, o);
    AttrIsGood("class", "task-list-item");
    CheckBoxShows(n.checked);
    ShowsNothing();
    var box, mark := if n.task then CheckBox(n.checked) else "", if n.task then " " else "";
    ShowsConcat(box, mark, RenderAll(n.children, o), TextOfAll(n.children, o));
    ShowsElement("li", if n.task then Attr("class", "task-list-item") else "", box + RenderAll(n.children, o),
        mark + TextOfAll(n.children, o));
  }

  lemma TableShows(n: Node, o: Options)
    requires n.Table? && NoRaw(n) && !o.allowHtml
    ensures Shows(Render(n, o), TextOf(n, o))
    decreases Depth(n), n, 0
  {
    hide Shows, PlainWord, GoodAttrs, Element, RenderCells, RenderRows, TextOfAll, TextOfRows;
    TagNames();
    var cells, heads := RenderCells(n.header, n.align, "th", o), TextOfAll(n.header, o);
    CellsShow(n.header, n.align, "th", o);
    ShowsElement("tr", "", cells, heads);
    ShowsElement("thead", "", Element("tr", "", cells), heads);
    var rows, texts := RenderRows(n.rows, n.align, o), TextOfRows(n.rows, o);
    RowsShow(n.rows, n.align, o);
    ShowsElement("tbody", "", rows, texts);
    ShowsConcat(Element("thead", "", Element("tr", "", cells)), heads, Element("tbody", "", rows), texts);
    ShowsElement("table", "", Element("thead", "", Element("tr", "", cells)) + Element("tbody", "", rows),
        heads + texts);
  }

  lemma DirectiveShows(n: Node, o: Options)
    requires n.Directive? && NoRaw(n) && !o.allowHtml
    ensures Shows(Render(n, o), TextOf(n, o))
    decreases Depth(n), n, 0
  {
    hide Shows, PlainWord, GoodAttrs, Element, Attr, Quoted, RenderAll, PlainName, TextOfAll;
    TagNames();
    var heading, title := RenderAll(Inline(n.title, "", o), o), TextOfAll(Inline(n.title, "", o), o);
    AllShow(n.children, o);
    AllShow(Inline(n.title, "", o), o);
    AttrIsGood("class", "md-directive-title");
    ShowsElement("div", Attr("class", "md-directive-title"), heading, title);
    ShowsNothing();
    NoTitleNoText(o);
    var top := if n.title == "" then "" else Element("div", Attr("class", "md-directive-title"), heading);
    ShowsConcat(top, title, RenderAll(n.children, o), TextOfAll(n.children, o));
    DirectiveAttr(n.name);
    ShowsElement("div", Quoted(" class=", "md-directive md-directive-" + PlainName(n.name)),
        top + RenderAll(n.children, o), title + TextOfAll(n.children, o));
  }

  lemma NoTitleNoText(o: Options)
    ensures TextOfAll(Inline("", "", o), o) == ""
  {
  }

  lemma {:induction false} AllShow(ns: seq<Node>, o: Options)
    requires AllNoRaw(ns) && !o.allowHtml
    ensures Shows(RenderAll(ns, o), TextOfAll(ns, o))
    decreases DepthOf(ns), ns, 0
  {
    hide Shows, Render, TextOf;
    if ns == [] {
      ShowsNothing();
    } else {
      RenderShows(ns[0], o);
      AllShow(ns[1..], o);
      ShowsConcat(Render(ns[0], o), TextOf(ns[0], o), RenderAll(ns[1..], o), TextOfAll(ns[1..], o));
    }
  }

  lemma {:induction false} CellsShow(cells: seq<Node>, align: seq<string>, tag: string, o: Options)
    requires AllNoRaw(cells) && !o.allowHtml && PlainWord(tag)
    ensures Shows(RenderCells(cells, align, tag, o), TextOfAll(cells, o))
    decreases 1, cells, 0
  {
    hide Shows, Render, Element, OptionalAttr, GoodAttrs, PlainWord, TextOf;
    if cells == [] {
      ShowsNothing();
    } else {
      TagNames();
      var a, more := OptionalAttr("align", if align == [] then "" else align[0]),
          if align == [] then [] else align[1..];
      OptionalAttrIsGood("align", if align == [] then "" else align[0]);
      RenderShows(cells[0], o);
      ShowsElement(tag, a, Render(cells[0], o), TextOf(cells[0], o));
      CellsShow(cells[1..], more, tag, o);
      ShowsConcat(Element(tag, a, Render(cells[0], o)), TextOf(cells[0], o), RenderCells(cells[1..], more, tag, o),
          TextOfAll(cells[1..], o));
    }
  }

  lemma {:induction false} RowsShow(rows: seq<Node>, align: seq<string>, o: Options)
    requires AllNoRaw(rows) && !o.allowHtml
    ensures Shows(RenderRows(rows, align, o), TextOfRows(rows, o))
    decreases 1, rows, 0
  {
    hide Shows, RenderCells, Element, GoodAttrs, PlainWord, TextOfAll;
    if rows == [] {
      ShowsNothing();
    } else {
      TagNames();
      ShowsNothing();
      if rows[0].Row? { CellsShow(rows[0].children, align, "td", o); }
      var cells, texts := if rows[0].Row? then RenderCells(rows[0].children, align, "td", o) else "",
        if rows[0].Row? then TextOfAll(rows[0].children, o) else "";
      ShowsElement("tr", "", cells, texts);
      RowsShow(rows[1..], align, o);
      ShowsConcat(Element("tr", "", cells), texts, RenderRows(rows[1..], align, o), TextOfRows(rows[1..], o));
    }
  }

  /** With raw HTML off and no component hooks, taking the tags out of the HTML of
      any source leaves the text of its nodes, escaped, in parse order. */
  lemma HtmlShowsText(src: string, o: Options)
    requires !o.allowHtml
    ensures match ToAst(src, o)
      case None => ToHtml(src, o) == None
      case Some(nodes) => ToHtml(src, o).Some? && Strip(ToHtml(src, o).value) == HtmlEscape(TextOfAll(nodes, o))
  {
    hide Strip, RenderAll, ToAst, TextOfAll, HtmlEscape;
    if ToAst(src, o).Some? {
      var nodes := ToAst(src, o).value;
      var h := RenderAll(nodes, o);
      AstNoRaw(src, o);
      AllShow(nodes, o);
      assert h + "" == h;
      StripNothing();
      assert Strip(h + "") == HtmlEscape(TextOfAll(nodes, o)) + "";
    }
  }

  lemma StripNothing()
    ensures Strip("") == ""
  {
  }
}
