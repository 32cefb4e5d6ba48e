/** What the rendered HTML says: read back by an independent reader of tags,
    attributes and character references, it is the elements that the nodes stand for,
    with their attributes and their text, in parse order
    (src/lib/markdown.cpp:1195-1354). */
module MarkdownMarkup {
  import opened Text
  import opened MarkdownInline
  import opened Markdown
  import opened MarkdownRender

  // ----- a reader of HTML -----

  datatype Attribute = Attribute(name: string, value: string)

  datatype Token =
    | Opening(name: string, attrs: seq<Attribute>)
    | Closing(name: string)
    | Void(name: string, attrs: seq<Attribute>)
    | Letter(c: char)

  /** The character at the front, which may be a reference, and its length. */
  function Character(s: string): (r: (char, nat))
    requires s != ""
    ensures 0 < r.1 <= |s|
  {
    if StartsWith(s, "&amp;") then ('&', 5)
    else if StartsWith(s, "&lt;") then ('<', 4)
    else if StartsWith(s, "&gt;") then ('>', 4)
    else if StartsWith(s, "&quot;") then ('"', 6)
    else if StartsWith(s, "&#39;") then ('\'', 5)
    else (s[0], 1)
  }

  function Value(s: string): string
    decreases |s|
  {
    if s == "" then "" else var (c, n) := Character(s); [c] + Value(s[n..])
  }

  function NameEnd(s: string): (n: nat)
    ensures n <= |s|
  {
    if s == "" || s[0] == '=' || s[0] == ' ' then 0 else 1 + NameEnd(s[1..])
  }

  /** Attributes, each behind a blank; one without a value has the empty one. */
  function Attributes(a: string): seq<Attribute>
    decreases |a|
  {
    if a == "" then []
    else
      var n := NameEnd(a[1..]);
      var name, rest := a[1..1 + n], a[1 + n..];
      if StartsWith(rest, "=\"") then
        var end := Find(rest, '"', 2);
        if end == |rest| then [] else [Attribute(name, Value(rest[2..end]))] + Attributes(rest[end + 1..])
      else [Attribute(name, "")] + Attributes(rest)
  }

  function TagToken(t: string): Token {
    if t != "" && t[0] == '/' then Closing(t[1..])
    else if t != "" && t[|t| - 1] == '/' then
      var inner := t[..|t| - 1];
      Void(Word(inner), Behind(inner))
    else Opening(Word(t), Behind(t))
  }

  /** The attributes behind the name. */
  function Behind(t: string): seq<Attribute> {
    WordFits(t);
    Attributes(t[|Word(t)|..])
  }

  lemma {:induction false} WordFits(t: string)
    ensures |Word(t)| <= |t|
  {
    if t != "" && t[0] != ' ' { WordFits(t[1..]); }
  }

  function Read(s: string): seq<Token>
    decreases |s|
  {
    if s == "" then []
    else if s[0] == '<' then
      var end := TagEnd(s[1..], false);
      if end == |s| - 1 then [] else [TagToken(s[1..end + 1])] + Read(s[end + 2..])
    else var (c, n) := Character(s); [Letter(c)] + Read(s[n..])
  }

  // ----- what nodes stand for -----

  function Letters(text: string): seq<Token> {
    seq(|text|, i requires 0 <= i < |text| => Letter(text[i]))
  }

  function Inside(name: string, attrs: seq<Attribute>, inside: seq<Token>): seq<Token> {
    [Opening(name, attrs)] + inside + [Closing(name)]
  }

  function Given(name: string, value: string): seq<Attribute> {
    if value == "" then [] else [Attribute(name, value)]
  }

  /** The box of a task, and the blank behind it. */
  function Box(checked: bool): seq<Token> {
    [Void("input", [Attribute("type", "checkbox"), Attribute("disabled", "")]
        + if checked then [Attribute("checked", "")] else []), Letter(' ')]
  }

  function Markup(n: Node, o: Options): seq<Token>
    decreases Depth(n), n, 1
  {
    match n
    case TextNode(text) => Letters(text)
    case CodeSpan(text) => Inside("code", [], Letters(text))
    case Strong(c) => Inside("strong", [], MarkupOf(c, o))
    case Em(c) => Inside("em", [], MarkupOf(c, o))
    case Strike(c) => Inside("del", [], MarkupOf(c, o))
    case Link(href, title, c) => Inside("a", [Attribute("href", href)] + Given("title", title), MarkupOf(c, o))
    case Image(alt, src, title) =>
      [Void("img", [Attribute("src", src), Attribute("alt", alt)] + Given("title", title))]
    case RawHtml(html) => Read(html)
    case Paragraph(c) => Inside("p", [], MarkupOf(c, o))
    case Heading(level, c) =>
      Inside("h" + Dec(if level < 1 then 1 else if level > 6 then 6 else level), [], MarkupOf(c, o))
    case Hr => [Void("hr", [])]
    case Blockquote(c) => Inside("blockquote", [], MarkupOf(c, o))
    case ListNode(ordered, start, c) =>
      if ordered then Inside("ol", if start > 1 then [Attribute("start", Dec(start))] else [], MarkupOf(c, o))
      else Inside("ul", [], MarkupOf(c, o))
    case ListItem(task, checked, c) =>
      if task then Inside("li", [Attribute("class", "task-list-item")], Box(checked) + MarkupOf(c, o))
      else Inside("li", [], MarkupOf(c, o))
    case CodeBlock(text, lang) =>
      Inside("pre", [], Inside("code", if lang == "" then [] else [Attribute("class", "language-" + lang)],
        Letters(text)))
    case Cell(c) => MarkupOf(c, o)
    case Row(c) => MarkupOf(c, o)
    case Table(header, align, rows) =>
      Inside("table", [],
        Inside("thead", [], Inside("tr", [], CellMarkup(header, align, "th", o)))
        + Inside("tbody", [], RowMarkup(rows, align, o)))
    case Directive(name, title, c) =>
      Inside("div", [Attribute("class", "md-directive md-directive-" + PlainName(name))],
        (if title == "" then []
         else Inside("div", [Attribute("class", "md-directive-title")], MarkupOf(Inline(title, "", o), o)))
        + MarkupOf(c, o))
  }

  function MarkupOf(ns: seq<Node>, o: Options): seq<Token>
    decreases DepthOf(ns), ns, 0
  {
    if ns == [] then [] else Markup(ns[0], o) + MarkupOf(ns[1..], o)
  }

  /** The alignments go with the cells from the left. */
  function CellMarkup(cells: seq<Node>, align: seq<string>, tag: string, o: Options): seq<Token>
    decreases 1, cells, 0
  {
    if cells == [] then []
    else
      Inside(tag, if align == [] then [] else Given("align", align[0]), Markup(cells[0], o))
        + CellMarkup(cells[1..], if align == [] then [] else align[1..], tag, o)
  }

  function RowMarkup(rows: seq<Node>, align: seq<string>, o: Options): seq<Token>
    decreases 1, rows, 0
  {
    if rows == [] then []
    else
      Inside("tr", [], if rows[0].Row? then CellMarkup(rows[0].children, align, "td", o) else [])
        + RowMarkup(rows[1..], align, o)
  }

  // ----- characters are read back -----

  lemma EscapedReads(c: char, rest: string)
    ensures Character(EscapeHtmlChar(c) + rest) == (c, |EscapeHtmlChar(c)|)
  {
    var e := EscapeHtmlChar(c);
    var s := e + rest;
    assert s[..|e|] == e;
    if c == '&' {
    } else if c == '<' {
      assert !StartsWith(s, "&amp;") by { SecondIs(s, 'l'); }
    } else if c == '>' {
      assert !StartsWith(s, "&amp;") && !StartsWith(s, "&lt;") by { SecondIs(s, 'g'); }
    } else if c == '"' {
      assert !StartsWith(s, "&amp;") && !StartsWith(s, "&lt;") && !StartsWith(s, "&gt;") by { SecondIs(s, 'q'); }
    } else if c == '\'' {
      SecondIs(s, '#');
      assert !StartsWith(s, "&amp;") && !StartsWith(s, "&lt;") && !StartsWith(s, "&gt;") && !StartsWith(s, "&quot;");
    } else {
      assert forall p: string | p != "" && StartsWith(s, p) :: p[0] == s[..|p|][0] == s[0];
    }
  }

  lemma SecondIs(s: string, c: char)
    requires |s| > 1 && s[1] == c
    ensures forall p: string | |p| > 1 && p[1] != c :: !StartsWith(s, p)
  {
    assert forall p: string | |p| > 1 && StartsWith(s, p) :: p[1] == s[..|p|][1] == s[1];
  }

  lemma {:induction false} EscapeFirst(c: char, s: string)
    ensures HtmlEscape([c] + s) == EscapeHtmlChar(c) + HtmlEscape(s)
  {
    hide EscapeHtmlChar;
    var t := [c] + s;
    if s == "" {
      assert t[..0] == "";
    } else {
      EscapeFirst(c, s[..|s| - 1]);
      assert t[..|t| - 1] == [c] + s[..|s| - 1];
    }
  }

  lemma {:induction false} ValueReads(s: string)
    ensures Value(HtmlEscape(s)) == s
  {
    if s != "" {
      hide EscapeHtmlChar, Character, HtmlEscape;
      EscapeFirst(s[0], s[1..]);
      assert s == [s[0]] + s[1..];
      EscapedReads(s[0], HtmlEscape(s[1..]));
      EscapeNotEmpty(s[0]);
      ValueReads(s[1..]);
    }
  }

  lemma EscapeNotEmpty(c: char)
    ensures EscapeHtmlChar(c) != "" && EscapeHtmlChar(c)[0] != '<'
  {
  }

  /** `h` reads as `ts`, whatever follows. */
  ghost predicate Reads(h: string, ts: seq<Token>) {
    forall rest :: Read(h + rest) == ts + Read(rest)
  }

  lemma ReadsNothing()
    ensures Reads("", [])
  {
    forall rest ensures Read("" + rest) == [] + Read(rest) {
      assert "" + rest == rest && [] + Read(rest) == Read(rest);
    }
  }

  lemma ReadsConcat(a: string, s: seq<Token>, b: string, t: seq<Token>)
    requires Reads(a, s) && Reads(b, t)
    ensures Reads(a + b, s + t)
  {
    hide Read;
    forall rest ensures Read(a + b + rest) == s + t + Read(rest) {
      assert a + b + rest == a + (b + rest);
      assert s + (t + Read(rest)) == s + t + Read(rest);
    }
  }

  lemma {:induction false} TextReads(text: string, rest: string)
    ensures Read(HtmlEscape(text) + rest) == Letters(text) + Read(rest)
  {
    hide EscapeHtmlChar, Character, HtmlEscape, Read;
    if text == "" {
      NoText();
      assert "" + rest == rest && Letters(text) + Read(rest) == Read(rest);
    } else {
      var c, more := text[0], text[1..];
      EscapeFirst(c, more);
      assert text == [c] + more;
      var tail := HtmlEscape(more) + rest;
      assert EscapeHtmlChar(c) + HtmlEscape(more) + rest == EscapeHtmlChar(c) + tail;
      LetterReads(c, tail);
      TextReads(more, rest);
      assert [Letter(c)] + (Letters(more) + Read(rest)) == Letters(text) + Read(rest);
    }
  }

  lemma NoText()
    ensures HtmlEscape("") == ""
  {
  }

  lemma LetterReads(c: char, tail: string)
    ensures Read(EscapeHtmlChar(c) + tail) == [Letter(c)] + Read(tail)
  {
    hide EscapeHtmlChar, Character;
    EscapedReads(c, tail);
    EscapeNotEmpty(c);
    var e := EscapeHtmlChar(c);
    assert (e + tail)[|e|..] == tail;
  }

  lemma ReadsText(text: string)
    ensures Reads(HtmlEscape(text), Letters(text))
  {
    hide Read, HtmlEscape;
    forall rest ensures Read(HtmlEscape(text) + rest) == Letters(text) + Read(rest) {
      TextReads(text, rest);
    }
  }

  // ----- attributes are read back -----

  /** `a` reads as `attrs`, whatever attributes follow. */
  ghost predicate Lists(a: string, attrs: seq<Attribute>) {
    forall more: string | more == "" || more[0] == ' ' :: Attributes(a + more) == attrs + Attributes(more)
  }

  lemma ListsNothing()
    ensures Lists("", [])
  {
    forall more: string | more == "" || more[0] == ' ' ensures Attributes("" + more) == [] + Attributes(more) {
      assert "" + more == more && [] + Attributes(more) == Attributes(more);
    }
  }

  lemma ListsConcat(a: string, s: seq<Attribute>, b: string, t: seq<Attribute>)
    requires Lists(a, s) && Lists(b, t) && (b == "" || b[0] == ' ')
    ensures Lists(a + b, s + t)
  {
    hide Attributes;
    forall more: string | more == "" || more[0] == ' ' ensures Attributes(a + b + more) == s + t + Attributes(more) {
      assert a + b + more == a + (b + more);
      if b == "" { assert b + more == more; }
      assert s + (t + Attributes(more)) == s + t + Attributes(more);
    }
  }

  lemma {:induction false} NameEnds(name: string, rest: string)
    requires PlainWord(name) && (rest == "" || rest[0] == '=' || rest[0] == ' ')
    ensures NameEnd(name + rest) == |name|
  {
    assert (name + rest)[1..] == name[1..] + rest;
    if |name| > 1 { NameEnds(name[1..], rest); } else { assert name[1..] + rest == rest; }
  }

  /** An attribute in quotes. */
  lemma QuotedLists(name: string, value: string)
    requires PlainWord(name) && Without(value, '"')
    ensures Lists(Quoted(" " + name + "=", value), [Attribute(name, Value(value))])
  {
    var a := Quoted(" " + name + "=", value);
    forall more: string | more == "" || more[0] == ' '
      ensures Attributes(a + more) == [Attribute(name, Value(value))] + Attributes(more)
    {
      QuotedRead(name, value, more);
    }
  }

  lemma QuotedSplits(name: string, value: string, more: string)
    ensures var rest := "=\"" + value + "\"" + more;
      var s := Quoted(" " + name + "=", value) + more;
      s == " " + (name + rest) && s[1..] == name + rest && s[1..1 + |name|] == name && s[1 + |name|..] == rest
  {
    var rest := "=\"" + value + "\"" + more;
    var s := Quoted(" " + name + "=", value) + more;
    assert s == " " + (name + rest);
  }

  lemma ValueEnds(value: string, more: string)
    requires Without(value, '"')
    ensures var rest, end := "=\"" + value + "\"" + more, |value| + 2;
      && StartsWith(rest, "=\"") && end < |rest| && Find(rest, '"', 2) == end
      && rest[2..end] == value && rest[end + 1..] == more
  {
    hide Find;
    var rest, end := "=\"" + value + "\"" + more, |value| + 2;
    assert rest[..2] == "=\"";
    assert rest[end] == '"' && forall i | 2 <= i < end :: rest[i] == value[i - 2];
    assert Find(rest, '"', 2) == end;
  }

  lemma QuotedRead(name: string, value: string, more: string)
    requires PlainWord(name) && Without(value, '"')
    ensures Attributes(Quoted(" " + name + "=", value) + more) == [Attribute(name, Value(value))] + Attributes(more)
  {
    hide Value, PlainWord, NameEnd, Find, StartsWith, Quoted;
    var rest := "=\"" + value + "\"" + more;
    QuotedSplits(name, value, more);
    NameEnds(name, rest);
    ValueEnds(value, more);
  }

  lemma FlagLists(name: string)
    requires PlainWord(name)
    ensures Lists(" " + name, [Attribute(name, "")])
  {
    forall more: string | more == "" || more[0] == ' '
      ensures Attributes(" " + name + more) == [Attribute(name, "")] + Attributes(more)
    {
      FlagRead(name, more);
    }
  }

  lemma FlagRead(name: string, more: string)
    requires PlainWord(name) && (more == "" || more[0] == ' ')
    ensures Attributes(" " + name + more) == [Attribute(name, "")] + Attributes(more)
  {
    hide PlainWord, NameEnd;
    var s := " " + name + more;
    assert s[1..] == name + more;
    NameEnds(name, more);
    assert s[1..1 + |name|] == name && s[1 + |name|..] == more;
    assert !StartsWith(more, "=\"") by { assert more != "" ==> more[0] == ' '; }
  }

  lemma AttrLists(name: string, value: string)
    requires PlainWord(name)
    ensures Lists(Attr(name, value), [Attribute(name, value)])
    ensures Attr(name, value) != "" && Attr(name, value)[0] == ' '
  {
    hide Lists;
    EscapedIsSafe(value);
    ValueReads(value);
    QuotedLists(name, HtmlEscape(value));
  }

  lemma OptionalLists(name: string, value: string)
    requires PlainWord(name)
    ensures Lists(OptionalAttr(name, value), Given(name, value))
    ensures OptionalAttr(name, value) == "" || OptionalAttr(name, value)[0] == ' '
  {
    hide Lists, Attr;
    ListsNothing();
    AttrLists(name, value);
  }

  // ----- elements are read back -----

  lemma TagReads(tag: string, rest: string)
    requires Quoting(tag, false) == Some(false)
    ensures Read("<" + tag + ">" + rest) == [TagToken(tag)] + Read(rest)
  {
    hide TagToken;
    var s := "<" + tag + ">" + rest;
    TagEndIs(tag, rest, false);
    assert s[1..] == tag + ">" + rest;
    assert s[1..|tag| + 1] == tag && s[|tag| + 2..] == rest;
  }

  lemma OpeningToken(name: string, a: string, attrs: seq<Attribute>)
    requires PlainWord(name) && GoodAttrs(a) && Lists(a, attrs)
    ensures TagToken(name + a) == Opening(name, attrs)
  {
    hide Attributes;
    var t := name + a;
    WordOf(name, a);
    assert t[0] == name[0] != '/';
    assert t[|t| - 1] == if a == "" then name[|name| - 1] else a[|a| - 1];
    assert t[|name|..] == a;
    AttributesOf(a, attrs);
  }

  lemma AttributesOf(a: string, attrs: seq<Attribute>)
    requires Lists(a, attrs)
    ensures Attributes(a) == attrs
  {
    assert Attributes(a + "") == attrs + Attributes("");
    assert a + "" == a && attrs + [] == attrs;
  }

  lemma VoidToken(name: string, a: string, attrs: seq<Attribute>)
    requires PlainWord(name) && GoodAttrs(a) && Lists(a, attrs)
    ensures TagToken(name + a + "/") == Void(name, attrs)
  {
    hide Attributes;
    var t := name + a + "/";
    WordOf(name, a);
    assert t[0] == name[0] != '/';
    assert t[..|t| - 1] == name + a;
    assert (name + a)[|name|..] == a;
    AttributesOf(a, attrs);
  }

  lemma TagsQuote(name: string, a: string)
    requires PlainWord(name) && GoodAttrs(a)
    ensures Quoting(name + a, false) == Some(false) && Quoting("/" + name, false) == Some(false)
    ensures Quoting(name + a + "/", false) == Some(false)
  {
    QuotingPlain(name, false);
    QuotingConcat(name, a, false);
    QuotingPlain("/" + name, false);
    QuotingPlain("/", false);
    QuotingConcat(name + a, "/", false);
  }

  lemma ClosingToken(name: string)
    ensures TagToken("/" + name) == Closing(name)
  {
    assert ("/" + name)[1..] == name;
  }

  lemma ElementSplits(name: string, a: string, body: string, rest: string)
    ensures Element(name, a, body) + rest == "<" + (name + a) + ">" + (body + ("<" + ("/" + name) + ">" + rest))
  {
    var close := "</" + name + ">";
    assert "<" + ("/" + name) + ">" + rest == close + rest;
    assert Element(name, a, body) == "<" + (name + a) + ">" + (body + close);
    assert body + close + rest == body + (close + rest);
  }

  lemma InsideSplits(name: string, attrs: seq<Attribute>, ts: seq<Token>, more: seq<Token>)
    ensures [Opening(name, attrs)] + (ts + ([Closing(name)] + more)) == Inside(name, attrs, ts) + more
  {
  }

  lemma ReadThen(body: string, ts: seq<Token>, rest: string)
    requires Reads(body, ts)
    ensures Read(body + rest) == ts + Read(rest)
  {
    hide Read;
  }

  lemma ReadsHolds(h: string, ts: seq<Token>)
    requires forall rest :: Read(h + rest) == ts + Read(rest)
    ensures Reads(h, ts)
  {
    hide Read;
  }

  lemma ReadsElement(name: string, a: string, attrs: seq<Attribute>, body: string, ts: seq<Token>)
    requires PlainWord(name) && GoodAttrs(a) && Lists(a, attrs) && Reads(body, ts)
    ensures Reads(Element(name, a, body), Inside(name, attrs, ts))
  {
    hide *;
    TagsQuote(name, a);
    OpeningToken(name, a, attrs);
    ClosingToken(name);
    forall rest ensures Read(Element(name, a, body) + rest) == Inside(name, attrs, ts) + Read(rest) {
      var close := "<" + ("/" + name) + ">" + rest;
      ElementSplits(name, a, body, rest);
      TagReads(name + a, body + close);
      TagReads("/" + name, rest);
      ReadThen(body, ts, close);
      InsideSplits(name, attrs, ts, Read(rest));
    }
    ReadsHolds(Element(name, a, body), Inside(name, attrs, ts));
  }

  lemma VoidSplits(name: string, a: string, rest: string)
    ensures VoidElement(name, a) + rest == "<" + (name + a + "/") + ">" + rest
  {
  }

  lemma ReadsVoid(name: string, a: string, attrs: seq<Attribute>)
    requires PlainWord(name) && GoodAttrs(a) && Lists(a, attrs)
    ensures Reads(VoidElement(name, a), [Void(name, attrs)])
  {
    hide *;
    TagsQuote(name, a);
    VoidToken(name, a, attrs);
    forall rest ensures Read(VoidElement(name, a) + rest) == [Void(name, attrs)] + Read(rest) {
      VoidSplits(name, a, rest);
      TagReads(name + a + "/", rest);
    }
    ReadsHolds(VoidElement(name, a), [Void(name, attrs)]);
  }

  // ----- every node is read back -----

  function BoxAttrs(checked: bool): string {
    Quoted(" type=", "checkbox") + " disabled" + if checked then " checked" else ""
  }

  lemma BoxAttrsRead(checked: bool)
    ensures Lists(BoxAttrs(checked), [Attribute("type", "checkbox")] + [Attribute("disabled", "")]
      + if checked then [Attribute("checked", "")] else [])
  {
    var typed, types := Quoted(" type=", "checkbox"), [Attribute("type", "checkbox")];
    hide *;
    TypeReads();
    DisabledReads();
    ListsNothing();
    ListsConcat(typed, types, " disabled", [Attribute("disabled", "")]);
    ListsConcat(typed + " disabled", types + [Attribute("disabled", "")], if checked then " checked" else "",
      if checked then [Attribute("checked", "")] else []);
    BoxAttrsIs(checked);
  }

  lemma BoxAttrsIs(checked: bool)
    ensures BoxAttrs(checked) == Quoted(" type=", "checkbox") + " disabled" + if checked then " checked" else ""
  {
  }

  lemma BoxAttrsGood(checked: bool)
    ensures GoodAttrs(BoxAttrs(checked))
  {
    hide GoodAttrs, Quoted;
    var typed := Quoted(" type=", "checkbox");
    NoAttrs();
    QuotedAttr(" type=", "checkbox");
    PlainAttr(" disabled");
    PlainAttr(" checked");
    GoodAttrsConcat(typed, " disabled");
    GoodAttrsConcat(typed + " disabled", if checked then " checked" else "");
  }

  lemma CheckBoxIs(checked: bool)
    ensures CheckBox(checked) == VoidElement("input", BoxAttrs(checked)) + " "
  {
    hide VoidElement, Quoted;
  }

  lemma BoxReads(checked: bool)
    ensures Reads(CheckBox(checked), Box(checked))
  {
    hide *;
    var attrs := [Attribute("type", "checkbox")] + [Attribute("disabled", "")]
      + if checked then [Attribute("checked", "")] else [];
    TagNames();
    BoxAttrsRead(checked);
    BoxAttrsGood(checked);
    ReadsVoid("input", BoxAttrs(checked), attrs);
    ReadsText(" ");
    BlankEscape();
    ReadsConcat(VoidElement("input", BoxAttrs(checked)), [Void("input", attrs)], " ", Letters(" "));
    CheckBoxIs(checked);
    BoxIs(checked);
  }

  lemma BoxIs(checked: bool)
    ensures Box(checked) == [Void("input", [Attribute("type", "checkbox")] + [Attribute("disabled", "")]
      + if checked then [Attribute("checked", "")] else [])] + Letters(" ")
  {
    assert Letters(" ") == [Letter(' ')];
    assert [Attribute("type", "checkbox")] + [Attribute("disabled", "")] ==
      [Attribute("type", "checkbox"), Attribute("disabled", "")];
  }

  lemma BlankEscape()
    ensures HtmlEscape(" ") == " "
  {
    assert " "[..0] == "";
    assert HtmlEscape("") == "";
  }

  lemma TypeReads()
    ensures Lists(Quoted(" type=", "checkbox"), [Attribute("type", "checkbox")])
  {
    hide Lists, Value, Quoted;
    assert PlainWord("type");
    QuotedLists("type", "checkbox");
    assert " " + "type" + "=" == " type=";
    PlainValue("checkbox");
  }

  lemma DisabledReads()
    ensures Lists(" disabled", [Attribute("disabled", "")]) && Lists(" checked", [Attribute("checked", "")])
  {
    hide Lists;
    assert PlainWord("disabled") && PlainWord("checked");
    FlagLists("disabled");
    FlagLists("checked");
    assert " " + "disabled" == " disabled" && " " + "checked" == " checked";
  }

  lemma PlainCharacter(s: string)
    requires s != "" && s[0] != '&'
    ensures Character(s) == (s[0], 1)
  {
    assert forall p: string | p != "" && StartsWith(s, p) :: p[0] == s[..|p|][0] == s[0];
  }

  /** Without an '&' a value stands for itself. */
  lemma {:induction false} PlainValue(s: string)
    requires Without(s, '&')
    ensures Value(s) == s
  {
    hide Character;
    if s != "" {
      PlainCharacter(s);
      PlainValue(s[1..]);
    }
  }

  lemma HeadingNames(level: nat)
    ensures HeadingTag(level) == "h" + Dec(if level < 1 then 1 else if level > 6 then 6 else level)
  {
    var l := if level < 1 then 1 else if level > 6 then 6 else level;
    assert Dec(l) == [Digit(l)];
    assert Levels()[l - 1] == ['h'] + [Digit(l)];
  }

  lemma PlainElement(name: string, body: string, ts: seq<Token>)
    requires PlainWord(name) && Reads(body, ts)
    ensures Reads(Element(name, "", body), Inside(name, [], ts))
  {
    hide *;
    NoAttrs();
    ListsNothing();
    ReadsElement(name, "", [], body, ts);
  }

  lemma AttrElement(name: string, attr: string, value: string, body: string, ts: seq<Token>)
    requires PlainWord(name) && PlainWord(attr) && Reads(body, ts)
    ensures Reads(Element(name, Attr(attr, value), body), Inside(name, [Attribute(attr, value)], ts))
  {
    hide *;
    AttrIsGood(attr, value);
    AttrLists(attr, value);
    ReadsElement(name, Attr(attr, value), [Attribute(attr, value)], body, ts);
  }

  lemma LinkReads(href: string, title: string, body: string, ts: seq<Token>)
    requires Reads(body, ts)
    ensures Reads(Element("a", Attr("href", href) + OptionalAttr("title", title), body),
      Inside("a", [Attribute("href", href)] + Given("title", title), ts))
  {
    hide *;
    TagNames();
    AttrIsGood("href", href);
    AttrLists("href", href);
    OptionalAttrIsGood("title", title);
    OptionalLists("title", title);
    GoodAttrsConcat(Attr("href", href), OptionalAttr("title", title));
    ListsConcat(Attr("href", href), [Attribute("href", href)], OptionalAttr("title", title), Given("title", title));
    ReadsElement("a", Attr("href", href) + OptionalAttr("title", title),
      [Attribute("href", href)] + Given("title", title), body, ts);
  }

  lemma ImageReads(n: Node, o: Options)
    requires n.Image?
    ensures Reads(Render(n, o), Markup(n, o))
  {
    var (alt, src, title) := (n.alt, n.src, n.title);
    assert Render(n, o) == VoidElement("img", Attr("src", src) + Attr("alt", alt) + OptionalAttr("title", title));
    assert Markup(n, o) == [Void("img", [Attribute("src", src)] + [Attribute("alt", alt)] + Given("title", title))] by {
      assert [Attribute("src", src)] + [Attribute("alt", alt)] == [Attribute("src", src), Attribute("alt", alt)];
    }
    hide *;
    TagNames();
    AttrIsGood("src", src);
    AttrLists("src", src);
    AttrIsGood("alt", alt);
    AttrLists("alt", alt);
    OptionalAttrIsGood("title", title);
    OptionalLists("title", title);
    GoodAttrsConcat(Attr("src", src), Attr("alt", alt));
    ListsConcat(Attr("src", src), [Attribute("src", src)], Attr("alt", alt), [Attribute("alt", alt)]);
    GoodAttrsConcat(Attr("src", src) + Attr("alt", alt), OptionalAttr("title", title));
    ListsConcat(Attr("src", src) + Attr("alt", alt), [Attribute("src", src)] + [Attribute("alt", alt)],
      OptionalAttr("title", title), Given("title", title));
    ReadsVoid("img", Attr("src", src) + Attr("alt", alt) + OptionalAttr("title", title),
      [Attribute("src", src)] + [Attribute("alt", alt)] + Given("title", title));
  }

  lemma ValueStep(s: string)
    requires s != "" && s[0] != '&'
    ensures Value(s) == [s[0]] + Value(s[1..])
  {
    hide Character;
    PlainCharacter(s);
  }

  lemma {:induction false} ValueSplits(a: string, b: string)
    requires Without(a, '&')
    ensures Value(a + b) == a + Value(b)
  {
    hide Value;
    if a == "" {
      assert a + b == b && a + Value(b) == Value(b);
    } else {
      ValueStep(a + b);
      assert (a + b)[1..] == a[1..] + b;
      ValueSplits(a[1..], b);
      assert a == [a[0]] + a[1..];
      assert [a[0]] + (a[1..] + Value(b)) == [a[0]] + a[1..] + Value(b);
    }
  }

  lemma LanguageLists(lang: string)
    ensures Lists(Quoted(" class=", "language-" + HtmlEscape(lang)), [Attribute("class", "language-" + lang)])
  {
    hide Lists, Value, HtmlEscape, Quoted;
    assert PlainWord("class");
    EscapedIsSafe(lang);
    QuotedLists("class", "language-" + HtmlEscape(lang));
    ValueSplits("language-", HtmlEscape(lang));
    ValueReads(lang);
    assert " " + "class" + "=" == " class=";
  }

  lemma CodeBlockReads(n: Node, o: Options)
    requires n.CodeBlock?
    ensures Reads(Render(n, o), Markup(n, o))
  {
    hide Reads, Lists, GoodAttrs, PlainWord, Element, HtmlEscape, Quoted;
    TagNames();
    ListsNothing();
    LangAttr(n.lang);
    LanguageLists(n.lang);
    ReadsText(n.text);
    var attrs := if n.lang == "" then "" else Quoted(" class=", "language-" + HtmlEscape(n.lang));
    var list := if n.lang == "" then [] else [Attribute("class", "language-" + n.lang)];
    ReadsElement("code", attrs, list, HtmlEscape(n.text), Letters(n.text));
    PlainElement("pre", Element("code", attrs, HtmlEscape(n.text)), Inside("code", list, Letters(n.text)));
  }

  lemma {:induction false} PlainNameValue(s: string)
    ensures Without(PlainName(s), '&') && Without(PlainName(s), '"')
  {
    if s != "" { PlainNameValue(s[1..]); }
  }

  lemma DirectiveLists(name: string)
    ensures Lists(Quoted(" class=", "md-directive md-directive-" + PlainName(name)),
      [Attribute("class", "md-directive md-directive-" + PlainName(name))])
  {
    hide Lists, Value, PlainName, Quoted;
    assert PlainWord("class");
    PlainNameValue(name);
    var v := "md-directive md-directive-" + PlainName(name);
    PlainValue(v);
    QuotedLists("class", v);
    assert " " + "class" + "=" == " class=";
  }

  /** Every node reads as what it stands for. */
  lemma {:induction false} RenderReads(n: Node, o: Options)
    requires NoRaw(n) && !o.allowHtml
    ensures Reads(Render(n, o), Markup(n, o))
    decreases Depth(n), n, 1
  {
    hide Reads, PlainWord, GoodAttrs, Element, VoidElement, Attr, OptionalAttr, RenderAll, RenderCells, RenderRows,
      HeadingTag, CheckBox, HtmlEscape, MarkupOf, RowMarkup, CellMarkup, Inside, Letters, Given, Dec, Lists, Box;
    TagNames();
    match n
    case TextNode(text) => ReadsText(text);
    case CodeSpan(text) =>
      ReadsText(text);
      PlainElement("code", HtmlEscape(text), Letters(text));
    case Image(_, _, _) => ImageReads(n, o);
    case Hr =>
      ListsNothing();
      ReadsVoid("hr", "", []);
    case CodeBlock(_, _) => CodeBlockReads(n, o);
    case Strong(c) => AllRead(c, o); PlainElement("strong", RenderAll(c, o), MarkupOf(c, o));
    case Em(c) => AllRead(c, o); PlainElement("em", RenderAll(c, o), MarkupOf(c, o));
    case Strike(c) => AllRead(c, o); PlainElement("del", RenderAll(c, o), MarkupOf(c, o));
    case Paragraph(c) => AllRead(c, o); PlainElement("p", RenderAll(c, o), MarkupOf(c, o));
    case Blockquote(c) => AllRead(c, o); PlainElement("blockquote", RenderAll(c, o), MarkupOf(c, o));
    case Cell(c) => AllRead(c, o);
    case Row(c) => AllRead(c, o);
    case Heading(level, c) =>
      AllRead(c, o);
      HeadingTags(level);
      HeadingNames(level);
      PlainElement(HeadingTag(level), RenderAll(c, o), MarkupOf(c, o));
    case Link(href, title, c) =>
      AllRead(c, o);
      LinkReads(href, title, RenderAll(c, o), MarkupOf(c, o));
    case ListNode(ordered, start, c) =>
      AllRead(c, o);
      AttrElement("ol", "start", Dec(start), RenderAll(c, o), MarkupOf(c, o));
      PlainElement(if ordered then "ol" else "ul", RenderAll(c, o), MarkupOf(c, o));
    case ListItem(task, checked, c) => ItemReads(n, o);
    case Table(header, align, rows) => TableReads(n, o);
    case Directive(name, title, c) => DirectiveReads(n, o);
  }

  lemma ItemReads(n: Node, o: Options)
    requires n.ListItem? && NoRaw(n) && !o.allowHtml
    ensures Reads(Render(n, o), Markup(n, o))
    decreases Depth(n), n, 0
  {
    hide Reads, PlainWord, GoodAttrs, Element, Attr, RenderAll, CheckBox, MarkupOf, Inside, Box;
    TagNames();
    var body, inside := RenderAll(n.children, o), MarkupOf(n.children, o);
    AllRead(n.children, o);
    if n.task {
      BoxReads(n.checked);
      ReadsConcat(CheckBox(n.checked), Box(n.checked), body, inside);
      AttrElement("li", "class", "task-list-item", CheckBox(n.checked) + body, Box(n.checked) + inside);
    } else {
      assert "" + body == body;
      PlainElement("li", body, inside);
    }
  }

  lemma TableReads(n: Node, o: Options)
    requires n.Table? && NoRaw(n) && !o.allowHtml
    ensures Reads(Render(n, o), Markup(n, o))
    decreases Depth(n), n, 0
  {
    hide Reads, PlainWord, GoodAttrs, Element, RenderCells, RenderRows, CellMarkup, RowMarkup, Inside;
    TagNames();
    var cells, heads := RenderCells(n.header, n.align, "th", o), CellMarkup(n.header, n.align, "th", o);
    CellsRead(n.header, n.align, "th", o);
    PlainElement("tr", cells, heads);
    var head, headMarkup := Element("tr", "", cells), Inside("tr", [], heads);
    PlainElement("thead", head, headMarkup);
    var rows, texts := RenderRows(n.rows, n.align, o), RowMarkup(n.rows, n.align, o);
    RowsRead(n.rows, n.align, o);
    PlainElement("tbody", rows, texts);
    ReadsConcat(Element("thead", "", head), Inside("thead", [], headMarkup), Element("tbody", "", rows),
      Inside("tbody", [], texts));
    PlainElement("table", Element("thead", "", head) + Element("tbody", "", rows),
      Inside("thead", [], headMarkup) + Inside("tbody", [], texts));
  }

  lemma DirectiveReads(n: Node, o: Options)
    requires n.Directive? && NoRaw(n) && !o.allowHtml
    ensures Reads(Render(n, o), Markup(n, o))
    decreases Depth(n), n, 0
  {
    hide Reads, PlainWord, GoodAttrs, Lists, Element, Attr, Quoted, RenderAll, PlainName, MarkupOf, Inside;
    TagNames();
    var heading, title := RenderAll(Inline(n.title, "", o), o), MarkupOf(Inline(n.title, "", o), o);
    AllRead(n.children, o);
    AllRead(Inline(n.title, "", o), o);
    AttrElement("div", "class", "md-directive-title", heading, title);
    ReadsNothing();
    var top := if n.title == "" then "" else Element("div", Attr("class", "md-directive-title"), heading);
    var tops := if n.title == "" then [] else Inside("div", [Attribute("class", "md-directive-title")], title);
    ReadsConcat(top, tops, RenderAll(n.children, o), MarkupOf(n.children, o));
    DirectiveAttr(n.name);
    DirectiveLists(n.name);
    ReadsElement("div", Quoted(" class=", "md-directive md-directive-" + PlainName(n.name)),
      [Attribute("class", "md-directive md-directive-" + PlainName(n.name))], top + RenderAll(n.children, o),
      tops + MarkupOf(n.children, o));
  }

  lemma {:induction false} AllRead(ns: seq<Node>, o: Options)
    requires AllNoRaw(ns) && !o.allowHtml
    ensures Reads(RenderAll(ns, o), MarkupOf(ns, o))
    decreases DepthOf(ns), ns, 0
  {
    hide Reads, Render, Markup;
    if ns == [] {
      ReadsNothing();
    } else {
      RenderReads(ns[0], o);
      AllRead(ns[1..], o);
      ReadsConcat(Render(ns[0], o), Markup(ns[0], o), RenderAll(ns[1..], o), MarkupOf(ns[1..], o));
    }
  }

  lemma {:induction false} CellsRead(cells: seq<Node>, align: seq<string>, tag: string, o: Options)
    requires AllNoRaw(cells) && !o.allowHtml && PlainWord(tag)
    ensures Reads(RenderCells(cells, align, tag, o), CellMarkup(cells, align, tag, o))
    decreases 1, cells, 0
  {
    hide Reads, Render, Element, OptionalAttr, GoodAttrs, PlainWord, Lists, Markup, Inside, Given;
    if cells == [] {
      ReadsNothing();
    } else {
      TagNames();
      var own, more := if align == [] then "" else align[0], if align == [] then [] else align[1..];
      OptionalAttrIsGood("align", own);
      OptionalLists("align", own);
      NothingGiven();
      RenderReads(cells[0], o);
      ReadsElement(tag, OptionalAttr("align", own), Given("align", own), Render(cells[0], o), Markup(cells[0], o));
      CellsRead(cells[1..], more, tag, o);
      ReadsConcat(Element(tag, OptionalAttr("align", own), Render(cells[0], o)),
        Inside(tag, Given("align", own), Markup(cells[0], o)), RenderCells(cells[1..], more, tag, o),
        CellMarkup(cells[1..], more, tag, o));
    }
  }

  lemma NothingGiven()
    ensures Given("align", "") == []
  {
  }

  lemma {:induction false} RowsRead(rows: seq<Node>, align: seq<string>, o: Options)
    requires AllNoRaw(rows) && !o.allowHtml
    ensures Reads(RenderRows(rows, align, o), RowMarkup(rows, align, o))
    decreases 1, rows, 0
  {
    hide Reads, RenderCells, Element, GoodAttrs, PlainWord, CellMarkup, Inside;
    if rows == [] {
      ReadsNothing();
    } else {
      TagNames();
      ReadsNothing();
      if rows[0].Row? { CellsRead(rows[0].children, align, "td", o); }
      var cells, texts := if rows[0].Row? then RenderCells(rows[0].children, align, "td", o) else "",
        if rows[0].Row? then CellMarkup(rows[0].children, align, "td", o) else [];
      PlainElement("tr", cells, texts);
      RowsRead(rows[1..], align, o);
      ReadsConcat(Element("tr", "", cells), Inside("tr", [], texts), RenderRows(rows[1..], align, o),
        RowMarkup(rows[1..], align, o));
    }
  }

  /** With raw HTML off and no component hooks, the HTML of any source reads as the
      elements, the attributes and the characters of its nodes. */
  lemma HtmlReads(src: string, o: Options)
    requires !o.allowHtml
    ensures match ToAst(src, o)
      case None => ToHtml(src, o) == None
      case Some(nodes) => ToHtml(src, o).Some? && Read(ToHtml(src, o).value) == MarkupOf(nodes, o)
  {
    hide Read, RenderAll, ToAst, MarkupOf;
    if ToAst(src, o).Some? {
      var nodes := ToAst(src, o).value;
      var h := RenderAll(nodes, o);
      AstNoRaw(src, o);
      AllRead(nodes, o);
      assert h + "" == h;
      ReadNothing();
      assert Read(h + "") == MarkupOf(nodes, o) + [];
    }
  }

  lemma ReadNothing()
    ensures Read("") == []
  {
  }
}
