/** XML as anybody may write it, and what the parser makes of it
    (src/lib/functionlib.cpp:1271-1510).  A writing fixes what its writer is free to
    choose: how each character is put, CDATA sections, comments and instructions in
    the content, the order of the attributes, their quotes and all white space.
    `Writes` ties a writing to an element without the parser, and every writing of
    an element decodes to the tree of that element. */
module XmlWritten {
  import opened Bytes
  import opened Text
  import opened DTreeModel
  import opened Xml
  import opened XmlRoundTrip
  import Utf8

  // ----- characters -----

  /** One character: itself, one of the five names, or its number in decimal or in
      hexadecimal behind an 'x' of either case. */
  datatype Glyph =
    | Plain(c: char) | Named(c: char) | Decimal(figures: seq<Figure>) | Hex(mark: char, figures: seq<Figure>)

  predicate InBase(fs: seq<Figure>, base: nat) {
    forall i | 0 <= i < |fs| :: fs[i].value < base
  }

  function Figures(fs: seq<Figure>): string
    requires InBase(fs, 16)
  {
    seq(|fs|, i requires 0 <= i < |fs| => FigureChar(fs[i]))
  }

  function Number(fs: seq<Figure>, base: nat): nat {
    if fs == [] then 0 else Number(fs[..|fs| - 1], base) * base + fs[|fs| - 1].value
  }

  function EntityName(c: char): string {
    if c == '&' then "amp" else if c == '<' then "lt" else if c == '>' then "gt"
    else if c == '"' then "quot" else if c == '\'' then "apos" else ""
  }

  /** `stop` ends the stretch: '<' in a text, the quote in an attribute. */
  predicate GlyphOk(g: Glyph, stop: char) {
    match g
    case Plain(c) => c != '&' && c != stop
    case Named(c) => EntityName(c) != ""
    case Decimal(fs) => fs != [] && InBase(fs, 10) && Number(fs, 10) != 0 && Utf8.Scalar(Number(fs, 10))
    case Hex(mark, fs) =>
      && (mark == 'x' || mark == 'X')
      && fs != [] && InBase(fs, 16) && Number(fs, 16) != 0 && Utf8.Scalar(Number(fs, 16))
  }

  predicate GlyphsOk(gs: seq<Glyph>, stop: char) {
    forall i | 0 <= i < |gs| :: GlyphOk(gs[i], stop)
  }

  function GlyphText(g: Glyph, stop: char): string
    requires GlyphOk(g, stop)
  {
    match g
    case Plain(c) => [c]
    case Named(c) => "&" + EntityName(c) + ";"
    case Decimal(fs) => "&" + ("#" + Figures(fs)) + ";"
    case Hex(mark, fs) => "&" + ("#" + ([mark] + Figures(fs))) + ";"
  }

  /** The bytes of the character; a numbered one in UTF-8. */
  function GlyphValue(g: Glyph, stop: char): string
    requires GlyphOk(g, stop)
  {
    match g
    case Plain(c) => [c]
    case Named(c) => [c]
    case Decimal(fs) => Chars(Utf8.Encode(Number(fs, 10)))
    case Hex(mark, fs) => Chars(Utf8.Encode(Number(fs, 16)))
  }

  function GlyphsText(gs: seq<Glyph>, stop: char): string
    requires GlyphsOk(gs, stop)
  {
    if gs == [] then "" else GlyphText(gs[0], stop) + GlyphsText(gs[1..], stop)
  }

  function GlyphsValue(gs: seq<Glyph>, stop: char): string
    requires GlyphsOk(gs, stop)
  {
    if gs == [] then "" else GlyphValue(gs[0], stop) + GlyphsValue(gs[1..], stop)
  }

  // ----- characters are read -----

  lemma FigureReads(f: Figure)
    requires f.value < 16
    ensures HexDigitValue(FigureChar(f)) == f.value
    ensures !IsSpace(FigureChar(f)) && FigureChar(f) !in "-+xX;<\"'"
  {
  }

  lemma {:induction false} RunSplits(s: string, c: char, base: nat, value: nat)
    requires (forall i | 0 <= i < |s| :: HexDigitValue(s[i]) < base) && HexDigitValue(c) < base
    ensures DigitRun(s + [c], base, value) == DigitRun(s, base, value) * base + HexDigitValue(c)
  {
    var t := s + [c];
    if s == "" {
      assert t[1..] == "";
    } else {
      assert t[1..] == s[1..] + [c];
      RunSplits(s[1..], c, base, value * base + HexDigitValue(s[0]));
    }
  }

  lemma {:induction false} RunIsNumber(fs: seq<Figure>, base: nat)
    requires base <= 16 && InBase(fs, base)
    ensures DigitRun(Figures(fs), base, 0) == Number(fs, base)
  {
    hide FigureChar, HexDigitValue;
    if fs != [] {
      var front, last := fs[..|fs| - 1], fs[|fs| - 1];
      forall i | 0 <= i < |front| ensures HexDigitValue(Figures(front)[i]) < base {
        FigureReads(front[i]);
        assert front[i] == fs[i];
      }
      FigureReads(last);
      RunIsNumber(front, base);
      RunSplits(Figures(front), FigureChar(last), base, 0);
      assert Figures(fs) == Figures(front) + [FigureChar(last)];
    }
  }

  lemma NumberReads(fs: seq<Figure>, base: nat)
    requires (base == 10 || base == 16) && fs != [] && InBase(fs, base) && Number(fs, base) <= 0x10FFFF
    ensures IntVal(Figures(fs), base) == Number(fs, base)
  {
    hide FigureChar, DigitRun, Number, HexDigitValue;
    var s := Figures(fs);
    FigureReads(fs[0]);
    if |fs| > 1 { FigureReads(fs[1]); }
    assert SkipSpace(s) == s;
    RunIsNumber(fs, base);
  }

  lemma EntityReads(body: string, rest: string)
    requires Without(body, ';')
    ensures DecodeText("&" + body + ";" + rest) == DecodeEntity(body) + DecodeText(rest)
  {
    hide DecodeText, DecodeEntity;
    var s := "&" + body + ";" + rest;
    DecodeHere(s);
    assert s[0] == '&' && s[|body| + 1] == ';' && forall k | 1 <= k < |body| + 1 :: s[k] == body[k - 1];
    assert Find(s, ';', 1) == |body| + 1;
    assert s[1..|body| + 1] == body && s[|body| + 2..] == rest;
  }

  lemma ReferenceReads(digits: string, cp: nat)
    requires digits != "" && cp != 0 && Utf8.Scalar(cp)
    requires DecodeReference(digits) == Chars(Utf8.FromCodepoint(cp))
    ensures DecodeEntity("#" + digits) == Chars(Utf8.Encode(cp))
  {
    hide DecodeReference;
    var e := "#" + digits;
    assert e[0] == '#' && e[1..] == digits;
    assert |Chars(Utf8.Encode(cp))| >= 1;
  }

  lemma DecimalReads(fs: seq<Figure>)
    requires fs != [] && InBase(fs, 10) && Utf8.Scalar(Number(fs, 10))
    ensures Figures(fs) != "" && DecodeReference(Figures(fs)) == Chars(Utf8.FromCodepoint(Number(fs, 10)))
  {
    hide IntVal, FigureChar, Number;
    FigureReads(fs[0]);
    NumberReads(fs, 10);
  }

  lemma HexReads(mark: char, fs: seq<Figure>)
    requires (mark == 'x' || mark == 'X') && fs != [] && InBase(fs, 16) && Utf8.Scalar(Number(fs, 16))
    ensures DecodeReference([mark] + Figures(fs)) == Chars(Utf8.FromCodepoint(Number(fs, 16)))
  {
    hide IntVal, FigureChar, Number;
    NumberReads(fs, 16);
    assert ([mark] + Figures(fs))[1..] == Figures(fs);
  }

  lemma FiguresAreSafe(fs: seq<Figure>, c: char)
    requires InBase(fs, 16) && c in "-+xX;<\"'"
    ensures Without(Figures(fs), c)
  {
    hide FigureChar;
    forall i | 0 <= i < |fs| ensures Figures(fs)[i] != c { FigureReads(fs[i]); }
  }

  lemma NameDecodes(c: char)
    requires EntityName(c) != ""
    ensures Without(EntityName(c), ';') && DecodeEntity(EntityName(c)) == [c]
  {
  }

  lemma GlyphReads(g: Glyph, stop: char, rest: string)
    requires GlyphOk(g, stop)
    ensures DecodeText(GlyphText(g, stop) + rest) == GlyphValue(g, stop) + DecodeText(rest)
  {
    hide DecodeText, DecodeEntity, DecodeReference, Figures, Number, EntityName, Chars;
    match g
    case Plain(c) =>
      assert ([c] + rest)[1..] == rest;
      DecodeHere([c] + rest);
    case Named(c) =>
      NameDecodes(c);
      EntityReads(EntityName(c), rest);
    case Decimal(fs) =>
      FiguresAreSafe(fs, ';');
      EntityReads("#" + Figures(fs), rest);
      DecimalReads(fs);
      ReferenceReads(Figures(fs), Number(fs, 10));
    case Hex(mark, fs) =>
      FiguresAreSafe(fs, ';');
      EntityReads("#" + ([mark] + Figures(fs)), rest);
      HexReads(mark, fs);
      ReferenceReads([mark] + Figures(fs), Number(fs, 16));
  }

  /** However its characters are written, a stretch decodes to them. */
  lemma {:induction false} GlyphsRead(gs: seq<Glyph>, stop: char)
    requires GlyphsOk(gs, stop)
    ensures DecodeText(GlyphsText(gs, stop)) == GlyphsValue(gs, stop)
  {
    hide DecodeText, GlyphText, GlyphValue, GlyphOk;
    NothingToDecode();
    if gs != [] {
      GlyphReads(gs[0], stop, GlyphsText(gs[1..], stop));
      GlyphsRead(gs[1..], stop);
    }
  }

  lemma GlyphIsSafe(g: Glyph, stop: char)
    requires GlyphOk(g, stop) && stop in "<\"'"
    ensures Without(GlyphText(g, stop), stop) && GlyphText(g, stop) != ""
  {
    hide Figures, Number;
    match g
    case Plain(c) =>
    case Named(c) =>
    case Decimal(fs) => FiguresAreSafe(fs, stop);
    case Hex(mark, fs) => FiguresAreSafe(fs, stop);
  }

  lemma {:induction false} GlyphsAreSafe(gs: seq<Glyph>, stop: char)
    requires GlyphsOk(gs, stop) && stop in "<\"'"
    ensures Without(GlyphsText(gs, stop), stop) && (gs != [] ==> GlyphsText(gs, stop) != "")
  {
    hide GlyphText, GlyphOk;
    if gs != [] {
      GlyphIsSafe(gs[0], stop);
      GlyphsAreSafe(gs[1..], stop);
    }
  }

  // ----- white space -----

  lemma BlankFirst(s: string, rest: string)
    requires Blank(s) && rest != "" && (s != "" || !NameChar(rest[0]))
    ensures var t := s + rest;
      t != "" && !NameChar(t[0])
  {
  }

  // ----- attributes -----

  /** `space` name `before` = `after` quote value quote */
  datatype WrittenAttr =
    WrittenAttr(space: string, name: string, before: string, after: string, quote: char, value: seq<Glyph>)

  predicate AttrOk(a: WrittenAttr) {
    && Blank(a.space) && Blank(a.before) && Blank(a.after) && ValidName(a.name)
    && (a.quote == '"' || a.quote == '\'') && GlyphsOk(a.value, a.quote)
  }

  /** The first one does not run into the name of the element. */
  predicate WrittenAttrsOk(attrs: seq<WrittenAttr>) {
    (forall i | 0 <= i < |attrs| :: AttrOk(attrs[i])) && (attrs != [] ==> attrs[0].space != "")
  }

  function QuotedText(a: WrittenAttr): string
    requires AttrOk(a)
  {
    a.after + [a.quote] + GlyphsText(a.value, a.quote) + [a.quote]
  }

  function AttrWritten(a: WrittenAttr): string
    requires AttrOk(a)
  {
    a.space + a.name + a.before + "=" + QuotedText(a)
  }

  function AttrsWritten(attrs: seq<WrittenAttr>): string
    requires forall i | 0 <= i < |attrs| :: AttrOk(attrs[i])
  {
    if attrs == [] then "" else AttrWritten(attrs[0]) + AttrsWritten(attrs[1..])
  }

  /** The names and values, as they were written. */
  function Pair(a: WrittenAttr): (string, string)
    requires AttrOk(a)
  {
    (a.name, GlyphsValue(a.value, a.quote))
  }

  function Pairs(attrs: seq<WrittenAttr>): seq<(string, string)>
    requires forall i | 0 <= i < |attrs| :: AttrOk(attrs[i])
  {
    if attrs == [] then [] else [Pair(attrs[0])] + Pairs(attrs[1..])
  }

  lemma QuotedTextReads(a: WrittenAttr, rest: string)
    requires AttrOk(a)
    ensures ReadQuoted(QuotedText(a) + rest) == Got(Pair(a).1, rest)
  {
    hide GlyphsText, GlyphsValue, DecodeText, Blank, GlyphsOk, ValidName, SkipSpace;
    var g := GlyphsText(a.value, a.quote);
    var t := [a.quote] + g + [a.quote] + rest;
    GlyphsRead(a.value, a.quote);
    GlyphsAreSafe(a.value, a.quote);
    assert QuotedText(a) + rest == a.after + t;
    SkipsTo(a.after, t);
    assert t[0] == a.quote && t[|g| + 1] == a.quote && forall i | 1 <= i < |g| + 1 :: t[i] == g[i - 1];
    assert Find(t, a.quote, 1) == |g| + 1;
    assert t[1..|g| + 1] == g && t[|g| + 2..] == rest;
  }

  lemma WrittenAttrReads(a: WrittenAttr, rest: string, node: Tree)
    requires AttrOk(a)
    ensures ParseAttrs(AttrWritten(a) + rest, node)
      == ParseAttrs(rest, SetAttr(node, Pair(a).0, Pair(a).1))
  {
    hide *;
    AttrParts(a);
    var q := QuotedText(a) + rest;
    var r := a.before + ("=" + q);
    var s := AttrWritten(a) + rest;
    assert s == a.space + (a.name + r) by { AttrSplits(a, rest); }
    NameFirst(a.name, r);
    SkipsTo(a.space, a.name + r);
    BlankFirst(a.before, "=" + q);
    NameReads(a.name, r);
    assert !IsSpace('=') by { EqualsIsNoSpace(); }
    SkipsTo(a.before, "=" + q);
    assert ("=" + q)[1..] == q;
    QuotedTextReads(a, rest);
    AttrGoesOn(s, node, a.name, r, Pair(a).1, rest);
  }

  lemma AttrParts(a: WrittenAttr)
    requires AttrOk(a)
    ensures Blank(a.space) && Blank(a.before) && ValidName(a.name) && Pair(a).0 == a.name
  {
  }

  lemma EqualsIsNoSpace()
    ensures !IsSpace('=')
  {
  }

  lemma AttrSplits(a: WrittenAttr, rest: string)
    requires AttrOk(a)
    ensures AttrWritten(a) + rest == a.space + (a.name + (a.before + ("=" + (QuotedText(a) + rest))))
  {
    hide QuotedText, AttrOk;
  }

  lemma AttrGoesOn(s: string, node: Tree, name: string, r: string, value: string, rest: string)
    requires s != "" && !StartsWith(SkipSpace(s), "/>") && !StartsWith(SkipSpace(s), ">")
    requires ReadName(SkipSpace(s)) == Got(name, r)
    requires SkipSpace(r) != "" && SkipSpace(r)[0] == '=' && ReadQuoted(SkipSpace(r)[1..]) == Got(value, rest)
    ensures ParseAttrs(s, node) == ParseAttrs(rest, SetAttr(node, name, value))
  {
    hide SkipSpace, StartsWith, ReadName, ReadQuoted, SetAttr;
  }

  lemma {:induction false} WrittenAttrsRead(attrs: seq<WrittenAttr>, rest: string, node: Tree)
    requires forall i | 0 <= i < |attrs| :: AttrOk(attrs[i])
    ensures ParseAttrs(AttrsWritten(attrs) + rest, node) == ParseAttrs(rest, WithAttrs(node, Pairs(attrs)))
    decreases |attrs|
  {
    hide ParseAttrs, SetAttr, AttrOk, AttrWritten, Pair;
    if attrs == [] {
      assert AttrsWritten(attrs) + rest == rest;
    } else {
      var a := attrs[0];
      var pairs := Pairs(attrs);
      assert pairs[1..] == Pairs(attrs[1..]);
      FrontAssoc(AttrWritten(a), AttrsWritten(attrs[1..]), "");
      FrontAssoc(AttrWritten(a), AttrsWritten(attrs[1..]), rest);
      WrittenAttrReads(a, AttrsWritten(attrs[1..]) + rest, node);
      WrittenAttrsRead(attrs[1..], rest, SetAttr(node, Pair(a).0, Pair(a).1));
    }
  }

  // ----- the order of the attributes does not matter, and the last of a name counts -----

  function LastValue(pairs: seq<(string, string)>, name: string): Option<string> {
    if pairs == [] then None
    else if pairs[|pairs| - 1].0 == name then Some(pairs[|pairs| - 1].1)
    else LastValue(pairs[..|pairs| - 1], name)
  }

  ghost predicate SameValues(a: seq<(string, string)>, b: seq<(string, string)>) {
    forall name :: LastValue(a, name) == LastValue(b, name)
  }

  function Texted(v: Option<string>): Option<Tree> {
    match v case None => None case Some(t) => Some(Str(t))
  }

  /** A plain map: neither a list nor ever pushed to. */
  ghost predicate PlainMap(t: Tree) {
    Node(t) && !t.listMode && t.arrayIndex == 0
  }

  ghost predicate AttrsAre(t: Tree, pairs: seq<(string, string)>)
    requires t.Map?
  {
    match Lookup(t.entries, "attrs")
    case None => pairs == []
    case Some(v) =>
      pairs != [] && PlainMap(v) && forall name :: Lookup(v.entries, name) == Texted(LastValue(pairs, name))
  }

  lemma SetAttrIs(node: Tree, before: seq<(string, string)>, attr: (string, string))
    requires PlainMap(node) && AttrsAre(node, before)
    ensures var r := SetAttr(node, attr.0, attr.1);
      PlainMap(r) && SameBut(node, r, "attrs") && AttrsAre(r, before + [attr])
  {
    hide MapPut, Less, Lookup, Sorted, IsIndexKey;
    var inner := Field(node, "attrs");
    var after := before + [attr];
    assert after[..|before|] == before;
    NoEntries();
    SetKeyFacts(inner, attr.0, Str(attr.1));
    SetKeyFacts(node, "attrs", SetKey(inner, attr.0, Str(attr.1)));
    var v := SetKey(inner, attr.0, Str(attr.1));
    assert Lookup(SetAttr(node, attr.0, attr.1).entries, "attrs") == Some(v);
    forall name ensures Lookup(v.entries, name) == Texted(LastValue(after, name)) {
      assert LastValue(after, name) == if name == attr.0 then Some(attr.1) else LastValue(before, name);
    }
  }

  lemma NoEntries()
    ensures forall k :: Lookup([], k) == None
    ensures forall k :: LastValue([], k) == None
    ensures Sorted([])
  {
  }

  lemma {:induction false} WithAttrsAre(node: Tree, before: seq<(string, string)>, attrs: seq<(string, string)>)
    requires PlainMap(node) && AttrsAre(node, before)
    ensures var r := WithAttrs(node, attrs);
      PlainMap(r) && SameBut(node, r, "attrs") && AttrsAre(r, before + attrs)
    decreases |attrs|
  {
    hide SetAttr, AttrsAre, Sorted, Lookup;
    if attrs == [] {
      assert before + attrs == before;
    } else {
      assert before + attrs == (before + [attrs[0]]) + attrs[1..];
      SetAttrIs(node, before, attrs[0]);
      WithAttrsAre(SetAttr(node, attrs[0].0, attrs[0].1), before + [attrs[0]], attrs[1..]);
    }
  }

  lemma SameMaps(a: Tree, b: Tree)
    requires PlainMap(a) && PlainMap(b) && forall k :: Lookup(a.entries, k) == Lookup(b.entries, k)
    ensures a == b
  {
    hide Lookup, Sorted;
    SortedIsCanonical(a.entries, b.entries);
  }

  lemma NoneOrSome(a: seq<(string, string)>, b: seq<(string, string)>)
    requires SameValues(a, b)
    ensures a == [] <==> b == []
  {
    if a != [] { assert LastValue(a, a[|a| - 1].0) == LastValue(b, a[|a| - 1].0); }
    if b != [] { assert LastValue(a, b[|b| - 1].0) == LastValue(b, b[|b| - 1].0); }
  }

  /** Attributes that give every name the same value make the same node. */
  lemma SameAttrs(name: string, a: seq<(string, string)>, b: seq<(string, string)>)
    requires SameValues(a, b)
    ensures WithAttrs(NameNode(name), a) == WithAttrs(NameNode(name), b)
  {
    hide Lookup, Sorted, WithAttrs, LastValue, SetKey;
    var node := NameNode(name);
    assert PlainMap(node) && AttrsAre(node, []) by { NameNodeIsPlain(name); }
    var ta, tb := WithAttrs(node, a), WithAttrs(node, b);
    WithAttrsAre(node, [], a);
    WithAttrsAre(node, [], b);
    assert [] + a == a && [] + b == b;
    NoneOrSome(a, b);
    assert Lookup(ta.entries, "attrs") == Lookup(tb.entries, "attrs") by {
      if a != [] { SameMaps(Lookup(ta.entries, "attrs").value, Lookup(tb.entries, "attrs").value); }
    }
    SameMaps(ta, tb);
  }

  lemma NameNodeIsPlain(name: string)
    ensures PlainMap(NameNode(name)) && AttrsAre(NameNode(name), [])
  {
    NoEntries();
    SetKeyFacts(EMPTY_TREE, "name", Str(name));
  }

  // ----- elements -----

  /** A piece of content.  `Letters` is a whole stretch between two tags. */
  datatype Part =
    | Letters(glyphs: seq<Glyph>)
    | Cdata(content: string)
    | Comment(body: string)
    | Instruction(body: string)
    | Child(element: Written)

  datatype Content = SelfClosing | Around(parts: seq<Part>, gap: string)

  datatype Written = Written(name: string, attrs: seq<WrittenAttr>, gap: string, content: Content)

  /** From the opening on, the end mark first stands where it is meant to. */
  predicate EndsFirst(opening: string, body: string, end: string) {
    forall k | 0 <= k < |opening| + |body| :: !At(opening + body + end, k, end)
  }

  predicate PartOk(p: Part)
    decreases p, 0
  {
    match p
    case Letters(gs) => gs != [] && GlyphsOk(gs, '<')
    case Cdata(content) => EndsFirst("", content, "]]>")
    case Comment(body) => EndsFirst("<!--", body, "-->")
    case Instruction(body) => EndsFirst("<?", body, "?>")
    case Child(w) => WrittenOk(w)
  }

  /** No two stretches of letters meet. */
  predicate PartsOk(parts: seq<Part>)
    decreases parts, 0
  {
    parts != [] ==>
      && PartOk(parts[0]) && PartsOk(parts[1..])
      && (parts[0].Letters? && parts[1..] != [] ==> !parts[1].Letters?)
  }

  predicate WrittenOk(w: Written)
    decreases w, 1
  {
    && ValidName(w.name) && WrittenAttrsOk(w.attrs) && Blank(w.gap)
    && (w.content.Around? ==> PartsOk(w.content.parts) && Blank(w.content.gap))
  }

  function PartText(p: Part): string
    requires PartOk(p)
    decreases p, 0
  {
    match p
    case Letters(gs) => GlyphsText(gs, '<')
    case Cdata(content) => "<![CDATA[" + content + "]]>"
    case Comment(body) => "<!--" + body + "-->"
    case Instruction(body) => "<?" + body + "?>"
    case Child(w) => TextOf(w)
  }

  function PartsText(parts: seq<Part>): string
    requires PartsOk(parts)
    decreases parts, 0
  {
    if parts == [] then "" else PartText(parts[0]) + PartsText(parts[1..])
  }

  function StartTag(w: Written): string
    requires WrittenOk(w)
  {
    "<" + w.name + AttrsWritten(w.attrs) + w.gap
  }

  function CloseTag(name: string, gap: string): string {
    "</" + name + gap + ">"
  }

  /** The text of a writing. */
  function TextOf(w: Written): string
    requires WrittenOk(w)
    decreases w, 1
  {
    match w.content
    case SelfClosing => StartTag(w) + "/>"
    case Around(parts, gap) => StartTag(w) + ">" + PartsText(parts) + CloseTag(w.name, gap)
  }

  /** The text of the content: stretches that are not blank, and CDATA sections. */
  function PartsValue(parts: seq<Part>): string
    requires PartsOk(parts)
  {
    if parts == [] then "" else OwnValue(parts[0]) + PartsValue(parts[1..])
  }

  function OwnValue(p: Part): string
    requires PartOk(p)
  {
    match p
    case Letters(gs) => UnlessBlank(GlyphsValue(gs, '<'))
    case Cdata(content) => content
    case _ => ""
  }

  function UnlessBlank(s: string): string {
    if Blank(s) then "" else s
  }

  /** `w` is a writing of `e`. */
  ghost predicate Writes(w: Written, e: Element)
    requires WrittenOk(w)
    decreases w, 1
  {
    && w.name == e.name && SameValues(Pairs(w.attrs), e.attrs)
    && match w.content
       case SelfClosing => e.text == "" && e.children == []
       case Around(parts, _) => e.text == UnlessBlank(PartsValue(parts)) && PartsWrite(parts, e.children)
  }

  /** The elements among the parts are writings of `es`, in that order. */
  ghost predicate PartsWrite(parts: seq<Part>, es: seq<Element>)
    requires PartsOk(parts)
    decreases parts, 0
  {
    if parts == [] then es == []
    else if parts[0].Child? then es != [] && PartWrites(parts[0], es[0]) && PartsWrite(parts[1..], es[1..])
    else PartsWrite(parts[1..], es)
  }

  ghost predicate PartWrites(p: Part, e: Element)
    requires PartOk(p)
    decreases p, 0
  {
    match p case Child(w) => Writes(w, e) case _ => false
  }

  // ----- end marks -----

  lemma AtFront(front: string, rest: string, k: nat, t: string)
    requires k + |t| <= |front|
    ensures At(front + rest, k, t) <==> At(front, k, t)
  {
    assert (front + rest)[k..k + |t|] == front[k..k + |t|];
  }

  lemma FirstEnd(opening: string, body: string, end: string, rest: string)
    requires end != ""
    ensures var s, at := opening + body + end + rest, |opening| + |body|;
      FindText(s, end, 0) <= at && (FindText(s, end, 0) == at <==> EndsFirst(opening, body, end))
  {
    var front := opening + body + end;
    var s, at := front + rest, |opening| + |body|;
    hide FindText;
    assert front[at..] == end;
    AtFront(front, rest, at, end);
    forall k | 0 <= k < at ensures At(s, k, end) <==> At(front, k, end) { AtFront(front, rest, k, end); }
    assert At(s, at, end);
  }

  /** What is skipped ends where it is meant to if and only if the end mark does not
      stand before, the opening included. */
  lemma SkippedIff(opening: string, body: string, end: string, rest: string)
    requires end != ""
    ensures SkipUntil(opening + body + end + rest, end) == rest <==> EndsFirst(opening, body, end)
  {
    hide FindText, EndsFirst;
    var s := opening + body + end + rest;
    FirstEnd(opening, body, end, rest);
    var p := FindText(s, end, 0);
    if p == |opening| + |body| { assert s[p + |end|..] == rest; }
  }

  /** The comment of the body '>' ends inside its own opening, where XML 1.0 (section
      2.5) has it end at the second mark. */
  lemma CommentEndsEarly(rest: string)
    ensures !EndsFirst("<!--", ">", "-->") && SkipUntil("<!--" + ">" + "-->" + rest, "-->") == "-->" + rest
  {
    hide FindText;
    var front := "<!--" + ">" + "-->";
    var s := front + rest;
    assert s[0..3][0] == '<' && s[1..4][0] == '!' && s[2..5] == "-->";
    assert At(s, 2, "-->") && !At(s, 0, "-->") && !At(s, 1, "-->");
    assert At(front, 2, "-->") by { assert front[2..5] == "-->"; }
    assert FindText(s, "-->", 0) == 2;
    assert s[2 + 3..] == "-->" + rest;
  }

  // ----- the parts are read -----

  lemma FirstChar(s: string, c: char)
    requires s != "" && s[0] == c != '<'
    ensures !StartsWith(s, "</") && !StartsWith(s, "<!--") && !StartsWith(s, "<![CDATA[") && !StartsWith(s, "<?")
  {
    assert forall p: string | p != "" && StartsWith(s, p) :: s[0] == s[..|p|][0] == p[0];
  }

  lemma LettersRead(gs: seq<Glyph>, tail: string, node: Tree, name: string, text: string)
    requires gs != [] && GlyphsOk(gs, '<') && tail != "" && tail[0] == '<'
    ensures ParseContent(GlyphsText(gs, '<') + tail, node, name, text)
      == ParseContent(tail, node, name, text + UnlessBlank(GlyphsValue(gs, '<')))
  {
    hide GlyphsText, GlyphsValue, GlyphsOk, DecodeText, Trim, ParseElement, Blank, StartsWith;
    var g, value := GlyphsText(gs, '<'), GlyphsValue(gs, '<');
    var s := g + tail;
    GlyphsRead(gs, '<');
    GlyphsAreSafe(gs, '<');
    assert s[|g|] == '<' && forall i | 0 <= i < |g| :: s[i] == g[i];
    assert Find(s, '<', 0) == |g|;
    assert s[..|g|] == g && s[|g|..] == tail;
    FirstChar(s, g[0]);
    TrimmedAway(value);
    assert text + "" == text;
  }

  lemma CdataReads(content: string, rest: string, node: Tree, name: string, text: string)
    requires EndsFirst("", content, "]]>")
    ensures ParseContent("<![CDATA[" + content + "]]>" + rest, node, name, text)
      == ParseContent(rest, node, name, text + content)
  {
    hide EndsFirst, At, FindText, ParseContent;
    var inner := content + "]]>" + rest;
    var s := "<![CDATA[" + content + "]]>" + rest;
    assert s == "<![CDATA[" + inner;
    assert "" + content + "]]>" + rest == inner;
    FirstEnd("", content, "]]>", rest);
    FindBehind("<![CDATA[", inner, "]]>", 0);
    assert s[9..9 + |content|] == content && s[9 + |content| + 3..] == rest;
    CdataStarts(inner);
    CdataGoesOn(s, node, name, text, 9 + |content|);
  }

  lemma CdataStarts(inner: string)
    ensures var s := "<![CDATA[" + inner;
      StartsWith(s, "<![CDATA[") && !StartsWith(s, "</") && !StartsWith(s, "<!--")
  {
    var s := "<![CDATA[" + inner;
    assert s[..9] == "<![CDATA[" && s[..2][1] == '!' && s[..4][2] == '[';
  }

  lemma CdataGoesOn(s: string, node: Tree, name: string, text: string, end: nat)
    requires |s| >= 9 && StartsWith(s, "<![CDATA[") && !StartsWith(s, "</") && !StartsWith(s, "<!--")
    requires FindText(s, "]]>", 9) == end && end + 3 <= |s|
    ensures ParseContent(s, node, name, text) == ParseContent(s[end + 3..], node, name, text + s[9..end])
  {
    hide FindText, StartsWith, ParseElement, At, ParseClose, Find, DecodeText, Trim, PushChild, SkipUntil;
  }

  /** A search that starts behind `front` finds what a search of the rest finds. */
  lemma {:induction false} FindBehind(front: string, s: string, t: string, at: nat)
    requires at <= |s|
    ensures FindText(front + s, t, |front| + at) == |front| + FindText(s, t, at)
    decreases |s| - at
  {
    hide At;
    if at < |s| {
      AtBehind(front, s, t, at);
      FindBehind(front, s, t, at + 1);
    }
  }

  lemma AtBehind(front: string, s: string, t: string, at: nat)
    ensures At(front + s, |front| + at, t) <==> At(s, at, t)
  {
    if at + |t| <= |s| { assert (front + s)[|front| + at..|front| + at + |t|] == s[at..at + |t|]; }
  }

  lemma CommentReads(body: string, rest: string, node: Tree, name: string, text: string)
    requires EndsFirst("<!--", body, "-->")
    ensures ParseContent("<!--" + body + "-->" + rest, node, name, text) == ParseContent(rest, node, name, text)
  {
    hide EndsFirst, ParseElement, SkipUntil;
    var s := "<!--" + body + "-->" + rest;
    SkippedIff("<!--", body, "-->", rest);
    assert s[..4] == "<!--" && s[..2] == "<!";
  }

  lemma InstructionReads(body: string, rest: string, node: Tree, name: string, text: string)
    requires EndsFirst("<?", body, "?>")
    ensures ParseContent("<?" + body + "?>" + rest, node, name, text) == ParseContent(rest, node, name, text)
  {
    hide EndsFirst, ParseElement, SkipUntil, StartsWith;
    var s := "<?" + body + "?>" + rest;
    SkippedIff("<?", body, "?>", rest);
    assert s == "<?" + (body + "?>" + rest);
    InstructionStarts(body + "?>" + rest);
  }

  lemma InstructionStarts(inner: string)
    ensures var s := "<?" + inner;
      StartsWith(s, "<?") && !StartsWith(s, "</") && !StartsWith(s, "<!--") && !StartsWith(s, "<![CDATA[")
  {
    var s := "<?" + inner;
    assert s[..2] == "<?";
    assert forall p: string | |p| >= 2 && StartsWith(s, p) :: s[1] == s[..|p|][1] == p[1];
  }

  lemma CloseTagReads(node: Tree, name: string, gap: string, text: string, rest: string)
    requires ValidName(name) && Blank(gap)
    ensures ParseContent(CloseTag(name, gap) + rest, node, name, text) == Got(Finish(node, text), rest)
  {
    hide ValidName, Blank, ReadName, SkipSpace, Finish;
    var more := gap + (">" + rest);
    var s := CloseTag(name, gap) + rest;
    assert s[..2] == "</" && s[2..] == name + more;
    BlankFirst(gap, ">" + rest);
    NameReads(name, more);
    SkipsTo(gap, ">" + rest);
    assert (">" + rest)[1..] == rest;
    ClosesWell(s, node, name, text, more, rest);
  }

  lemma ClosesWell(s: string, node: Tree, name: string, text: string, more: string, rest: string)
    requires |s| >= 2 && StartsWith(s, "</") && ReadName(s[2..]) == Got(name, more) && SkipSpace(more) == ">" + rest
    ensures ParseContent(s, node, name, text) == Got(Finish(node, text), rest)
  {
    hide ReadName, SkipSpace, StartsWith, ParseElement, SetKey, Trim;
    assert (">" + rest)[1..] == rest;
  }

  // ----- elements are read -----

  lemma PartsStart(parts: seq<Part>, tail: string)
    requires PartsOk(parts) && (parts != [] ==> !parts[0].Letters?) && tail != "" && tail[0] == '<'
    ensures var s := PartsText(parts) + tail;
      s != "" && s[0] == '<'
  {
    hide PartsOk;
    if parts != [] { PartStarts(parts); }
  }

  lemma PartStarts(parts: seq<Part>)
    requires parts != [] && PartsOk(parts) && !parts[0].Letters?
    ensures PartsText(parts) != "" && PartsText(parts)[0] == '<'
  {
    hide StartTag;
    match parts[0]
    case Child(w) => TextStarts(w);
    case _ =>
  }

  lemma TextStarts(w: Written)
    requires WrittenOk(w)
    ensures |TextOf(w)| >= 2 && TextOf(w)[0] == '<' && NameStart(TextOf(w)[1])
  {
    hide AttrsWritten, PartsText, PartsOk;
  }

  /** The content of an element is read part by part. */
  lemma {:induction false} PartsRead(parts: seq<Part>, es: seq<Element>, tail: string, node: Tree, name: string,
      text: string)
    requires PartsOk(parts) && PartsWrite(parts, es) && tail != "" && tail[0] == '<'
    ensures ParseContent(PartsText(parts) + tail, node, name, text)
      == ParseContent(tail, WithChildren(node, TreesOf(es)), name, text + PartsValue(parts))
    decreases parts, 0
  {
    hide *;
    if parts == [] {
      NoParts(es, node, tail, text);
    } else {
      PartsHead(parts);
      HeadJoins(parts, tail, text);
      var more := PartsText(parts[1..]) + tail;
      if parts[0].Child? {
        ChildHead(parts, es, node);
        assert text + "" == text;
        PartRead(parts[0], es[0]);
        KidReads(PartText(parts[0]), TreeOf(es[0]), more, node, name, text);
        PartsRead(parts[1..], es[1..], tail, PushChild(node, TreeOf(es[0])), name, text);
      } else {
        OtherHead(parts, es);
        if parts[0].Letters? { PartsStart(parts[1..], tail); }
        OtherRead(parts[0], more, node, name, text);
        PartsRead(parts[1..], es, tail, node, name, text + OwnValue(parts[0]));
      }
    }
  }

  lemma NoParts(es: seq<Element>, node: Tree, tail: string, text: string)
    requires PartsWrite([], es)
    ensures PartsText([]) + tail == tail && WithChildren(node, TreesOf(es)) == node
    ensures text + PartsValue([]) == text
  {
  }

  lemma PartsHead(parts: seq<Part>)
    requires parts != [] && PartsOk(parts)
    ensures PartOk(parts[0]) && PartsOk(parts[1..])
    ensures parts[0].Letters? && parts[1..] != [] ==> !parts[1..][0].Letters?
  {
    hide PartOk;
  }

  lemma HeadJoins(parts: seq<Part>, tail: string, text: string)
    requires parts != [] && PartsOk(parts) && PartOk(parts[0]) && PartsOk(parts[1..])
    ensures PartsText(parts) + tail == PartText(parts[0]) + (PartsText(parts[1..]) + tail)
    ensures text + PartsValue(parts) == text + OwnValue(parts[0]) + PartsValue(parts[1..])
  {
    hide PartOk, PartsOk, PartText, OwnValue;
    FrontAssoc(PartText(parts[0]), PartsText(parts[1..]), tail);
    FrontAssoc(text, OwnValue(parts[0]), PartsValue(parts[1..]));
  }

  lemma ChildHead(parts: seq<Part>, es: seq<Element>, node: Tree)
    requires parts != [] && PartsOk(parts) && PartsWrite(parts, es) && parts[0].Child?
    ensures es != [] && PartOk(parts[0]) && PartWrites(parts[0], es[0])
    ensures PartsOk(parts[1..]) && PartsWrite(parts[1..], es[1..])
    ensures WithChildren(node, TreesOf(es)) == WithChildren(PushChild(node, TreeOf(es[0])), TreesOf(es[1..]))
    ensures OwnValue(parts[0]) == ""
  {
    hide PartOk, TreeOf, PushChild, PartWrites;
    assert TreesOf(es)[1..] == TreesOf(es[1..]);
  }

  lemma OtherHead(parts: seq<Part>, es: seq<Element>)
    requires parts != [] && PartsOk(parts) && PartsWrite(parts, es) && !parts[0].Child?
    ensures PartOk(parts[0]) && PartsOk(parts[1..]) && PartsWrite(parts[1..], es)
  {
    hide PartOk;
  }

  lemma OtherRead(p: Part, more: string, node: Tree, name: string, text: string)
    requires PartOk(p) && !p.Child? && (p.Letters? ==> more != "" && more[0] == '<')
    ensures ParseContent(PartText(p) + more, node, name, text) == ParseContent(more, node, name, text + OwnValue(p))
  {
    hide ParseContent, GlyphsText, GlyphsValue, GlyphsOk, EndsFirst, UnlessBlank;
    match p
    case Letters(gs) => LettersRead(gs, more, node, name, text);
    case Cdata(content) => CdataReads(content, more, node, name, text);
    case Comment(body) =>
      assert text + "" == text;
      CommentReads(body, more, node, name, text);
    case Instruction(body) =>
      assert text + "" == text;
      InstructionReads(body, more, node, name, text);
  }

  lemma {:induction false} PartRead(p: Part, e: Element)
    requires PartOk(p) && PartWrites(p, e)
    ensures ReadsAs(PartText(p), TreeOf(e))
    decreases p, 1
  {
    hide ParseElement, TreeOf, TextOf, WrittenOk, Writes;
    var w := p.element;
    forall rest ensures ParseElement(TextOf(w) + rest) == Got(TreeOf(e), rest) {
      WritingReads(w, e, rest);
    }
    TextStarts(w);
  }

  /** A start tag up to its '/' or '>'. */
  lemma StartReads(w: Written, tail: string)
    requires WrittenOk(w) && tail != "" && !NameChar(tail[0]) && !IsSpace(tail[0])
    ensures ParseElement(StartTag(w) + tail) ==
      match ParseAttrs(tail, WithAttrs(NameNode(w.name), Pairs(w.attrs)))
      case BadTag(err) => Failed(err)
      case SelfClosed(node, r) => Got(node, r)
      case Opened(node, r) => ParseContent(r, node, w.name, "")
  {
    hide *;
    StartParts(w, tail);
    var named := AttrsWritten(w.attrs) + (w.gap + tail);
    NameReads(w.name, named);
    WrittenAttrsRead(w.attrs, w.gap + tail, NameNode(w.name));
    GapReads(w.gap, tail, WithAttrs(NameNode(w.name), Pairs(w.attrs)));
    var s := StartTag(w) + tail;
    assert s[1..] == w.name + named;
    NameThenAttrs(s, w.name, named);
  }

  lemma StartParts(w: Written, tail: string)
    requires WrittenOk(w) && tail != "" && !NameChar(tail[0])
    ensures ValidName(w.name) && Blank(w.gap) && forall i | 0 <= i < |w.attrs| :: AttrOk(w.attrs[i])
    ensures StartTag(w) + tail == "<" + (w.name + (AttrsWritten(w.attrs) + (w.gap + tail)))
    ensures var named := AttrsWritten(w.attrs) + (w.gap + tail);
      named != "" && !NameChar(named[0])
  {
    hide GlyphsText, GlyphsOk, ValidName, PartsOk;
    BlankFirst(w.gap, tail);
    if w.attrs != [] {
      var a := w.attrs[0];
      assert AttrsWritten(w.attrs)[0] == AttrWritten(a)[0] == a.space[0];
      assert IsSpace(a.space[0]);
    } else {
      assert AttrsWritten(w.attrs) + (w.gap + tail) == w.gap + tail;
    }
  }

  lemma NameThenAttrs(s: string, name: string, named: string)
    requires s != "" && s[0] == '<' && ReadName(s[1..]) == Got(name, named)
    ensures ParseElement(s) ==
      match ParseAttrs(named, NameNode(name))
      case BadTag(err) => Failed(err)
      case SelfClosed(node, r) => Got(node, r)
      case Opened(node, r) => ParseContent(r, node, name, "")
  {
    hide ReadName, ParseAttrs, ParseContent, SetKey;
  }

  lemma GapReads(gap: string, tail: string, node: Tree)
    requires Blank(gap) && tail != "" && !IsSpace(tail[0])
    ensures ParseAttrs(gap + tail, node) == ParseAttrs(tail, node)
  {
    hide StartsWith, ReadName, ReadQuoted, SetAttr;
    SkipsTo(gap, tail);
    SkipsTo("", tail);
    assert "" + tail == tail;
  }

  lemma TagEnds(node: Tree, rest: string)
    ensures ParseAttrs("/>" + rest, node) == SelfClosed(node, rest)
    ensures ParseAttrs(">" + rest, node) == Opened(node, rest)
    ensures forall c | c in "/>" :: !NameChar(c) && !IsSpace(c)
  {
    assert ("/>" + rest)[..2] == "/>" && ("/>" + rest)[2..] == rest;
    assert (">" + rest)[..1] == ">" && (">" + rest)[1..] == rest;
    assert !StartsWith(">" + rest, "/>") by { assert (">" + rest)[0] == '>'; }
  }

  /** Every writing of an element is read as the tree of that element. */
  lemma {:induction false} WritingReads(w: Written, e: Element, rest: string)
    requires WrittenOk(w) && Writes(w, e)
    ensures ParseElement(TextOf(w) + rest) == Got(TreeOf(e), rest)
    decreases w, 2
  {
    hide *;
    var node := WithAttrs(NameNode(e.name), e.attrs);
    WritingParts(w, e, rest);
    match w.content
    case SelfClosing =>
      TagEnds(node, rest);
      StartReads(w, "/>" + rest);
    case Around(parts, gap) =>
      var tail := CloseTag(w.name, gap) + rest;
      TagEnds(node, PartsText(parts) + tail);
      StartReads(w, ">" + (PartsText(parts) + tail));
      PartsRead(parts, e.children, tail, node, w.name, "");
      CloseTagReads(WithChildren(node, TreesOf(e.children)), w.name, gap, "" + PartsValue(parts), rest);
      FinishKeeps(WithChildren(node, TreesOf(e.children)), PartsValue(parts));
  }

  /** What `Writes` says, one level deep. */
  lemma WritingParts(w: Written, e: Element, rest: string)
    requires WrittenOk(w) && Writes(w, e)
    ensures ValidName(w.name) && w.name == e.name && forall i | 0 <= i < |w.attrs| :: AttrOk(w.attrs[i])
    ensures WithAttrs(NameNode(w.name), Pairs(w.attrs)) == WithAttrs(NameNode(e.name), e.attrs)
    ensures w.content.SelfClosing? ==>
      && TreeOf(e) == WithAttrs(NameNode(e.name), e.attrs)
      && TextOf(w) + rest == StartTag(w) + ("/>" + rest)
    ensures w.content.Around? ==>
      var parts, tail := w.content.parts, CloseTag(w.name, w.content.gap) + rest;
      && PartsOk(parts) && PartsWrite(parts, e.children) && Blank(w.content.gap) && tail != "" && tail[0] == '<'
      && TextOf(w) + rest == StartTag(w) + (">" + (PartsText(parts) + tail))
      && TreeOf(e) == WithText(WithChildren(WithAttrs(NameNode(e.name), e.attrs), TreesOf(e.children)),
        UnlessBlank(PartsValue(parts)))
  {
    hide Pairs, AttrOk, ValidName, WithAttrs, NameNode, SameValues, PartsOk, PartsWrite, PartsText, PartsValue,
      UnlessBlank, StartTag, Blank;
    SameAttrs(w.name, Pairs(w.attrs), e.attrs);
  }

  lemma FinishKeeps(node: Tree, text: string)
    ensures Finish(node, "" + text) == WithText(node, UnlessBlank(text))
  {
    hide SetKey, Trim;
    assert "" + text == text;
    TrimmedAway(text);
  }

  /** With the closing tag of another name it is no element, whatever the content. */
  lemma OtherNameFails(w: Written, e: Element, other: string, gap: string, rest: string)
    requires WrittenOk(w) && Writes(w, e) && w.content.Around?
    requires ValidName(other) && Blank(gap) && other != w.name
    ensures ParseElement(StartTag(w) + (">" + (PartsText(w.content.parts) + (CloseTag(other, gap) + rest))))
      == Failed(Mismatched)
  {
    hide *;
    var node, parts, tail := WithAttrs(NameNode(e.name), e.attrs), w.content.parts, CloseTag(other, gap) + rest;
    WritingParts(w, e, rest);
    TagEnds(node, PartsText(parts) + tail);
    StartReads(w, ">" + (PartsText(parts) + tail));
    CloseStarts(other, gap, rest);
    PartsRead(parts, e.children, tail, node, w.name, "");
    CloseTagFails(WithChildren(node, TreesOf(e.children)), w.name, other, gap, "" + PartsValue(parts), rest);
  }

  lemma CloseStarts(name: string, gap: string, rest: string)
    ensures (CloseTag(name, gap) + rest) != "" && (CloseTag(name, gap) + rest)[0] == '<'
  {
  }

  lemma CloseTagFails(node: Tree, name: string, other: string, gap: string, text: string, rest: string)
    requires ValidName(other) && Blank(gap) && other != name
    ensures ParseContent(CloseTag(other, gap) + rest, node, name, text) == Failed(Mismatched)
  {
    hide ValidName, Blank, ReadName, SkipSpace, SetKey, ParseElement, Trim;
    var more := gap + (">" + rest);
    var s := CloseTag(other, gap) + rest;
    assert s[..2] == "</" && s[2..] == other + more;
    BlankFirst(gap, ">" + rest);
    NameReads(other, more);
    SkipsTo(gap, ">" + rest);
  }

  // ----- documents -----

  /** What may stand before and behind the root element. */
  datatype Misc =
    | Space(s: string) | Processing(body: string) | Remark(body: string) | Doctype(upper: bool, body: string)

  predicate MiscOk(m: Misc) {
    match m
    case Space(s) => Blank(s)
    case Processing(body) => EndsFirst("<?", body, "?>")
    case Remark(body) => EndsFirst("<!--", body, "-->")
    case Doctype(_, body) => Without(body, '>')
  }

  function MiscText(m: Misc): string {
    match m
    case Space(s) => s
    case Processing(body) => "<?" + body + "?>"
    case Remark(body) => "<!--" + body + "-->"
    case Doctype(upper, body) => DoctypeStart(upper) + body + ">"
  }

  function DoctypeStart(upper: bool): string {
    if upper then "<!DOCTYPE" else "<!doctype"
  }

  function MiscsText(ms: seq<Misc>): string {
    if ms == [] then "" else MiscText(ms[0]) + MiscsText(ms[1..])
  }

  predicate MiscsOk(ms: seq<Misc>) {
    forall i | 0 <= i < |ms| :: MiscOk(ms[i])
  }

  lemma {:induction false} MiscsSkipped(ms: seq<Misc>, rest: string)
    requires MiscsOk(ms)
    ensures SkipMisc(MiscsText(ms) + rest) == SkipMisc(rest)
    decreases |ms|
  {
    hide MiscText, SkipMisc, MiscOk;
    if ms == [] {
      assert MiscsText(ms) + rest == rest;
    } else {
      FrontAssoc(MiscText(ms[0]), MiscsText(ms[1..]), rest);
      MiscSkipped(ms[0], MiscsText(ms[1..]) + rest);
      MiscsSkipped(ms[1..], rest);
    }
  }

  lemma MiscSkipped(m: Misc, rest: string)
    requires MiscOk(m)
    ensures SkipMisc(MiscText(m) + rest) == SkipMisc(rest)
  {
    hide SkipUntil, EndsFirst, StartsWith;
    match m
    case Space(s) => BlankSkipped(s, rest);
    case Processing(body) =>
      MarkStarts("<?", body + "?>" + rest);
      assert "<?" + body + "?>" + rest == "<?" + (body + "?>" + rest);
      SkippedIff("<?", body, "?>", rest);
    case Remark(body) =>
      MarkStarts("<!--", body + "-->" + rest);
      assert "<!--" + body + "-->" + rest == "<!--" + (body + "-->" + rest);
      SkippedIff("<!--", body, "-->", rest);
    case Doctype(upper, body) =>
      MarkStarts(DoctypeStart(upper), body + ">" + rest);
      assert DoctypeStart(upper) + body + ">" + rest == DoctypeStart(upper) + (body + ">" + rest);
      DoctypeEnds(upper, body);
      SkippedIff(DoctypeStart(upper), body, ">", rest);
  }

  lemma MarkStarts(mark: string, rest: string)
    requires mark in {"<?", "<!--", "<!DOCTYPE", "<!doctype"}
    ensures var s := mark + rest;
      && SkipSpace(s) == s && StartsWith(s, mark)
      && (mark != "<?" ==> !StartsWith(s, "<?"))
      && (mark == "<!DOCTYPE" || mark == "<!doctype" ==> !StartsWith(s, "<!--"))
  {
    var s := mark + rest;
    assert s[..|mark|] == mark && s[0] == mark[0] && s[1] == mark[1] && (|mark| > 2 ==> s[2] == mark[2]);
    assert StartsWith(s, "<?") ==> s[1] == s[..2][1];
    assert StartsWith(s, "<!--") ==> s[2] == s[..4][2];
  }

  lemma DoctypeEnds(upper: bool, body: string)
    requires Without(body, '>')
    ensures EndsFirst(DoctypeStart(upper), body, ">")
  {
    var s := DoctypeStart(upper) + body + ">";
    assert Without(DoctypeStart(upper), '>');
    forall k | 0 <= k < |DoctypeStart(upper)| + |body| ensures !At(s, k, ">") {
      assert s[k..k + 1][0] == s[k] != '>';
    }
  }

  /** A document: any writing of the root, with anything that is skipped around it. */
  lemma DocumentReads(before: seq<Misc>, w: Written, after: seq<Misc>, e: Element)
    requires MiscsOk(before) && MiscsOk(after) && WrittenOk(w) && Writes(w, e)
    ensures XmlDecode(MiscsText(before) + TextOf(w) + MiscsText(after)) == Got(TreeOf(e), "")
  {
    hide *;
    var s := TextOf(w) + MiscsText(after);
    FrontAssoc(MiscsText(before), TextOf(w), MiscsText(after));
    MiscsSkipped(before, s);
    TextStarts(w);
    NoMisc(s);
    WritingReads(w, e, MiscsText(after));
    MiscsSkipped(after, "");
    assert MiscsText(after) + "" == MiscsText(after);
    DecodeIs(MiscsText(before) + TextOf(w) + MiscsText(after), s, TreeOf(e), MiscsText(after));
  }

  lemma DecodeIs(document: string, s: string, tree: Tree, rest: string)
    requires SkipMisc(document) == s != "" && ParseElement(s) == Got(tree, rest) && SkipMisc(rest) == ""
    ensures XmlDecode(document) == Got(tree, "")
  {
    hide SkipMisc, ParseElement;
  }

  function CdataElement(name: string, content: string): Written {
    Written(name, [], "", Around([Cdata(content)], ""))
  }

  /** Of one part alone. */
  lemma OneCdata(content: string)
    requires EndsFirst("", content, "]]>")
    ensures var parts := [Cdata(content)];
      && PartsOk(parts) && PartsWrite(parts, []) && PartsValue(parts) == content
      && PartsText(parts) == "<![CDATA[" + content + "]]>"
  {
    hide EndsFirst;
    var parts := [Cdata(content)];
    assert parts[1..] == [] && parts[0] == Cdata(content);
    NoParts([], NameNode(""), "", "");
    assert PartsOk([]) && PartsWrite([], []);
    assert PartOk(parts[0]);
  }

  lemma CdataWrites(name: string, content: string)
    requires ValidName(name) && !Blank(content) && EndsFirst("", content, "]]>")
    ensures WrittenOk(CdataElement(name, content))
    ensures Writes(CdataElement(name, content), Element(name, [], content, []))
  {
    hide EndsFirst, ValidName, Blank, PartsOk, PartsWrite, PartsValue, LastValue;
    OneCdata(content);
    NoBlank();
  }

  lemma NoBlank()
    ensures Blank("")
  {
  }

  lemma CdataText(name: string, content: string)
    requires WrittenOk(CdataElement(name, content)) && EndsFirst("", content, "]]>")
    ensures TextOf(CdataElement(name, content)) ==
      "<" + name + ">" + ("<![CDATA[" + content + "]]>") + ("</" + name + ">")
  {
    hide EndsFirst, ValidName, Blank, PartsOk, PartsText;
    assert StartTag(CdataElement(name, content)) == "<" + name;
    OneCdata(content);
    assert CloseTag(name, "") == "</" + name + ">";
  }

  /** A CDATA section is text as it stands. */
  lemma CdataIsKept(name: string, content: string)
    requires ValidName(name) && !Blank(content) && EndsFirst("", content, "]]>")
    ensures XmlDecode("<" + name + ">" + ("<![CDATA[" + content + "]]>") + ("</" + name + ">"))
      == Got(TreeOf(Element(name, [], content, [])), "")
  {
    hide *;
    var w := CdataElement(name, content);
    CdataWrites(name, content);
    CdataText(name, content);
    NoMiscs(TextOf(w));
    DocumentReads([], w, [], Element(name, [], content, []));
  }

  lemma NoMiscs(s: string)
    ensures MiscsOk([]) && MiscsText([]) + s + MiscsText([]) == s
  {
  }
}
