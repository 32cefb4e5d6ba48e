/** What the XML printer wrote, the XML parser reads back: for every element tree
    in normal form, the same tree, with the children of a node in the order of
    their keys and without blank texts (src/lib/functionlib.cpp:1043-1523).  Up to
    ten children that is the order in which they were pushed. */
module XmlRoundTrip {
  import opened Text
  import opened DTreeModel
  import opened Json
  import opened PushOrder
  import opened Xml

  // ----- elements -----

  /** An element; the empty text stands for none. */
  datatype Element = Element(name: string, attrs: seq<(string, string)>, text: string, children: seq<Element>)

  predicate AttrsOk(attrs: seq<(string, string)>) {
    && (forall i | 0 <= i < |attrs| :: ValidName(attrs[i].0))
    && forall i, j | 0 <= i < j < |attrs| :: Less(attrs[i].0, attrs[j].0)
  }

  /** Valid names and distinct attributes. */
  ghost predicate Normal(e: Element) {
    && ValidName(e.name) && AttrsOk(e.attrs)
    && forall i | 0 <= i < |e.children| :: Normal(e.children[i])
  }

  function WithAttrs(node: Tree, attrs: seq<(string, string)>): Tree
    decreases |attrs|
  {
    if attrs == [] then node else WithAttrs(SetAttr(node, attrs[0].0, attrs[0].1), attrs[1..])
  }

  function WithChildren(node: Tree, trees: seq<Tree>): Tree
    decreases |trees|
  {
    if trees == [] then node else WithChildren(PushChild(node, trees[0]), trees[1..])
  }

  function WithText(node: Tree, text: string): Tree {
    if text == "" then node else SetKey(node, "text", Str(text))
  }

  function NameNode(name: string): Tree {
    SetKey(EMPTY_TREE, "name", Str(name))
  }

  /** The tree of an element: its keys are set, its children pushed. */
  function TreeOf(e: Element): Tree
    decreases e, 1
  {
    WithText(WithChildren(WithAttrs(NameNode(e.name), e.attrs), TreesOf(e.children)), e.text)
  }

  function TreesOf(es: seq<Element>): (r: seq<Tree>)
    ensures |r| == |es|
    decreases es, 0
  {
    if es == [] then [] else [TreeOf(es[0])] + TreesOf(es[1..])
  }

  lemma {:induction false} TreesAt(es: seq<Element>, i: nat)
    requires i < |es|
    ensures TreesOf(es)[i] == TreeOf(es[i])
  {
    if i > 0 { TreesAt(es[1..], i - 1); }
  }

  // ----- what the tree of an element holds -----

  ghost predicate Node(t: Tree) {
    t.Map? && Sorted(t.entries)
  }

  /** All entries but the one under `key` are as before. */
  ghost predicate SameBut(t: Tree, r: Tree, key: string)
    requires t.Map? && r.Map?
  {
    forall k | k != key :: Lookup(r.entries, k) == Lookup(t.entries, k)
  }

  ghost predicate HoldsAttrs(t: Tree, attrs: seq<(string, string)>)
    requires t.Map?
  {
    match Lookup(t.entries, "attrs")
    case None => attrs == []
    case Some(v) => attrs != [] && v.Map? && v.entries == TextEntries(attrs)
  }

  lemma SetAttrHolds(node: Tree, before: seq<(string, string)>, attr: (string, string))
    requires Node(node) && HoldsAttrs(node, before) && AttrsOk(before + [attr])
    ensures var r := SetAttr(node, attr.0, attr.1);
      Node(r) && SameBut(node, r, "attrs") && HoldsAttrs(r, before + [attr])
  {
    hide MapPut, Less, Lookup;
    var inner := Field(node, "attrs");
    var es := AsMap(inner).entries;
    assert es == TextEntries(before);
    forall i | 0 <= i < |es| ensures Less(es[i].key, attr.0) {
      assert (before + [attr])[i] == before[i] && (before + [attr])[|before|] == attr;
    }
    PutAtEnd(es, attr.0, Str(attr.1));
    assert TextEntries(before + [attr]) == TextEntries(before) + [Entry(attr.0, Str(attr.1))];
    SetKeyFacts(node, "attrs", SetKey(inner, attr.0, Str(attr.1)));
  }

  lemma {:induction false} WithAttrsHolds(node: Tree, before: seq<(string, string)>, attrs: seq<(string, string)>)
    requires Node(node) && HoldsAttrs(node, before) && AttrsOk(before + attrs)
    ensures var r := WithAttrs(node, attrs);
      Node(r) && SameBut(node, r, "attrs") && HoldsAttrs(r, before + attrs)
    decreases |attrs|
  {
    hide SetAttr, HoldsAttrs, Sorted, Lookup, Less, ValidName;
    if attrs == [] {
      assert before + attrs == before;
    } else {
      assert before + attrs == (before + [attrs[0]]) + attrs[1..];
      AttrsPrefix(before + [attrs[0]], attrs[1..]);
      SetAttrHolds(node, before, attrs[0]);
      WithAttrsHolds(SetAttr(node, attrs[0].0, attrs[0].1), before + [attrs[0]], attrs[1..]);
    }
  }

  lemma AttrsPrefix(a: seq<(string, string)>, b: seq<(string, string)>)
    requires AttrsOk(a + b)
    ensures AttrsOk(a)
  {
    assert forall i | 0 <= i < |a| :: (a + b)[i] == a[i];
  }

  ghost predicate HoldsKids(t: Tree, trees: seq<Tree>)
    requires t.Map?
  {
    Lookup(t.entries, "children") == if trees == [] then None else Some(PushAll(Map([], true, 0), trees))
  }

  lemma PushChildHolds(node: Tree, before: seq<Tree>, child: Tree)
    requires Node(node) && HoldsKids(node, before)
    ensures var r := PushChild(node, child);
      Node(r) && SameBut(node, r, "children") && HoldsKids(r, before + [child])
  {
    hide MapPut, Less, Lookup;
    var inner := Field(node, "children");
    assert (before + [child])[..|before|] == before;
    SetKeyFacts(node, "children", PushValue(inner, child));
  }

  lemma {:induction false} WithChildrenHolds(node: Tree, before: seq<Tree>, trees: seq<Tree>)
    requires Node(node) && HoldsKids(node, before)
    ensures var r := WithChildren(node, trees);
      Node(r) && SameBut(node, r, "children") && HoldsKids(r, before + trees)
    decreases |trees|
  {
    hide PushChild, HoldsKids, Sorted, Lookup, Less;
    if trees == [] {
      assert before + trees == before;
    } else {
      assert before + trees == (before + [trees[0]]) + trees[1..];
      PushChildHolds(node, before, trees[0]);
      WithChildrenHolds(PushChild(node, trees[0]), before + [trees[0]], trees[1..]);
    }
  }

  ghost predicate Holds(t: Tree, name: string, attrs: seq<(string, string)>, text: string, trees: seq<Tree>) {
    && Node(t) && HoldsAttrs(t, attrs) && HoldsKids(t, trees)
    && Lookup(t.entries, "name") == Some(Str(name))
    && Lookup(t.entries, "text") == if text == "" then None else Some(Str(text))
  }

  lemma TreeHolds(e: Element)
    requires AttrsOk(e.attrs)
    ensures Holds(TreeOf(e), e.name, e.attrs, e.text, TreesOf(e.children))
  {
    hide SetKey, WithAttrs, WithChildren, TreesOf, Lookup, Sorted, AttrsOk, PushAll;
    var n0 := NameNode(e.name);
    NameNodeHolds(e.name);
    var n1 := WithAttrs(n0, e.attrs);
    assert [] + e.attrs == e.attrs;
    WithAttrsHolds(n0, [], e.attrs);
    var n2 := WithChildren(n1, TreesOf(e.children));
    assert [] + TreesOf(e.children) == TreesOf(e.children);
    WithChildrenHolds(n1, [], TreesOf(e.children));
    if e.text != "" { SetKeyFacts(n2, "text", Str(e.text)); }
  }

  lemma NameNodeHolds(name: string)
    ensures Holds(NameNode(name), name, [], "", [])
  {
    SetKeyFacts(EMPTY_TREE, "name", Str(name));
  }

  // ----- what is printed -----

  function PrintAttrs(attrs: seq<(string, string)>): string {
    if attrs == [] then ""
    else " " + attrs[0].0 + "=\"" + XmlEscape(attrs[0].1, true) + "\"" + PrintAttrs(attrs[1..])
  }

  function Join(ps: seq<string>): string {
    if ps == [] then "" else ps[0] + Join(ps[1..])
  }

  function Body(e: Element): string
    decreases e, 1
  {
    XmlEscape(e.text, false) + Join(InKeyOrder(PrintEach(e.children)))
  }

  function TagEnd(body: string, name: string): string {
    if body == "" then "/>" else ">" + body + "</" + name + ">"
  }

  function Print(e: Element): string
    decreases e, 2
  {
    "<" + e.name + PrintAttrs(e.attrs) + TagEnd(Body(e), e.name)
  }

  function PrintEach(es: seq<Element>): (r: seq<string>)
    ensures |r| == |es|
    decreases es, 0
  {
    if es == [] then [] else [Print(es[0])] + PrintEach(es[1..])
  }

  lemma {:induction false} PrintAt(es: seq<Element>, i: nat)
    requires i < |es|
    ensures PrintEach(es)[i] == Print(es[i])
  {
    hide Print;
    if i > 0 { PrintAt(es[1..], i - 1); }
  }

  lemma ValidNameIsSafe(name: string, fallback: string)
    requires ValidName(name)
    ensures SafeName(name, fallback) == name
  {
    assert Trim(name) == name;
    assert Cleaned(name) == name;
  }

  lemma {:induction false} EncodeAttrsPrints(attrs: seq<(string, string)>)
    requires forall i | 0 <= i < |attrs| :: ValidName(attrs[i].0)
    ensures EncodeAttrs(TextEntries(attrs)) == PrintAttrs(attrs)
  {
    if attrs != [] {
      hide SafeName, ValidName, XmlEscape, EncodeAttrs;
      ValidNameIsSafe(attrs[0].0, "attr");
      EncodeAttrsPrints(attrs[1..]);
      FirstAttr(TextEntries(attrs));
      assert TextEntries(attrs)[1..] == TextEntries(attrs[1..]);
    } else {
      assert EncodeAttrs([]) == "" by { NoAttrText(); }
    }
  }

  lemma NoAttrText()
    ensures EncodeAttrs([]) == ""
  {
  }

  lemma FirstAttr(es: seq<Entry>)
    requires es != [] && es[0].value.Str?
    ensures EncodeAttrs(es) ==
      " " + SafeName(es[0].key, "attr") + "=\"" + XmlEscape(es[0].value.text, true) + "\"" + EncodeAttrs(es[1..])
  {
    hide SafeName, XmlEscape;
    if es == [] {
    }
  }

  lemma {:induction false} ItemsJoin(es: seq<Entry>, list: bool, ps: seq<string>)
    requires |es| == |ps|
    requires forall i, hint | 0 <= i < |es| :: EncodeElement(es[i].value, hint) == ps[i]
    ensures EncodeEntries(es, list) == Join(ps)
  {
    hide EncodeElement;
    if es != [] {
      assert EncodeElement(es[0].value, if list then "item" else es[0].key) == ps[0];
      forall i, hint | 0 <= i < |es| - 1 ensures EncodeElement(es[1..][i].value, hint) == ps[1..][i] {
        assert EncodeElement(es[i + 1].value, hint) == ps[i + 1];
      }
      ItemsJoin(es[1..], list, ps[1..]);
    }
  }

  /** The printer writes an element as `Print` says, whatever the name hint. */
  lemma {:induction false} EncodeIsPrint(e: Element, hint: string)
    requires Normal(e)
    ensures EncodeElement(TreeOf(e), hint) == Print(e)
    decreases e
  {
    hide TreeOf, EncodeEntries, EncodeAttrs, PrintAttrs, Join, PrintEach, SafeName, XmlEscape, PushAll, TreesOf,
      InKeyOrder, ValidName, TextEntries, IsList, AttrsOk;
    var t := TreeOf(e);
    TreeHolds(e);
    ValidNameIsSafe(e.name, SafeName(hint, "root"));
    assert NameOf(t, hint) == e.name;
    assert AttrText(t) == PrintAttrs(e.attrs) by { AttrsPrint(t, e.attrs); }
    assert OwnText(t) == XmlEscape(e.text, false) by { EmptyEscape(); }
    assert EncodeKids(t) == Join(InKeyOrder(PrintEach(e.children))) by { KidsPrint(t, e); }
  }

  lemma EmptyEscape()
    ensures XmlEscape("", false) == ""
  {
  }

  lemma AttrsPrint(t: Tree, attrs: seq<(string, string)>)
    requires t.Map? && HoldsAttrs(t, attrs) && AttrsOk(attrs)
    ensures AttrText(t) == PrintAttrs(attrs)
  {
    EncodeAttrsPrints(attrs);
  }

  lemma KidsPrint(t: Tree, e: Element)
    requires t.Map? && HoldsKids(t, TreesOf(e.children)) && Normal(e)
    ensures EncodeKids(t) == Join(InKeyOrder(PrintEach(e.children)))
    decreases e, 0
  {
    hide TreeOf, Print, EncodeEntries, EncodeElement, Join, PrintEach, TreesOf, PushAll, KeyOrder;
    var trees, ps := TreesOf(e.children), PrintEach(e.children);
    if e.children == [] {
      assert InKeyOrder(ps) == [];
      JoinNothing();
    } else {
      PushedEntries(trees);
      var es := EntriesBy(KeyOrder(|trees|), trees);
      forall i, hint | 0 <= i < |es| ensures EncodeElement(es[i].value, hint) == InKeyOrder(ps)[i] {
        var k := KeyOrder(|trees|)[i];
        TreesAt(e.children, k);
        PrintAt(e.children, k);
        EncodeIsPrint(e.children[k], hint);
      }
      ItemsJoin(es, IsList(PushAll(Map([], true, 0), trees)), InKeyOrder(ps));
    }
  }

  lemma JoinNothing()
    ensures Join([]) == ""
  {
  }

  // ----- what is read -----

  lemma {:induction false} NameReads(name: string, rest: string)
    requires ValidName(name) && (rest == "" || !NameChar(rest[0]))
    ensures ReadName(name + rest) == Got(name, rest)
  {
    var s := name + rest;
    assert s[0] == name[0];
    NameLengthIs(name, rest);
    assert s[..|name|] == name && s[|name|..] == rest;
  }

  lemma {:induction false} NameLengthIs(name: string, rest: string)
    requires (forall i | 0 <= i < |name| :: NameChar(name[i])) && (rest == "" || !NameChar(rest[0]))
    ensures NameLength(name + rest) == |name|
  {
    hide NameChar;
    if name == "" {
      assert name + rest == rest;
    } else {
      NameLengthIs(name[1..], rest);
      assert (name + rest)[1..] == name[1..] + rest;
    }
  }

  lemma QuotedReads(value: string, rest: string)
    ensures ReadQuoted("\"" + XmlEscape(value, true) + "\"" + rest) == Got(value, rest)
  {
    hide XmlEscape, DecodeText;
    var e := XmlEscape(value, true);
    var s := "\"" + e + "\"" + rest;
    EscapedIsSafe(value, true);
    DecodeUndoesEscape(value, true);
    assert SkipSpace(s) == s;
    assert s[|e| + 1] == '"' && forall i | 1 <= i < |e| + 1 :: s[i] == e[i - 1];
    assert Find(s, '"', 1) == |e| + 1;
    assert s[1..|e| + 1] == e && s[|e| + 2..] == rest;
  }

  /** One attribute is read, and the loop goes on behind it. */
  lemma AttrReads(attr: (string, string), rest: string, node: Tree)
    requires ValidName(attr.0)
    ensures ParseAttrs(" " + attr.0 + "=\"" + XmlEscape(attr.1, true) + "\"" + rest, node)
      == ParseAttrs(rest, SetAttr(node, attr.0, attr.1))
  {
    hide *;
    var quoted := "\"" + XmlEscape(attr.1, true) + "\"" + rest;
    var s := " " + attr.0 + "=\"" + XmlEscape(attr.1, true) + "\"" + rest;
    var t := attr.0 + ("=" + quoted);
    assert s == " " + t;
    NameFirst(attr.0, "=" + quoted);
    SkipOne(t);
    NameReads(attr.0, "=" + quoted);
    SkipNone("=" + quoted);
    assert ("=" + quoted)[1..] == quoted;
    QuotedReads(attr.1, rest);
    AttrStep(s, node, attr.0, "=" + quoted, attr.1, rest);
  }

  lemma NameFirst(name: string, rest: string)
    requires ValidName(name)
    ensures var t := name + rest;
      t != "" && !IsSpace(t[0]) && !StartsWith(t, "/>") && !StartsWith(t, ">") && !NameChar('=')
  {
    var t := name + rest;
    assert t[0] == name[0];
    assert forall p: string | p != "" && StartsWith(t, p) :: t[0] == t[..|p|][0] == p[0];
  }

  lemma SkipNone(t: string)
    requires t != "" && t[0] == '='
    ensures SkipSpace(t) == t
  {
  }

  lemma AttrStep(s: string, node: Tree, name: string, r: string, value: string, rest: string)
    requires s != "" && !StartsWith(SkipSpace(s), "/>") && !StartsWith(SkipSpace(s), ">")
    requires ReadName(SkipSpace(s)) == Got(name, r) && r != "" && r[0] == '=' && SkipSpace(r) == r
    requires ReadQuoted(r[1..]) == Got(value, rest)
    ensures ParseAttrs(s, node) == ParseAttrs(rest, SetAttr(node, name, value))
  {
    hide SkipSpace, StartsWith, ReadName, ReadQuoted, SetAttr;
  }

  lemma SkipOne(t: string)
    requires t != "" && !IsSpace(t[0])
    ensures SkipSpace(" " + t) == t
  {
    assert (" " + t)[1..] == t;
    assert SkipSpace(t) == t;
  }

  lemma {:induction false} AttrsRead(attrs: seq<(string, string)>, rest: string, node: Tree)
    requires forall i | 0 <= i < |attrs| :: ValidName(attrs[i].0)
    ensures ParseAttrs(PrintAttrs(attrs) + rest, node) == ParseAttrs(rest, WithAttrs(node, attrs))
    decreases |attrs|
  {
    hide ParseAttrs, XmlEscape, SetAttr, ValidName;
    if attrs == [] {
      assert PrintAttrs(attrs) + rest == rest;
    } else {
      var a := attrs[0];
      var more := PrintAttrs(attrs[1..]);
      FrontAssoc(" " + a.0 + "=\"" + XmlEscape(a.1, true) + "\"", more, rest);
      AttrReads(a, more + rest, node);
      AttrsRead(attrs[1..], rest, SetAttr(node, a.0, a.1));
    }
  }

  lemma FrontAssoc(front: string, more: string, rest: string)
    ensures front + more + rest == front + (more + rest)
  {
  }

  // ----- content -----

  /** `p` is read as `t`, whatever follows; and it starts like an element. */
  ghost predicate ReadsAs(p: string, t: Tree) {
    && |p| >= 2 && p[0] == '<' && NameStart(p[1])
    && forall rest :: ParseElement(p + rest) == Got(t, rest)
  }

  function Finish(node: Tree, text: string): Tree {
    if Trim(text) != "" then SetKey(node, "text", Str(text)) else node
  }

  lemma CloseReads(node: Tree, name: string, text: string, rest: string)
    requires ValidName(name)
    ensures ParseContent("</" + name + ">" + rest, node, name, text) == Got(Finish(node, text), rest)
  {
    var s := "</" + name + ">" + rest;
    assert s[..2] == "</" && s[2..] == name + (">" + rest);
    NameReads(name, ">" + rest);
    assert SkipSpace(">" + rest) == ">" + rest && (">" + rest)[1..] == rest;
  }

  lemma KidReads(p: string, t: Tree, rest: string, node: Tree, name: string, text: string)
    requires ReadsAs(p, t)
    ensures ParseContent(p + rest, node, name, text) == ParseContent(rest, PushChild(node, t), name, text)
  {
    hide ParseElement, PushChild;
    var s := p + rest;
    assert s[0] == '<' && s[1] == p[1];
    assert !StartsWith(s, "</") && !StartsWith(s, "<!--") && !StartsWith(s, "<![CDATA[") && !StartsWith(s, "<?") by {
      SecondChar(s);
    }
    assert ParseElement(s) == Got(t, rest);
  }

  lemma SecondChar(s: string)
    requires |s| >= 2 && NameStart(s[1])
    ensures !StartsWith(s, "</") && !StartsWith(s, "<!--") && !StartsWith(s, "<![CDATA[") && !StartsWith(s, "<?")
    ensures !StartsWith(s, "<!DOCTYPE") && !StartsWith(s, "<!doctype")
  {
    assert forall p: string | |p| >= 2 && StartsWith(s, p) :: s[1] == s[..|p|][1] == p[1];
  }

  lemma {:induction false} KidsRead(ps: seq<string>, ts: seq<Tree>, tail: string, node: Tree, name: string,
      text: string)
    requires |ps| == |ts| && forall i | 0 <= i < |ps| :: ReadsAs(ps[i], ts[i])
    ensures ParseContent(Join(ps) + tail, node, name, text) == ParseContent(tail, WithChildren(node, ts), name, text)
    decreases |ps|
  {
    hide ParseContent, ReadsAs, PushChild;
    if ps == [] {
      assert Join(ps) + tail == tail;
    } else {
      FrontAssoc(ps[0], Join(ps[1..]), tail);
      KidReads(ps[0], ts[0], Join(ps[1..]) + tail, node, name, text);
      KidsRead(ps[1..], ts[1..], tail, PushChild(node, ts[0]), name, text);
    }
  }

  /** What is left of a text: a blank one is dropped. */
  function Kept(text: string): string {
    if Trim(text) == "" then "" else text
  }

  lemma TextReads(text: string, tail: string, node: Tree, name: string)
    requires text != "" && tail != "" && tail[0] == '<'
    ensures ParseContent(XmlEscape(text, false) + tail, node, name, "") == ParseContent(tail, node, name, Kept(text))
  {
    hide XmlEscape, DecodeText, Trim, ParseElement;
    var e := XmlEscape(text, false);
    var s := e + tail;
    EscapedIsSafe(text, false);
    DecodeUndoesEscape(text, false);
    TrimNothing();
    assert e == "" ==> DecodeText(e) == "";
    assert s[|e|] == tail[0];
    assert s[0] == e[0] != '<';
    assert forall i | 0 <= i < |e| :: s[i] == e[i];
    assert Find(s, '<', 0) == |e|;
    assert s[..|e|] == e && s[|e|..] == tail;
    assert "" + text == text;
    assert !StartsWith(s, "</") && !StartsWith(s, "<!--") && !StartsWith(s, "<![CDATA[") && !StartsWith(s, "<?") by {
      assert forall p: string | p != "" && StartsWith(s, p) :: s[0] == s[..|p|][0] == p[0];
    }
  }

  lemma TrimNothing()
    ensures Trim("") == "" && DecodeText("") == ""
  {
  }

  // ----- elements are read back -----

  /** The element as it comes back: the children of every node in key order, and no
      blank text. */
  function Returned(e: Element): Element
    decreases e, 1
  {
    e.(text := Kept(e.text), children := InKeyOrder(ReturnEach(e.children)))
  }

  function ReturnEach(es: seq<Element>): (r: seq<Element>)
    ensures |r| == |es|
    decreases es, 0
  {
    if es == [] then [] else [Returned(es[0])] + ReturnEach(es[1..])
  }

  lemma {:induction false} ReturnAt(es: seq<Element>, i: nat)
    requires i < |es|
    ensures ReturnEach(es)[i] == Returned(es[i])
  {
    if i > 0 { ReturnAt(es[1..], i - 1); }
  }

  lemma TreesInKeyOrder(es: seq<Element>)
    ensures TreesOf(InKeyOrder(es)) == InKeyOrder(TreesOf(es))
  {
    hide TreeOf, TreesOf, KeyOrder;
    KeyOrderBelow(|es|);
    forall i | 0 <= i < |es| ensures TreesOf(InKeyOrder(es))[i] == InKeyOrder(TreesOf(es))[i] {
      TreesAt(InKeyOrder(es), i);
      TreesAt(es, KeyOrder(|es|)[i]);
    }
  }

  /** The end of a start tag, the content and the closing tag. */
  lemma TagEndReads(body: string, name: string, node: Tree, rest: string)
    requires ValidName(name)
    ensures ParseAttrs(TagEnd(body, name) + rest, node) ==
      if body == "" then SelfClosed(node, rest) else Opened(node, body + ("</" + name + ">" + rest))
  {
    var s := TagEnd(body, name) + rest;
    if body == "" {
      assert s[..2] == "/>" && s[2..] == rest;
    } else {
      assert s == ">" + (body + ("</" + name + ">" + rest));
      assert s[..1] == ">" && s[1..] == body + ("</" + name + ">" + rest);
      assert !StartsWith(s, "/>") by { assert s[0] == '>'; }
    }
  }

  lemma {:induction false} PrintReads(e: Element)
    requires Normal(e)
    ensures ReadsAs(Print(e), TreeOf(Returned(e)))
    decreases e, 1
  {
    hide *;
    KidsReadAs(e);
    NormalParts(e);
    ReturnedParts(e);
    PrintStarts(e);
    forall rest ensures ParseElement(Print(e) + rest) == Got(TreeOf(Returned(e)), rest) {
      ElementReads(e, rest);
    }
    ReadsAsHolds(Print(e), TreeOf(Returned(e)));
  }

  lemma ReadsAsHolds(p: string, t: Tree)
    requires |p| >= 2 && p[0] == '<' && NameStart(p[1])
    requires forall rest :: ParseElement(p + rest) == Got(t, rest)
    ensures ReadsAs(p, t)
  {
    hide ParseElement;
  }

  lemma NormalParts(e: Element)
    requires Normal(e)
    ensures ValidName(e.name) && AttrsOk(e.attrs)
    ensures forall i | 0 <= i < |e.attrs| :: ValidName(e.attrs[i].0)
  {
    hide ValidName, Trim;
  }

  lemma ReturnedParts(e: Element)
    ensures Returned(e) == e.(text := Kept(e.text), children := Returned(e).children)
    ensures TreesOf(Returned(e).children) == InKeyOrder(TreesOf(ReturnEach(e.children)))
  {
    hide TreesOf, InKeyOrder, ReturnEach;
    TreesInKeyOrder(ReturnEach(e.children));
  }

  lemma PrintStarts(e: Element)
    requires ValidName(e.name)
    ensures |Print(e)| >= 2 && Print(e)[0] == '<' && NameStart(Print(e)[1])
  {
    hide PrintAttrs, TagEnd, Body;
    assert Print(e)[1] == e.name[0];
  }

  /** Each printed child reads as the tree of its walk. */
  lemma KidsReadAs(e: Element)
    requires Normal(e)
    ensures forall i | 0 <= i < |e.children|
        :: ReadsAs(InKeyOrder(PrintEach(e.children))[i], InKeyOrder(TreesOf(ReturnEach(e.children)))[i])
    decreases e, 0
  {
    hide ReadsAs, Print, PrintEach, TreeOf, TreesOf, Returned, ReturnEach, KeyOrder;
    var n := |e.children|;
    KeyOrderBelow(n);
    forall i | 0 <= i < n
      ensures ReadsAs(InKeyOrder(PrintEach(e.children))[i], InKeyOrder(TreesOf(ReturnEach(e.children)))[i])
    {
      var k := KeyOrder(n)[i];
      PrintAt(e.children, k);
      ReturnAt(e.children, k);
      TreesAt(ReturnEach(e.children), k);
      PrintReads(e.children[k]);
    }
  }

  /** Of one element, given its children. */
  lemma ElementReads(e: Element, rest: string)
    requires ValidName(e.name) && forall i | 0 <= i < |e.attrs| :: ValidName(e.attrs[i].0)
    requires Returned(e) == e.(text := Kept(e.text), children := Returned(e).children)
    requires TreesOf(Returned(e).children) == InKeyOrder(TreesOf(ReturnEach(e.children)))
    requires forall i | 0 <= i < |e.children|
        :: ReadsAs(InKeyOrder(PrintEach(e.children))[i], InKeyOrder(TreesOf(ReturnEach(e.children)))[i])
    ensures ParseElement(Print(e) + rest) == Got(TreeOf(Returned(e)), rest)
  {
    hide *;
    var ts := InKeyOrder(TreesOf(ReturnEach(e.children)));
    var node := WithAttrs(NameNode(e.name), e.attrs);
    var tail := TagEnd(Body(e), e.name) + rest;
    OpeningReads(e, rest);
    AttrsRead(e.attrs, tail, NameNode(e.name));
    TagEndReads(Body(e), e.name, node, rest);
    TreeOfReturned(e, ts);
    if Body(e) == "" {
      forall i | 0 <= i < |e.children| ensures |InKeyOrder(PrintEach(e.children))[i]| >= 2 {
        ReadsAsLong(InKeyOrder(PrintEach(e.children))[i], ts[i]);
      }
      EmptyBody(e);
      assert ts == [];
      NothingKept();
      NoKids(node);
    } else {
      BodyReads(e, ts, node, rest);
    }
  }

  lemma ReadsAsLong(p: string, t: Tree)
    requires ReadsAs(p, t)
    ensures |p| >= 2
  {
  }

  lemma TreeOfReturned(e: Element, ts: seq<Tree>)
    requires Returned(e) == e.(text := Kept(e.text), children := Returned(e).children)
    requires ts == TreesOf(Returned(e).children)
    ensures TreeOf(Returned(e)) == WithText(WithChildren(WithAttrs(NameNode(e.name), e.attrs), ts), Kept(e.text))
    ensures |ts| == |Returned(e).children|
  {
    hide Returned, Kept, WithText, WithChildren, WithAttrs, NameNode, TreesOf;
  }

  lemma NoKids(node: Tree)
    ensures WithText(WithChildren(node, []), "") == node
  {
  }

  lemma OpeningReads(e: Element, rest: string)
    requires ValidName(e.name)
    ensures ParseElement(Print(e) + rest) ==
      match ParseAttrs(PrintAttrs(e.attrs) + (TagEnd(Body(e), e.name) + rest), NameNode(e.name))
      case BadTag(err) => Failed(err)
      case SelfClosed(node, r) => Got(node, r)
      case Opened(node, r) => ParseContent(r, node, e.name, "")
  {
    hide ParseAttrs, ParseContent, Body, SetKey, TagEnd, PrintAttrs, ValidName, ReadName;
    var more := PrintAttrs(e.attrs) + (TagEnd(Body(e), e.name) + rest);
    var s := Print(e) + rest;
    PrintIs(e, rest);
    assert s[0] == '<' && s[1..] == e.name + more;
    assert more == "" || !NameChar(more[0]) by { AttrsStart(e); }
    NameReads(e.name, more);
  }

  lemma PrintIs(e: Element, rest: string)
    ensures Print(e) + rest == "<" + (e.name + (PrintAttrs(e.attrs) + (TagEnd(Body(e), e.name) + rest)))
  {
    hide PrintAttrs, TagEnd, Body;
  }

  lemma AttrsStart(e: Element)
    ensures var p := PrintAttrs(e.attrs) + TagEnd(Body(e), e.name);
      p != "" && !NameChar(p[0])
  {
    hide Body;
  }

  lemma EmptyBody(e: Element)
    requires Body(e) == "" && (forall i | 0 <= i < |e.children| :: |InKeyOrder(PrintEach(e.children))[i]| >= 2)
    ensures e.text == "" && e.children == []
  {
    hide Body, InKeyOrder, PrintEach;
    if e.children != [] {
      KidsInBody(e);
    } else {
      TextInBody(e);
    }
  }

  lemma KidsInBody(e: Element)
    requires e.children != [] && |InKeyOrder(PrintEach(e.children))[0]| >= 2
    ensures Body(e) != ""
  {
    hide InKeyOrder, PrintEach;
  }

  lemma TextInBody(e: Element)
    requires e.children == [] && Body(e) == ""
    ensures e.text == ""
  {
    hide InKeyOrder, PrintEach;
    DecodeUndoesEscape(e.text, false);
    NothingToDecode();
  }

  lemma BodyReads(e: Element, ts: seq<Tree>, node: Tree, rest: string)
    requires ValidName(e.name)
    requires |ts| == |e.children| && forall i | 0 <= i < |ts| :: ReadsAs(InKeyOrder(PrintEach(e.children))[i], ts[i])
    ensures ParseContent(Body(e) + ("</" + e.name + ">" + rest), node, e.name, "")
      == Got(WithText(WithChildren(node, ts), Kept(e.text)), rest)
  {
    hide *;
    var ps := InKeyOrder(PrintEach(e.children));
    var close := "</" + e.name + ">" + rest;
    var more := Join(ps) + close;
    BodyIs(e, close);
    KidsRead(ps, ts, close, node, e.name, Kept(e.text));
    CloseReads(WithChildren(node, ts), e.name, Kept(e.text), rest);
    FinishIs(WithChildren(node, ts), e.text);
    NothingKept();
    if e.text != "" {
      assert close[0] == '<';
      JoinStarts(ps, ts, close);
      TextReads(e.text, more, node, e.name);
    }
  }

  lemma BodyIs(e: Element, close: string)
    ensures Body(e) + close == XmlEscape(e.text, false) + (Join(InKeyOrder(PrintEach(e.children))) + close)
    ensures e.text == "" ==> Body(e) + close == Join(InKeyOrder(PrintEach(e.children))) + close
  {
    hide Join, InKeyOrder, PrintEach;
    EmptyEscape();
  }

  lemma NothingKept()
    ensures Kept("") == ""
  {
  }

  lemma FinishIs(node: Tree, text: string)
    ensures Finish(node, Kept(text)) == WithText(node, Kept(text))
  {
    hide SetKey;
    TrimNothing();
  }

  lemma JoinStarts(ps: seq<string>, ts: seq<Tree>, close: string)
    requires |ps| == |ts| && (forall i | 0 <= i < |ps| :: ReadsAs(ps[i], ts[i])) && close != "" && close[0] == '<'
    ensures (Join(ps) + close)[0] == '<'
  {
    hide ParseElement;
    if ps != [] { assert ReadsAs(ps[0], ts[0]); }
  }

  // ----- documents -----

  lemma NoMisc(p: string)
    requires |p| >= 2 && p[0] == '<' && NameStart(p[1])
    ensures SkipMisc(p) == p && SkipMisc("") == ""
  {
    SecondChar(p);
    assert SkipSpace(p) == p && SkipSpace("") == "";
  }

  /** For every element tree in normal form, whatever root name is passed: decoding
      what was encoded gives the same tree, but that the children of a node come
      back in the order of their keys, and blank texts not at all. */
  lemma XmlRoundTrip(e: Element, rootName: string)
    requires Normal(e)
    ensures XmlDecode(XmlEncode(TreeOf(e), rootName)) == Got(TreeOf(Returned(e)), "")
  {
    hide Print, TreeOf, Returned, EncodeElement, ParseElement, SkipMisc, Normal;
    EncodeIsPrint(e, rootName);
    PrintReads(e);
    var p := Print(e);
    NoMisc(p);
    assert p + "" == p;
    assert ParseElement(p + "") == Got(TreeOf(Returned(e)), "");
  }

  ghost predicate TenAtMost(e: Element) {
    |e.children| <= 10 && forall i | 0 <= i < |e.children| :: TenAtMost(e.children[i])
  }

  ghost predicate NoBlankText(e: Element) {
    (e.text == "" || Trim(e.text) != "") && forall i | 0 <= i < |e.children| :: NoBlankText(e.children[i])
  }

  lemma {:induction false} ReturnedIsSame(e: Element)
    requires TenAtMost(e) && NoBlankText(e)
    ensures Returned(e) == e
    decreases e, 1
  {
    hide InKeyOrder;
    forall i | 0 <= i < |e.children| ensures ReturnEach(e.children)[i] == e.children[i] {
      ReturnAt(e.children, i);
      ReturnedIsSame(e.children[i]);
    }
    assert ReturnEach(e.children) == e.children;
    ShortInOrder(e.children);
  }

  /** Up to ten children a node, and without blank texts, nothing changes at all. */
  lemma XmlRoundTripTen(e: Element, rootName: string)
    requires Normal(e) && TenAtMost(e) && NoBlankText(e)
    ensures XmlDecode(XmlEncode(TreeOf(e), rootName)) == Got(TreeOf(e), "")
  {
    hide Normal, TenAtMost, NoBlankText, Returned, TreeOf, XmlDecode, XmlEncode;
    XmlRoundTrip(e, rootName);
    ReturnedIsSame(e);
  }

  /** Beyond ten, the third child that comes back is the one pushed eleventh. */
  lemma EleventhChildComesThird(e: Element)
    requires |e.children| > 10
    ensures |Returned(e).children| == |e.children| && Returned(e).children[2] == Returned(e.children[10])
  {
    hide KeyOrder, InKeyOrder;
    EleventhIsThird(ReturnEach(e.children));
    ReturnAt(e.children, 10);
  }

  // ----- exactly when nothing changes -----

  lemma {:induction false} TextEntriesInjective(a: seq<(string, string)>, b: seq<(string, string)>)
    requires TextEntries(a) == TextEntries(b)
    ensures a == b
  {
    forall i | 0 <= i < |a| ensures a[i] == b[i] {
      assert TextEntries(a)[i] == TextEntries(b)[i];
    }
  }

  /** The tree tells the element. */
  lemma {:induction false} TreeOfInjective(a: Element, b: Element)
    requires Normal(a) && Normal(b) && TreeOf(a) == TreeOf(b)
    ensures a == b
    decreases a
  {
    hide Normal, TreeOf, TreesOf, PushAll, Lookup, TextEntries, Sorted;
    NormalParts(a);
    NormalParts(b);
    TreeHolds(a);
    TreeHolds(b);
    SameParts(TreeOf(a), a, b);
    forall i | 0 <= i < |a.children| ensures a.children[i] == b.children[i] {
      TreesAt(a.children, i);
      TreesAt(b.children, i);
      ChildNormal(a, i);
      ChildNormal(b, i);
      TreeOfInjective(a.children[i], b.children[i]);
    }
  }

  lemma ChildNormal(e: Element, i: nat)
    requires Normal(e) && i < |e.children|
    ensures Normal(e.children[i])
  {
  }

  lemma SameParts(t: Tree, a: Element, b: Element)
    requires Holds(t, a.name, a.attrs, a.text, TreesOf(a.children))
    requires Holds(t, b.name, b.attrs, b.text, TreesOf(b.children))
    ensures a.name == b.name && a.attrs == b.attrs && a.text == b.text && TreesOf(a.children) == TreesOf(b.children)
    ensures |a.children| == |b.children|
  {
    hide TreesOf, PushAll, Lookup, TextEntries, Sorted;
    if a.attrs != [] { TextEntriesInjective(a.attrs, b.attrs); }
    if a.children != [] && b.children != [] { PushAllInjective(TreesOf(a.children), TreesOf(b.children)); }
  }

  lemma {:induction false} ReturnedNormal(e: Element)
    requires Normal(e)
    ensures Normal(Returned(e))
    decreases e, 1
  {
    hide InKeyOrder;
    forall i | 0 <= i < |e.children| ensures Normal(ReturnEach(e.children)[i]) {
      ReturnAt(e.children, i);
      ReturnedNormal(e.children[i]);
    }
    KeyOrderKeepsAll(ReturnEach(e.children));
  }

  lemma KeyOrderKeepsAll(es: seq<Element>)
    requires forall i | 0 <= i < |es| :: Normal(es[i])
    ensures forall i | 0 <= i < |es| :: Normal(InKeyOrder(es)[i])
  {
    hide KeyOrder, Normal;
    KeyOrderBelow(|es|);
  }

  /** Any number of children: the tree comes back as it was if and only if dropping
      blank texts and walking every node in key order leave the element as it is. */
  lemma XmlRoundTripIff(e: Element, rootName: string)
    requires Normal(e)
    ensures XmlDecode(XmlEncode(TreeOf(e), rootName)) == Got(TreeOf(e), "") <==> Returned(e) == e
  {
    hide Normal, Returned, TreeOf, XmlDecode, XmlEncode;
    XmlRoundTrip(e, rootName);
    ReturnedNormal(e);
    if TreeOf(Returned(e)) == TreeOf(e) { TreeOfInjective(Returned(e), e); }
  }

  /** Node by node: where the children themselves come back as they were, it is
      their order that decides, and the text. */
  lemma ReturnedSameIff(e: Element)
    requires forall i | 0 <= i < |e.children| :: Returned(e.children[i]) == e.children[i]
    ensures Returned(e) == e <==> (e.text == "" || Trim(e.text) != "") && InKeyOrder(e.children) == e.children
  {
    hide InKeyOrder;
    forall i | 0 <= i < |e.children| ensures ReturnEach(e.children)[i] == e.children[i] {
      ReturnAt(e.children, i);
    }
    assert ReturnEach(e.children) == e.children;
  }

  /** At every node the children stand in key order. */
  ghost predicate KeyOrdered(e: Element) {
    InKeyOrder(e.children) == e.children && forall i | 0 <= i < |e.children| :: KeyOrdered(e.children[i])
  }

  lemma {:induction false} KeyOrderedIsSame(e: Element)
    requires KeyOrdered(e) && NoBlankText(e)
    ensures Returned(e) == e
    decreases e
  {
    hide InKeyOrder, Returned;
    forall i | 0 <= i < |e.children| ensures Returned(e.children[i]) == e.children[i] {
      KeyOrderedIsSame(e.children[i]);
    }
    ReturnedSameIff(e);
  }

  lemma {:induction false} ReturnedHasNoBlank(e: Element)
    ensures NoBlankText(Returned(e))
    decreases e, 1
  {
    hide InKeyOrder;
    forall i | 0 <= i < |e.children| ensures NoBlankText(ReturnEach(e.children)[i]) {
      ReturnAt(e.children, i);
      ReturnedHasNoBlank(e.children[i]);
    }
    KeyOrderKeepsText(ReturnEach(e.children));
  }

  lemma KeyOrderKeepsText(es: seq<Element>)
    requires forall i | 0 <= i < |es| :: NoBlankText(es[i])
    ensures forall i | 0 <= i < |es| :: NoBlankText(InKeyOrder(es)[i])
  {
    hide KeyOrder, NoBlankText;
    KeyOrderBelow(|es|);
  }

  /** A tree with a blank text anywhere does not come back as it was. */
  lemma BlankTextIsLost(e: Element, rootName: string)
    requires Normal(e) && !NoBlankText(e)
    ensures XmlDecode(XmlEncode(TreeOf(e), rootName)) != Got(TreeOf(e), "")
  {
    hide Normal, Returned, TreeOf, XmlDecode, XmlEncode, NoBlankText;
    XmlRoundTripIff(e, rootName);
    ReturnedHasNoBlank(e);
  }

  /** The smallest: one blank. */
  lemma OneBlankIsLost(rootName: string)
    ensures XmlDecode(XmlEncode(TreeOf(Element("a", [], " ", [])), rootName)) ==
      Got(TreeOf(Element("a", [], "", [])), "")
  {
    var e := Element("a", [], " ", []);
    hide TreeOf, XmlDecode, XmlEncode;
    assert Kept(" ") == "" by { assert " "[1..] == ""; }
    assert ReturnEach([]) == [] && InKeyOrder<Element>([]) == [];
    assert Returned(e) == Element("a", [], "", []);
    XmlRoundTrip(e, rootName);
  }

  /** Eleven items, numbered. */
  function Item(i: nat): Element {
    Element("item", [], Dec(i), [])
  }

  function Eleven(): Element {
    Element("list", [], "", seq(11, i requires 0 <= i < 11 => Item(i)))
  }

  lemma ItemIsPlain(i: nat)
    ensures Normal(Item(i)) && Returned(Item(i)) == Item(i)
  {
    hide Dec;
    assert Trim(Dec(i)) != "" by {
      assert IsDigit(Dec(i)[0]) && IsDigit(Dec(i)[|Dec(i)| - 1]);
    }
    assert ReturnEach([]) == [] && InKeyOrder<Element>([]) == [];
  }

  lemma ElevenChildrenChange(rootName: string)
    ensures Normal(Eleven()) && XmlDecode(XmlEncode(TreeOf(Eleven()), rootName)) != Got(TreeOf(Eleven()), "")
  {
    hide TreeOf, XmlDecode, XmlEncode, Returned, Dec;
    forall i | 0 <= i < 11 ensures Normal(Eleven().children[i]) { ItemIsPlain(i); }
    assert Normal(Eleven());
    XmlRoundTripIff(Eleven(), rootName);
    EleventhChildComesThird(Eleven());
    ItemIsPlain(10);
    assert Eleven().children[10] == Item(10) && Eleven().children[2] == Item(2);
    if Dec(10) == Dec(2) { DecInjective(10, 2); }
  }
}
