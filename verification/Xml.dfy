/** The XML printer and parser (src/lib/functionlib.cpp:1043-1523), as functions of
    the tree and of the text that is left. */
module Xml {
  import opened Bytes
  import opened Text
  import opened DTreeModel
  import opened Json
  import Utf8

  // ----- escaping -----

  /** One character as `xml_escape_text` or, in an attribute, `xml_escape_attr`
      writes it. */
  function EscapeChar(c: char, attr: bool): string {
    if c == '&' then "&amp;"
    else if c == '<' then "&lt;"
    else if c == '>' then "&gt;"
    else if attr && c == '"' then "&quot;"
    else if attr && c == '\'' then "&apos;"
    else [c]
  }

  function XmlEscape(s: string, attr: bool): string {
    if s == "" then "" else XmlEscape(s[..|s| - 1], attr) + EscapeChar(s[|s| - 1], attr)
  }

  method XmlEscapeLoop(s: string, attr: bool) returns (result: string)
    ensures result == XmlEscape(s, attr)
  {
    hide EscapeChar;
    result := "";
    var i := 0;
    while i < |s|
      invariant i <= |s| && result == XmlEscape(s[..i], attr)
    {
      assert s[..i + 1][..i] == s[..i];
      result := result + EscapeChar(s[i], attr);
      i := i + 1;
    }
    assert s[..|s|] == s;
  }

  // ----- entities -----

  function HexDigitValue(c: char): int {
    if IsDigit(c) then c as int - '0' as int
    else if 'a' <= c <= 'f' then c as int - 'a' as int + 10
    else if 'A' <= c <= 'F' then c as int - 'A' as int + 10
    else 99
  }

  /** The digits at the front of `s` in `base`, behind what was read so far. */
  function DigitRun(s: string, base: nat, value: nat): nat {
    if s != "" && HexDigitValue(s[0]) < base then DigitRun(s[1..], base, value * base + HexDigitValue(s[0])) else value
  }

  /** `int_val`: what `strtol` makes of the text, as an unsigned word. */
  function IntVal(s: string, base: nat): nat {
    var t := SkipSpace(s);
    var negative := t != "" && t[0] == '-';
    var u := if t != "" && (t[0] == '-' || t[0] == '+') then t[1..] else t;
    var v := if base == 16 && |u| > 2 && u[0] == '0' && (u[1] == 'x' || u[1] == 'X')
        && HexDigitValue(u[2]) < 16 then u[2..] else u;
    var n := DigitRun(v, base, 0);
    if negative then (if n == 0 then 0 else if n > 0x8000_0000_0000_0000 then 0x8000_0000_0000_0000
        else 0x1_0000_0000_0000_0000 - n)
    else if n > 0x7FFF_FFFF_FFFF_FFFF then 0x7FFF_FFFF_FFFF_FFFF else n
  }

  function Chars(b: seq<byte>): string {
    seq(|b|, i requires 0 <= i < |b| => b[i] as int as char)
  }

  /** `xml_decode_entity` */
  function DecodeEntity(entity: string): string {
    if entity == "amp" then "&"
    else if entity == "lt" then "<"
    else if entity == "gt" then ">"
    else if entity == "quot" then "\""
    else if entity == "apos" then "'"
    else
      var written := if |entity| > 1 && entity[0] == '#' then DecodeReference(entity[1..]) else "";
      if written != "" then written else "&" + entity + ";"
  }

  /** A numeric reference behind its '#'. */
  function DecodeReference(digits: string): string {
    Chars(Utf8.FromCodepoint(
      if |digits| > 1 && (digits[0] == 'x' || digits[0] == 'X') then IntVal(digits[1..], 16) else IntVal(digits, 10)))
  }

  /** `xml_decode_text` */
  function DecodeText(s: string): string {
    if s == "" then ""
    else
      var end := EntityEnd(s);
      if end < |s| then DecodeEntity(s[1..end]) + DecodeText(s[end + 1..]) else [s[0]] + DecodeText(s[1..])
  }

  /** Where the entity at the front ends, or the length if there is none. */
  function EntityEnd(s: string): (n: nat)
    requires s != ""
    ensures 1 <= n <= |s|
  {
    if s[0] == '&' then Find(s, ';', 1) else |s|
  }

  method DecodeTextLoop(s: string) returns (result: string)
    ensures result == DecodeText(s)
  {
    hide DecodeEntity, DecodeText;
    result := "";
    var i := 0;
    NothingToDecode();
    while i < |s|
      invariant i <= |s| && result + DecodeText(s[i..]) == DecodeText(s)
    {
      var end := if s[i] == '&' then Find(s, ';', i + 1) else |s|;
      DecodeStep(s, i);
      if end < |s| {
        Assoc(result, DecodeEntity(s[i + 1..end]), DecodeText(s[end + 1..]));
        result := result + DecodeEntity(s[i + 1..end]);
        i := end + 1;
      } else {
        Assoc(result, [s[i]], DecodeText(s[i + 1..]));
        result := result + [s[i]];
        i := i + 1;
      }
    }
    assert s[i..] == "";
  }

  lemma NothingToDecode()
    ensures DecodeText("") == ""
  {
  }

  lemma Assoc(a: string, b: string, c: string)
    ensures a + (b + c) == a + b + c
  {
  }

  lemma DecodeStep(s: string, i: nat)
    requires i < |s|
    ensures var end := if s[i] == '&' then Find(s, ';', i + 1) else |s|;
      DecodeText(s[i..]) ==
        if end < |s| then DecodeEntity(s[i + 1..end]) + DecodeText(s[end + 1..]) else [s[i]] + DecodeText(s[i + 1..])
  {
    hide DecodeEntity, Find, DecodeText;
    var rest := s[i..];
    FindFrom(s, i);
    DecodeHere(rest);
    assert rest[1..] == s[i + 1..];
    var end := Find(rest, ';', 1);
    if end < |rest| { assert rest[1..end] == s[i + 1..i + end] && rest[end + 1..] == s[i + end + 1..]; }
  }

  lemma DecodeHere(s: string)
    requires s != ""
    ensures var end := EntityEnd(s);
      && (end < |s| ==> DecodeText(s) == DecodeEntity(s[1..end]) + DecodeText(s[end + 1..]))
      && (end >= |s| ==> DecodeText(s) == [s[0]] + DecodeText(s[1..]))
  {
    hide DecodeEntity, EntityEnd;
  }

  lemma FindFrom(s: string, i: nat)
    requires i < |s|
    ensures Find(s, ';', i + 1) == i + Find(s[i..], ';', 1)
  {
    var n, m := Find(s, ';', i + 1), Find(s[i..], ';', 1);
    assert forall k | 1 <= k < |s| - i :: s[i..][k] == s[i + k];
  }

  // ----- what was escaped is read back -----

  lemma EscapedCharReads(c: char, attr: bool, rest: string)
    ensures DecodeText(EscapeChar(c, attr) + rest) == [c] + DecodeText(rest)
  {
    hide DecodeText, DecodeEntity;
    var e := EscapeChar(c, attr);
    var s := e + rest;
    DecodeHere(s);
    if |e| > 1 {
      var end := |e| - 1;
      assert s[end] == ';' && forall k | 1 <= k < end :: s[k] == e[k] != ';';
      assert Find(s, ';', 1) == end;
      assert s[1..end] == e[1..end] && s[end + 1..] == rest;
      EntityReads(c, attr);
    } else {
      assert s[1..] == rest;
    }
  }

  lemma EntityReads(c: char, attr: bool)
    requires |EscapeChar(c, attr)| > 1
    ensures var e := EscapeChar(c, attr);
      DecodeEntity(e[1..|e| - 1]) == [c]
  {
    assert "&amp;"[1..4] == "amp" && "&lt;"[1..3] == "lt" && "&gt;"[1..3] == "gt";
    assert "&quot;"[1..5] == "quot" && "&apos;"[1..5] == "apos";
  }

  lemma {:induction false} EscapePrepend(c: char, s: string, attr: bool)
    ensures XmlEscape([c] + s, attr) == EscapeChar(c, attr) + XmlEscape(s, attr)
  {
    hide EscapeChar;
    var t := [c] + s;
    if s == "" {
      assert t[..0] == "";
    } else {
      EscapePrepend(c, s[..|s| - 1], attr);
      assert t[..|t| - 1] == [c] + s[..|s| - 1];
    }
  }

  /** `xml_decode_text` undoes both escapers, on every string. */
  lemma {:induction false} DecodeUndoesEscape(s: string, attr: bool)
    ensures DecodeText(XmlEscape(s, attr)) == s
  {
    if s != "" {
      hide EscapeChar;
      EscapePrepend(s[0], s[1..], attr);
      assert s == [s[0]] + s[1..];
      EscapedCharReads(s[0], attr, XmlEscape(s[1..], attr));
      DecodeUndoesEscape(s[1..], attr);
    }
  }

  lemma {:induction false} EscapedIsSafe(s: string, attr: bool)
    ensures Without(XmlEscape(s, attr), '<') && Without(XmlEscape(s, attr), '>')
    ensures attr ==> Without(XmlEscape(s, attr), '"') && Without(XmlEscape(s, attr), '\'')
  {
    if s != "" {
      hide EscapeChar;
      var front := XmlEscape(s[..|s| - 1], attr);
      EscapedIsSafe(s[..|s| - 1], attr);
      EscapedCharIsSafe(s[|s| - 1], attr);
      assert XmlEscape(s, attr) == front + EscapeChar(s[|s| - 1], attr);
    }
  }

  lemma EscapedCharIsSafe(c: char, attr: bool)
    ensures Without(EscapeChar(c, attr), '<') && Without(EscapeChar(c, attr), '>')
    ensures attr ==> Without(EscapeChar(c, attr), '"') && Without(EscapeChar(c, attr), '\'')
  {
  }

  // ----- names -----

  predicate NameStart(c: char) {
    IsAlpha(c) || c == '_' || c == ':'
  }

  predicate NameChar(c: char) {
    IsAlnum(c) || c == '_' || c == '-' || c == '.' || c == ':'
  }

  predicate ValidName(s: string) {
    s != "" && NameStart(s[0]) && forall i | 0 <= i < |s| :: NameChar(s[i])
  }

  function Cleaned(s: string): string {
    seq(|s|, i requires 0 <= i < |s| => if NameChar(s[i]) then s[i] else '_')
  }

  /** `xml_safe_name` */
  function SafeName(raw: string, fallback: string): string {
    var t := Trim(raw);
    if t == "" then fallback
    else
      var c := Cleaned(t);
      if !NameStart(c[0]) then "_" + c else c
  }

  // ----- printing -----

  /** `xml_tree_scalar_text` */
  function ScalarText(t: Tree): string {
    if t.Bool? then (if t.flag then "true" else "false") else ToText(t)
  }

  function EncodeAttrs(es: seq<Entry>): string {
    if es == [] then ""
    else " " + SafeName(es[0].key, "attr") + "=\"" + XmlEscape(ScalarText(es[0].value),
        true) + "\"" + EncodeAttrs(es[1..])
  }

  function NameOf(t: Tree, hint: string): string {
    var fallback := SafeName(hint, "root");
    if !t.Map? then fallback
    else match Lookup(t.entries, "name")
      case None => fallback
      case Some(n) => SafeName(ToText(n), fallback)
  }

  predicate Shaped(t: Tree) {
    t.Map? && Lookup(t.entries, "name") != None
  }

  function AttrText(t: Tree): string
    requires t.Map?
  {
    match Lookup(t.entries, "attrs")
    case Some(Map(es, _, _)) => EncodeAttrs(es)
    case _ => ""
  }

  function OwnText(t: Tree): string
    requires t.Map?
  {
    match Lookup(t.entries, "text") case None => "" case Some(v) => XmlEscape(ScalarText(v), false)
  }

  lemma LookupIsPart(es: seq<Entry>, key: string)
    ensures Lookup(es, key).Some? ==> exists i | 0 <= i < |es| :: es[i].value == Lookup(es, key).value
    decreases |es|
  {
    if es != [] && es[0].key != key {
      LookupIsPart(es[1..], key);
      assert forall i | 0 <= i < |es| - 1 :: es[1..][i] == es[i + 1];
    }
  }

  /** `xml_encode_element` */
  function EncodeElement(t: Tree, hint: string): string
    decreases t, 1
  {
    var name := NameOf(t, hint);
    var content :=
      if Shaped(t) then OwnText(t) + EncodeKids(t)
      else if t.Map? then EncodeEntries(t.entries, IsList(t))
      else XmlEscape(ScalarText(t), false);
    "<" + name + (if Shaped(t) then AttrText(t) else "")
      + if content == "" then "/>" else ">" + content + "</" + name + ">"
  }

  function EncodeKids(t: Tree): string
    requires t.Map?
    decreases t, 0
  {
    LookupIsPart(t.entries, "children");
    match Lookup(t.entries, "children")
    case None => ""
    case Some(kids) => if kids.Map? then EncodeEntries(kids.entries, IsList(kids)) else ""
  }

  /** The entries in key order; in a list entry `i` is the one named `i`. */
  function EncodeEntries(es: seq<Entry>, list: bool): string
    decreases es
  {
    if es == [] then ""
    else EncodeElement(es[0].value, if list then "item" else es[0].key) + EncodeEntries(es[1..], list)
  }

  // ----- parsing -----

  datatype XmlError =
    | ExpectedName | ExpectedQuote | Unterminated | ExpectedElement | ExpectedEquals
    | ExpectedClose | Mismatched | UnterminatedCdata | MissingClose | EmptyDocument | Trailing

  datatype Parsed<+T> = Got(value: T, rest: string) | Failed(error: XmlError)

  /** `skip_until`, with `s` starting where the search does. */
  function SkipUntil(s: string, token: string): (r: string)
    requires token != ""
    ensures |r| <= |s| && (s != "" ==> |r| < |s|)
  {
    var p := FindText(s, token, 0);
    if p == |s| then "" else s[p + |token|..]
  }

  function SkipMisc(s: string): (r: string)
    ensures |r| <= |s|
    decreases |s|
  {
    var r := SkipSpace(s);
    if StartsWith(r, "<?") then SkipMisc(SkipUntil(r, "?>"))
    else if StartsWith(r, "<!--") then SkipMisc(SkipUntil(r, "-->"))
    else if StartsWith(r, "<!DOCTYPE") || StartsWith(r, "<!doctype") then SkipMisc(SkipUntil(r, ">"))
    else r
  }

  function NameLength(s: string): (n: nat)
    ensures n <= |s| && (forall i | 0 <= i < n :: NameChar(s[i])) && (n < |s| ==> !NameChar(s[n]))
  {
    if s == "" || !NameChar(s[0]) then 0 else 1 + NameLength(s[1..])
  }

  /** `read_name` */
  function ReadName(s: string): (r: Parsed<string>)
    ensures r.Got? ==> |r.rest| < |s|
  {
    if s == "" || !NameStart(s[0]) then Failed(ExpectedName)
    else Got(s[..NameLength(s)], s[NameLength(s)..])
  }

  /** `read_quoted_value` */
  function ReadQuoted(s: string): (r: Parsed<string>)
    ensures r.Got? ==> |r.rest| < |s|
  {
    var t := SkipSpace(s);
    if t == "" || (t[0] != '"' && t[0] != '\'') then Failed(ExpectedQuote)
    else
      var end := Find(t, t[0], 1);
      if end == |t| then Failed(Unterminated) else Got(DecodeText(t[1..end]), t[end + 1..])
  }

  /** `node["attrs"][name] = value` */
  function SetAttr(node: Tree, name: string, value: string): Tree {
    SetKey(node, "attrs", SetKey(Field(node, "attrs"), name, Str(value)))
  }

  /** `node["children"].push(child)` */
  function PushChild(node: Tree, child: Tree): Tree {
    SetKey(node, "children", PushValue(Field(node, "children"), child))
  }

  datatype Opening = SelfClosed(node: Tree, rest: string) | Opened(node: Tree, rest: string) | BadTag(error: XmlError)

  /** The attribute loop of `parse_element`. */
  function ParseAttrs(s: string, node: Tree): (r: Opening)
    ensures !r.BadTag? ==> |r.rest| <= |s|
    decreases |s|
  {
    var t := SkipSpace(s);
    if s == "" then Opened(node, "")
    else if StartsWith(t, "/>") then SelfClosed(node, t[2..])
    else if StartsWith(t, ">") then Opened(node, t[1..])
    else match ReadName(t)
      case Failed(e) => BadTag(e)
      case Got(name, r1) =>
        var r2 := SkipSpace(r1);
        if r2 == "" || r2[0] != '=' then BadTag(ExpectedEquals)
        else match ReadQuoted(r2[1..])
          case Failed(e) => BadTag(e)
          case Got(value, r3) => ParseAttrs(r3, SetAttr(node, name, value))
  }

  /** `parse_element` */
  function ParseElement(s: string): (r: Parsed<Tree>)
    ensures r.Got? ==> |r.rest| < |s|
    decreases |s|, 1
  {
    if s == "" || s[0] != '<' then Failed(ExpectedElement)
    else match ReadName(s[1..])
      case Failed(e) => Failed(e)
      case Got(name, r) =>
        match ParseAttrs(r, SetKey(EMPTY_TREE, "name", Str(name)))
        case BadTag(e) => Failed(e)
        case SelfClosed(node, r2) => Got(node, r2)
        case Opened(node, r2) => ParseContent(r2, node, name, "")
  }

  /** The closing tag, behind its "</". */
  function ParseClose(s: string, node: Tree, name: string, text: string): (r: Parsed<Tree>)
    ensures r.Got? ==> |r.rest| < |s|
  {
    match ReadName(s)
    case Failed(e) => Failed(e)
    case Got(closed, r) =>
      var t := SkipSpace(r);
      if t == "" || t[0] != '>' then Failed(ExpectedClose)
      else if closed != name then Failed(Mismatched)
      else Got(if Trim(text) != "" then SetKey(node, "text", Str(text)) else node, t[1..])
  }

  /** The content loop of `parse_element`. */
  function ParseContent(s: string, node: Tree, name: string, text: string): (r: Parsed<Tree>)
    ensures r.Got? ==> |r.rest| <= |s|
    decreases |s|, 2
  {
    if s == "" then Failed(MissingClose)
    else if StartsWith(s, "</") then ParseClose(s[2..], node, name, text)
    else if StartsWith(s, "<!--") then ParseContent(SkipUntil(s, "-->"), node, name, text)
    else if StartsWith(s, "<![CDATA[") then
      var end := FindText(s, "]]>", 9);
      if end == |s| then Failed(UnterminatedCdata) else ParseContent(s[end + 3..], node, name, text + s[9..end])
    else if StartsWith(s, "<?") then ParseContent(SkipUntil(s, "?>"), node, name, text)
    else if s[0] == '<' then
      match ParseElement(s)
      case Failed(e) => Failed(e)
      case Got(child, r) => ParseContent(r, PushChild(node, child), name, text)
    else
      var end := Find(s, '<', 0);
      var chunk := DecodeText(s[..end]);
      ParseContent(s[end..], node, name, if Trim(chunk) != "" then text + chunk else text)
  }

  /** `parse_document`, which is `xml_decode` */
  function XmlDecode(s: string): Parsed<Tree> {
    var t := SkipMisc(s);
    if t == "" then Failed(EmptyDocument)
    else match ParseElement(t)
      case Failed(e) => Failed(e)
      case Got(tree, r) => if SkipMisc(r) != "" then Failed(Trailing) else Got(tree, "")
  }

  function XmlEncode(t: Tree, rootName: string): string {
    EncodeElement(t, rootName)
  }
}
