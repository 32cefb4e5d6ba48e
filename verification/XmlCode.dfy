/** The XML parser as the source has it (src/lib/functionlib.cpp:1318-1508): an
    object with a cursor that its methods move, each proved against the function
    on the text behind the cursor. */
module XmlCode {
  import opened Text
  import opened DTreeModel
  import opened Json
  import opened Xml

  /** What a method came to: a value, or the exception it threw. */
  datatype Outcome<+T> = Value(value: T) | Threw(error: XmlError)

  ghost predicate Agrees<T(!new)>(spec: Parsed<T>, out: Outcome<T>, rest: string) {
    match spec
    case Failed(e) => out == Threw(e)
    case Got(v, r) => out == Value(v) && rest == r
  }

  class XmlParser {
    const src: string
    var i: nat

    constructor (source: string)
      ensures Valid() && src == source && Rest() == source
    {
      src, i := source, 0;
      new;
      assert src[0..] == src;
    }

    predicate Valid()
      reads this
    {
      i <= |src|
    }

    ghost function Rest(): string
      requires Valid()
      reads this
    {
      src[i..]
    }

    method Here(token: string) returns (b: bool)
      requires Valid()
      ensures b == StartsWith(Rest(), token)
    {
      b := i + |token| <= |src| && src[i..i + |token|] == token;
      assert i + |token| <= |src| ==> src[i..][..|token|] == src[i..i + |token|];
    }

    method Advance(n: nat)
      requires Valid() && i + n <= |src|
      modifies this
      ensures Valid() && i == old(i) + n && Rest() == old(Rest())[n..]
    {
      i := i + n;
      assert src[old(i)..][n..] == src[i..];
    }

    method SkipSpaces()
      requires Valid()
      modifies this
      ensures Valid() && i >= old(i) && Rest() == SkipSpace(old(Rest()))
    {
      while i < |src| && IsSpace(src[i])
        invariant old(i) <= i <= |src| && SkipSpace(src[i..]) == SkipSpace(old(Rest()))
      {
        assert src[i..][1..] == src[i + 1..];
        i := i + 1;
      }
    }

    method SkipPast(token: string)
      requires Valid() && token != ""
      modifies this
      ensures Valid() && i >= old(i) && Rest() == SkipUntil(old(Rest()), token)
    {
      FindTextFrom(src, token, i);
      var end := FindText(src, token, i);
      if end == |src| {
        i := |src|;
      } else {
        AtEndsInside(src, end, token);
        i := end + |token|;
        assert src[old(i)..][end - old(i) + |token|..] == src[i..];
      }
    }

    method SkipMiscellany()
      requires Valid()
      modifies this
      ensures Valid() && i >= old(i) && Rest() == SkipMisc(old(Rest()))
    {
      var again := true;
      while again
        invariant old(i) <= i <= |src|
        invariant if again then SkipMisc(Rest()) == SkipMisc(old(Rest())) else Rest() == SkipMisc(old(Rest()))
        decreases again, |src| - i
      {
        again := false;
        ghost var s := Rest();
        SkipSpaces();
        ghost var at := i;
        var isPi := Here("<?");
        var isComment := Here("<!--");
        var isDoctype := Here("<!DOCTYPE");
        var isLower := Here("<!doctype");
        if isPi {
          SkipPast("?>");
          again := true;
        } else if isComment {
          SkipPast("-->");
          again := true;
        } else if isDoctype || isLower {
          SkipPast(">");
          again := true;
        }
      }
    }

    method NameHere() returns (r: Outcome<string>)
      requires Valid()
      modifies this
      ensures Valid() && i >= old(i) && (r.Value? ==> i > old(i)) && Agrees(ReadName(old(Rest())), r, Rest())
    {
      hide NameLength, NameStart, NameChar;
      if i >= |src| || !NameStart(src[i]) { return Threw(ExpectedName); }
      var start := i;
      i := i + 1;
      StartIsNameChar(src[start]);
      NameLengthStep(src, start);
      while i < |src| && NameChar(src[i])
        invariant start < i <= |src|
        invariant NameLength(src[start..]) == i - start + NameLength(src[i..])
      {
        NameLengthStep(src, i);
        i := i + 1;
      }
      NameLengthEnds(src, i);
      Cut(src, start, i);
      return Value(src[start..i]);
    }

    method QuotedHere() returns (r: Outcome<string>)
      requires Valid()
      modifies this
      ensures Valid() && i >= old(i) && (r.Value? ==> i > old(i)) && Agrees(ReadQuoted(old(Rest())), r, Rest())
    {
      hide DecodeText, SkipSpace, Find, ReadQuoted;
      QuotedBehindSpace(Rest());
      SkipSpaces();
      if i >= |src| || (src[i] != '"' && src[i] != '\'') { return Threw(ExpectedQuote); }
      ghost var t := Rest();
      var quote := src[i];
      i := i + 1;
      var start := i;
      while i < |src| && src[i] != quote
        invariant start <= i <= |src| && forall k | start <= k < i :: src[k] != quote
      {
        i := i + 1;
      }
      QuoteEnds(src, start, i, quote);
      QuotedIs(t, i - start + 1);
      if i >= |src| { return Threw(Unterminated); }
      var value := src[start..i];
      i := i + 1;
      return Value(DecodeText(value));
    }

    /** The attribute loop.  `done` is whether the tag closed itself. */
    method AttrsHere(start: Tree) returns (r: Outcome<Tree>, done: bool)
      requires Valid()
      modifies this
      ensures Valid() && i >= old(i)
      ensures match ParseAttrs(old(Rest()), start)
        case BadTag(e) => r == Threw(e)
        case SelfClosed(t, rest) => r == Value(t) && done && Rest() == rest
        case Opened(t, rest) => r == Value(t) && !done && Rest() == rest
    {
      hide ReadName, ReadQuoted, SetAttr, SkipSpace;
      var node := start;
      while i < |src|
        invariant old(i) <= i <= |src| && ParseAttrs(Rest(), node) == ParseAttrs(old(Rest()), start)
        decreases |src| - i
      {
        ghost var s := Rest();
        SkipSpaces();
        var closes := Here("/>");
        if closes {
          Advance(2);
          return Value(node), true;
        }
        var opens := Here(">");
        if opens {
          Advance(1);
          return Value(node), false;
        }
        var name := NameHere();
        if name.Threw? { return Threw(name.error), false; }
        SkipSpaces();
        if i >= |src| || src[i] != '=' { return Threw(ExpectedEquals), false; }
        Advance(1);
        var value := QuotedHere();
        if value.Threw? { return Threw(value.error), false; }
        node := SetAttr(node, name.value, value.value);
      }
      return Value(node), false;
    }

    /** `parse_element` */
    method ElementHere() returns (r: Outcome<Tree>)
      requires Valid()
      modifies this
      ensures Valid() && i >= old(i) && (r.Value? ==> i > old(i)) && Agrees(ParseElement(old(Rest())), r, Rest())
      decreases |src| - i, 1
    {
      hide ReadName, ParseAttrs, ParseContent, SetKey;
      if i >= |src| || src[i] != '<' { return Threw(ExpectedElement); }
      Advance(1);
      var name := NameHere();
      if name.Threw? { return Threw(name.error); }
      var node, done := AttrsHere(SetKey(EMPTY_TREE, "name", Str(name.value)));
      if node.Threw? { return node; }
      if done { return node; }
      r := ContentHere(node.value, name.value);
    }

    /** A closing tag, behind its "</". */
    method CloseHere(node: Tree, name: string, text: string) returns (r: Outcome<Tree>)
      requires Valid()
      modifies this
      ensures Valid() && i >= old(i) && Agrees(ParseClose(old(Rest()), node, name, text), r, Rest())
    {
      hide ReadName, SetKey, Trim, SkipSpace;
      var closed := NameHere();
      if closed.Threw? { return Threw(closed.error); }
      SkipSpaces();
      if i >= |src| || src[i] != '>' { return Threw(ExpectedClose); }
      Advance(1);
      if closed.value != name { return Threw(Mismatched); }
      return Value(if Trim(text) != "" then SetKey(node, "text", Str(text)) else node);
    }

    /** The content loop. */
    method ContentHere(start: Tree, name: string) returns (r: Outcome<Tree>)
      requires Valid()
      modifies this
      ensures Valid() && i >= old(i) && Agrees(ParseContent(old(Rest()), start, name, ""), r, Rest())
      decreases |src| - i, 2
    {
      hide ParseElement, ParseClose, PushChild, DecodeText, Trim, SkipUntil;
      var node, text := start, "";
      while i < |src|
        invariant old(i) <= i <= |src|
            && ParseContent(Rest(), node, name, text) == ParseContent(old(Rest()), start, name, "")
        decreases |src| - i
      {
        ghost var s := Rest();
        var isClose := Here("</");
        if isClose {
          Advance(2);
          r := CloseHere(node, name, text);
          return;
        }
        var isComment := Here("<!--");
        if isComment {
          SkipPast("-->");
          Shorter(s, "-->");
          continue;
        }
        var isCdata := Here("<![CDATA[");
        if isCdata {
          var ok;
          ok, text := CdataHere(text);
          if !ok { return Threw(UnterminatedCdata); }
          continue;
        }
        var isPi := Here("<?");
        if isPi {
          SkipPast("?>");
          Shorter(s, "?>");
          continue;
        }
        if src[i] == '<' {
          var child := ElementHere();
          if child.Threw? { return child; }
          node := PushChild(node, child.value);
          continue;
        }
        var chunk := ChunkHere();
        if Trim(chunk) != "" { text := text + chunk; }
      }
      return Threw(MissingClose);
    }

    method CdataHere(text: string) returns (ok: bool, longer: string)
      requires Valid() && StartsWith(Rest(), "<![CDATA[")
      modifies this
      ensures Valid() && i > old(i)
      ensures var s := old(Rest());
        var end := FindText(s, "]]>", 9);
        ok == (end < |s|) && (ok ==> longer == text + s[9..end] && Rest() == s[end + 3..])
    {
      ghost var s, at := Rest(), i;
      i := i + 9;
      ShiftedFind(src, "]]>", at, 9);
      var end := FindText(src, "]]>", i);
      if end == |src| { return false, text; }
      AtEndsInside(src, end, "]]>");
      longer := text + src[i..end];
      assert src[at..][9..end - at] == src[at + 9..end] && src[at..][end - at + 3..] == src[end + 3..];
      i := end + 3;
      ok := true;
    }

    /** `read_text_until_markup` */
    method ChunkHere() returns (chunk: string)
      requires Valid() && i < |src| && src[i] != '<'
      modifies this
      ensures Valid() && i > old(i)
      ensures var s := old(Rest());
        chunk == DecodeText(s[..Find(s, '<', 0)]) && Rest() == s[Find(s, '<', 0)..]
    {
      hide DecodeText;
      var start := i;
      while i < |src| && src[i] != '<'
        invariant start <= i <= |src| && forall k | start <= k < i :: src[k] != '<'
      {
        i := i + 1;
      }
      MarkupAt(src, start, i);
      chunk := DecodeText(src[start..i]);
    }

    /** `parse_document` */
    method Document() returns (r: Outcome<Tree>)
      requires Valid()
      modifies this
      ensures match XmlDecode(old(Rest())) case Failed(e) => r == Threw(e) case Got(t, _) => r == Value(t)
    {
      hide ParseElement, SkipMisc;
      SkipMiscellany();
      if i >= |src| { return Threw(EmptyDocument); }
      r := ElementHere();
      if r.Threw? { return; }
      SkipMiscellany();
      if i < |src| { return Threw(Trailing); }
    }
  }

  lemma Shorter(s: string, token: string)
    requires s != "" && token != ""
    ensures |SkipUntil(s, token)| < |s|
  {
  }

  lemma MarkupAt(src: string, start: nat, end: nat)
    requires start <= end <= |src| && (end < |src| ==> src[end] == '<') && forall k | start <= k < end :: src[k] != '<'
    ensures var s := src[start..];
      Find(s, '<', 0) == end - start && s[..end - start] == src[start..end] && s[end - start..] == src[end..]
  {
    var s := src[start..];
    assert forall k | 0 <= k < |s| :: s[k] == src[start + k];
  }

  lemma FindTextFrom(src: string, token: string, i: nat)
    requires i <= |src| && token != ""
    ensures FindText(src, token, i) == i + FindText(src[i..], token, 0)
  {
    ShiftedFind(src, token, i, 0);
  }

  lemma {:induction false} ShiftedFind(src: string, token: string, i: nat, k: nat)
    requires i + k <= |src|
    ensures FindText(src, token, i + k) == i + FindText(src[i..], token, k)
    decreases |src| - i - k
  {
    hide At;
    AtShifted(src, token, i, k);
    if i + k < |src| && !At(src, i + k, token) { ShiftedFind(src, token, i, k + 1); }
  }

  lemma AtShifted(src: string, token: string, i: nat, k: nat)
    requires i + k <= |src|
    ensures At(src, i + k, token) == At(src[i..], k, token)
  {
    if i + k + |token| <= |src| { assert src[i + k..i + k + |token|] == src[i..][k..k + |token|]; }
  }

  lemma AtEndsInside(s: string, p: nat, t: string)
    requires At(s, p, t)
    ensures p + |t| <= |s|
  {
  }

  lemma NameLengthEnds(src: string, i: nat)
    requires i <= |src| && (i < |src| ==> !NameChar(src[i]))
    ensures NameLength(src[i..]) == 0
  {
  }

  lemma Cut(src: string, start: nat, end: nat)
    requires start <= end <= |src|
    ensures src[start..][..end - start] == src[start..end] && src[start..][end - start..] == src[end..]
  {
  }

  lemma StartIsNameChar(c: char)
    requires NameStart(c)
    ensures NameChar(c)
  {
  }

  lemma NameLengthStep(src: string, i: nat)
    requires i < |src| && NameChar(src[i])
    ensures NameLength(src[i..]) == 1 + NameLength(src[i + 1..])
  {
    assert src[i..][1..] == src[i + 1..];
  }

  lemma QuotedBehindSpace(s: string)
    ensures var t := SkipSpace(s);
      ReadQuoted(t) == ReadQuoted(s) && (t == "" || (t[0] != '"' && t[0] != '\'')
          ==> ReadQuoted(s) == Failed(ExpectedQuote))
  {
    hide DecodeText, Find;
    assert SkipSpace(SkipSpace(s)) == SkipSpace(s);
  }

  lemma QuotedIs(t: string, end: nat)
    requires t != "" && (t[0] == '"' || t[0] == '\'') && end == Find(t, t[0], 1)
    ensures ReadQuoted(t) == if end == |t| then Failed(Unterminated) else Got(DecodeText(t[1..end]), t[end + 1..])
  {
    hide DecodeText, Find;
    assert SkipSpace(t) == t;
  }

  lemma QuoteEnds(src: string, start: nat, end: nat, quote: char)
    requires 0 < start <= end <= |src| && src[start - 1] == quote && (end < |src| ==> src[end] == quote)
    requires forall k | start <= k < end :: src[k] != quote
    ensures var t := src[start - 1..];
      && Find(t, quote, 1) == end - start + 1
      && t[1..end - start + 1] == src[start..end]
      && (end < |src| ==> t[end - start + 2..] == src[end + 1..])
  {
    var t := src[start - 1..];
    assert forall k | 1 <= k < |t| :: t[k] == src[start - 1 + k];
  }
}
