/** When the Markdown parser comes back (src/lib/markdown.cpp:143-224, 450-465,
    711-1150).  Its recursion always ends: the functions of module Markdown are
    accepted with a measure that falls.  One loop does not: the attributes of a
    directive with a '=' that no attribute name stands before.  So the parser hangs
    exactly on the sources that show such a line to it. */
module MarkdownTermination {
  import opened Text
  import opened MarkdownInline
  import opened Markdown
  import Query

  // ----- the attributes of a directive -----

  /** Reading tokens, a '=' comes up where a token should start. */
  predicate Stuck(s: string)
    decreases |s|
  {
    var t := SkipSpace(s);
    if t == "" then false
    else if IsQuote(t) then Stuck(ReadQuoted(t[1..], t[0]).1)
    else
      var n := TokenLength(t);
      if n < |t| && t[n] == '=' then
        if IsIdentifier(t[..n]) then
          var after := t[n + 1..];
          Stuck(if IsQuote(after) then ReadQuoted(after[1..], after[0]).1 else after[WordLength(after)..])
        else true
      else if n == 0 then true else Stuck(t[n..])
  }

  lemma {:induction false} StuckAtEquals(s: string, sofar: Attrs)
    requires s != "" && s[0] == '='
    ensures ParseAttrs(s, sofar) == None
  {
  }

  /** Whether the loop ends depends on the text alone: it does not if and only if a
      token in front of a '=' is no attribute name. */
  lemma {:induction false} AttrsHangIff(s: string, sofar: Attrs)
    ensures ParseAttrs(s, sofar) == None <==> Stuck(s)
    decreases |s|
  {
    hide TrimQuotes, IsIdentifier;
    var t := SkipSpace(s);
    if t == "" {
    } else if IsQuote(t) {
      var (token, rest) := ReadQuoted(t[1..], t[0]);
      AttrsHangIff(rest, sofar.(argument := Appended(sofar.argument, token)));
    } else {
      var n := TokenLength(t);
      if n < |t| && t[n] == '=' && IsIdentifier(t[..n]) {
        var after := t[n + 1..];
        var value := if IsQuote(after) then ReadQuoted(after[1..], after[0]) else (after[..WordLength(after)],
            after[WordLength(after)..]);
        AttrsHangIff(value.1, sofar.(values := sofar.values[t[..n] := TrimQuotes(value.0)]));
      } else if n > 0 {
        if n < |t| && t[n] == '=' { StuckAtEquals(t[n..], sofar.(argument := Appended(sofar.argument, t[..n]))); }
        AttrsHangIff(t[n..], sofar.(argument := Appended(sofar.argument, t[..n])));
      }
    }
  }

  /** How far the word at the front goes: to the end of the quotes if it starts with
      one, otherwise to white space, where a value in quotes is skipped whole. */
  function WordEnd(t: string): (n: nat)
    requires t != "" && !IsSpace(t[0])
    ensures 0 < n <= |t|
  {
    if IsQuote(t) then QuotedEnd(t)
    else
      var n := TokenLength(t);
      if n == |t| || t[n] != '=' then n
      else
        var after := t[n + 1..];
        n + 1 + if IsQuote(after) then QuotedEnd(after) else WordLength(after)
  }

  /** Behind the closing quote, or the end if there is none. */
  function QuotedEnd(t: string): (n: nat)
    requires IsQuote(t)
    ensures 0 < n <= |t|
  {
    |t| - |ReadQuoted(t[1..], t[0]).1|
  }

  /** The words of a text. */
  function Words(s: string): seq<string>
    decreases |s|
  {
    var t := SkipSpace(s);
    if t == "" then [] else [t[..WordEnd(t)]] + Words(t[WordEnd(t)..])
  }

  /** A word outside of quotes whose first '=' has no attribute name before it. */
  predicate BadWord(w: string) {
    !IsQuote(w) && '=' in w && !IsIdentifier(w[..Find(w, '=', 0)])
  }

  /** That is a matter of the single words: `a=b`, `"="` and `a="b = c"` are fine,
      `=`, `=b` and `a.b=c` are not. */
  lemma {:induction false} StuckIffBadWord(s: string)
    ensures Stuck(s) <==> exists w | w in Words(s) :: BadWord(w)
    decreases |s|
  {
    hide BadWord, Stuck, WordEnd;
    var t := SkipSpace(s);
    StuckByWord(s, t);
    if t != "" { StuckIffBadWord(t[WordEnd(t)..]); }
  }

  /** The scan takes a word at a time. */
  lemma StuckByWord(s: string, t: string)
    requires t == SkipSpace(s)
    ensures Stuck(s) <==> t != "" && (BadWord(t[..WordEnd(t)]) || Stuck(t[WordEnd(t)..]))
  {
    hide IsIdentifier, BadWord, SkipSpace, ReadQuoted;
    if t != "" {
      var m, n := WordEnd(t), TokenLength(t);
      if IsQuote(t) {
        QuotedIsEnd(t);
        QuotedIsFine(t[..m]);
      } else {
        NoEqualsBefore(t);
        FirstWord(t[..m], n);
        if n < m {
          var after := t[n + 1..];
          assert t[..m][..n] == t[..n];
          assert after[m - n - 1..] == t[m..];
          if IsQuote(after) { QuotedIsEnd(after); }
        }
      }
    }
  }

  lemma QuotedIsFine(w: string)
    requires IsQuote(w)
    ensures !BadWord(w)
  {
  }

  /** What is read behind a quote is an end of the text. */
  lemma {:induction false} QuotedIsEnd(t: string)
    requires IsQuote(t)
    ensures ReadQuoted(t[1..], t[0]).1 == t[QuotedEnd(t)..]
  {
    ReadIsEnd(t[1..], t[0]);
  }

  lemma {:induction false} ReadIsEnd(s: string, quote: char)
    ensures var rest := ReadQuoted(s, quote).1;
      rest == s[|s| - |rest|..]
  {
    if s == "" {
    } else if s[0] == '\\' && |s| > 1 {
      ReadIsEnd(s[2..], quote);
    } else if s[0] != quote {
      ReadIsEnd(s[1..], quote);
    }
  }

  lemma FirstWord(w: string, n: nat)
    requires n <= |w| && (n < |w| ==> w[n] == '=') && !IsQuote(w) && forall i | 0 <= i < n :: w[i] != '='
    ensures BadWord(w) <==> n < |w| && !IsIdentifier(w[..n])
  {
    if n < |w| { assert Find(w, '=', 0) == n; }
  }

  lemma {:induction false} NoEqualsBefore(s: string)
    ensures forall i | 0 <= i < TokenLength(s) :: s[i] != '='
  {
    if s != "" && !IsSpace(s[0]) && s[0] != '=' { NoEqualsBefore(s[1..]); }
  }

  // ----- lines that cannot hang -----

  /** No end of the line opens a directive whose attributes are stuck. */
  predicate SafeLine(line: string) {
    forall i | 0 <= i <= |line| :: !DirectiveOpen(line[i..]).OpenerHangs?
  }

  lemma RestSafe(line: string, i: nat)
    requires SafeLine(line) && i <= |line|
    ensures SafeLine(line[i..])
  {
    forall k | 0 <= k <= |line[i..]| ensures !DirectiveOpen(line[i..][k..]).OpenerHangs? {
      assert line[i..][k..] == line[i + k..];
    }
  }

  lemma SafeOpener(raw: string)
    requires SafeLine(raw)
    ensures !DirectiveOpen(raw).OpenerHangs?
  {
    assert raw[0..] == raw;
  }

  predicate Safe(ls: seq<string>) {
    forall i | 0 <= i < |ls| :: SafeLine(ls[i])
  }

  lemma DedentedSafe(line: string, b: nat)
    requires SafeLine(line)
    ensures SafeLine(Dedented(line, b))
  {
    if CountIndent(line) >= b { RestSafe(line, b); }
  }

  lemma {:induction false} DirectiveLinesSafe(ls: seq<string>, b: nat, depth: nat)
    requires Safe(ls) && depth > 0
    ensures DirectiveLines(ls, b, depth).Some? && Safe(DirectiveLines(ls, b, depth).value.lines)
  {
    hide SafeLine, DirectiveOpen, Trim, Dedented;
    if ls != [] {
      var raw := Dedented(ls[0], b);
      DedentedSafe(ls[0], b);
      SafeOpener(raw);
      var t := Trim(raw);
      var opener := if StartsWith(t, ":::") && t != ":::" then DirectiveOpen(raw) else NoOpener;
      if !(t == ":::" && depth == 1) {
        DirectiveLinesSafe(ls[1..], b, if t == ":::" then depth - 1 else if opener.Opener? then depth + 1 else depth);
      }
    }
  }

  lemma UnquotedSafe(raw: string)
    requires SafeLine(raw)
    ensures SafeLine(Unquoted(raw))
  {
    hide SafeLine;
    var marker := Find(raw, '>', 0);
    var s := if marker < |raw| then raw[marker + 1..] else raw;
    if marker < |raw| { RestSafe(raw, marker + 1); }
    if s != "" { RestSafe(s, 1); }
  }

  lemma NothingSafe()
    ensures SafeLine("")
  {
  }

  lemma {:induction false} QuoteLinesSafe(ls: seq<string>, b: nat)
    requires Safe(ls)
    ensures Safe(QuoteLines(ls, b).lines)
  {
    hide SafeLine, Unquoted, Trim;
    if ls == [] {
    } else if IsBlank(ls[0]) {
      NothingSafe();
      QuoteLinesSafe(ls[1..], b);
    } else if IsQuoteLine(ls[0], b) {
      RestSafe(ls[0], b);
      UnquotedSafe(ls[0][b..]);
      QuoteLinesSafe(ls[1..], b);
    }
  }

  lemma {:induction false} ItemLinesSafe(ls: seq<string>, b: nat)
    requires Safe(ls)
    ensures Safe(ItemLines(ls, b).lines)
  {
    hide SafeLine, Trim;
    if ls == [] {
    } else if IsBlank(ls[0]) {
      NothingSafe();
      ItemLinesSafe(ls[1..], b);
    } else if CountIndent(ls[0]) >= b + 2 {
      RestSafe(ls[0], b + 2);
      ItemLinesSafe(ls[1..], b);
    }
  }

  lemma {:induction false} ParagraphLinesSafe(ls: seq<string>, b: nat, o: Options, first: bool)
    requires Safe(ls)
    ensures ParagraphLines(ls, b, o, first).Some?
  {
    hide SafeLine, DirectiveOpen, Trim, StartsOther, IsTableStart, IsBlank;
    if ls != [] && !IsBlank(ls[0]) && CountIndent(ls[0]) >= b {
      var raw := ls[0][b..];
      RestSafe(ls[0], b);
      SafeOpener(raw);
      ParagraphLinesSafe(ls[1..], b, o, false);
    }
  }

  lemma ContentSafe(raw: string, o: Options)
    requires SafeLine(raw) && ListMarker(raw).Some?
    ensures var content := ListMarker(raw).value.content;
      SafeLine(content) && (TaskPrefix(content).Some? ==> SafeLine(TaskPrefix(content).value.1))
  {
    hide SafeLine;
    var content := ListMarker(raw).value.content;
    var n := |raw| - |content|;
    assert content == raw[n..];
    RestSafe(raw, n);
    if |content| >= 4 { RestSafe(content, 4); }
  }

  /** The parser comes back from every source in which no line, and no end of one,
      opens a directive whose attributes are stuck. */
  lemma {:induction false} SafeBlocksReturn(ls: seq<string>, o: Options)
    requires Safe(ls)
    ensures Blocks(ls, o).Some?
    decreases Total(ls), |ls|, 2
  {
    hide SafeLine, Trim, Block;
    if ls == [] {
    } else if IsBlank(ls[0]) {
      SafeBlocksReturn(ls[1..], o);
    } else {
      SafeBlockReturns(ls, o);
      var n := Block(ls, CountIndent(ls[0]), o).value.1;
      TotalOfRest(ls, n);
      SafeBlocksReturn(ls[n..], o);
    }
  }

  lemma SafeBlockReturns(ls: seq<string>, o: Options)
    requires Safe(ls) && ls != [] && !IsBlank(ls[0])
    ensures Block(ls, CountIndent(ls[0]), o).Some?
    decreases Total(ls), |ls|, 1
  {
    hide SafeLine, Trim, LeafBlock, PlainBlock, DirectiveBlock, ListItems, DirectiveOpen, ListMarker, QuoteLines,
      Blocks, IsBlank;
    var b := CountIndent(ls[0]);
    var raw := ls[0][b..];
    RestSafe(ls[0], b);
    SafeOpener(raw);
    if LeafBlock(ls, b, o).None? {
      match DirectiveOpen(raw)
      case OpenerHangs => assert false;
      case Opener(name, attrs) => SafeDirectiveReturns(ls, b, name, attrs, o);
      case NoOpener =>
        if StartsWith(Trim(raw), ">") {
          QuoteShrinks(ls, b);
          QuoteLinesSafe(ls, b);
          SafeBlocksReturn(QuoteLines(ls, b).lines, o);
        } else if ListMarker(raw).Some? {
          SafeListReturns(ls, b, ListMarker(raw).value.ordered, o);
        } else {
          SafePlainReturns(ls, b, o);
        }
    }
  }

  lemma SafePlainReturns(ls: seq<string>, b: nat, o: Options)
    requires Safe(ls) && ls != [] && b == CountIndent(ls[0]) && !IsBlank(ls[0])
    ensures PlainBlock(ls, b, o).Some?
  {
    hide SafeLine, ParagraphLines, Trim;
    ParagraphLinesSafe(ls, b, o, true);
  }

  lemma SafeDirectiveReturns(ls: seq<string>, b: nat, name: string, attrs: Attrs, o: Options)
    requires Safe(ls) && ls != [] && b == CountIndent(ls[0]) && !IsBlank(ls[0])
    ensures DirectiveBlock(ls, b, name, attrs, o).Some?
    decreases Total(ls), |ls|, 0
  {
    hide SafeLine, DirectiveLines, Blocks, Trim;
    NotBlankNotEmpty(ls[0]);
    DirectiveLinesSafe(ls[1..], b, 1);
    SafeBlocksReturn(DirectiveLines(ls[1..], b, 1).value.lines, o);
  }

  lemma SafeListReturns(ls: seq<string>, b: nat, ordered: bool, o: Options)
    requires Safe(ls)
    ensures ListItems(ls, b, ordered, o).Some?
    decreases Total(ls), |ls|, 0
  {
    hide SafeLine, Blocks, Trim, ListMarker, TaskPrefix, ItemLines;
    if IsItem(ls, b, ordered) {
      RestSafe(ls[0], b);
      ContentSafe(ls[0][b..], o);
      ItemLinesSafe(ls[1..], b);
      var item := ItemOf(ListMarker(ls[0][b..]).value.content, o);
      var taken := ItemLines(ls[1..], b);
      var lines := [item.own] + taken.lines;
      assert lines[1..] == taken.lines;
      TotalOfRest(ls[1..], taken.count);
      SafeBlocksReturn(lines, o);
      SafeListReturns(ls[1..][taken.count..], b, ordered, o);
    }
  }

  lemma SafeSourceReturns(src: string, o: Options)
    requires Safe(Query.Split(StripNewlines(src), '\n'))
    ensures ToAst(src, o).Some?
  {
    hide Blocks, Safe;
    SafeBlocksReturn(Query.Split(StripNewlines(src), '\n'), o);
  }

  // ----- when it does not come back -----

  predicate AnyStuck(ls: seq<string>) {
    exists l | l in ls :: DirectiveOpen(l).OpenerHangs?
  }

  lemma AnyStuckConcat(a: seq<string>, b: seq<string>)
    ensures AnyStuck(a + b) <==> AnyStuck(a) || AnyStuck(b)
  {
    hide DirectiveOpen;
    forall l | l in a ensures l in a + b {}
    forall l | l in b ensures l in a + b {}
  }

  lemma AnyStuckCons(l: string, more: seq<string>)
    ensures AnyStuck([l] + more) <==> DirectiveOpen(l).OpenerHangs? || AnyStuck(more)
  {
    hide DirectiveOpen;
    AnyStuckConcat([l], more);
    assert l in [l];
  }

  /** The lines inside a directive: up to the ":::" that closes it. */
  function BodyLines(ls: seq<string>, b: nat, depth: nat): (t: Taken)
    requires depth > 0
    ensures Within(t, ls)
  {
    if ls == [] then Taken([], 0)
    else
      var raw := Dedented(ls[0], b);
      var closes := Trim(raw) == ":::";
      if closes && depth == 1 then Taken([], 1)
      else More(raw, BodyLines(ls[1..], b,
          if closes then depth - 1 else if DirectiveOpen(raw).Opener? then depth + 1 else depth))
  }

  /** The lines behind the first that a paragraph goes on to, with the one that ends
      it if that could open a directive. */
  function ParagraphLookups(ls: seq<string>, b: nat, o: Options, first: bool): seq<string> {
    if ls == [] || IsBlank(ls[0]) || CountIndent(ls[0]) < b || (!first && StartsOther(ls[0][b..])) then []
    else
      var raw := ls[0][b..];
      if first then ParagraphLookups(ls[1..], b, o, false)
      else if DirectiveOpen(raw).Opener? || IsTableStart(raw, ls, b, o) then [raw]
      else [raw] + ParagraphLookups(ls[1..], b, o, false)
  }

  /** How many lines a paragraph takes. */
  function ParagraphCount(ls: seq<string>, b: nat, o: Options, first: bool): (n: nat)
    ensures n <= |ls| && (first && ls != [] && !IsBlank(ls[0]) && CountIndent(ls[0]) >= b ==> n > 0)
  {
    if ls == [] || IsBlank(ls[0]) || CountIndent(ls[0]) < b then 0
    else
      var raw := ls[0][b..];
      if !first && (StartsOther(raw) || DirectiveOpen(raw).Opener? || IsTableStart(raw, ls, b, o)) then 0
      else 1 + ParagraphCount(ls[1..], b, o, false)
  }

  /** How many lines a list takes. */
  function ListCount(ls: seq<string>, b: nat, ordered: bool): (n: nat)
    ensures n <= |ls| && (IsItem(ls, b, ordered) ==> n > 0)
    decreases |ls|
  {
    if !IsItem(ls, b, ordered) then 0
    else
      var taken := ItemLines(ls[1..], b);
      1 + taken.count + ListCount(ls[1..][taken.count..], b, ordered)
  }

  /** The lines at which the parser asks whether a directive opens there: the first
      of a block that is no heading, fence or rule, those that a paragraph goes on
      to, and all inside a directive. */
  function Lookups(ls: seq<string>, o: Options): seq<string>
    decreases Total(ls), |ls|, 2
  {
    if ls == [] then []
    else if IsBlank(ls[0]) then Lookups(ls[1..], o)
    else
      var found := BlockLookups(ls, CountIndent(ls[0]), o);
      TotalOfRest(ls, found.count);
      found.lines + Lookups(ls[found.count..], o)
  }

  lemma BodyShrinks(ls: seq<string>, b: nat)
    requires ls != [] && !IsBlank(ls[0])
    ensures Total(BodyLines(ls[1..], b, 1).lines) < Total(ls) && BodyLines(ls[1..], b, 1).count < |ls|
  {
    hide BodyLines;
    NotBlankNotEmpty(ls[0]);
  }

  /** Those of the first block, and how many lines it takes. */
  function BlockLookups(ls: seq<string>, b: nat, o: Options): (t: Taken)
    requires ls != [] && b == CountIndent(ls[0]) && !IsBlank(ls[0])
    ensures 0 < t.count <= |ls|
    decreases Total(ls), |ls|, 1
  {
    var raw := ls[0][b..];
    var leaf := LeafBlock(ls, b, o);
    if leaf.Some? then Taken([], leaf.value.1)
    else if DirectiveOpen(raw).Opener? then
      BodyShrinks(ls, b);
      var body := BodyLines(ls[1..], b, 1);
      Taken([raw] + body.lines + Lookups(body.lines, o), body.count + 1)
    else if StartsWith(Trim(raw), ">") then
      QuoteShrinks(ls, b);
      Taken([raw] + Lookups(QuoteLines(ls, b).lines, o), QuoteLines(ls, b).count)
    else if ListMarker(raw).Some? then
      var ordered := ListMarker(raw).value.ordered;
      Taken([raw] + ItemLookups(ls, b, ordered, o), ListCount(ls, b, ordered))
    else PlainLookups(ls, b, o)
  }

  function PlainLookups(ls: seq<string>, b: nat, o: Options): (t: Taken)
    requires ls != [] && b == CountIndent(ls[0]) && !IsBlank(ls[0])
    ensures 0 < t.count <= |ls|
  {
    var raw := ls[0][b..];
    if IsTableStart(raw, ls, b, o) then Taken([raw], Rows(ls[2..], b, o).1 + 2)
    else if o.allowHtml && StartsWith(Trim(raw), "<") then Taken([raw], HtmlLines(ls, b).count)
    else Taken([raw] + ParagraphLookups(ls, b, o, true), ParagraphCount(ls, b, o, true))
  }

  function ItemLookups(ls: seq<string>, b: nat, ordered: bool, o: Options): seq<string>
    decreases Total(ls), |ls|, 0
  {
    if !IsItem(ls, b, ordered) then []
    else
      var item := ItemOf(ListMarker(ls[0][b..]).value.content, o);
      var taken := ItemLines(ls[1..], b);
      ItemShrinks(ls, b, ordered, item.own);
      Lookups([item.own] + taken.lines, o) + ItemLookups(ls[1..][taken.count..], b, ordered, o)
  }

  lemma {:induction false} BodyHangsIff(ls: seq<string>, b: nat, depth: nat)
    requires depth > 0
    ensures var body := BodyLines(ls, b, depth);
      DirectiveLines(ls, b, depth) == if AnyStuck(body.lines) then None else Some(body)
  {
    hide DirectiveOpen, Trim, Dedented, AnyStuck;
    NoneStuck();
    if ls != [] {
      var raw := Dedented(ls[0], b);
      var closes := Trim(raw) == ":::";
      OpenerStarts(raw);
      if !(closes && depth == 1) {
        var inner := if closes then depth - 1 else if DirectiveOpen(raw).Opener? then depth + 1 else depth;
        BodyHangsIff(ls[1..], b, inner);
        AnyStuckCons(raw, BodyLines(ls[1..], b, inner).lines);
      }
    }
  }

  lemma NoneStuck()
    ensures !AnyStuck([])
  {
  }

  lemma OpenerStarts(raw: string)
    ensures !StartsWith(Trim(raw), ":::") || Trim(raw) == ":::" ==> DirectiveOpen(raw).NoOpener?
  {
  }

  lemma {:induction false} ParagraphHangsIff(ls: seq<string>, b: nat, o: Options, first: bool)
    ensures ParagraphLines(ls, b, o, first) == None <==> AnyStuck(ParagraphLookups(ls, b, o, first))
    ensures match ParagraphLines(ls, b, o, first)
      case None => true
      case Some(t) => t.count == ParagraphCount(ls, b, o, first)
  {
    hide DirectiveOpen, Trim, StartsOther, IsTableStart, IsBlank, AnyStuck;
    NoneStuck();
    if ls != [] && !IsBlank(ls[0]) && CountIndent(ls[0]) >= b {
      var raw := ls[0][b..];
      ParagraphHangsIff(ls[1..], b, o, false);
      AnyStuckCons(raw, ParagraphLookups(ls[1..], b, o, false));
      AnyStuckCons(raw, []);
      assert [raw] + [] == [raw];
    }
  }

  /** The parser never comes back if and only if a line at which it asks whether a
      directive opens has attributes that are stuck; lines in a fence, a table or a
      heading are no such lines. */
  lemma {:induction false} BlocksHangIff(ls: seq<string>, o: Options)
    ensures Blocks(ls, o) == None <==> AnyStuck(Lookups(ls, o))
    decreases Total(ls), |ls|, 2
  {
    hide Block, BlockLookups, IsBlank, AnyStuck;
    NoneStuck();
    if ls == [] {
    } else if IsBlank(ls[0]) {
      BlocksHangIff(ls[1..], o);
    } else {
      var found := BlockLookups(ls, CountIndent(ls[0]), o);
      BlockHangsIff(ls, o);
      TotalOfRest(ls, found.count);
      BlocksHangIff(ls[found.count..], o);
      AnyStuckConcat(found.lines, Lookups(ls[found.count..], o));
    }
  }

  lemma BlockHangsIff(ls: seq<string>, o: Options)
    requires ls != [] && !IsBlank(ls[0])
    ensures var found := BlockLookups(ls, CountIndent(ls[0]), o);
      match Block(ls, CountIndent(ls[0]), o)
      case None => AnyStuck(found.lines)
      case Some(r) => !AnyStuck(found.lines) && r.1 == found.count
    decreases Total(ls), |ls|, 1
  {
    hide Trim, LeafBlock, DirectiveOpen, ListMarker, QuoteLines, Blocks, IsBlank, AnyStuck, Lookups, DirectiveBlock,
      ListItems, ItemLookups, PlainBlock, BodyLines, PlainLookups, ListCount;
    var b := CountIndent(ls[0]);
    var raw := ls[0][b..];
    NoneStuck();
    if LeafBlock(ls, b, o).None? {
      NotBlankNotEmpty(ls[0]);
      if DirectiveOpen(raw).Opener? {
        DirectiveHangsIff(ls, b, DirectiveOpen(raw).name, DirectiveOpen(raw).attrs, o);
      } else if StartsWith(Trim(raw), ">") {
        QuoteShrinks(ls, b);
        BlocksHangIff(QuoteLines(ls, b).lines, o);
        AnyStuckCons(raw, Lookups(QuoteLines(ls, b).lines, o));
      } else if ListMarker(raw).Some? {
        ListHangsIff(ls, b, ListMarker(raw).value.ordered, o);
        AnyStuckCons(raw, ItemLookups(ls, b, ListMarker(raw).value.ordered, o));
      } else {
        PlainHangsIff(ls, b, o);
      }
    }
  }

  lemma PlainHangsIff(ls: seq<string>, b: nat, o: Options)
    requires ls != [] && b == CountIndent(ls[0]) && !IsBlank(ls[0])
    ensures var found := PlainLookups(ls, b, o);
      && (AnyStuck(found.lines) <==> DirectiveOpen(ls[0][b..]).OpenerHangs? || PlainBlock(ls, b, o) == None)
      && (PlainBlock(ls, b, o).Some? ==> PlainBlock(ls, b, o).value.1 == found.count)
  {
    hide Trim, DirectiveOpen, AnyStuck, ParagraphLookups, ParagraphCount, ParagraphLines, TableSeparator, PipeRow;
    var raw := ls[0][b..];
    NoneStuck();
    AnyStuckCons(raw, ParagraphLookups(ls, b, o, true));
    AnyStuckCons(raw, []);
    assert [raw] + [] == [raw];
    ParagraphHangsIff(ls, b, o, true);
  }

  lemma DirectiveHangsIff(ls: seq<string>, b: nat, name: string, attrs: Attrs, o: Options)
    requires ls != [] && b == CountIndent(ls[0]) && !IsBlank(ls[0]) && ls[0] != ""
    requires DirectiveOpen(ls[0][b..]).Opener?
    ensures var body := BodyLines(ls[1..], b, 1);
      match DirectiveBlock(ls, b, name, attrs, o)
      case None => AnyStuck([ls[0][b..]] + body.lines + Lookups(body.lines, o))
      case Some(r) => !AnyStuck([ls[0][b..]] + body.lines + Lookups(body.lines, o)) && r.1 == body.count + 1
    decreases Total(ls), |ls|, 0
  {
    hide Trim, DirectiveOpen, DirectiveLines, Blocks, Lookups, AnyStuck, BodyLines, IsBlank;
    var body := BodyLines(ls[1..], b, 1);
    BodyHangsIff(ls[1..], b, 1);
    BlocksHangIff(body.lines, o);
    AnyStuckCons(ls[0][b..], body.lines);
    AnyStuckConcat([ls[0][b..]] + body.lines, Lookups(body.lines, o));
  }

  lemma ListHangsIff(ls: seq<string>, b: nat, ordered: bool, o: Options)
    ensures match ListItems(ls, b, ordered, o)
      case None => AnyStuck(ItemLookups(ls, b, ordered, o))
      case Some(r) => !AnyStuck(ItemLookups(ls, b, ordered, o)) && r.1 == ListCount(ls, b, ordered)
    decreases Total(ls), |ls|, 0
  {
    hide Trim, Blocks, Lookups, ListMarker, ItemOf, ItemLines, AnyStuck, IsBlank;
    NoneStuck();
    if IsItem(ls, b, ordered) {
      var item := ItemOf(ListMarker(ls[0][b..]).value.content, o);
      var taken := ItemLines(ls[1..], b);
      ItemShrinks(ls, b, ordered, item.own);
      BlocksHangIff([item.own] + taken.lines, o);
      ListHangsIff(ls[1..][taken.count..], b, ordered, o);
      AnyStuckConcat(Lookups([item.own] + taken.lines, o), ItemLookups(ls[1..][taken.count..], b, ordered, o));
    }
  }

  lemma SourceHangsIff(src: string, o: Options)
    ensures ToAst(src, o) == None <==> AnyStuck(Lookups(Query.Split(StripNewlines(src), '\n'), o))
  {
    hide Blocks, Lookups, AnyStuck;
    BlocksHangIff(Query.Split(StripNewlines(src), '\n'), o);
  }

  /** A source that starts with the opening of a directive whose attributes are
      stuck: the parser never comes back, whatever follows. */
  lemma StuckDirectiveHangs(ls: seq<string>, o: Options)
    requires ls != [] && !IsBlank(ls[0]) && LeafBlock(ls, CountIndent(ls[0]), o).None?
    requires DirectiveOpen(ls[0][CountIndent(ls[0])..]).OpenerHangs?
    ensures Blocks(ls, o) == None
  {
    hide LeafBlock, DirectiveOpen, Trim;
  }

  lemma OpenerHangsIff(raw: string)
    ensures var t := Trim(raw);
      var payload := if StartsWith(t, ":::") then Trim(t[3..]) else "";
      DirectiveOpen(raw).OpenerHangs? <==>
        IsIdentifier(payload[..WordLength(payload)]) && Stuck(Trim(payload[WordLength(payload)..]))
  {
    hide ParseAttrs, IsIdentifier, Stuck;
    var t := Trim(raw);
    var payload := if StartsWith(t, ":::") then Trim(t[3..]) else "";
    AttrsHangIff(Trim(payload[WordLength(payload)..]), Attrs(map[], ""));
    EmptyIsNoIdentifier();
    if t == ":::" { assert t[3..] == ""; }
  }

  lemma EmptyIsNoIdentifier()
    ensures !IsIdentifier("") && Trim("") == ""
  {
  }

  // ----- one that does not -----

  lemma {:induction false} SplitOne(s: string)
    requires Without(s, '\n')
    ensures Query.Split(s, '\n') == [s]
  {
    if s != "" {
      SplitOne(s[..|s| - 1]);
      assert s[..|s| - 1] + [s[|s| - 1]] == s;
    }
  }

  lemma {:induction false} StripNothing(s: string)
    requires Without(s, '\r')
    ensures StripNewlines(s) == s
  {
    if s != "" { StripNothing(s[1..]); }
  }

  lemma {:induction false} WordEndsAtSpace(name: string, rest: string)
    requires (forall i | 0 <= i < |name| :: !IsSpace(name[i])) && rest != "" && IsSpace(rest[0])
    ensures WordLength(name + rest) == |name|
  {
    if name == "" {
      assert name + rest == rest;
    } else {
      WordEndsAtSpace(name[1..], rest);
      assert (name + rest)[1..] == name[1..] + rest;
    }
  }

  lemma NothingToTrim(s: string)
    requires s != "" && !IsSpace(s[0]) && !IsSpace(s[|s| - 1])
    ensures Trim(s) == s
  {
  }

  lemma BareOpenerHangs(name: string)
    requires IsIdentifier(name)
    ensures DirectiveOpen(":::" + name + " =").OpenerHangs?
  {
    hide Trim, ParseAttrs;
    var t := ":::" + name + " =";
    NothingToTrim(t);
    assert t[..3] == ":::" && t[3..] == name + " =";
    NothingToTrim(name + " =");
    WordEndsAtSpace(name, " =");
    assert (name + " =")[..|name|] == name && (name + " =")[|name|..] == " =";
    SpaceEquals();
    StuckAtEquals("=", Attrs(map[], ""));
  }

  lemma SpaceEquals()
    ensures Trim(" =") == "="
  {
    assert " ="[1..] == "=";
    NothingToTrim("=");
  }

  lemma ColonsAreNoLeaf(line: string, o: Options)
    requires line != "" && line[0] == ':' && !IsSpace(line[|line| - 1])
    ensures CountIndent(line) == 0 && !IsBlank(line) && LeafBlock([line], 0, o).None?
  {
    hide Trim, AtxHeading, Fence, IsRule;
    NothingToTrim(line);
    assert line[0..] == line;
    ColonsAreNoMark(line);
  }

  lemma ColonsAreNoMark(raw: string)
    requires Trim(raw) != "" && Trim(raw)[0] == ':'
    ensures AtxHeading(raw).None? && Fence(raw).None? && !IsRule(raw)
  {
    hide Trim;
  }

  /** `:::note =`, and the same with any other name. */
  lemma BareEqualsHangs(name: string, o: Options)
    requires IsIdentifier(name)
    ensures ToAst(":::" + name + " =", o) == None
  {
    hide IsIdentifier, DirectiveOpen, LeafBlock, Blocks, IsBlank, CountIndent;
    var line := ":::" + name + " =";
    assert Without(line, '\n') && Without(line, '\r') by { PlainName(name); }
    SplitOne(line);
    StripNothing(line);
    BareOpenerHangs(name);
    ColonsAreNoLeaf(line, o);
    assert line[0..] == line;
    StuckDirectiveHangs([line], o);
  }

  lemma PlainName(name: string)
    requires IsIdentifier(name)
    ensures Without(name, '\n') && Without(name, '\r')
  {
  }
}
