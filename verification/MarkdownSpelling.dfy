/** How Markdown is spelled: a relation between source text and the nodes of running
    text, defined on the nodes alone, and the proof that the parser makes of every
    text the one list of nodes that it spells (src/lib/markdown.cpp:467-707). */
module MarkdownSpelling {
  import opened Text
  import opened MarkdownInline

  // ----- marks, blanks and quotes -----

  /** The first `mark` from `from` on stands at `at`. */
  predicate FirstAt(s: string, from: nat, mark: string, at: nat) {
    from <= at && At(s, at, mark) && forall k | from <= k < at :: !At(s, k, mark)
  }

  lemma FirstAtIff(s: string, from: nat, mark: string, at: nat)
    requires mark != "" && from <= |s|
    ensures FirstAt(s, from, mark, at) <==> at < |s| && FindText(s, mark, from) == at
  {
    hide FindText, At;
    var p := FindText(s, mark, from);
    if FirstAt(s, from, mark, at) {
      assert At(s, at, mark);
      assert at < |s| by { AtFits(s, at, mark); }
      assert p < |s| ==> At(s, p, mark);
    }
  }

  lemma AtFits(s: string, at: nat, mark: string)
    requires At(s, at, mark)
    ensures at + |mark| <= |s| && s[at..at + |mark|] == mark
  {
  }

  lemma AtChar(s: string, at: nat, c: char)
    ensures At(s, at, [c]) <==> at < |s| && s[at] == c
  {
    if at < |s| { assert s[at..at + 1] == [s[at]]; }
  }

  lemma FirstCharIff(s: string, from: nat, c: char, at: nat)
    requires from <= |s|
    ensures FirstAt(s, from, [c], at) <==> at < |s| && Find(s, c, from) == at
  {
    hide Find, At;
    var p := Find(s, c, from);
    forall k: nat ensures At(s, k, [c]) <==> k < |s| && s[k] == c { AtChar(s, k, c); }
    assert p < |s| ==> At(s, p, [c]);
  }

  /** `t` is `raw` without the blanks at both ends. */
  ghost predicate Trimmed(raw: string, t: string) {
    && (t != "" ==> !IsSpace(t[0]) && !IsSpace(t[|t| - 1]))
    && exists i: nat :: TrimmedBy(raw, t, i)
  }

  predicate TrimmedBy(raw: string, t: string, i: nat) {
    At(raw, i, t) && Blank(raw[..i]) && Blank(raw[i + |t|..])
  }

  lemma TrimmedFront(raw: string, t: string, i: nat)
    requires raw != "" && IsSpace(raw[0]) && TrimmedBy(raw[1..], t, i)
    ensures TrimmedBy(raw, t, i + 1)
  {
    var rest := raw[1..];
    assert rest[i..i + |t|] == raw[i + 1..i + 1 + |t|] && rest[i + |t|..] == raw[i + 1 + |t|..];
    assert raw[..i + 1] == [raw[0]] + rest[..i];
  }

  lemma TrimmedBack(raw: string, t: string, i: nat)
    requires raw != "" && IsSpace(raw[|raw| - 1]) && TrimmedBy(raw[..|raw| - 1], t, i)
    ensures TrimmedBy(raw, t, i)
  {
    var front := raw[..|raw| - 1];
    assert front[i..i + |t|] == raw[i..i + |t|] && front[..i] == raw[..i];
    assert raw[i + |t|..] == front[i + |t|..] + [raw[|raw| - 1]];
  }

  lemma TrimmedAlready(raw: string)
    ensures TrimmedBy(raw, raw, 0)
  {
    assert raw[0..|raw|] == raw && raw[..0] == "" && raw[|raw|..] == "";
  }

  lemma {:induction false} TrimIsTrimmed(raw: string)
    ensures Trimmed(raw, Trim(raw))
  {
    hide TrimmedBy;
    var t := Trim(raw);
    if raw != "" && IsSpace(raw[0]) {
      TrimIsTrimmed(raw[1..]);
      var i: nat :| TrimmedBy(raw[1..], t, i);
      TrimmedFront(raw, t, i);
    } else if raw != "" && IsSpace(raw[|raw| - 1]) {
      TrimIsTrimmed(raw[..|raw| - 1]);
      var i: nat :| TrimmedBy(raw[..|raw| - 1], t, i);
      TrimmedBack(raw, t, i);
    } else {
      TrimmedAlready(raw);
    }
  }

  lemma BlankBefore(raw: string, j: nat, k: nat)
    requires k < j <= |raw| && Blank(raw[..j])
    ensures IsSpace(raw[k])
  {
    assert raw[..j][k] == raw[k];
  }

  lemma BlankBehind(raw: string, j: nat, k: nat)
    requires j <= k < |raw| && Blank(raw[j..])
    ensures IsSpace(raw[k])
  {
    assert raw[j..][k - j] == raw[k];
  }

  lemma TrimmedOnce(raw: string, t: string, u: string, i: nat, j: nat)
    requires TrimmedBy(raw, t, i) && TrimmedBy(raw, u, j) && t != "" && !IsSpace(t[0]) && !IsSpace(t[|t| - 1])
    ensures j <= i && i + |t| <= j + |u|
  {
    hide Blank;
    assert raw[i] == t[0] && raw[i + |t| - 1] == t[|t| - 1];
    if i < j { BlankBefore(raw, j, i); }
    if j + |u| < i + |t| { BlankBehind(raw, j + |u|, i + |t| - 1); }
  }

  lemma TrimIff(raw: string, t: string)
    ensures Trimmed(raw, t) <==> t == Trim(raw)
  {
    hide Trim, TrimmedBy;
    TrimIsTrimmed(raw);
    if Trimmed(raw, t) {
      var u := Trim(raw);
      var i: nat :| TrimmedBy(raw, t, i);
      var j: nat :| TrimmedBy(raw, u, j);
      if t != "" { TrimmedOnce(raw, t, u, i, j); }
      if u != "" { TrimmedOnce(raw, u, t, j, i); }
      TrimmedPart(raw, t, i);
      TrimmedPart(raw, u, j);
    }
  }

  lemma TrimmedPart(raw: string, t: string, i: nat)
    requires TrimmedBy(raw, t, i)
    ensures i + |t| <= |raw| && t == raw[i..i + |t|]
  {
  }

  /** `x` is `t` without the quotes around it, if it has any. */
  predicate Bare(t: string, x: string) {
    if |t| >= 2 && (t[0] == '"' || t[0] == '\'') && t[|t| - 1] == t[0] then t == [t[0]] + x + [t[0]] else x == t
  }

  lemma BareIff(t: string, x: string)
    requires Trim(t) == t
    ensures Bare(t, x) <==> x == TrimQuotes(t)
  {
    hide Trim;
    if |t| >= 2 && (t[0] == '"' || t[0] == '\'') && t[|t| - 1] == t[0] {
      if Bare(t, x) { assert ([t[0]] + x + [t[0]])[1..|t| - 1] == x; }
      assert t == [t[0]] + t[1..|t| - 1] + [t[0]];
    }
  }

  lemma TrimTwice(raw: string)
    ensures Trim(Trim(raw)) == Trim(raw)
  {
    hide Trim;
    var t := Trim(raw);
    TrimIff(raw, t);
    TrimmedAlready(t);
    TrimIff(t, t);
  }

  // ----- link targets -----

  /** "url", or "url title" parted by the first blank. */
  ghost predicate TargetIs(raw: string, url: string, title: string) {
    exists t :: Trimmed(raw, t) && t != "" && (OneWord(t, url, title) || TwoWords(t, url, title))
  }

  predicate OneWord(t: string, url: string, title: string) {
    Without(t, ' ') && Bare(t, url) && title == ""
  }

  ghost predicate TwoWords(t: string, url: string, title: string) {
    exists n: nat, u, v :: FirstAt(t, 0, " ", n) && PartedAt(t, n, u, v) && Bare(u, url) && url != "" && Bare(v, title)
  }

  ghost predicate PartedAt(t: string, n: nat, u: string, v: string) {
    n < |t| && Trimmed(t[..n], u) && Trimmed(t[n + 1..], v)
  }

  lemma TargetIff(raw: string, url: string, title: string)
    ensures TargetIs(raw, url, title) <==> LinkTarget(raw) == Some((url, title))
  {
    hide Trim, TrimQuotes, Find, Bare, TwoWords, OneWord, Trimmed;
    var t := Trim(raw);
    TrimIff(raw, t);
    forall u ensures Trimmed(raw, u) <==> u == t { TrimIff(raw, u); }
    if t != "" {
      OneWordIff(raw, url, title);
      TwoWordsIff(raw, url, title);
      TargetIsWords(raw, t, url, title);
    } else {
      assert LinkTarget(raw) == None;
      if TargetIs(raw, url, title) {
        var u :| Trimmed(raw, u) && u != "" && (OneWord(u, url, title) || TwoWords(u, url, title));
      }
    }
  }

  lemma TargetIsWords(raw: string, t: string, url: string, title: string)
    requires t != "" && forall u :: Trimmed(raw, u) <==> u == t
    ensures TargetIs(raw, url, title) <==> OneWord(t, url, title) || TwoWords(t, url, title)
  {
    hide Trimmed, OneWord, TwoWords;
    assert Trimmed(raw, t);
  }

  lemma OneWordIff(raw: string, url: string, title: string)
    requires Trim(raw) != ""
    ensures OneWord(Trim(raw), url, title) <==>
      Find(Trim(raw), ' ', 0) == |Trim(raw)| && LinkTarget(raw) == Some((url, title))
  {
    hide Trim, TrimQuotes, Find, Bare;
    TrimTwice(raw);
    BareIff(Trim(raw), url);
  }

  lemma TwoWordsIff(raw: string, url: string, title: string)
    requires Trim(raw) != ""
    ensures TwoWords(Trim(raw), url, title) <==>
      Find(Trim(raw), ' ', 0) < |Trim(raw)| && LinkTarget(raw) == Some((url, title))
  {
    hide Trim, TrimQuotes, Find, Bare, FirstAt, Trimmed;
    var t := Trim(raw);
    var n := Find(t, ' ', 0);
    forall m: nat ensures FirstAt(t, 0, " ", m) <==> m < |t| && n == m { FirstCharIff(t, 0, ' ', m); }
    if n < |t| {
      var front, back := t[..n], t[n + 1..];
      var u, v := Trim(front), Trim(back);
      forall x ensures Trimmed(front, x) <==> x == u { TrimIff(front, x); }
      forall x ensures Trimmed(back, x) <==> x == v { TrimIff(back, x); }
      TrimTwice(t[..n]);
      TrimTwice(t[n + 1..]);
      BareIff(u, url);
      BareIff(v, title);
      assert PartedAt(t, n, u, v);
      assert TwoWords(t, url, title) <==> Bare(u, url) && url != "" && Bare(v, title);
    }
  }

  // ----- what may stand at the front of a text -----

  /** A construct of running text, by what is written in it. */
  datatype Shape =
    | Ticked(code: string)
    | Picture(alt: string, url: string, title: string)
    | Anchor(caption: string, url: string, title: string)
    | Struck(inside: string)
    | Bold(inside: string)
    | Slanted(inside: string)
    | Address(url: string)
    | Markup(html: string)

  /** Which of two constructs at one place counts: the one of the lower rank. */
  function Rank(shape: Shape): nat {
    match shape
    case Ticked(_) => 0
    case Picture(_, _, _) => 1
    case Anchor(_, _, _) => 2
    case Struck(_) => 3
    case Bold(_) => 4
    case Slanted(_) => 5
    case Address(_) => 6
    case Markup(_) => 7
  }

  /** `n` is the whole run of `c` at the front. */
  predicate RunOf(s: string, c: char, n: nat) {
    n <= |s| && (forall i | 0 <= i < n :: s[i] == c) && (n < |s| ==> s[n] != c)
  }

  /** A run of backticks, the code, and the same run, where it first comes again. */
  ghost predicate IsTicked(s: string, code: string, k: nat) {
    exists n: nat :: n > 0 && RunOf(s, '`', n) && Wrapped(s, s[..n], code, k)
  }

  /** `mark` inside `mark`, k characters, and no earlier end. */
  predicate Wrapped(s: string, mark: string, inside: string, k: nat) {
    StartsWith(s, mark + inside + mark) && k == |inside| + 2 * |mark| && FirstAt(s, |mark|, mark, |mark| + |inside|)
  }

  /** `open` caption ](target), each up to the first end mark. */
  ghost predicate IsBracketed(s: string, open: string, caption: string, url: string, title: string, k: nat) {
    exists target :: TargetIs(target, url, title) && BracketedBy(s, open, caption, target, k)
  }

  predicate BracketedBy(s: string, open: string, caption: string, target: string, k: nat) {
    && StartsWith(s, open + caption + "](" + target + ")") && k == |open| + |caption| + |target| + 3
    && Without(caption, ']') && Without(target, ')')
  }

  predicate EndsAddress(c: char) {
    IsSpace(c) || c == '<' || c == '>'
  }

  /** The stretch from "http" up to a blank or angle bracket, without the
      punctuation at its end. */
  ghost predicate IsAddress(s: string, url: string) {
    && (StartsWith(s, "https://") || StartsWith(s, "http://"))
    && url != "" && !Punctuation(url[|url| - 1]) && exists m: nat :: AddressUpTo(s, url, m)
  }

  /** The stretch at the front that holds nothing that ends an address. */
  predicate Stretch(s: string, m: nat) {
    m <= |s| && (forall i | 0 <= i < m :: !EndsAddress(s[i])) && (m < |s| ==> EndsAddress(s[m]))
  }

  predicate AddressUpTo(s: string, url: string, m: nat) {
    Stretch(s, m) && BeforePunctuation(s[..m], url)
  }

  predicate BeforePunctuation(w: string, url: string) {
    StartsWith(w, url) && forall i | |url| <= i < |w| :: Punctuation(w[i])
  }

  /** `shape` stands at the front of `s`, k characters long. */
  ghost predicate Stands(s: string, shape: Shape, k: nat, o: Options) {
    match shape
    case Ticked(code) => IsTicked(s, code, k)
    case Picture(alt, url, title) => IsBracketed(s, "![", alt, url, title, k)
    case Anchor(caption, url, title) => IsBracketed(s, "[", caption, url, title, k)
    case Struck(inside) => o.gfm && Wrapped(s, "~~", inside, k)
    case Bold(inside) => Wrapped(s, "**", inside, k) || Wrapped(s, "__", inside, k)
    case Slanted(inside) => Wrapped(s, "*", inside, k) || Wrapped(s, "_", inside, k)
    case Address(url) => o.gfm && IsAddress(s, url) && k == |url|
    case Markup(html) =>
      o.allowHtml && |html| >= 3 && html[0] == '<' && k == |html| && StartsWith(s, html) && FirstAt(s, 1, ">", k - 1)
  }

  /** And nothing of a lower rank does. */
  ghost predicate Leads(s: string, shape: Shape, k: nat, o: Options) {
    && 0 < k <= |s| && Stands(s, shape, k, o)
    && forall other: Shape, j: nat :: Stands(s, other, j, o) ==> Rank(shape) <= Rank(other)
  }

  /** No construct stands at the front of `s`. */
  ghost predicate Plain(s: string, o: Options) {
    forall shape: Shape, k: nat :: !Stands(s, shape, k, o)
  }

  // ----- the relation -----

  /** `t`, with `rest` behind it, spells the characters of `text`: each behind a
      backslash, or as it is where no construct stands. */
  ghost predicate Letters(t: string, rest: string, text: string, o: Options)
    decreases |t|
  {
    if text == "" || t == "" then text == t == ""
    else if t[0] == '\\' && |t + rest| > 1 then |t| > 1 && t[1] == text[0] && Letters(t[2..], rest, text[1..], o)
    else t[0] == text[0] && Plain(t + rest, o) && Letters(t[1..], rest, text[1..], o)
  }

  /** `s` spells the nodes: stretches of text, no two side by side, and constructs. */
  ghost predicate Spells(s: string, ns: seq<Node>, o: Options)
    decreases ns, 0
  {
    if ns == [] then s == ""
    else if ns[0].TextNode? then
      && ns[0].text != "" && (|ns| > 1 ==> !ns[1].TextNode?)
      && exists k: nat :: k <= |s| && Letters(s[..k], s[k..], ns[0].text, o) && Spells(s[k..], ns[1..], o)
    else exists shape: Shape, k: nat ::
      k <= |s| && Leads(s, shape, k, o) && Makes(shape, ns[0], o) && Spells(s[k..], ns[1..], o)
  }

  /** What a construct is a node of, its inside spelled in turn. */
  ghost predicate Makes(shape: Shape, n: Node, o: Options)
    decreases n, 1
  {
    match n
    case CodeSpan(text) => shape == Ticked(text)
    case Image(alt, src, title) => shape == Picture(alt, src, title)
    case RawHtml(html) => shape == Markup(html)
    case Link(href, title, c) =>
      || (shape.Address? && shape.url == href && title == "" && c == [TextNode(href)])
      || (shape.Anchor? && shape.url == href && shape.title == title && Spells(shape.caption, c, o))
    case Strike(c) => shape.Struck? && Spells(shape.inside, c, o)
    case Strong(c) => shape.Bold? && Spells(shape.inside, c, o)
    case Em(c) => shape.Slanted? && Spells(shape.inside, c, o)
    case _ => false
  }

  // ----- where the parser finds a construct -----

  /** What the parser finds of one rank. */
  function Found(s: string, rank: nat, o: Options): Option<(Shape, nat)>
    requires s != ""
  {
    match rank
    case 0 => FoundTicked(s)
    case 1 => if StartsWith(s, "![") then FoundBracketed(s, 2) else None
    case 2 => if s[0] == '[' then FoundBracketed(s, 1) else None
    case 3 => if o.gfm && StartsWith(s, "~~") then FoundWrapped(s, "~~") else None
    case 4 => if StartsWith(s, "**") || StartsWith(s, "__") then FoundWrapped(s, s[..2]) else None
    case 5 => if s[0] == '*' || s[0] == '_' then FoundWrapped(s, [s[0]]) else None
    case 6 =>
      var auto := if o.gfm then Autolink(s) else None;
      if auto.Some? then Some((Address(auto.value), |auto.value|)) else None
    case _ =>
      var close := Find(s, '>', 1);
      if o.allowHtml && s[0] == '<' && close < |s| && close >= 2 then Some((Markup(s[..close + 1]), close + 1))
      else None
  }

  function FoundTicked(s: string): Option<(Shape, nat)> {
    var t := Ticks(s);
    if t == 0 then None
    else
      var close := FindText(s, s[..t], t);
      if close < |s| then Some((Ticked(s[t..close]), close + t)) else None
  }

  function FoundBracketed(s: string, from: nat): Option<(Shape, nat)>
    requires from <= |s|
  {
    match BracketAndTarget(s, from)
    case None => None
    case Some((bracket, target, url, title)) =>
      Some((if from == 2 then Picture(s[2..bracket], url, title) else Anchor(s[from..bracket], url, title), target + 1))
  }

  function FoundWrapped(s: string, mark: string): Option<(Shape, nat)>
    requires |mark| <= |s|
  {
    var close := FindText(s, mark, |mark|);
    if close == |s| then None
    else
      var inside := s[|mark|..close];
      Some((if mark == "~~" then Struck(inside) else if |mark| == 2 then Bold(inside) else Slanted(inside),
        close + |mark|))
  }

  lemma StartsFront(s: string, a: string, b: string)
    requires StartsWith(s, a + b)
    ensures StartsWith(s, a) && |a| + |b| <= |s| && s[|a|..|a| + |b|] == b
  {
    assert s[..|a|] == (a + b)[..|a|];
    assert s[|a|..|a| + |b|] == (a + b)[|a|..];
  }

  lemma WrappedIff(s: string, mark: string, inside: string, k: nat)
    requires mark != "" && StartsWith(s, mark)
    ensures var close := FindText(s, mark, |mark|);
      Wrapped(s, mark, inside, k) <==> close < |s| && inside == s[|mark|..close] && k == close + |mark|
  {
    assert |mark| <= |s|;
    hide FindText, At, FirstAt, StartsWith, Wrapped;
    var n, close := |mark|, FindText(s, mark, |mark|);
    if Wrapped(s, mark, inside, k) { WrappedEnds(s, mark, inside, k); }
    if close < |s| && inside == s[n..close] && k == close + n { WrappedText(s, mark, close); }
  }

  lemma WrappedEnds(s: string, mark: string, inside: string, k: nat)
    requires mark != "" && Wrapped(s, mark, inside, k)
    ensures |mark| <= |s|
    ensures var close := FindText(s, mark, |mark|);
      close < |s| && inside == s[|mark|..close] && k == close + |mark|
  {
    hide FindText, At, FirstAt, StartsWith;
    StartsMiddle(s, mark, inside, mark);
    FirstAtIff(s, |mark|, mark, |mark| + |inside|);
  }

  lemma StartsMiddle(s: string, a: string, b: string, c: string)
    requires StartsWith(s, a + b + c)
    ensures StartsWith(s, a) && |a| + |b| <= |s| && s[|a|..|a| + |b|] == b
  {
    hide StartsWith;
    assert a + b + c == a + (b + c);
    StartsFront(s, a, b + c);
    assert (b + c)[..|b|] == b;
    assert s[|a|..|a| + |b + c|][..|b|] == s[|a|..|a| + |b|];
  }

  lemma WrappedText(s: string, mark: string, close: nat)
    requires mark != "" && StartsWith(s, mark) && |mark| <= close < |s| && FindText(s, mark, |mark|) == close
    ensures Wrapped(s, mark, s[|mark|..close], close + |mark|)
  {
    hide FindText, At, FirstAt;
    var n := |mark|;
    FirstAtIff(s, n, mark, close);
    AtFits(s, close, mark);
    assert s[..close + n] == s[..n] + s[n..close] + s[close..close + n];
  }

  lemma WrappedStarts(s: string, mark: string, inside: string, k: nat)
    requires Wrapped(s, mark, inside, k)
    ensures StartsWith(s, mark)
  {
    hide StartsWith, FirstAt;
    StartsMiddle(s, mark, inside, mark);
  }

  lemma {:induction false} RunIsTicks(s: string, n: nat)
    ensures RunOf(s, '`', n) <==> n == Ticks(s)
  {
    if s != "" && s[0] == '`' {
      if n > 0 {
        RunIsTicks(s[1..], n - 1);
        RunTail(s, '`', n);
      }
    } else if n > 0 && RunOf(s, '`', n) {
      RunFirst(s, '`', n);
    }
  }

  lemma RunFirst(s: string, c: char, n: nat)
    requires n > 0 && RunOf(s, c, n)
    ensures s != "" && s[0] == c
  {
  }

  lemma RunTail(s: string, c: char, n: nat)
    requires s != "" && s[0] == c && n > 0
    ensures RunOf(s, c, n) <==> RunOf(s[1..], c, n - 1)
  {
    if RunOf(s[1..], c, n - 1) {
      forall i | 0 <= i < n ensures s[i] == c { if i > 0 { assert s[i] == s[1..][i - 1]; } }
    }
  }

  lemma TickedIff(s: string, code: string, k: nat)
    requires s != ""
    ensures IsTicked(s, code, k) <==> FoundTicked(s) == Some((Ticked(code), k))
  {
    hide RunOf, Ticks, FindText, Wrapped;
    var t := Ticks(s);
    forall n: nat ensures RunOf(s, '`', n) <==> n == t { RunIsTicks(s, n); }
    if t > 0 {
      assert s[..t][..|s[..t]|] == s[..t];
      assert StartsWith(s, s[..t]);
      WrappedIff(s, s[..t], code, k);
      assert RunOf(s, '`', t);
    }
  }

  /** Where the end marks are found behind `from`, and what stands before them. */
  predicate Brackets(s: string, from: nat, caption: string, target: string, k: nat)
    requires from <= |s|
  {
    var b := Find(s, ']', from);
    && b + 1 < |s| && s[b + 1] == '('
    && var e := Find(s, ')', b + 2);
       e < |s| && caption == s[from..b] && target == s[b + 2..e] && k == e + 1
  }

  lemma BracketedByIff(s: string, open: string, caption: string, target: string, k: nat)
    requires StartsWith(s, open)
    ensures BracketedBy(s, open, caption, target, k) <==> Brackets(s, |open|, caption, target, k)
  {
    assert |open| <= |s|;
    hide BracketedBy, StartsWith, Brackets;
    if BracketedBy(s, open, caption, target, k) { BracketedEnds(s, open, caption, target, k); }
    if Brackets(s, |open|, caption, target, k) { BracketsText(s, open, caption, target, k); }
  }

  lemma BracketedPieces(s: string, open: string, caption: string, target: string)
    requires StartsWith(s, open + caption + "](" + target + ")")
    ensures var b, e := |open| + |caption|, |open| + |caption| + 2 + |target|;
      && StartsWith(s, open) && e < |s| && s[|open|..b] == caption && s[b..b + 2] == "](" && s[b + 2..e] == target
      && s[e..e + 1] == ")"
  {
    hide StartsWith;
    var front := open + caption;
    assert front + "](" + target + ")" == open + caption + ("](" + target + ")");
    StartsMiddle(s, open, caption, "](" + target + ")");
    assert front + "](" + target + ")" == front + "](" + (target + ")");
    StartsMiddle(s, front, "](", target + ")");
    StartsMiddle(s, front + "](", target, ")");
    StartsFront(s, front + "](" + target, ")");
  }

  lemma BracketedEnds(s: string, open: string, caption: string, target: string, k: nat)
    requires BracketedBy(s, open, caption, target, k)
    ensures |open| <= |s| && Brackets(s, |open|, caption, target, k)
  {
    hide Find, StartsWith;
    var b, e := |open| + |caption|, |open| + |caption| + 2 + |target|;
    BracketedPieces(s, open, caption, target);
    SliceChar(s, b, "](", 0);
    SliceChar(s, b, "](", 1);
    SliceChar(s, e, ")", 0);
    FindsAt(s, ']', |open|, b);
    FindsAt(s, ')', b + 2, e);
  }

  lemma SliceChar(s: string, i: nat, t: string, j: nat)
    requires i + |t| <= |s| && s[i..i + |t|] == t && j < |t|
    ensures s[i + j] == t[j]
  {
    assert s[i..i + |t|][j] == s[i + j];
  }

  lemma FindsAt(s: string, c: char, from: nat, at: nat)
    requires from <= at < |s| && s[at] == c && Without(s[from..at], c)
    ensures Find(s, c, from) == at
  {
    assert forall i | from <= i < at :: s[i] == s[from..at][i - from];
  }

  lemma BracketsText(s: string, open: string, caption: string, target: string, k: nat)
    requires StartsWith(s, open) && Brackets(s, |open|, caption, target, k)
    ensures BracketedBy(s, open, caption, target, k)
  {
    hide Find;
    var b := Find(s, ']', |open|);
    BracketedText(s, open, b, Find(s, ')', b + 2));
  }

  lemma BracketedText(s: string, open: string, b: nat, e: nat)
    requires StartsWith(s, open) && b + 1 < |s| && s[b + 1] == '(' && |open| <= b && b + 2 <= e < |s|
    requires Find(s, ']', |open|) == b && Find(s, ')', b + 2) == e
    ensures BracketedBy(s, open, s[|open|..b], s[b + 2..e], e + 1)
  {
    hide Find;
    assert s[..e + 1] == open + s[|open|..b] + "](" + s[b + 2..e] + ")";
  }

  lemma BracketsGive(s: string, from: nat, caption: string, target: string, k: nat, t: (string, string))
    requires from <= |s| && Brackets(s, from, caption, target, k) && LinkTarget(target) == Some(t)
    ensures k > from && BracketAndTarget(s, from) == Some((from + |caption|, k - 1, t.0, t.1))
    ensures from + |caption| <= |s| && caption == s[from..from + |caption|]
  {
    hide Find, LinkTarget;
  }

  lemma BracketsTaken(s: string, from: nat)
    requires from <= |s| && BracketAndTarget(s, from).Some?
    ensures var (b, e, url, title) := BracketAndTarget(s, from).value;
      b + 2 <= e && Brackets(s, from, s[from..b], s[b + 2..e], e + 1) && LinkTarget(s[b + 2..e]) == Some((url, title))
  {
    hide Find, LinkTarget;
  }

  lemma BracketedGives(s: string, open: string, caption: string, url: string, title: string, k: nat)
    requires StartsWith(s, open) && IsBracketed(s, open, caption, url, title, k)
    ensures k > 0 && |open| + |caption| <= |s| && caption == s[|open|..|open| + |caption|]
    ensures BracketAndTarget(s, |open|) == Some((|open| + |caption|, k - 1, url, title))
  {
    StartsFits(s, open);
    hide *;
    var target := SomeTarget(s, open, caption, url, title, k);
    BracketedByIff(s, open, caption, target, k);
    TargetIff(target, url, title);
    BracketsGive(s, |open|, caption, target, k, (url, title));
  }

  lemma StartsFits(s: string, open: string)
    requires StartsWith(s, open)
    ensures |open| <= |s|
  {
  }

  lemma SomeTarget(s: string, open: string, caption: string, url: string, title: string, k: nat)
      returns (target: string)
    requires IsBracketed(s, open, caption, url, title, k)
    ensures TargetIs(target, url, title) && BracketedBy(s, open, caption, target, k)
  {
    hide TargetIs, BracketedBy;
    target :| TargetIs(target, url, title) && BracketedBy(s, open, caption, target, k);
  }

  lemma BracketedTaken(s: string, open: string)
    requires StartsWith(s, open) && BracketAndTarget(s, |open|).Some?
    ensures var (b, e, url, title) := BracketAndTarget(s, |open|).value;
      IsBracketed(s, open, s[|open|..b], url, title, e + 1)
  {
    assert |open| <= |s|;
    hide BracketAndTarget, BracketedBy, Brackets, TargetIs, LinkTarget, StartsWith;
    BracketsTaken(s, |open|);
    var (b, e, url, title) := BracketAndTarget(s, |open|).value;
    var target := s[b + 2..e];
    BracketedByIff(s, open, s[|open|..b], target, e + 1);
    TargetIff(target, url, title);
    assert BracketedBy(s, open, s[|open|..b], target, e + 1);
  }

  lemma BracketedIff(s: string, open: string, caption: string, url: string, title: string, k: nat)
    requires StartsWith(s, open)
    ensures IsBracketed(s, open, caption, url, title, k) <==>
      && k > 0 && |open| + |caption| <= |s| && caption == s[|open|..|open| + |caption|]
      && BracketAndTarget(s, |open|) == Some((|open| + |caption|, k - 1, url, title))
  {
    assert |open| <= |s|;
    hide BracketAndTarget, IsBracketed, StartsWith;
    if IsBracketed(s, open, caption, url, title, k) { BracketedGives(s, open, caption, url, title, k); }
    if BracketAndTarget(s, |open|).Some? { BracketedTaken(s, open); }
  }

  lemma BracketedStarts(s: string, open: string, caption: string, url: string, title: string, k: nat)
    requires IsBracketed(s, open, caption, url, title, k)
    ensures StartsWith(s, open)
  {
    hide TargetIs, StartsWith;
    var target := SomeTarget(s, open, caption, url, title, k);
    assert open + caption + "](" + target + ")" == open + (caption + "](" + target + ")");
    StartsFront(s, open, caption + "](" + target + ")");
  }

  lemma {:induction false} StretchIsLink(s: string, m: nat)
    ensures Stretch(s, m) <==> m == LinkLength(s)
  {
    if s != "" && !EndsAddress(s[0]) {
      if m > 0 {
        StretchIsLink(s[1..], m - 1);
        assert forall i | 1 <= i < |s| :: s[i] == s[1..][i - 1];
      }
    }
  }

  lemma {:induction false} PunctuationGoes(w: string, url: string)
    requires url != "" ==> !Punctuation(url[|url| - 1])
    ensures url == WithoutPunctuation(w) <==> BeforePunctuation(w, url)
  {
    if w != "" && Punctuation(w[|w| - 1]) {
      var front := w[..|w| - 1];
      PunctuationGoes(front, url);
      assert StartsWith(w, url) && |url| == |w| ==> url == w;
      if |url| < |w| { assert front[..|url|] == w[..|url|]; }
    } else {
      assert w[..|w|] == w;
    }
  }

  lemma {:induction false} NoPunctuationLeft(w: string)
    ensures var u := WithoutPunctuation(w);
      u != "" ==> !Punctuation(u[|u| - 1])
  {
    if w != "" && Punctuation(w[|w| - 1]) { NoPunctuationLeft(w[..|w| - 1]); }
  }

  lemma AddressIff(s: string, url: string)
    ensures IsAddress(s, url) <==> Autolink(s) == Some(url)
  {
    hide Punctuation, LinkLength, WithoutPunctuation, Stretch, BeforePunctuation, StartsWith;
    var m := LinkLength(s);
    var w := s[..m];
    forall n: nat ensures Stretch(s, n) <==> n == m { StretchIsLink(s, n); }
    NoPunctuationLeft(w);
    if url != "" && !Punctuation(url[|url| - 1]) {
      PunctuationGoes(w, url);
      assert AddressUpTo(s, url, m) <==> url == WithoutPunctuation(w);
    }
  }

  lemma MarkupIff(s: string, html: string, k: nat, o: Options)
    requires s != ""
    ensures Stands(s, Markup(html), k, o) <==> Found(s, 7, o) == Some((Markup(html), k))
  {
    hide Find, FirstAt;
    var close := Find(s, '>', 1);
    if k >= 1 { FirstCharIff(s, 1, '>', k - 1); }
    if close < |s| { assert s[..close + 1][0] == s[0]; }
    if StartsWith(s, html) && html != "" { assert html[0] == s[..|html|][0] == s[0]; }
  }

  lemma EmphasisIff(s: string, shape: Shape, k: nat, o: Options)
    requires s != "" && 3 <= Rank(shape) <= 5
    ensures Stands(s, shape, k, o) <==> Found(s, Rank(shape), o) == Some((shape, k))
  {
    hide FindText, Wrapped, StartsWith;
    match shape
    case Struck(inside) =>
      if StartsWith(s, "~~") { WrappedIff(s, "~~", inside, k); }
      if Wrapped(s, "~~", inside, k) { WrappedStarts(s, "~~", inside, k); }
    case Bold(inside) =>
      PairAtFront(s);
      if StartsWith(s, "**") { WrappedIff(s, "**", inside, k); }
      if StartsWith(s, "__") { WrappedIff(s, "__", inside, k); }
      if Wrapped(s, "**", inside, k) { WrappedStarts(s, "**", inside, k); }
      if Wrapped(s, "__", inside, k) { WrappedStarts(s, "__", inside, k); }
    case Slanted(inside) =>
      OneAtFront(s);
      if StartsWith(s, "*") { WrappedIff(s, "*", inside, k); }
      if StartsWith(s, "_") { WrappedIff(s, "_", inside, k); }
      if Wrapped(s, "*", inside, k) { WrappedStarts(s, "*", inside, k); }
      if Wrapped(s, "_", inside, k) { WrappedStarts(s, "_", inside, k); }
  }

  lemma PairAtFront(s: string)
    ensures StartsWith(s, "**") ==> |s| >= 2 && s[..2] == "**" && !StartsWith(s, "__")
    ensures StartsWith(s, "__") ==> |s| >= 2 && s[..2] == "__" && !StartsWith(s, "**")
    ensures StartsWith(s, "~~") ==> |s| >= 2
  {
    assert StartsWith(s, "**") ==> s[..2][0] == '*';
    assert StartsWith(s, "__") ==> s[..2][0] == '_';
  }

  lemma OneAtFront(s: string)
    requires s != ""
    ensures StartsWith(s, "*") <==> s[0] == '*'
    ensures StartsWith(s, "_") <==> s[0] == '_'
    ensures StartsWith(s, "[") <==> s[0] == '['
  {
    assert s[..1] == [s[0]];
  }

  lemma FoundIff(s: string, shape: Shape, k: nat, o: Options)
    requires s != ""
    ensures Stands(s, shape, k, o) <==> Found(s, Rank(shape), o) == Some((shape, k))
  {
    hide FoundTicked, FoundBracketed, FoundWrapped, IsTicked, IsBracketed, Wrapped, IsAddress, StartsWith, Autolink,
      Find;
    match shape
    case Ticked(code) => TickedIff(s, code, k);
    case Picture(alt, url, title) => PictureIff(s, alt, url, title, k, o);
    case Anchor(caption, url, title) => AnchorIff(s, caption, url, title, k);
    case Struck(_) => EmphasisIff(s, shape, k, o);
    case Bold(_) => EmphasisIff(s, shape, k, o);
    case Slanted(_) => EmphasisIff(s, shape, k, o);
    case Address(url) => AddressIff(s, url);
    case Markup(html) => MarkupIff(s, html, k, o);
  }

  lemma PictureIff(s: string, alt: string, url: string, title: string, k: nat, o: Options)
    requires s != ""
    ensures IsBracketed(s, "![", alt, url, title, k) <==> Found(s, 1, o) == Some((Picture(alt, url, title), k))
  {
    hide IsBracketed, BracketAndTarget;
    if StartsWith(s, "![") { BracketedIff(s, "![", alt, url, title, k); }
    if IsBracketed(s, "![", alt, url, title, k) { BracketedStarts(s, "![", alt, url, title, k); }
  }

  lemma AnchorIff(s: string, caption: string, url: string, title: string, k: nat)
    requires s != ""
    ensures IsBracketed(s, "[", caption, url, title, k) <==>
      s[0] == '[' && FoundBracketed(s, 1) == Some((Anchor(caption, url, title), k))
  {
    hide IsBracketed, BracketAndTarget;
    OneAtFront(s);
    if StartsWith(s, "[") { BracketedIff(s, "[", caption, url, title, k); }
    if IsBracketed(s, "[", caption, url, title, k) { BracketedStarts(s, "[", caption, url, title, k); }
  }

  // ----- the parser takes the construct of the lowest rank -----

  function NodeOf(shape: Shape, o: Options): Node {
    match shape
    case Ticked(code) => CodeSpan(code)
    case Picture(alt, url, title) => Image(alt, url, title)
    case Anchor(caption, url, title) => Link(url, title, Inline(caption, "", o))
    case Struck(inside) => Strike(Inline(inside, "", o))
    case Bold(inside) => Strong(Inline(inside, "", o))
    case Slanted(inside) => Em(Inline(inside, "", o))
    case Address(url) => Link(url, "", [TextNode(url)])
    case Markup(html) => RawHtml(html)
  }

  function FirstFound(s: string, from: nat, o: Options): (r: Option<(Shape, nat)>)
    requires s != ""
    decreases 8 - from
  {
    if from >= 8 then None
    else
      var here := Found(s, from, o);
      if here.Some? then here else FirstFound(s, from + 1, o)
  }

  function Noded(found: Option<(Shape, nat)>, o: Options): Option<(Node, nat)> {
    match found case None => None case Some((shape, k)) => Some((NodeOf(shape, o), k))
  }

  lemma ConstructIsFound(s: string, o: Options)
    requires s != ""
    ensures Construct(s, o) == Noded(FirstFound(s, 0, o), o)
  {
    hide Inline, Autolink, StartsWith, FindText, Ticks, Find, LinkTarget;
    FirstIsFound(s, o);
    EmphasisIsFound(s, o);
  }

  lemma FirstIsFound(s: string, o: Options)
    requires s != ""
    ensures FirstConstruct(s, o) ==
      if Found(s, 0, o).Some? then Noded(Found(s, 0, o), o)
      else if Found(s, 1, o).Some? then Noded(Found(s, 1, o), o)
      else Noded(Found(s, 2, o), o)
  {
    hide Inline, FindText, Find, LinkTarget;
  }

  lemma EmphasisIsFound(s: string, o: Options)
    requires s != ""
    ensures Emphasis(s, o) ==
      if Found(s, 3, o).Some? then Noded(Found(s, 3, o), o)
      else if Found(s, 4, o).Some? then Noded(Found(s, 4, o), o)
      else Noded(Found(s, 5, o), o)
  {
    hide Inline, FindText, Find, StartsWith;
    PairAtFront(s);
    CharFound(s, s[0], 1);
  }

  lemma CharFound(s: string, c: char, from: nat)
    requires from <= |s|
    ensures FindText(s, [c], from) == Find(s, c, from)
  {
    hide FindText, Find;
    var p := FindText(s, [c], from);
    if p < |s| {
      FirstAtIff(s, from, [c], p);
      FirstCharIff(s, from, c, p);
    }
    var q := Find(s, c, from);
    if q < |s| {
      FirstCharIff(s, from, c, q);
      FirstAtIff(s, from, [c], q);
    }
  }

  lemma FoundRank(s: string, rank: nat, o: Options)
    requires s != "" && rank < 8 && Found(s, rank, o).Some?
    ensures Rank(Found(s, rank, o).value.0) == rank
  {
    hide FindText, Find, BracketAndTarget, Ticks, Autolink, StartsWith;
    PairAtFront(s);
  }

  lemma {:induction false} FirstFoundIs(s: string, from: nat, o: Options)
    requires s != "" && from <= 8
    ensures FirstFound(s, from, o) == None ==> forall r: nat | from <= r < 8 :: Found(s, r, o) == None
    ensures FirstFound(s, from, o).Some? ==>
      var rank := Rank(FirstFound(s, from, o).value.0);
      && from <= rank < 8 && Found(s, rank, o) == FirstFound(s, from, o)
      && forall r: nat | from <= r < rank :: Found(s, r, o) == None
    decreases 8 - from
  {
    hide Found;
    if from < 8 {
      if Found(s, from, o).Some? { FoundRank(s, from, o); } else { FirstFoundIs(s, from + 1, o); }
    }
  }

  /** What leads is what the parser makes a node of. */
  lemma LeadsIsMade(s: string, shape: Shape, k: nat, o: Options)
    requires s != "" && Leads(s, shape, k, o)
    ensures Construct(s, o) == Some((NodeOf(shape, o), k))
  {
    hide Found, FirstFound, Construct, Stands, NodeOf, Rank;
    ConstructIsFound(s, o);
    FirstFoundIs(s, 0, o);
    FoundIff(s, shape, k, o);
    RankIsBelow(shape);
    assert FirstFound(s, 0, o).Some?;
    var (other, j) := FirstFound(s, 0, o).value;
    FoundIff(s, other, j, o);
  }

  lemma RankIsBelow(shape: Shape)
    ensures Rank(shape) < 8
  {
  }

  lemma MadeLeads(s: string, o: Options)
    requires s != "" && Construct(s, o).Some?
    ensures exists shape: Shape ::
      Leads(s, shape, Construct(s, o).value.1, o) && Construct(s, o).value.0 == NodeOf(shape, o)
  {
    ConstructFits(s, o);
    hide Found, FirstFound, Construct, Stands, NodeOf, Rank;
    ConstructIsFound(s, o);
    FirstFoundIs(s, 0, o);
    var (shape, k) := FirstFound(s, 0, o).value;
    FoundIff(s, shape, k, o);
    forall other: Shape, j: nat | Stands(s, other, j, o) ensures Rank(shape) <= Rank(other) {
      FoundIff(s, other, j, o);
    }
    assert Leads(s, shape, k, o);
  }

  lemma ConstructFits(s: string, o: Options)
    requires s != "" && Construct(s, o).Some?
    ensures 0 < Construct(s, o).value.1 <= |s|
  {
  }

  lemma PlainIff(s: string, o: Options)
    requires s != ""
    ensures Plain(s, o) <==> Construct(s, o) == None
  {
    hide Found, FirstFound, Construct, Stands, NodeOf, Rank;
    ConstructIsFound(s, o);
    FirstFoundIs(s, 0, o);
    if FirstFound(s, 0, o) == None {
      forall shape: Shape, k: nat ensures !Stands(s, shape, k, o) {
        FoundIff(s, shape, k, o);
        RankIsBelow(shape);
      }
    } else {
      var (shape, k) := FirstFound(s, 0, o).value;
      FoundIff(s, shape, k, o);
    }
  }

  /** A construct does not start with a backslash. */
  lemma NoBackslash(s: string, shape: Shape, k: nat, o: Options)
    requires Leads(s, shape, k, o)
    ensures s != "" && s[0] != '\\'
  {
    hide Construct, Leads, FindText, Find, BracketAndTarget, LinkLength, WithoutPunctuation;
    assert s != "" && Stands(s, shape, k, o) by { LeadsParts(s, shape, k, o); }
    FoundIff(s, shape, k, o);
    if s[0] == '\\' { FoundNoBackslash(s, Rank(shape), o); }
  }

  lemma LeadsParts(s: string, shape: Shape, k: nat, o: Options)
    requires Leads(s, shape, k, o)
    ensures 0 < k <= |s| && Stands(s, shape, k, o)
  {
    hide Stands;
  }

  lemma FoundNoBackslash(s: string, rank: nat, o: Options)
    requires s != "" && s[0] == '\\'
    ensures Found(s, rank, o) == None
  {
    hide FindText, Find, BracketAndTarget, LinkLength, WithoutPunctuation;
    assert forall p: string | p != "" && StartsWith(s, p) :: p[0] == s[..|p|][0] == s[0];
  }

  // ----- spelled by the parser -----

  lemma {:induction false} LettersAppend(t: string, a: string, rest: string, text: string, c: string, o: Options)
    requires Letters(t, a + rest, text, o) && Letters(a, rest, c, o)
    ensures Letters(t + a, rest, text + c, o)
    decreases |t|
  {
    hide Letters, Plain;
    LettersEmpty(t, a + rest, text, o);
    if text == "" {
      assert t + a == a && text + c == c;
    } else {
      var n := LetterLength(t, a + rest);
      LettersHead(t, a + rest, text, o);
      LettersAppend(t[n..], a, rest, text[1..], c, o);
      assert t + a + rest == t + (a + rest);
      assert (t + a)[n..] == t[n..] + a && (text + c)[1..] == text[1..] + c;
      LettersHead(t + a, rest, text + c, o);
    }
  }

  function LetterLength(t: string, rest: string): (n: nat)
    requires t != ""
    ensures n > 0
  {
    if t[0] == '\\' && |t + rest| > 1 then 2 else 1
  }

  lemma LettersEmpty(t: string, rest: string, text: string, o: Options)
    ensures Letters(t, rest, text, o) && (t == "" || text == "") ==> t == text == ""
  {
  }

  lemma LettersHead(t: string, rest: string, text: string, o: Options)
    requires t != "" && text != ""
    ensures var n := LetterLength(t, rest);
      Letters(t, rest, text, o) <==>
        && n <= |t| && t[n - 1] == text[0] && (n == 1 ==> Plain(t + rest, o)) && Letters(t[n..], rest, text[1..], o)
  {
    hide Plain;
  }

  lemma OneLetter(s: string, o: Options)
    requires s != "" && ((s[0] == '\\' && |s| > 1) || Construct(s, o) == None)
    ensures var n := LetterLength(s, "");
      n <= |s| && Letters(s[..n], s[n..], [s[n - 1]], o)
  {
    hide Plain, Construct;
    var n := LetterLength(s, "");
    assert s + "" == s;
    assert s[..n] + s[n..] == s;
    PlainIff(s, o);
  }

  lemma TextAhead(t: string, rest: string, text: string, ns: seq<Node>, o: Options)
    requires Letters(t, rest, text, o) && Spells(rest, ns, o) && (ns != [] ==> !ns[0].TextNode?)
    ensures Spells(t + rest, FlushText(text) + ns, o)
  {
    hide Letters, Plain, Leads, Makes;
    LettersEmpty(t, rest, text, o);
    if text == "" {
      assert t + rest == rest && FlushText(text) + ns == ns;
    } else {
      var s, all := t + rest, [TextNode(text)] + ns;
      assert s[..|t|] == t && s[|t|..] == rest && all[1..] == ns;
      assert FlushText(text) + ns == all;
      assert |t| <= |s| && Letters(s[..|t|], s[|t|..], text, o) && Spells(s[|t|..], all[1..], o);
    }
  }

  lemma ConstructAhead(s: string, shape: Shape, k: nat, n: Node, more: seq<Node>, o: Options)
    requires Leads(s, shape, k, o) && Makes(shape, n, o) && k <= |s| && Spells(s[k..], more, o)
    ensures Spells(s, [n] + more, o) && !n.TextNode?
  {
    hide Leads, Letters;
    var all := [n] + more;
    assert all[1..] == more && all[0] == n;
    assert !n.TextNode?;
  }

  function Inside(shape: Shape): string {
    match shape
    case Anchor(caption, _, _) => caption
    case Struck(inside) => inside
    case Bold(inside) => inside
    case Slanted(inside) => inside
    case _ => ""
  }

  lemma MadeIsMade(shape: Shape, o: Options)
    requires Spells(Inside(shape), Inline(Inside(shape), "", o), o)
    ensures Makes(shape, NodeOf(shape, o), o)
  {
    hide Spells, Inline;
  }

  lemma InsideIsShorter(s: string, shape: Shape, k: nat, o: Options)
    requires Leads(s, shape, k, o)
    ensures 0 < k <= |s| && |Inside(shape)| < |s|
  {
    hide FirstAt, TargetIs, IsTicked, StartsWith, IsAddress;
    assert 0 < k <= |s| && Stands(s, shape, k, o) by { LeadsParts(s, shape, k, o); }
  }

  /** The parser's nodes are spelled by the text: of what is gathered and what is left. */
  lemma {:induction false} InlineIsSpelled(t: string, s: string, buffer: string, o: Options)
    requires Letters(t, s, buffer, o)
    ensures Spells(t + s, Inline(s, buffer, o), o)
    decreases |s|
  {
    hide *;
    if s == "" {
      InlineEnd(buffer, o);
      NothingSpelled(o);
      TextAhead(t, s, buffer, [], o);
      assert FlushText(buffer) + [] == FlushText(buffer);
    } else {
      InlineStep(s, buffer, o);
      if (s[0] == '\\' && |s| > 1) || Construct(s, o) == None {
        var n := LetterStep(s, o);
        LettersAppend(t, s[..n], s[n..], buffer, [s[n - 1]], o);
        InlineIsSpelled(t + s[..n], s[n..], buffer + [s[n - 1]], o);
        assert t + s[..n] + s[n..] == t + s;
      } else {
        var n, k := Construct(s, o).value.0, Construct(s, o).value.1;
        MadeLeads(s, o);
        var shape: Shape :| Leads(s, shape, k, o) && n == NodeOf(shape, o);
        InsideIsShorter(s, shape, k, o);
        NoLetters(Inside(shape), o);
        InlineIsSpelled("", Inside(shape), "", o);
        assert "" + Inside(shape) == Inside(shape);
        MadeIsMade(shape, o);
        NoLetters(s[k..], o);
        InlineIsSpelled("", s[k..], "", o);
        assert "" + s[k..] == s[k..];
        var more := Inline(s[k..], "", o);
        ConstructAhead(s, shape, k, n, more, o);
        TextAhead(t, s, buffer, [n] + more, o);
        NodesAssoc(FlushText(buffer), [n], more);
      }
    }
  }

  lemma NothingSpelled(o: Options)
    ensures Spells("", [], o)
  {
  }

  lemma NoLetters(s: string, o: Options)
    ensures Letters("", s, "", o)
  {
  }

  lemma LetterStep(s: string, o: Options) returns (n: nat)
    requires s != "" && ((s[0] == '\\' && |s| > 1) || Construct(s, o) == None)
    ensures 0 < n <= |s| && Letters(s[..n], s[n..], [s[n - 1]], o)
    ensures n == if s[0] == '\\' && |s| > 1 then 2 else 1
    ensures s[..n] + s[n..] == s
  {
    hide Letters, Construct;
    n := LetterLength(s, "");
    assert s + "" == s;
    OneLetter(s, o);
  }

  // ----- nothing else is spelled -----

  lemma {:induction false} LettersRead(t: string, rest: string, buffer: string, text: string, o: Options)
    requires Letters(t, rest, text, o)
    ensures Inline(t + rest, buffer, o) == Inline(rest, buffer + text, o)
    decreases |t|
  {
    hide *;
    LettersEmpty(t, rest, text, o);
    if t == "" {
      assert t + rest == rest && buffer + text == buffer;
    } else {
      var s, n := t + rest, LetterLength(t, rest);
      LettersHead(t, rest, text, o);
      LetterTaken(s, buffer, t, rest, o);
      assert s[n..] == t[n..] + rest;
      LettersRead(t[n..], rest, buffer + [text[0]], text[1..], o);
      assert buffer + [text[0]] + text[1..] == buffer + text;
    }
  }

  lemma LetterTaken(s: string, buffer: string, t: string, rest: string, o: Options)
    requires t != "" && s == t + rest
    requires var n := LetterLength(t, rest); n <= |t| && (n == 1 ==> Plain(s, o))
    ensures var n := LetterLength(t, rest); n <= |t| && Inline(s, buffer, o) == Inline(s[n..], buffer + [t[n - 1]], o)
  {
    hide Inline, Construct, Plain;
    InlineStep(s, buffer, o);
    if !(t[0] == '\\' && |s| > 1) { PlainIff(s, o); }
  }

  lemma SpelledText(s: string, ns: seq<Node>, o: Options) returns (k: nat)
    requires Spells(s, ns, o) && ns != [] && ns[0].TextNode?
    ensures k <= |s| && Letters(s[..k], s[k..], ns[0].text, o) && Spells(s[k..], ns[1..], o) && ns[0].text != ""
    ensures ns[1..] != [] ==> !ns[1..][0].TextNode?
  {
    hide Letters;
    k :| k <= |s| && Letters(s[..k], s[k..], ns[0].text, o) && Spells(s[k..], ns[1..], o);
  }

  lemma SpelledConstruct(s: string, ns: seq<Node>, o: Options) returns (shape: Shape, k: nat)
    requires Spells(s, ns, o) && ns != [] && !ns[0].TextNode?
    ensures k <= |s| && Leads(s, shape, k, o) && Makes(shape, ns[0], o) && Spells(s[k..], ns[1..], o)
  {
    hide Leads, Makes;
    shape, k :| k <= |s| && Leads(s, shape, k, o) && Makes(shape, ns[0], o) && Spells(s[k..], ns[1..], o);
  }

  /** The nodes are the parser's, whatever was gathered before the first construct. */
  lemma {:induction false} SpelledIsInline(s: string, ns: seq<Node>, o: Options)
    requires Spells(s, ns, o)
    ensures ns == Inline(s, "", o)
    ensures ns == [] || !ns[0].TextNode? ==> forall buffer :: Inline(s, buffer, o) == FlushText(buffer) + ns
    decreases ns, 0
  {
    hide *;
    if ns == [] {
      NothingLeft(s, o);
      forall buffer ensures Inline(s, buffer, o) == FlushText(buffer) + ns {
        InlineEnd(buffer, o);
        assert FlushText(buffer) + [] == FlushText(buffer);
      }
      NothingFlushed();
      assert FlushText("") + ns == ns;
    } else if ns[0].TextNode? {
      var k := SpelledText(s, ns, o);
      LettersRead(s[..k], s[k..], "", ns[0].text, o);
      assert s[..k] + s[k..] == s && "" + ns[0].text == ns[0].text;
      SpelledIsInline(s[k..], ns[1..], o);
      TextFlushed(ns[0]);
      assert ns == [ns[0]] + ns[1..];
    } else {
      var shape, k := SpelledConstruct(s, ns, o);
      NoBackslash(s, shape, k, o);
      LeadsIsMade(s, shape, k, o);
      MakesIsNode(shape, ns[0], o);
      SpelledIsInline(s[k..], ns[1..], o);
      forall buffer ensures Inline(s, buffer, o) == FlushText(buffer) + ns {
        InlineStep(s, buffer, o);
        NodesAssoc(FlushText(buffer), [ns[0]], ns[1..]);
        assert ns == [ns[0]] + ns[1..];
      }
      NothingFlushed();
      assert FlushText("") + ns == ns;
    }
  }

  lemma NothingLeft(s: string, o: Options)
    requires Spells(s, [], o)
    ensures s == ""
  {
  }

  lemma NothingFlushed()
    ensures FlushText("") == []
  {
  }

  lemma TextFlushed(n: Node)
    requires n.TextNode? && n.text != ""
    ensures FlushText(n.text) == [n]
  {
  }

  lemma MakesIsNode(shape: Shape, n: Node, o: Options)
    requires Makes(shape, n, o)
    ensures n == NodeOf(shape, o)
    decreases n, 1
  {
    hide Spells, Inline;
    match n
    case Link(_, _, c) => if shape.Anchor? { SpelledIsInline(shape.caption, c, o); }
    case Strike(c) => SpelledIsInline(shape.inside, c, o);
    case Strong(c) => SpelledIsInline(shape.inside, c, o);
    case Em(c) => SpelledIsInline(shape.inside, c, o);
    case _ =>
  }

  /** A text spells the nodes that the parser makes of it, and no others. */
  lemma SpellsIff(s: string, ns: seq<Node>, o: Options)
    ensures Spells(s, ns, o) <==> ns == Inline(s, "", o)
  {
    hide Spells, Inline;
    NoLetters(s, o);
    InlineIsSpelled("", s, "", o);
    assert "" + s == s;
    if Spells(s, ns, o) { SpelledIsInline(s, ns, o); }
  }
}
