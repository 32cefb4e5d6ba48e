/** What a compiled template prints (src/lib/compiler-parser.cpp:24-66, 215-222, 492-593).
    The source is read by its delimiters, the C++ as code and print statements over
    the values that expressions have; the two come to the same. */
module TemplateMeaning {
  import opened Text
  import opened CppLiteral
  import opened Template
  import MarkdownRender

  /** What a page does: code of its own runs, or text is printed. */
  datatype Event = Ran(code: string) | Printed(text: string)

  /** The value of an expression once some events have happened. */
  type Values = (seq<Event>, string) -> string

  /** What C++ says of the values, for the texts that are expressions: blanks around
      one do not matter, a call has the value of the function, and a raw string is
      its content. */
  ghost predicate Lawful(isExpression: string -> bool, value: Values) {
    && (forall past, e | isExpression(e) :: value(past, " " + e + " ") == value(past, e))
    && (forall past, e | isExpression(e) ::
          value(past, "html_escape( " + e + " )") == MarkdownRender.HtmlEscape(value(past, e)))
    && (forall past, e, content | ReadRaw(e) == Some((content, "")) :: value(past, e) == content)
  }

  // ----- the source, by its delimiters -----

  predicate OpensMarkup(open: string) {
    open == "<>" || open == "?>"
  }

  /** A stretch of the source behind the delimiter `open`. */
  function Does(open: string, text: string, value: Values, past: seq<Event>): seq<Event> {
    if open == "<?=" then [Printed(MarkdownRender.HtmlEscape(value(past, text)))]
    else if open == "<?:" then [Printed(value(past, text))]
    else if text == "" then []
    else if OpensMarkup(open) then [Printed(text)]
    else [Ran(text)]
  }

  /** The stretches in a row; which kind they were taken for plays no part. */
  function SourceDoes(open: string, gs: seq<Segment>, value: Values, past: seq<Event>): seq<Event>
    decreases |gs|
  {
    if gs == [] then []
    else
      var events := Does(open, gs[0].text, value, past);
      events + SourceDoes(gs[0].close, gs[1..], value, past + events)
  }

  predicate FieldsAreExpressions(open: string, gs: seq<Segment>, isExpression: string -> bool)
    decreases |gs|
  {
    gs != [] ==>
      && (open == "<?=" || open == "<?:" ==> isExpression(gs[0].text))
      && FieldsAreExpressions(gs[0].close, gs[1..], isExpression)
  }

  // ----- the C++ -----

  /** A piece of C++: code, or a print statement and the blanks behind it. */
  datatype Piece = Plain(code: string) | Print(argument: string, blanks: string)

  function PieceText(p: Piece): string {
    match p
    case Plain(code) => code
    case Print(argument, blanks) => "print(" + argument + ");" + blanks
  }

  function PiecesText(ps: seq<Piece>): string {
    if ps == [] then "" else PieceText(ps[0]) + PiecesText(ps[1..])
  }

  predicate IsBlank(s: string) {
    forall i | 0 <= i < |s| :: s[i] == ' '
  }

  function EventOf(p: Piece, value: Values, past: seq<Event>): Event {
    match p
    case Plain(code) => Ran(code)
    case Print(argument, _) => Printed(value(past, argument))
  }

  function PiecesDo(ps: seq<Piece>, value: Values, past: seq<Event>): seq<Event> {
    if ps == [] then []
    else
      var event := EventOf(ps[0], value, past);
      [event] + PiecesDo(ps[1..], value, past + [event])
  }

  /** The C++ text can be read as pieces that do just this. */
  ghost predicate CppDoes(cpp: string, value: Values, events: seq<Event>) {
    exists ps: seq<Piece> ::
      && PiecesText(ps) == cpp && PiecesDo(ps, value, []) == events
      && forall p | p in ps :: p.Print? ==> IsBlank(p.blanks)
  }

  // ----- the kind of a stretch is that of its delimiter -----

  predicate KindFits(open: string, g: Segment) {
    match g.kind
    case Escaped => open == "<?="
    case Verbatim => open == "<?:"
    case Literal => OpensMarkup(open) || (open == "" && g.text == "")
    case Code => open == "" || open == "<?" || open == "</>"
  }

  predicate KindsFit(open: string, gs: seq<Segment>)
    decreases |gs|
  {
    gs != [] ==> KindFits(open, gs[0]) && KindsFit(gs[0].close, gs[1..])
  }

  lemma KindsFitCons(open: string, g: Segment, more: seq<Segment>)
    requires KindFits(open, g) && KindsFit(g.close, more)
    ensures KindsFit(open, [g] + more)
  {
    hide KindFits;
    assert ([g] + more)[1..] == more;
  }

  lemma NoKinds(open: string)
    ensures KindsFit(open, [])
  {
  }

  lemma {:induction false} CodeKinds(s: string, open: string)
    requires open == "" || open == "<?" || open == "</>"
    ensures KindsFit(open, CodeSegments(s))
    decreases |s|, 1
  {
    hide CodeEnd, KindsFit, LiteralSegments;
    var n := CodeEnd(Neutral, s, false);
    if n == |s| {
      NoKinds("");
      KindsFitCons(open, Segment(Code, s, ""), []);
      assert [Segment(Code, s, "")] + [] == [Segment(Code, s, "")];
    } else {
      assert s[n..n + 2] == s[n..][..2];
      LiteralKinds(s[n + 2..], s[n..n + 2]);
      KindsFitCons(open, Segment(Code, s[..n], s[n..n + 2]), LiteralSegments(s[n + 2..]));
    }
  }

  lemma {:induction false} LiteralKinds(s: string, open: string)
    requires OpensMarkup(open) || (open == "" && s == "")
    ensures KindsFit(open, LiteralSegments(s))
    decreases |s|, 0
  {
    hide CodeEnd, LiteralEnd, CodeSegments, LiteralSegments, KindsFit, IsField, LeavesLiteral;
    var n := LiteralEnd(s);
    LiteralSegmentsAre(s);
    if n == |s| {
      NoKinds("");
      KindsFitCons(open, Segment(Literal, s, ""), []);
    } else if IsField(s[n..]) {
      FieldKinds(s, open);
    } else {
      LeavingLength(s, n);
      if StartsWith(s[n..], "<?") {
        CodeKinds(s[n + 2..], "<?");
        KindsFitCons(open, Segment(Literal, s[..n], "<?"), CodeSegments(s[n + 2..]));
      } else {
        CodeKinds(s[n + 3..], "</>");
        KindsFitCons(open, Segment(Literal, s[..n], "</>"), CodeSegments(s[n + 3..]));
      }
    }
  }

  lemma LeavingLength(s: string, n: nat)
    requires n < |s| && LeavesLiteral(s[n..])
    ensures if StartsWith(s[n..], "<?") then n + 2 <= |s| else n + 3 <= |s|
  {
  }

  lemma FieldKinds(s: string, open: string)
    requires OpensMarkup(open) && LiteralEnd(s) < |s| && IsField(s[LiteralEnd(s)..])
    ensures KindsFit(open, LiteralSegments(s))
    decreases |s|, 0, 0
  {
    hide CodeEnd, LiteralEnd, LiteralSegments, KindsFit, FieldClose, Behind;
    var n := LiteralEnd(s);
    var body := s[n + 3..];
    var m := CodeEnd(Neutral, body, true);
    var close := FieldClose(body, m);
    var kind := if s[n + 2] == '=' then Escaped else Verbatim;
    var first, second := Segment(Literal, s[..n], s[n..n + 3]), Segment(kind, body[..m], close);
    var more := LiteralSegments(Behind(body, m));
    FieldSegments(s, n);
    BehindIsShorter(body, m);
    FieldEnds(body, m);
    assert s[n..][..3] == s[n..n + 3] && s[n..][2] == s[n + 2];
    LiteralKinds(Behind(body, m), close);
    KindsFitCons(s[n..n + 3], second, more);
    KindsFitCons(open, first, [second] + more);
  }

  lemma FieldEnds(body: string, m: nat)
    requires m <= |body| && (m == |body| || m + 2 <= |body|)
    ensures FieldClose(body, m) == "?>" || (FieldClose(body, m) == "" && Behind(body, m) == "")
  {
  }

  // ----- the two readings agree -----

  /** How the C++ of a stretch is read. */
  function PiecesOf(g: Segment): seq<Piece> {
    match g.kind
    case Code => if g.text == "" then [] else [Plain(g.text)]
    case Literal => if g.text == "" then [] else [Print(CppLiteral.Literal(g.text), "")]
    case Escaped => [Print("html_escape( " + g.text + " )", " ")]
    case Verbatim => [Print(" " + g.text + " ", " ")]
  }

  function AllPieces(gs: seq<Segment>): seq<Piece> {
    if gs == [] then [] else PiecesOf(gs[0]) + AllPieces(gs[1..])
  }

  lemma {:induction false} PiecesAreText(gs: seq<Segment>)
    ensures PiecesText(AllPieces(gs)) == EmitAll(gs)
  {
    if gs != [] {
      hide CppLiteral.Literal;
      PiecesAreText(gs[1..]);
      TextOfConcat(PiecesOf(gs[0]), AllPieces(gs[1..]));
      PieceIsEmitted(gs[0]);
    }
  }

  lemma PieceIsEmitted(g: Segment)
    ensures PiecesText(PiecesOf(g)) == Emit(g)
  {
    hide CppLiteral.Literal, PiecesText, PieceText;
    NoPieces();
    if PiecesOf(g) != [] {
      var p := PiecesOf(g)[0];
      TextCons(p, []);
      assert [p] + [] == PiecesOf(g) && PieceText(p) + "" == PieceText(p);
      EscapedText(g.text);
      VerbatimText(g.text);
      PlainText(g.text);
    }
  }

  lemma EscapedText(text: string)
    ensures PieceText(Print("html_escape( " + text + " )", " ")) == "print(html_escape( " + text + " )); "
  {
    assert "print(" + "html_escape( " == "print(html_escape( " && " )" + ");" + " " == " )); ";
    Wrapped("print(", "html_escape( ", text, " )", ");", " ");
  }

  lemma VerbatimText(text: string)
    ensures PieceText(Print(" " + text + " ", " ")) == "print( " + text + " ); "
  {
    assert "print(" + " " == "print( " && " " + ");" + " " == " ); ";
    Wrapped("print(", " ", text, " ", ");", " ");
  }

  lemma PlainText(text: string)
    ensures PieceText(Print(CppLiteral.Literal(text), "")) == "print(" + CppLiteral.Literal(text) + ");"
    ensures PieceText(Plain(text)) == text
  {
    hide CppLiteral.Literal;
  }

  lemma NoPieces()
    ensures PiecesText([]) == ""
  {
  }

  lemma Wrapped(a: string, b: string, text: string, c: string, d: string, e: string)
    ensures a + (b + text + c) + d + e == (a + b) + text + (c + d + e)
  {
  }

  lemma TextCons(p: Piece, more: seq<Piece>)
    ensures PiecesText([p] + more) == PieceText(p) + PiecesText(more)
  {
    hide PieceText;
    assert ([p] + more)[1..] == more;
  }

  lemma {:induction false} TextOfConcat(a: seq<Piece>, b: seq<Piece>)
    ensures PiecesText(a + b) == PiecesText(a) + PiecesText(b)
  {
    hide PieceText, PiecesText;
    NoPieces();
    if a == [] {
      assert a + b == b && "" + PiecesText(b) == PiecesText(b);
    } else {
      TextOfConcat(a[1..], b);
      TextCons(a[0], a[1..] + b);
      TextCons(a[0], a[1..]);
      assert a + b == [a[0]] + (a[1..] + b) && a == [a[0]] + a[1..];
      Assoc(PieceText(a[0]), PiecesText(a[1..]), PiecesText(b));
    }
  }

  lemma Assoc(a: string, b: string, c: string)
    ensures a + (b + c) == a + b + c
  {
  }

  lemma {:induction false} BlanksBehind(gs: seq<Segment>)
    ensures forall p | p in AllPieces(gs) :: p.Print? ==> IsBlank(p.blanks)
  {
    if gs != [] { BlanksBehind(gs[1..]); }
  }

  /** One stretch: what its delimiter asks for is what its C++ does. */
  lemma StretchAgrees(open: string, g: Segment, isExpression: string -> bool, value: Values, past: seq<Event>)
    requires Lawful(isExpression, value) && KindFits(open, g)
    requires g.kind == Literal ==> !NeedsFallback(g.text)
    requires open == "<?=" || open == "<?:" ==> isExpression(g.text)
    ensures |PiecesOf(g)| <= 1
    ensures Does(open, g.text, value, past) == PiecesDo(PiecesOf(g), value, past)
  {
    hide ReadRaw, CppLiteral.Literal, NeedsFallback, MarkdownRender.HtmlEscape;
    if g.kind == Literal && g.text != "" {
      LiteralReadsBack(g.text, "");
      assert CppLiteral.Literal(g.text) + "" == CppLiteral.Literal(g.text);
      assert value(past, CppLiteral.Literal(g.text)) == g.text;
    }
    if PiecesOf(g) != [] { assert PiecesOf(g)[1..] == []; }
  }

  lemma {:induction false} SourceAgrees(open: string, gs: seq<Segment>, isExpression: string -> bool, value: Values,
      past: seq<Event>)
    requires Lawful(isExpression, value) && KindsFit(open, gs) && AllRaw(gs)
    requires FieldsAreExpressions(open, gs, isExpression)
    ensures SourceDoes(open, gs, value, past) == PiecesDo(AllPieces(gs), value, past)
    decreases |gs|
  {
    if gs != [] {
      hide Lawful, KindFits, Does, PiecesOf, EventOf, NeedsFallback, PiecesDo;
      var g := gs[0];
      assert g in gs;
      StretchAgrees(open, g, isExpression, value, past);
      var events := Does(open, g.text, value, past);
      SourceAgrees(g.close, gs[1..], isExpression, value, past + events);
      var ps, more := PiecesOf(g), AllPieces(gs[1..]);
      if ps == [] {
        assert past + events == past && ps + more == more && events + PiecesDo(more, value, past) == PiecesDo(more,
            value, past);
      } else {
        DoCons(ps[0], more, value, past);
        DoCons(ps[0], [], value, past);
        assert [ps[0]] + [] == ps && events == [EventOf(ps[0], value, past)];
      }
    }
  }

  lemma DoCons(p: Piece, more: seq<Piece>, value: Values, past: seq<Event>)
    ensures var event := EventOf(p, value, past);
      PiecesDo([p] + more, value, past) == [event] + PiecesDo(more, value, past + [event])
  {
    hide EventOf;
    assert ([p] + more)[1..] == more;
  }

  /** A template prints its literals as they are, for a field behind `<?=` the
      escaped value and for one behind `<?:` the bare value, and runs its code in
      between, all in the order of the source. */
  lemma TemplatePrints(source: string, isExpression: string -> bool, value: Values)
    requires Lawful(isExpression, value) && AllRaw(CodeSegments(source))
    requires FieldsAreExpressions("", CodeSegments(source), isExpression)
    ensures CppDoes(EmitAll(CodeSegments(source)), value, SourceDoes("", CodeSegments(source), value, []))
  {
    hide CodeSegments, EmitAll, AllPieces, SourceDoes, PiecesDo, PiecesText, Lawful, KindsFit, FieldsAreExpressions,
      AllRaw, IsBlank;
    var gs := CodeSegments(source);
    CodeKinds(source, "");
    PiecesAreText(gs);
    BlanksBehind(gs);
    SourceAgrees("", gs, isExpression, value, []);
  }

  // ----- values that keep the laws -----

  predicate IsWord(e: string) {
    MarkdownRender.PlainWord(e)
  }

  /** Names as expressions, with any values. */
  function WordValue(names: Values, past: seq<Event>, e: string): string {
    var raw := ReadRaw(e);
    if raw.Some? && raw.value.1 == "" then raw.value.0
    else if StartsWith(e, "html_escape( ") && |e| >= 15 then
      MarkdownRender.HtmlEscape(names(past, e[13..|e| - 2]))
    else if |e| >= 2 && e[0] == ' ' then names(past, e[1..|e| - 1])
    else names(past, e)
  }

  lemma WordsAreLawful(names: Values)
    ensures Lawful(e => IsWord(e), (past, e) => WordValue(names, past, e))
  {
    hide ReadRaw, MarkdownRender.HtmlEscape;
    forall past, e | IsWord(e)
      ensures WordValue(names, past, e) == names(past, e) == WordValue(names, past, " " + e + " ")
      ensures WordValue(names, past, "html_escape( " + e + " )") == MarkdownRender.HtmlEscape(names(past, e))
    {
      WordIsRead(names, past, e);
    }
  }

  lemma WordIsRead(names: Values, past: seq<Event>, e: string)
    requires IsWord(e)
    ensures WordValue(names, past, e) == names(past, e) == WordValue(names, past, " " + e + " ")
    ensures WordValue(names, past, "html_escape( " + e + " )") == MarkdownRender.HtmlEscape(names(past, e))
  {
    hide MarkdownRender.HtmlEscape;
    var spaced, called := " " + e + " ", "html_escape( " + e + " )";
    assert spaced[1..|spaced| - 1] == e && spaced[0] == ' ';
    assert called[..13] == "html_escape( " && called[13..|called| - 2] == e;
    NoQuote(e);
    assert spaced[..2][0] != 'R' && called[..2][0] != 'R';
    if |e| >= 13 { assert e[..13][11] == e[11]; }
    if |spaced| >= 13 { assert spaced[..13][0] == spaced[0]; }
  }

  lemma NoQuote(e: string)
    requires IsWord(e)
    ensures ReadRaw(e).None?
  {
    if |e| >= 2 { assert e[..2][1] == e[1] != '"'; }
  }
}
