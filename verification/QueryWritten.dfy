/** Queries as any client may write them, and the map that the parser makes of them
    (src/lib/uri.cpp:181-249): characters as they are, as '+' or as '%' and two digits
    of either case; parts with and without a '=', and empty ones. */
module QueryWritten {
  import opened Text
  import opened Query

  // ----- characters -----

  datatype Glyph = Plain(c: char) | Plus | Percent(high: Figure, low: Figure)

  /** The marks of a query stand for themselves only where they are no mark. */
  predicate GlyphOk(g: Glyph, marks: string) {
    match g
    case Plain(c) => c != '%' && c != '+' && c !in marks
    case Plus => true
    case Percent(high, low) => high.value < 16 && low.value < 16
  }

  predicate GlyphsOk(gs: seq<Glyph>, marks: string) {
    forall i | 0 <= i < |gs| :: GlyphOk(gs[i], marks)
  }

  function GlyphText(g: Glyph, marks: string): string
    requires GlyphOk(g, marks)
  {
    match g
    case Plain(c) => [c]
    case Plus => "+"
    case Percent(high, low) => ['%', FigureChar(high), FigureChar(low)]
  }

  function GlyphValue(g: Glyph, marks: string): char
    requires GlyphOk(g, marks)
  {
    match g
    case Plain(c) => c
    case Plus => ' '
    case Percent(high, low) => (high.value * 16 + low.value) as char
  }

  function GlyphsText(gs: seq<Glyph>, marks: string): string
    requires GlyphsOk(gs, marks)
  {
    if gs == [] then "" else GlyphText(gs[0], marks) + GlyphsText(gs[1..], marks)
  }

  function GlyphsValue(gs: seq<Glyph>, marks: string): string
    requires GlyphsOk(gs, marks)
  {
    seq(|gs|, i requires 0 <= i < |gs| => GlyphValue(gs[i], marks))
  }

  lemma FigureReads(f: Figure)
    requires f.value < 16
    ensures IsHex(FigureChar(f)) && HexValue(FigureChar(f)) == f.value
    ensures FigureChar(f) !in "%+&="
  {
  }

  lemma GlyphReads(g: Glyph, marks: string, rest: string)
    requires GlyphOk(g, marks)
    ensures DecodeChar(GlyphText(g, marks) + rest) == (GlyphValue(g, marks), |GlyphText(g, marks)|)
  {
    hide FigureChar, HexValue, IsHex;
    if g.Percent? {
      FigureReads(g.high);
      FigureReads(g.low);
    }
  }

  /** However its characters are written, a text decodes to them. */
  lemma {:induction false} GlyphsRead(gs: seq<Glyph>, marks: string)
    requires GlyphsOk(gs, marks)
    ensures UriDecode(GlyphsText(gs, marks)) == GlyphsValue(gs, marks)
  {
    if gs != [] {
      hide GlyphText, GlyphValue, GlyphOk, DecodeChar;
      var rest := GlyphsText(gs[1..], marks);
      GlyphReads(gs[0], marks, rest);
      assert (GlyphText(gs[0], marks) + rest)[|GlyphText(gs[0], marks)|..] == rest;
      GlyphNotEmpty(gs[0], marks);
      GlyphsRead(gs[1..], marks);
      assert GlyphsValue(gs, marks) == [GlyphValue(gs[0], marks)] + GlyphsValue(gs[1..], marks);
    }
  }

  lemma GlyphNotEmpty(g: Glyph, marks: string)
    requires GlyphOk(g, marks)
    ensures GlyphText(g, marks) != ""
  {
  }

  lemma GlyphIsSafe(g: Glyph, marks: string, c: char)
    requires GlyphOk(g, marks) && c in marks && c in "&="
    ensures Without(GlyphText(g, marks), c)
  {
    hide FigureChar;
    if g.Percent? {
      FigureReads(g.high);
      FigureReads(g.low);
    }
  }

  lemma {:induction false} GlyphsAreSafe(gs: seq<Glyph>, marks: string, c: char)
    requires GlyphsOk(gs, marks) && c in marks && c in "&="
    ensures Without(GlyphsText(gs, marks), c)
    ensures gs != [] ==> GlyphsText(gs, marks) != ""
  {
    hide GlyphText, GlyphOk;
    if gs != [] {
      GlyphIsSafe(gs[0], marks, c);
      GlyphNotEmpty(gs[0], marks);
      GlyphsAreSafe(gs[1..], marks, c);
    }
  }

  // ----- queries -----

  /** A part between two '&': a key and a value, a key alone, or nothing. */
  datatype Part = Pair(key: seq<Glyph>, value: seq<Glyph>) | Lone(key: seq<Glyph>) | Nothing

  predicate PartOk(p: Part) {
    match p
    case Pair(key, value) => GlyphsOk(key, "&=") && GlyphsOk(value, "&")
    case Lone(key) => key != [] && GlyphsOk(key, "&=")
    case Nothing => true
  }

  predicate PartsOk(parts: seq<Part>) {
    forall i | 0 <= i < |parts| :: PartOk(parts[i])
  }

  function PartText(p: Part): string
    requires PartOk(p)
  {
    match p
    case Pair(key, value) => GlyphsText(key, "&=") + "=" + GlyphsText(value, "&")
    case Lone(key) => GlyphsText(key, "&=")
    case Nothing => ""
  }

  function QueryText(parts: seq<Part>): string
    requires PartsOk(parts)
  {
    if parts == [] then ""
    else if |parts| == 1 then PartText(parts[0])
    else QueryText(parts[..|parts| - 1]) + "&" + PartText(parts[|parts| - 1])
  }

  /** What the part says of the key. */
  function Says(p: Part, key: string): Option<string>
    requires PartOk(p)
  {
    match p
    case Pair(k, v) => if GlyphsValue(k, "&=") == key then Some(GlyphsValue(v, "&")) else None
    case Lone(k) => if GlyphsValue(k, "&=") == key then Some("") else None
    case Nothing => None
  }

  /** The last part that says anything of the key counts. */
  function LastValue(parts: seq<Part>, key: string): Option<string>
    requires PartsOk(parts)
  {
    if parts == [] then None
    else
      var last := Says(parts[|parts| - 1], key);
      if last.Some? then last else LastValue(parts[..|parts| - 1], key)
  }

  /** The first key without a '='; such a key is not empty. */
  function FirstLone(parts: seq<Part>): string
    requires PartsOk(parts)
  {
    if parts == [] then ""
    else if parts[0].Lone? then GlyphsValue(parts[0].key, "&=")
    else FirstLone(parts[1..])
  }

  lemma PartReads(p: Parsed, part: Part)
    requires PartOk(part)
    ensures Without(PartText(part), '&')
    ensures AddPart(p, PartText(part)) ==
      match part
      case Pair(key, value) => p.(values := p.values[GlyphsValue(key, "&=") := GlyphsValue(value, "&")])
      case Lone(key) =>
        Parsed(p.values[GlyphsValue(key, "&=") := ""], if p.keyless == "" then GlyphsValue(key, "&=") else p.keyless)
      case Nothing => p
  {
    hide GlyphsText, GlyphsValue, GlyphOk, UriDecode, Find;
    match part
    case Pair(key, value) => PairReads(p, key, value);
    case Lone(key) =>
      GlyphsRead(key, "&=");
      GlyphsAreSafe(key, "&=", '&');
      GlyphsAreSafe(key, "&=", '=');
      var text := GlyphsText(key, "&=");
      assert Find(text, '=', 0) == |text|;
    case Nothing =>
  }

  lemma PairReads(p: Parsed, key: seq<Glyph>, value: seq<Glyph>)
    requires GlyphsOk(key, "&=") && GlyphsOk(value, "&")
    ensures var text := PartText(Pair(key, value));
      && Without(text, '&')
      && AddPart(p, text) == p.(values := p.values[GlyphsValue(key, "&=") := GlyphsValue(value, "&")])
  {
    hide GlyphsText, GlyphsValue, GlyphOk, UriDecode, Find;
    GlyphsRead(key, "&=");
    GlyphsRead(value, "&");
    GlyphsAreSafe(key, "&=", '&');
    GlyphsAreSafe(key, "&=", '=');
    GlyphsAreSafe(value, "&", '&');
    var front, text := GlyphsText(key, "&="), PartText(Pair(key, value));
    assert text[|front|] == '=' && forall i | 0 <= i < |front| :: text[i] == front[i];
    assert Find(text, '=', 0) == |front|;
    assert text[..|front|] == front && text[|front| + 1..] == GlyphsText(value, "&");
  }

  function PartTexts(parts: seq<Part>): seq<string>
    requires PartsOk(parts)
  {
    seq(|parts|, i requires 0 <= i < |parts| => PartText(parts[i]))
  }

  lemma {:induction false} QuerySplits(parts: seq<Part>)
    requires PartsOk(parts) && parts != []
    ensures Split(QueryText(parts), '&') == PartTexts(parts)
  {
    hide PartText, PartOk, Split;
    var front, last := parts[..|parts| - 1], parts[|parts| - 1];
    PartReads(NOTHING, last);
    if |parts| == 1 {
      SplitWhole(PartText(last), '&');
    } else {
      QuerySplits(front);
      assert QueryText(parts) == QueryText(front) + ['&'] + PartText(last);
      SplitAppend(QueryText(front), PartText(last), '&');
      assert PartTexts(parts) == PartTexts(front) + [PartText(last)];
    }
  }

  /** The parser's map answers for every key what the query says last, and nothing
      else; and it tells the first key without a '='. */
  ghost predicate Answers(p: Parsed, parts: seq<Part>)
    requires PartsOk(parts)
  {
    && (forall key :: key in p.values <==> LastValue(parts, key).Some?)
    && (forall key | key in p.values :: LastValue(parts, key) == Some(p.values[key]))
    && p.keyless == FirstLone(parts)
  }

  /** One part more. */
  lemma PartAnswers(p: Parsed, parts: seq<Part>)
    requires PartsOk(parts) && parts != [] && Answers(p, parts[..|parts| - 1])
    ensures Answers(AddPart(p, PartText(parts[|parts| - 1])), parts)
  {
    hide PartText, GlyphsValue, GlyphOk, AddPart, FirstLone;
    PartReads(p, parts[|parts| - 1]);
    LoneAtEnd(parts);
  }

  lemma AddLast(parts: seq<Part>)
    requires PartsOk(parts) && parts != []
    ensures AddParts(PartTexts(parts)) ==
      AddPart(AddParts(PartTexts(parts[..|parts| - 1])), PartText(parts[|parts| - 1]))
  {
    hide PartText, PartOk, AddPart;
    var texts := PartTexts(parts);
    assert texts[..|texts| - 1] == PartTexts(parts[..|parts| - 1]);
  }

  lemma {:induction false} PartsAnswer(parts: seq<Part>)
    requires PartsOk(parts)
    ensures Answers(AddParts(PartTexts(parts)), parts)
  {
    hide PartText, PartOk, AddPart, AddParts, Answers;
    if parts == [] {
      NothingAnswers();
    } else {
      PartsAnswer(parts[..|parts| - 1]);
      AddLast(parts);
      PartAnswers(AddParts(PartTexts(parts[..|parts| - 1])), parts);
    }
  }

  lemma NothingAnswers()
    ensures Answers(AddParts(PartTexts([])), [])
  {
    assert AddParts([]) == NOTHING;
  }

  lemma {:induction false} LoneAtEnd(parts: seq<Part>)
    requires PartsOk(parts) && parts != []
    ensures var front, last := parts[..|parts| - 1], parts[|parts| - 1];
      FirstLone(parts) ==
        if FirstLone(front) == "" && last.Lone? then GlyphsValue(last.key, "&=") else FirstLone(front)
  {
    hide GlyphOk;
    if |parts| > 1 && !parts[0].Lone? {
      LoneAtEnd(parts[1..]);
      assert parts[1..][..|parts| - 2] == parts[..|parts| - 1][1..];
    }
  }

  /** Any query: the parsed map is what the query says. */
  lemma QueryReads(parts: seq<Part>)
    requires PartsOk(parts)
    ensures Answers(ParseQuery(QueryText(parts)), parts)
  {
    hide Split, PartText, PartOk, AddPart, Answers;
    if parts == [] {
      assert Split("", '&') == [""] by { SplitWhole("", '&'); }
      NoPart();
      PartsAnswer([]);
    } else {
      QuerySplits(parts);
      PartsAnswer(parts);
    }
  }

  lemma NoPart()
    ensures AddParts([""]) == NOTHING == AddParts(PartTexts([]))
  {
    assert [""][..0] == [];
    assert AddParts([]) == NOTHING;
  }
}
