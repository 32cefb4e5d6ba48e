/** What the lines of Markdown blocks look like, said on the line alone, and the proof
    that each recognizer of the block parser accepts exactly those lines and takes
    from them what is written there (src/lib/markdown.cpp:98-120, 226-450). */
module MarkdownForms {
  import opened Text
  import opened MarkdownInline
  import opened Markdown
  import opened MarkdownSpelling

  // ----- runs and blanks -----

  lemma {:induction false} RunIs(s: string, c: char, n: nat)
    ensures RunOf(s, c, n) <==> n == Run(s, c)
  {
    if s != "" && s[0] == c {
      if n > 0 {
        RunIs(s[1..], c, n - 1);
        RunTail(s, c, n);
      }
    } else if n > 0 && RunOf(s, c, n) {
      RunFirst(s, c, n);
    }
  }

  lemma {:induction false} IndentIs(s: string, n: nat)
    ensures RunOf(s, ' ', n) <==> n == CountIndent(s)
  {
    if s != "" && s[0] == ' ' {
      if n > 0 {
        IndentIs(s[1..], n - 1);
        RunTail(s, ' ', n);
      }
    } else if n > 0 && RunOf(s, ' ', n) {
      RunFirst(s, ' ', n);
    }
  }

  lemma BlankIs(line: string)
    ensures IsBlank(line) <==> Blank(line)
  {
    TrimmedAway(line);
  }

  /** Every character is `c` or blank. */
  predicate Only(s: string, c: char) {
    forall i | 0 <= i < |s| :: s[i] == c || IsSpace(s[i])
  }

  // ----- headings -----

  predicate Closing(c: char) {
    c == '#' || IsSpace(c)
  }

  /** `content` is `x` without the run of '#' and blanks at its end; of a text of
      nothing else one '#' stays. */
  predicate WithoutClosing(x: string, content: string) {
    if Only(x, '#') then content == if x == "" then "" else "#"
    else
      && StartsWith(x, content) && content != "" && !Closing(content[|content| - 1])
      && forall i | |content| <= i < |x| :: Closing(x[i])
  }

  /** '#' one to six times, a blank, and the content. */
  ghost predicate AtxIs(raw: string, level: nat, content: string) {
    exists t, x :: Trimmed(raw, t) && AtxText(t, level, x) && WithoutClosing(x, content)
  }

  ghost predicate AtxText(t: string, level: nat, x: string) {
    1 <= level <= 6 && RunOf(t, '#', level) && level < |t| && IsSpace(t[level]) && Trimmed(t[level..], x)
  }

  lemma LastGoes(x: string, content: string)
    requires x != "" && x[|x| - 1] == '#' && Trim(x) == x && Trim(x[..|x| - 1]) != ""
    ensures WithoutClosing(x, content) <==> WithoutClosing(Trim(x[..|x| - 1]), content)
  {
    hide Trim;
    var front := x[..|x| - 1];
    var y := Trim(front);
    TrimIff(front, y);
    TrimIff(x, x);
    var i: nat :| TrimmedBy(front, y, i);
    FrontStays(front, x, y, i);
    assert x[..|y|] == y && forall k | |y| <= k < |x| :: Closing(x[k]);
    assert forall k | 0 <= k < |y| :: x[k] == y[k];
    if Only(y, '#') {
      assert Only(x, '#');
    } else {
      assert !Only(x, '#');
      if WithoutClosing(x, content) { LongerStays(x, y, content); }
      assert StartsWith(y, content) ==> x[..|content|] == y[..|content|];
    }
  }

  lemma LongerStays(x: string, y: string, content: string)
    requires StartsWith(x, content) && content != "" && !Closing(content[|content| - 1])
    requires StartsWith(x, y) && forall k | |y| <= k < |x| :: Closing(x[k])
    ensures StartsWith(y, content)
  {
    assert content[|content| - 1] == x[..|content|][|content| - 1] == x[|content| - 1];
    assert |content| <= |y|;
    assert y[..|content|] == x[..|y|][..|content|] == x[..|content|];
  }

  lemma FrontStays(front: string, x: string, y: string, i: nat)
    requires x != "" && front == x[..|x| - 1] && TrimmedBy(front, y, i) && y != ""
    requires !IsSpace(x[0]) && x[|x| - 1] == '#'
    ensures i == 0 && StartsWith(x, y) && forall k | |y| <= k < |x| :: Closing(x[k])
  {
    if i > 0 { BlankBefore(front, i, 0); }
    assert y == front[..|y|] == x[..|y|];
    forall k | |y| <= k < |x| ensures Closing(x[k]) {
      if k < |front| { BlankBehind(front, |y|, k); }
    }
  }

  lemma {:induction false} StripIff(x: string, content: string)
    requires Trim(x) == x
    ensures WithoutClosing(x, content) <==> content == StripHashes(x)
    decreases |x|
  {
    hide Trim;
    if x != "" && x[|x| - 1] == '#' && Trim(x[..|x| - 1]) != "" {
      TrimShrinks(x[..|x| - 1]);
      TrimTwice(x[..|x| - 1]);
      LastGoes(x, content);
      StripIff(Trim(x[..|x| - 1]), content);
    } else {
      StripDone(x, content);
    }
  }

  lemma StripDone(x: string, content: string)
    requires Trim(x) == x && (x != "" && x[|x| - 1] == '#' ==> Trim(x[..|x| - 1]) == "")
    ensures WithoutClosing(x, content) <==> content == x
  {
    hide Trim;
    TrimIff(x, x);
    if x != "" {
      if x[|x| - 1] == '#' {
        TrimmedAway(x[..|x| - 1]);
        if |x| > 1 { BlankBefore(x, |x| - 1, 0); }
        assert x == "#";
      } else {
        assert !Closing(x[|x| - 1]);
        assert x[..|x|] == x;
      }
    }
  }

  lemma AtxIff(raw: string, level: nat, content: string)
    ensures AtxIs(raw, level, content) <==> AtxHeading(raw) == Some((level, content))
  {
    hide Trim, Trimmed, WithoutClosing, StripHashes, RunOf, Run, IsSpace;
    var t := Trim(raw);
    forall u ensures Trimmed(raw, u) <==> u == t { TrimIff(raw, u); }
    RunIs(t, '#', level);
    if level < |t| {
      var back := t[level..];
      forall x ensures Trimmed(back, x) <==> x == Trim(back) { TrimIff(back, x); }
      TrimTwice(back);
      StripIff(Trim(back), content);
      assert AtxText(t, level, Trim(back)) <==> 1 <= level <= 6 && RunOf(t, '#', level) && IsSpace(t[level]);
    }
  }

  /** A text underlined with '=' (level 1) or '-' (level 2), three characters or more. */
  ghost predicate SetextIs(current: string, next: string, level: nat, content: string) {
    && Trimmed(current, content) && content != ""
    && exists n :: Trimmed(next, n) && |n| >= 3 && ((level == 1 && Only(n, '=')) || (level == 2 && Only(n, '-')))
  }

  lemma SetextIff(current: string, next: string, level: nat, content: string)
    ensures SetextIs(current, next, level, content) <==> SetextHeading(current, next) == Some((level, content))
  {
    hide Trim, Trimmed;
    var n := Trim(next);
    TrimIff(current, content);
    forall u ensures Trimmed(next, u) <==> u == n { TrimIff(next, u); }
    assert |n| >= 3 ==> !IsSpace(n[0]) by { NotBlankFirst(next); }
  }

  lemma NotBlankFirst(s: string)
    ensures Trim(s) != "" ==> !IsSpace(Trim(s)[0])
  {
    hide Trim;
    TrimIff(s, Trim(s));
  }

  // ----- fences and rules -----

  /** Three or more backticks or tildes and the info text. */
  ghost predicate FenceIs(raw: string, c: char, length: nat, info: string) {
    exists t :: Trimmed(raw, t) && FenceText(t, c, length, info)
  }

  ghost predicate FenceText(t: string, c: char, length: nat, info: string) {
    && (c == '`' || c == '~') && length >= 3 && RunOf(t, c, length) && length <= |t| && Trimmed(t[length..], info)
  }

  lemma FenceIff(raw: string, c: char, length: nat, info: string)
    ensures FenceIs(raw, c, length, info) <==> Fence(raw) == Some((c, length, info))
  {
    hide Trim, Trimmed, RunOf, Run;
    var t := Trim(raw);
    forall u ensures Trimmed(raw, u) <==> u == t { TrimIff(raw, u); }
    RunIs(t, c, length);
    if length > 0 && RunOf(t, c, length) { RunFirst(t, c, length); }
    if length <= |t| { TrimIff(t[length..], info); }
    assert FenceIs(raw, c, length, info) <==> FenceText(t, c, length, info);
  }

  /** The language is the first word of the info text. */
  ghost predicate LanguageIs(info: string, lang: string) {
    if Without(info, ' ') then Trimmed(info, lang)
    else exists n: nat :: n <= |info| && FirstAt(info, 0, " ", n) && Trimmed(info[..n], lang)
  }

  lemma LanguageIff(info: string, lang: string)
    ensures LanguageIs(info, lang) <==> lang == Trim(info[..Find(info, ' ', 0)])
  {
    hide Trim, Trimmed, Find, FirstAt;
    var n := Find(info, ' ', 0);
    forall m: nat ensures FirstAt(info, 0, " ", m) <==> m < |info| && m == n { FirstCharIff(info, 0, ' ', m); }
    TrimIff(info[..n], lang);
    assert n == |info| <==> Without(info, ' ');
    if n == |info| { assert info[..n] == info; }
  }

  /** Three or more of one mark, and blanks. */
  ghost predicate RuleIs(raw: string) {
    exists t :: Trimmed(raw, t) && RuleText(t)
  }

  predicate RuleText(t: string) {
    t != "" && t[0] in "-*_" && Only(t, t[0]) && multiset(t)[t[0]] >= 3
  }

  lemma {:induction false} CountIs(s: string, c: char)
    ensures CountOf(s, c) == multiset(s)[c] <= |s|
  {
    if s != "" {
      CountIs(s[1..], c);
      assert s == [s[0]] + s[1..];
    }
  }

  lemma RuleIff(raw: string)
    ensures RuleIs(raw) <==> IsRule(raw)
  {
    hide Trim, Trimmed, CountOf;
    var t := Trim(raw);
    forall u ensures Trimmed(raw, u) <==> u == t { TrimIff(raw, u); }
    if t != "" { CountIs(t, t[0]); }
    assert RuleIs(raw) <==> RuleText(t);
  }

  // ----- lists -----

  /** "- ", "* " or "+ " and the content, or digits, '.' or ')', a blank and the content. */
  ghost predicate MarkerIs(raw: string, m: Marker) {
    if m.ordered then
      exists digits, c :: IsDigits(digits) && c in ".)" && raw == digits + [c] + " " + m.content
        && m.start == DigitsValue(digits)
    else exists c :: c in "-*+" && raw == [c] + " " + m.content && m.start == 1
  }

  lemma {:induction false} DigitsFirst(digits: string, rest: string)
    requires (forall i | 0 <= i < |digits| :: IsDigit(digits[i])) && (rest == "" || !IsDigit(rest[0]))
    ensures DigitRun(digits + rest) == |digits|
  {
    if digits == "" {
      assert digits + rest == rest;
    } else {
      DigitsFirst(digits[1..], rest);
      assert (digits + rest)[1..] == digits[1..] + rest;
    }
  }

  lemma NumberReads(raw: string, digits: string, c: char, content: string)
    requires IsDigits(digits) && c in ".)" && raw == digits + [c] + " " + content
    ensures ListMarker(raw) == Some(Marker(true, DigitsValue(digits), content))
  {
    hide DigitRun, DigitsValue;
    var n, rest := |digits|, [c] + " " + content;
    assert raw == digits + rest;
    DigitsFirst(digits, rest);
    assert raw[0] == digits[0] && IsDigit(digits[0]);
    assert raw[n] == c && raw[n + 1] == ' ' && raw[..n] == digits && raw[n + 2..] == content;
  }

  lemma BulletReads(raw: string, c: char, content: string)
    requires c in "-*+" && raw == [c] + " " + content
    ensures ListMarker(raw) == Some(Marker(false, 1, content))
  {
    hide DigitRun, DigitsValue;
    assert raw[0] == c && raw[1] == ' ' && raw[2..] == content;
  }

  lemma MarkerReads(raw: string, m: Marker)
    requires MarkerIs(raw, m)
    ensures ListMarker(raw) == Some(m)
  {
    hide ListMarker, DigitsValue;
    if m.ordered {
      var digits, c :| IsDigits(digits) && c in ".)" && raw == digits + [c] + " " + m.content
        && m.start == DigitsValue(digits);
      NumberReads(raw, digits, c, m.content);
    } else {
      var c :| c in "-*+" && raw == [c] + " " + m.content && m.start == 1;
      BulletReads(raw, c, m.content);
    }
  }

  lemma ReadMarkerIs(raw: string)
    requires ListMarker(raw).Some?
    ensures MarkerIs(raw, ListMarker(raw).value)
  {
    hide DigitRun, DigitsValue;
    var m := ListMarker(raw).value;
    if m.ordered {
      var n := DigitRun(raw);
      var digits, c := raw[..n], raw[n];
      assert raw == digits + [c] + " " + raw[n + 2..];
      assert IsDigits(digits) && c in ".)";
    } else {
      assert raw == [raw[0]] + " " + raw[2..];
    }
  }

  lemma MarkerIff(raw: string, m: Marker)
    ensures MarkerIs(raw, m) <==> ListMarker(raw) == Some(m)
  {
    hide MarkerIs, ListMarker;
    if MarkerIs(raw, m) { MarkerReads(raw, m); }
    if ListMarker(raw).Some? { ReadMarkerIs(raw); }
  }

  /** "[x] " or "[X] " is checked, "[ ] " is not. */
  predicate TaskIs(content: string, checked: bool, own: string) {
    if checked then content == "[x] " + own || content == "[X] " + own else content == "[ ] " + own
  }

  lemma TaskIff(content: string, checked: bool, own: string)
    ensures TaskIs(content, checked, own) <==> TaskPrefix(content) == Some((checked, own))
  {
    assert ("[x] " + own)[4..] == own && ("[X] " + own)[4..] == own && ("[ ] " + own)[4..] == own;
    if |content| >= 4 {
      assert content == [content[0], content[1], content[2], content[3]] + content[4..];
    }
  }

  // ----- tables -----

  /** `t` spells the characters of a cell, each behind a backslash or as it is; a bar
      or a backslash only behind one. */
  predicate CellText(t: string, text: string)
    decreases |t|
  {
    if t == "" || text == "" then t == text == ""
    else if t[0] == '\\' then |t| > 1 && t[1] == text[0] && CellText(t[2..], text[1..])
    else t[0] != '|' && t[0] == text[0] && CellText(t[1..], text[1..])
  }

  /** Cells, trimmed, with bars between them; one backslash may stand at the end. */
  ghost predicate CellsAre(raw: string, cells: seq<string>)
    decreases |cells|, 1
  {
    cells != [] && exists k: nat, text :: FirstCell(raw, k, text, cells[0]) && CellsBehind(raw, k, cells)
  }

  ghost predicate FirstCell(raw: string, k: nat, text: string, cell: string) {
    k <= |raw| && CellText(raw[..k], text) && Trimmed(text, cell)
  }

  ghost predicate CellsBehind(raw: string, k: nat, cells: seq<string>)
    requires cells != []
    decreases |cells|, 0
  {
    if |cells| == 1 then k <= |raw| && (raw[k..] == "" || raw[k..] == "\\")
    else k < |raw| && raw[k] == '|' && CellsAre(raw[k + 1..], cells[1..])
  }

  /** A row: an empty cell at either end is none. */
  ghost predicate RowIs(raw: string, row: seq<string>) {
    exists cells :: CellsAre(raw, cells) && row == BetweenBars(cells)
  }

  function BetweenBars(cells: seq<string>): seq<string> {
    var inner := if cells != [] && cells[0] == "" then cells[1..] else cells;
    if inner != [] && inner[|inner| - 1] == "" then inner[..|inner| - 1] else inner
  }

  lemma {:induction false} CellRead(t: string, rest: string, cell: string, text: string)
    requires CellText(t, text)
    ensures PipeCells(t + rest, cell) == PipeCells(rest, cell + text)
    decreases |t|
  {
    if t == "" {
      assert t + rest == rest && cell + text == cell;
    } else {
      var n := if t[0] == '\\' then 2 else 1;
      assert (t + rest)[n..] == t[n..] + rest;
      CellRead(t[n..], rest, cell + [text[0]], text[1..]);
      assert cell + [text[0]] + text[1..] == cell + text;
    }
  }

  lemma {:induction false} CellsRead(raw: string, cells: seq<string>)
    requires CellsAre(raw, cells)
    ensures PipeCells(raw, "") == cells
    decreases |cells|
  {
    hide Trim, Trimmed, CellText;
    var k: nat, text :| FirstCell(raw, k, text, cells[0]) && CellsBehind(raw, k, cells);
    CellRead(raw[..k], raw[k..], "", text);
    assert raw[..k] + raw[k..] == raw && "" + text == text;
    TrimIff(text, cells[0]);
    if |cells| > 1 {
      assert raw[k..][1..] == raw[k + 1..];
      CellsRead(raw[k + 1..], cells[1..]);
    }
  }

  lemma {:induction false} CellAppend(t: string, a: string, text: string, c: string)
    requires CellText(t, text) && CellText(a, c)
    ensures CellText(t + a, text + c)
    decreases |t|
  {
    if t == "" {
      assert t + a == a && text + c == c;
    } else {
      var n := if t[0] == '\\' then 2 else 1;
      CellAppend(t[n..], a, text[1..], c);
      assert (t + a)[n..] == t[n..] + a && (text + c)[1..] == text[1..] + c;
    }
  }

  lemma CellLetter(s: string)
    requires s != "" && s[0] != '|' && (s[0] == '\\' ==> |s| > 1)
    ensures var n := if s[0] == '\\' then 2 else 1;
      CellText(s[..n], [s[n - 1]])
  {
  }

  lemma CellDone(t: string, s: string, cell: string, cells: seq<string>)
    requires CellText(t, cell) && cells != [] && cells[0] == Trim(cell)
    requires |cells| == 1 ==> s == "" || s == "\\"
    requires |cells| > 1 ==> s != "" && s[0] == '|' && CellsAre(s[1..], cells[1..])
    ensures CellsAre(t + s, cells)
  {
    hide CellText, Trim, Trimmed;
    var raw := t + s;
    TrimIff(cell, cells[0]);
    assert raw[..|t|] == t && raw[|t|..] == s;
    if |cells| > 1 { assert raw[|t| + 1..] == s[1..]; }
    assert FirstCell(raw, |t|, cell, cells[0]) && CellsBehind(raw, |t|, cells);
  }

  lemma PipeStep(s: string, cell: string)
    requires s != ""
    ensures PipeCells(s, cell) ==
      if s == "\\" then [Trim(cell)]
      else if s[0] == '|' then [Trim(cell)] + PipeCells(s[1..], "")
      else
        var n := if s[0] == '\\' then 2 else 1;
        PipeCells(s[n..], cell + [s[n - 1]])
    ensures PipeCells("", cell) == [Trim(cell)]
  {
    hide Trim;
  }

  lemma BarRead(t: string, s: string, cell: string, more: seq<string>)
    requires CellText(t, cell) && s != "" && s[0] == '|' && CellsAre(s[1..], more)
    ensures CellsAre(t + s, [Trim(cell)] + more)
  {
    assert more != [];
    hide CellText, CellsAre, Trim;
    var cells := [Trim(cell)] + more;
    assert cells[1..] == more;
    CellDone(t, s, cell, cells);
  }

  lemma {:induction false} CellsSpelled(t: string, s: string, cell: string)
    requires CellText(t, cell)
    ensures CellsAre(t + s, PipeCells(s, cell))
    decreases |s|
  {
    hide *;
    if s == "" {
      PipeStep("|", cell);
      CellDone(t, s, cell, [Trim(cell)]);
    } else {
      PipeStep(s, cell);
      if s == "\\" {
        CellDone(t, s, cell, [Trim(cell)]);
      } else if s[0] == '|' {
        NoCell();
        CellsSpelled("", s[1..], "");
        assert "" + s[1..] == s[1..];
        BarRead(t, s, cell, PipeCells(s[1..], ""));
      } else {
        var n := if s[0] == '\\' then 2 else 1;
        CellLetter(s);
        CellAppend(t, s[..n], cell, [s[n - 1]]);
        CellsSpelled(t + s[..n], s[n..], cell + [s[n - 1]]);
        assert t + s[..n] + s[n..] == t + s;
      }
    }
  }

  lemma NoCell()
    ensures CellText("", "")
  {
  }

  lemma CellsIff(raw: string, cells: seq<string>)
    ensures CellsAre(raw, cells) <==> cells == PipeCells(raw, "")
  {
    hide CellsAre, PipeCells;
    NoCell();
    CellsSpelled("", raw, "");
    assert "" + raw == raw;
    if CellsAre(raw, cells) { CellsRead(raw, cells); }
  }

  lemma RowIff(raw: string, row: seq<string>)
    ensures RowIs(raw, row) <==> row == PipeRow(raw)
  {
    hide CellsAre, PipeCells;
    var cells := PipeCells(raw, "");
    forall cs ensures CellsAre(raw, cs) <==> cs == cells { CellsIff(raw, cs); }
    assert PipeRow(raw) == BetweenBars(cells);
  }

  function Colon(present: bool): string {
    if present then ":" else ""
  }

  function AlignName(left: bool, right: bool): string {
    if left && right then "center" else if left then "left" else if right then "right" else ""
  }

  /** Three or more dashes; a colon at an end aligns to it, one at both centres. */
  ghost predicate AlignIs(cell: string, align: string) {
    exists left, right, inner, dashes ::
      AlignText(cell, left, right, inner, dashes) && align == AlignName(left, right)
  }

  ghost predicate AlignText(cell: string, left: bool, right: bool, inner: string, dashes: string) {
    Trimmed(cell, Colon(left) + inner + Colon(right)) && Trimmed(inner, dashes) && Dashes(dashes)
  }

  predicate Dashes(s: string) {
    |s| >= 3 && forall i | 0 <= i < |s| :: s[i] == '-'
  }

  /** A row of alignments. */
  ghost predicate SeparatorIs(raw: string, aligns: seq<string>) {
    exists row :: RowIs(raw, row) && row != [] && |row| == |aligns|
      && forall i | 0 <= i < |row| :: AlignIs(row[i], aligns[i])
  }

  lemma InnerEnds(inner: string, dashes: string)
    requires Trimmed(inner, dashes) && Dashes(dashes)
    ensures inner != "" && inner[0] != ':' && inner[|inner| - 1] != ':'
  {
    var i: nat :| TrimmedBy(inner, dashes, i);
    var last, end := |inner| - 1, i + |dashes|;
    if i > 0 { BlankBefore(inner, i, 0); } else { assert inner[0] == dashes[0]; }
    if end <= last { BlankBehind(inner, end, last); } else { assert inner[last] == dashes[|dashes| - 1]; }
  }

  lemma DashesAre(dashes: string)
    ensures Dashes(dashes) <==> |dashes| >= 3 && forall i | 0 <= i < |dashes| :: dashes[i] == '-'
  {
  }

  lemma AlignmentIs(cell: string)
    ensures var c := Trim(cell);
      Alignment(cell) ==
        if c == "" || !Dashes(Trim(WithoutColons(c))) then None else Some(AlignName(c[0] == ':', c[|c| - 1] == ':'))
  {
    hide Trim, WithoutColons;
  }

  lemma ColonsGo(left: bool, right: bool, inner: string)
    requires inner != "" && inner[0] != ':' && inner[|inner| - 1] != ':'
    ensures var c := Colon(left) + inner + Colon(right);
      c != "" && (c[0] == ':') == left && (c[|c| - 1] == ':') == right && WithoutColons(c) == inner
  {
    var c := Colon(left) + inner + Colon(right);
    assert (if left then c[1..] else c) == inner + Colon(right);
    assert right ==> (inner + Colon(right))[..|inner|] == inner;
  }

  lemma AlignReads(cell: string, left: bool, right: bool, inner: string, dashes: string)
    requires AlignText(cell, left, right, inner, dashes)
    ensures Alignment(cell) == Some(AlignName(left, right))
  {
    hide Trim, Trimmed, Dashes, Colon, Alignment, WithoutColons, AlignName;
    TrimIff(cell, Colon(left) + inner + Colon(right));
    InnerEnds(inner, dashes);
    ColonsGo(left, right, inner);
    TrimIff(inner, dashes);
    AlignmentIs(cell);
  }

  lemma InnerJoins(c: string)
    requires c != "" && WithoutColons(c) != ""
    ensures c == Colon(c[0] == ':') + WithoutColons(c) + Colon(c[|c| - 1] == ':')
  {
    var left, right := c[0] == ':', c[|c| - 1] == ':';
    var t1 := if left then c[1..] else c;
    assert c == Colon(left) + t1;
    assert t1 == WithoutColons(c) + Colon(right);
  }

  lemma ReadAlignIs(cell: string)
    requires Alignment(cell).Some?
    ensures AlignIs(cell, Alignment(cell).value)
  {
    hide Alignment, Trim, Trimmed, Dashes, Colon, AlignName, WithoutColons;
    AlignmentIs(cell);
    var c := Trim(cell);
    var left, right, inner := c[0] == ':', c[|c| - 1] == ':', WithoutColons(c);
    NothingTrimmed();
    DashesAre(Trim(inner));
    InnerJoins(c);
    TrimIff(cell, c);
    TrimIff(inner, Trim(inner));
    assert AlignText(cell, left, right, inner, Trim(inner));
  }

  lemma NothingTrimmed()
    ensures Trim("") == ""
  {
  }

  lemma AlignIff(cell: string, align: string)
    ensures AlignIs(cell, align) <==> Alignment(cell) == Some(align)
  {
    hide Alignment, Trimmed, Dashes;
    if AlignIs(cell, align) {
      var left, right, inner, dashes :|
        AlignText(cell, left, right, inner, dashes) && align == AlignName(left, right);
      AlignReads(cell, left, right, inner, dashes);
    }
    if Alignment(cell).Some? { ReadAlignIs(cell); }
  }

  lemma {:induction false} AlignsIff(cells: seq<string>, aligns: seq<string>)
    ensures Alignments(cells) == Some(aligns) <==>
      |cells| == |aligns| && forall i | 0 <= i < |cells| :: AlignIs(cells[i], aligns[i])
  {
    hide Alignment, AlignIs;
    if cells == [] {
    } else if aligns != [] {
      AlignIff(cells[0], aligns[0]);
      AlignsIff(cells[1..], aligns[1..]);
      assert forall i | 1 <= i < |cells| :: cells[i] == cells[1..][i - 1];
      assert |cells| == |aligns| ==> forall i | 1 <= i < |cells| :: aligns[i] == aligns[1..][i - 1];
      assert aligns == [aligns[0]] + aligns[1..];
    }
  }

  lemma SeparatorIff(raw: string, aligns: seq<string>)
    ensures SeparatorIs(raw, aligns) <==> TableSeparator(raw) == Some(aligns)
  {
    hide PipeRow, RowIs, AlignIs, Alignments;
    var row := PipeRow(raw);
    forall r ensures RowIs(raw, r) <==> r == row { RowIff(raw, r); }
    AlignsIff(row, aligns);
  }

  // ----- directives -----

  /** `t` spells `text` inside quotes `q`: each character behind a backslash or, but
      for the quote and the backslash, as it is. */
  predicate QuotedText(t: string, q: char, text: string)
    decreases |t|
  {
    if t == "" || text == "" then t == text == ""
    else if t[0] == '\\' then |t| > 1 && t[1] == text[0] && QuotedText(t[2..], q, text[1..])
    else t[0] != q && t[0] == text[0] && QuotedText(t[1..], q, text[1..])
  }

  /** What `q` opens at the front of `s`, k characters with the closing quote; without
      one it goes to the end, where a single backslash counts. */
  ghost predicate QuoteIs(s: string, q: char, text: string, k: nat) {
    exists n: nat :: n <= |s| && (ClosedAt(s, q, text, n, k) || OpenAt(s, q, text, n, k))
  }

  predicate ClosedAt(s: string, q: char, text: string, n: nat, k: nat)
    requires n <= |s|
  {
    QuotedText(s[..n], q, text) && n < |s| && s[n] == q && k == n + 1
  }

  predicate OpenAt(s: string, q: char, text: string, n: nat, k: nat)
    requires n <= |s|
  {
    && k == |s|
    && if s[n..] == "\\" then text != "" && text[|text| - 1] == '\\' && QuotedText(s[..n], q, text[..|text| - 1])
       else n == |s| && QuotedText(s, q, text)
  }

  lemma {:induction false} QuotedRead(t: string, rest: string, q: char, text: string)
    requires q != '\\' && QuotedText(t, q, text)
    ensures var r := ReadQuoted(rest, q);
      ReadQuoted(t + rest, q) == (text + r.0, r.1)
    decreases |t|
  {
    if t == "" {
      assert t + rest == rest && text + ReadQuoted(rest, q).0 == ReadQuoted(rest, q).0;
    } else {
      var n := if t[0] == '\\' then 2 else 1;
      assert (t + rest)[n..] == t[n..] + rest;
      QuotedRead(t[n..], rest, q, text[1..]);
      assert [text[0]] + (text[1..] + ReadQuoted(rest, q).0) == text + ReadQuoted(rest, q).0;
    }
  }

  lemma QuoteEnds(s: string, q: char)
    requires q != '\\'
    ensures s == "" ==> ReadQuoted(s, q) == ("", "")
    ensures s == "\\" ==> ReadQuoted(s, q) == ("\\", "")
    ensures s != "" && s[0] == q ==> ReadQuoted(s, q) == ("", s[1..])
  {
    if s == "\\" { assert s[1..] == "" && "\\" + "" == "\\"; }
  }

  lemma ClosedReads(s: string, q: char, text: string, n: nat, k: nat)
    requires q != '\\' && n <= |s| && ClosedAt(s, q, text, n, k)
    ensures k <= |s| && ReadQuoted(s, q) == (text, s[k..])
  {
    hide QuotedText, ReadQuoted;
    assert s == s[..n] + s[n..];
    QuoteEnds(s[n..], q);
    QuotedRead(s[..n], s[n..], q, text);
    assert s[n..][1..] == s[k..] && text + "" == text;
  }

  lemma OpenReads(s: string, q: char, text: string, n: nat, k: nat)
    requires q != '\\' && n <= |s| && OpenAt(s, q, text, n, k)
    ensures k <= |s| && ReadQuoted(s, q) == (text, s[k..])
  {
    hide QuotedText, ReadQuoted;
    assert s[k..] == "";
    if s[n..] == "\\" {
      assert s == s[..n] + "\\";
      QuoteEnds("\\", q);
      QuotedRead(s[..n], "\\", q, text[..|text| - 1]);
      assert text[..|text| - 1] + "\\" == text;
    } else {
      assert s + "" == s && text + "" == text;
      QuotedRead(s, "", q, text);
      QuoteEnds("", q);
    }
  }

  lemma QuoteReads(s: string, q: char, text: string, k: nat)
    requires q != '\\' && QuoteIs(s, q, text, k)
    ensures k <= |s| && ReadQuoted(s, q) == (text, s[k..])
  {
    hide ClosedAt, OpenAt, ReadQuoted;
    var n: nat :| n <= |s| && (ClosedAt(s, q, text, n, k) || OpenAt(s, q, text, n, k));
    if ClosedAt(s, q, text, n, k) { ClosedReads(s, q, text, n, k); } else { OpenReads(s, q, text, n, k); }
  }

  lemma {:induction false} QuotedAppend(t: string, a: string, q: char, text: string, c: string)
    requires QuotedText(t, q, text) && QuotedText(a, q, c)
    ensures QuotedText(t + a, q, text + c)
    decreases |t|
  {
    if t == "" {
      assert t + a == a && text + c == c;
    } else {
      var n := if t[0] == '\\' then 2 else 1;
      QuotedAppend(t[n..], a, q, text[1..], c);
      assert (t + a)[n..] == t[n..] + a && (text + c)[1..] == text[1..] + c;
    }
  }

  lemma QuotedLetter(s: string, q: char)
    requires s != "" && s[0] != q && (s[0] == '\\' ==> |s| > 1)
    ensures var n := if s[0] == '\\' then 2 else 1;
      QuotedText(s[..n], q, [s[n - 1]])
  {
  }

  lemma OpenEnd(t: string, s: string, q: char, text: string)
    requires q != '\\' && QuotedText(t, q, text) && (s == "" || s == "\\")
    ensures QuoteIs(t + s, q, text + s, |t| + |s|) && ReadQuoted(s, q) == (s, "")
  {
    hide QuotedText, ReadQuoted;
    QuoteEnds(s, q);
    var all := t + s;
    assert all[..|t|] == t && all[|t|..] == s;
    assert s == "" ==> all == t && text + s == text;
    assert s == "\\" ==> (text + s)[..|text|] == text;
    assert OpenAt(all, q, text + s, |t|, |t| + |s|);
  }

  lemma CloseEnd(t: string, s: string, q: char, text: string)
    requires q != '\\' && QuotedText(t, q, text) && s != "" && s[0] == q
    ensures QuoteIs(t + s, q, text, |t| + 1) && ReadQuoted(s, q) == ("", s[1..])
  {
    hide QuotedText, ReadQuoted;
    QuoteEnds(s, q);
    assert (t + s)[..|t|] == t;
    assert ClosedAt(t + s, q, text, |t|, |t| + 1);
  }

  /** What the reader takes is written that way: `t` before, `s` to come. */
  lemma {:induction false} ReadIsQuote(t: string, s: string, q: char, text: string)
    requires q != '\\' && QuotedText(t, q, text)
    ensures var r := ReadQuoted(s, q);
      QuoteIs(t + s, q, text + r.0, |t| + |s| - |r.1|)
    decreases |s|
  {
    hide QuotedText, QuoteIs, ReadQuoted;
    if s == "" || s == "\\" {
      OpenEnd(t, s, q, text);
    } else if s[0] == q {
      CloseEnd(t, s, q, text);
      assert text + "" == text;
    } else {
      var n := if s[0] == '\\' then 2 else 1;
      QuotedLetter(s, q);
      QuotedAppend(t, s[..n], q, text, [s[n - 1]]);
      ReadIsQuote(t + s[..n], s[n..], q, text + [s[n - 1]]);
      ReadStep(s, q);
      assert t + s[..n] + s[n..] == t + s;
      assert text + [s[n - 1]] + ReadQuoted(s[n..], q).0 == text + ReadQuoted(s, q).0;
    }
  }

  lemma ReadStep(s: string, q: char)
    requires s != "" && s[0] != q && s != "\\"
    ensures var n := if s[0] == '\\' then 2 else 1;
      && n <= |s|
      && var more := ReadQuoted(s[n..], q);
         ReadQuoted(s, q) == ([s[n - 1]] + more.0, more.1)
  {
  }

  lemma QuoteIff(s: string, q: char, text: string, k: nat)
    requires q != '\\'
    ensures QuoteIs(s, q, text, k) <==> k <= |s| && ReadQuoted(s, q) == (text, s[k..])
  {
    hide QuotedText, ReadQuoted, QuoteIs;
    if QuoteIs(s, q, text, k) { QuoteReads(s, q, text, k); }
    NothingQuoted(q);
    ReadIsQuote("", s, q, "");
    assert "" + s == s && "" + ReadQuoted(s, q).0 == ReadQuoted(s, q).0;
  }

  lemma NothingQuoted(q: char)
    ensures QuotedText("", q, "")
  {
  }

  /** What stands behind the name of a directive: loose words, and named values. */
  datatype Token = Loose(text: string) | Named(name: string, value: string)

  predicate NoSpace(s: string) {
    forall i | 0 <= i < |s| :: !IsSpace(s[i])
  }

  /** A text in quotes, or up to the next blank. */
  ghost predicate ValueIs(s: string, v: string, k: nat) {
    if IsQuote(s) then k > 0 && QuoteIs(s[1..], s[0], v, k - 1)
    else StartsWith(s, v) && k == |v| && NoSpace(v) && (k < |s| ==> IsSpace(s[k]))
  }

  /** A word outside of quotes; a '=' behind it makes it a name, if it can be one. */
  predicate WordIs(s: string, w: string) {
    && w != "" && StartsWith(s, w) && NoSpace(w) && Without(w, '=')
    && (|w| < |s| ==> IsSpace(s[|w|]) || (s[|w|] == '=' && !IsIdentifier(w)))
  }

  ghost predicate NamedIs(s: string, name: string, value: string, k: nat) {
    && IsIdentifier(name) && StartsWith(s, name + "=") && k > |name|
    && Worth(s[|name| + 1..], value, k - |name| - 1)
  }

  ghost predicate Worth(after: string, value: string, k: nat) {
    exists v, u :: ValueIs(after, v, k) && Trimmed(v, u) && Bare(u, value)
  }

  /** The token at the front of `s`, k characters long. */
  ghost predicate TokenIs(s: string, token: Token, k: nat) {
    match token
    case Loose(text) =>
      if IsQuote(s) then k > 0 && QuoteIs(s[1..], s[0], text, k - 1) else WordIs(s, text) && k == |text|
    case Named(name, value) => NamedIs(s, name, value, k)
  }

  /** Tokens with blanks around them. */
  ghost predicate TokensAre(s: string, ts: seq<Token>)
    decreases |ts|
  {
    var t := SkipSpace(s);
    if ts == [] then t == ""
    else t != "" && exists k: nat :: k <= |t| && TokenIs(t, ts[0], k) && TokensAre(t[k..], ts[1..])
  }

  /** The loose words with blanks between them, empty ones at the front aside. */
  function Argument(ts: seq<Token>): string {
    if ts == [] then ""
    else
      var before, last := Argument(ts[..|ts| - 1]), ts[|ts| - 1];
      if last.Named? then before else if before == "" then last.text else before + " " + last.text
  }

  /** The last value of a name. */
  function ValueOf(ts: seq<Token>, name: string): Option<string> {
    if ts == [] then None
    else
      var last := ts[|ts| - 1];
      if last.Named? && last.name == name then Some(last.value) else ValueOf(ts[..|ts| - 1], name)
  }

  /** The value named "title", or else the loose words. */
  function TitleOf(ts: seq<Token>): string {
    match ValueOf(ts, "title") case Some(v) => v case None => Argument(ts)
  }

  // ----- the tokens are those that the parser reads -----

  function Step(t: string): Option<(Token, nat)>
    requires t != ""
  {
    if IsQuote(t) then var r := ReadQuoted(t[1..], t[0]); Some((Loose(r.0), |t| - |r.1|))
    else
      var n := TokenLength(t);
      if n < |t| && t[n] == '=' && IsIdentifier(t[..n]) then
        var r := ReadValue(t[n + 1..]);
        Some((Named(t[..n], TrimQuotes(r.0)), |t| - |r.1|))
      else if n == 0 then None else Some((Loose(t[..n]), n))
  }

  function ReadValue(after: string): (r: (string, string))
    ensures |r.1| <= |after|
  {
    if IsQuote(after) then ReadQuoted(after[1..], after[0])
    else (after[..WordLength(after)], after[WordLength(after)..])
  }

  function Added(sofar: Attrs, token: Token): Attrs {
    match token
    case Loose(text) => sofar.(argument := Appended(sofar.argument, text))
    case Named(name, value) => sofar.(values := sofar.values[name := value])
  }

  lemma QuoteHere(s: string, text: string, k: nat)
    requires IsQuote(s)
    ensures k > 0 && QuoteIs(s[1..], s[0], text, k - 1) <==>
      var r := ReadQuoted(s[1..], s[0]);
      0 < k <= |s| && r == (text, s[k..]) && k == |s| - |r.1|
  {
    hide QuoteIs, ReadQuoted;
    if k > 0 { QuoteIff(s[1..], s[0], text, k - 1); }
    if 0 < k <= |s| { assert s[1..][k - 1..] == s[k..]; }
  }

  lemma QuoteRest(s: string)
    requires IsQuote(s)
    ensures var r := ReadQuoted(s[1..], s[0]);
      r.1 == s[|s| - |r.1|..]
  {
    hide QuoteIs, ReadQuoted, QuotedText;
    var q, inner := s[0], s[1..];
    var r := ReadQuoted(inner, q);
    NothingQuoted(q);
    ReadIsQuote("", inner, q, "");
    assert "" + inner == inner && "" + r.0 == r.0;
    QuoteReads(inner, q, r.0, |inner| - |r.1|);
    assert inner[|inner| - |r.1|..] == s[|s| - |r.1|..];
  }

  lemma {:induction false} WordLengthIs(s: string, w: string)
    ensures StartsWith(s, w) && NoSpace(w) && (|w| < |s| ==> IsSpace(s[|w|])) <==> w == s[..WordLength(s)]
  {
    if s != "" && !IsSpace(s[0]) {
      if w != "" {
        WordLengthIs(s[1..], w[1..]);
        WordTail(s, w);
      }
    } else {
      assert w != "" && StartsWith(s, w) ==> s != "" && s[0] == s[..|w|][0] == w[0];
    }
  }

  lemma WordTail(s: string, w: string)
    requires s != "" && w != ""
    ensures StartsWith(s, w) <==> s[0] == w[0] && StartsWith(s[1..], w[1..])
    ensures NoSpace(w) <==> !IsSpace(w[0]) && NoSpace(w[1..])
    ensures Without(w, '=') <==> w[0] != '=' && Without(w[1..], '=')
  {
    assert w == [w[0]] + w[1..] && s == [s[0]] + s[1..];
    if |w| <= |s| { assert s[..|w|] == [s[0]] + s[1..][..|w| - 1]; }
  }

  lemma {:induction false} TokenLengthIs(s: string, w: string)
    ensures StartsWith(s, w) && NoSpace(w) && Without(w, '=') && (|w| < |s| ==> IsSpace(s[|w|]) || s[|w|] == '=')
      <==> w == s[..TokenLength(s)]
  {
    if s != "" && !IsSpace(s[0]) && s[0] != '=' {
      if w != "" {
        TokenLengthIs(s[1..], w[1..]);
        WordTail(s, w);
      }
    } else {
      assert w != "" && StartsWith(s, w) ==> s != "" && s[0] == s[..|w|][0] == w[0];
    }
  }

  lemma ValueIff(s: string, v: string, k: nat)
    ensures ValueIs(s, v, k) <==> k <= |s| && ReadValue(s) == (v, s[k..]) && k == |s| - |ReadValue(s).1|
  {
    hide QuoteIs, ReadQuoted, NoSpace, StartsWith;
    if IsQuote(s) {
      QuoteHere(s, v, k);
    } else {
      WordLengthIs(s, v);
    }
  }

  lemma WorthIff(after: string, value: string, k: nat)
    ensures Worth(after, value, k) <==>
      k <= |after| && k == |after| - |ReadValue(after).1| && TrimQuotes(ReadValue(after).0) == value
  {
    hide ValueIs, Trimmed, Bare, ReadValue, Trim, TrimQuotes;
    var r := ReadValue(after);
    ValueRest(after);
    forall v ensures ValueIs(after, v, k) <==> k <= |after| && r == (v, after[k..]) && k == |after| - |r.1| {
      ValueIff(after, v, k);
    }
    TrimIff(r.0, Trim(r.0));
    TrimTwice(r.0);
    BareIff(Trim(r.0), value);
    assert TrimQuotes(Trim(r.0)) == TrimQuotes(r.0) by { QuotesOfTrimmed(r.0); }
    if Worth(after, value, k) {
      var v, u :| ValueIs(after, v, k) && Trimmed(v, u) && Bare(u, value);
      TrimIff(v, u);
    }
  }

  lemma QuotesOfTrimmed(s: string)
    ensures TrimQuotes(Trim(s)) == TrimQuotes(s)
  {
    hide Trim;
    TrimTwice(s);
  }

  lemma ValueRest(s: string)
    ensures ReadValue(s).1 == s[|s| - |ReadValue(s).1|..]
  {
    hide ReadQuoted;
    if IsQuote(s) { QuoteRest(s); }
  }

  lemma TokenIff(t: string, token: Token, k: nat)
    requires t != "" && !IsSpace(t[0])
    ensures k <= |t| && TokenIs(t, token, k) <==> Step(t) == Some((token, k))
  {
    hide QuoteIs, ReadQuoted, ReadValue, NamedIs, WordIs, TrimQuotes, TokenLength, IsSpace;
    if IsQuote(t) {
      QuoteIsNoName(t);
      QuoteRest(t);
      match token
      case Loose(text) => QuoteHere(t, text, k);
      case Named(name, value) => assert !NamedIs(t, name, value, k) by { NamedIsName(t, name, value, k); }
    } else {
      match token
      case Loose(text) => LooseIff(t, text);
      case Named(name, value) => NamedIff(t, name, value, k);
    }
  }

  lemma QuoteIsNoName(t: string)
    requires IsQuote(t)
    ensures !IsAlnum(t[0]) && t[0] != '_' && t[0] != '-' && t[0] != '='
  {
  }

  lemma NamedIsName(t: string, name: string, value: string, k: nat)
    ensures NamedIs(t, name, value, k) ==> t != "" && (IsAlnum(t[0]) || t[0] == '_' || t[0] == '-')
  {
    hide Worth;
    if NamedIs(t, name, value, k) { assert t[0] == t[..|name| + 1][0] == name[0]; }
  }

  lemma LooseIff(t: string, text: string)
    requires t != "" && !IsSpace(t[0]) && !IsQuote(t)
    ensures WordIs(t, text) <==> Step(t) == Some((Loose(text), |text|))
  {
    hide IsIdentifier, NoSpace, StartsWith, ReadValue, TrimQuotes, IsSpace;
    TokenLengthIs(t, text);
    TokenEnds(t);
  }

  lemma TokenEnds(t: string)
    ensures var n := TokenLength(t);
      |t[..n]| == n && (n < |t| ==> IsSpace(t[n]) || t[n] == '=') && !IsSpace('=')
  {
  }

  lemma NamedIff(t: string, name: string, value: string, k: nat)
    requires t != "" && !IsSpace(t[0]) && !IsQuote(t)
    ensures k <= |t| && NamedIs(t, name, value, k) <==> Step(t) == Some((Named(name, value), k))
  {
    hide NoSpace, ReadValue, TrimQuotes, TokenLength, Worth, IsSpace, IsIdentifier;
    var n := TokenLength(t);
    if IsIdentifier(name) && StartsWith(t, name + "=") { NameEndsToken(t, name); }
    if n < |t| && t[n] == '=' {
      assert t[..n + 1] == t[..n] + "=";
      ValueRest(t[n + 1..]);
      if k > n { WorthIff(t[n + 1..], value, k - n - 1); }
    }
  }

  lemma NameEndsToken(t: string, name: string)
    requires IsIdentifier(name) && StartsWith(t, name + "=")
    ensures |name| < |t| && t[|name|] == '=' && TokenLength(t) == |name| && t[..|name|] == name
  {
    hide IsIdentifier, TokenLength;
    assert t[|name|] == t[..|name| + 1][|name|] == '=';
    assert t[..|name|] == t[..|name| + 1][..|name|] == name;
    IdentifierIsToken(name);
    TokenLengthIs(t, name);
  }

  lemma IdentifierIsToken(name: string)
    requires IsIdentifier(name)
    ensures NoSpace(name) && Without(name, '=')
  {
  }

  /** The first token, as `ParseAttrs` goes on behind it. */
  function Behind(t: string, sofar: Attrs): Option<Attrs>
    requires t != ""
    decreases |t|
  {
    match Step(t)
    case None => None
    case Some((token, k)) => if k <= |t| then ParseAttrs(t[k..], Added(sofar, token)) else None
  }

  lemma AttrsStep(s: string, sofar: Attrs)
    ensures var t := SkipSpace(s);
      ParseAttrs(s, sofar) == if t == "" then Some(sofar) else Behind(t, sofar)
  {
    hide Behind;
    var t := SkipSpace(s);
    if t != "" {
      var n := TokenLength(t);
      if IsQuote(t) {
        AttrsQuoted(s, t, sofar);
      } else if n < |t| && t[n] == '=' && IsIdentifier(t[..n]) {
        AttrsNamed(s, t, sofar);
      } else {
        AttrsLoose(s, t, sofar);
      }
    }
  }

  lemma AttrsQuoted(s: string, t: string, sofar: Attrs)
    requires t == SkipSpace(s) != "" && IsQuote(t)
    ensures ParseAttrs(s, sofar) == Behind(t, sofar)
  {
    hide ReadQuoted, TokenLength, Appended, SkipSpace;
    QuoteRest(t);
  }

  predicate NameFirst(t: string) {
    !IsQuote(t) && var n := TokenLength(t); n < |t| && t[n] == '=' && IsIdentifier(t[..n])
  }

  lemma ParseNamed(s: string, t: string, sofar: Attrs)
    requires t == SkipSpace(s) != "" && NameFirst(t)
    ensures var n := TokenLength(t);
      var r := ReadValue(t[n + 1..]);
      ParseAttrs(s, sofar) == ParseAttrs(r.1, sofar.(values := sofar.values[t[..n] := TrimQuotes(r.0)]))
  {
    hide ReadQuoted, TokenLength, IsIdentifier, Appended, TrimQuotes, SkipSpace, WordLength;
  }

  lemma StepNamed(t: string)
    requires t != "" && NameFirst(t)
    ensures var n := TokenLength(t);
      var r := ReadValue(t[n + 1..]);
      Step(t) == Some((Named(t[..n], TrimQuotes(r.0)), |t| - |r.1|))
  {
    hide ReadQuoted, TokenLength, IsIdentifier, TrimQuotes, ReadValue;
  }

  lemma AttrsNamed(s: string, t: string, sofar: Attrs)
    requires t == SkipSpace(s) != "" && NameFirst(t)
    ensures ParseAttrs(s, sofar) == Behind(t, sofar)
  {
    hide ReadQuoted, TokenLength, IsIdentifier, TrimQuotes, SkipSpace, ReadValue, Step, ParseAttrs;
    var n := TokenLength(t);
    var r := ReadValue(t[n + 1..]);
    ParseNamed(s, t, sofar);
    StepNamed(t);
    ValueRest(t[n + 1..]);
    EndOfEnd(t, n + 1, r.1);
  }

  lemma EndOfEnd(t: string, n: nat, rest: string)
    requires n <= |t| && |rest| <= |t| - n && rest == t[n..][|t| - n - |rest|..]
    ensures rest == t[|t| - |rest|..]
  {
  }

  lemma AttrsLoose(s: string, t: string, sofar: Attrs)
    requires t == SkipSpace(s) != "" && !IsQuote(t)
    requires var n := TokenLength(t); !(n < |t| && t[n] == '=' && IsIdentifier(t[..n]))
    ensures ParseAttrs(s, sofar) == Behind(t, sofar)
  {
    hide ReadQuoted, TokenLength, IsIdentifier, Appended, TrimQuotes, SkipSpace;
  }

  lemma StepMoves(t: string)
    requires t != "" && Step(t).Some?
    ensures 0 < Step(t).value.1 <= |t|
  {
    hide ReadQuoted, TokenLength, IsIdentifier, TrimQuotes;
  }

  function AttrsOf(ts: seq<Token>): Attrs {
    if ts == [] then Attrs(map[], "") else Added(AttrsOf(ts[..|ts| - 1]), ts[|ts| - 1])
  }

  lemma FirstToken(s: string, ts: seq<Token>) returns (k: nat)
    requires TokensAre(s, ts) && ts != []
    ensures SkipSpace(s) != "" && k <= |SkipSpace(s)| && TokenIs(SkipSpace(s), ts[0], k)
    ensures TokensAre(SkipSpace(s)[k..], ts[1..])
  {
    hide TokenIs, SkipSpace;
    var t := SkipSpace(s);
    k :| k <= |t| && TokenIs(t, ts[0], k) && TokensAre(t[k..], ts[1..]);
  }

  lemma NoToken(s: string)
    requires TokensAre(s, [])
    ensures SkipSpace(s) == ""
  {
    hide SkipSpace;
  }

  lemma BehindIs(t: string, token: Token, k: nat, sofar: Attrs)
    requires t != "" && k <= |t| && Step(t) == Some((token, k))
    ensures Behind(t, sofar) == ParseAttrs(t[k..], Added(sofar, token))
  {
    hide Step, ParseAttrs, Added;
  }

  lemma AttrsSnoc(before: seq<Token>, token: Token)
    ensures AttrsOf(before + [token]) == Added(AttrsOf(before), token)
  {
    hide Added;
    assert (before + [token])[..|before|] == before;
  }

  lemma {:induction false} TokensRead(s: string, before: seq<Token>, ts: seq<Token>)
    requires TokensAre(s, ts)
    ensures ParseAttrs(s, AttrsOf(before)) == Some(AttrsOf(before + ts))
    decreases |ts|
  {
    hide *;
    AttrsStep(s, AttrsOf(before));
    if ts == [] {
      NoToken(s);
      assert before + ts == before;
    } else {
      var t := SkipSpace(s);
      var k := FirstToken(s, ts);
      TokenIff(t, ts[0], k);
      BehindIs(t, ts[0], k, AttrsOf(before));
      AttrsSnoc(before, ts[0]);
      TokensRead(t[k..], before + [ts[0]], ts[1..]);
      assert before + [ts[0]] + ts[1..] == before + ts;
    }
  }

  lemma {:induction false} TokensTaken(s: string, sofar: Attrs)
    requires ParseAttrs(s, sofar).Some?
    ensures exists ts :: TokensAre(s, ts)
    decreases |s|
  {
    hide ParseAttrs, TokenIs, Step, Added, SkipSpace;
    AttrsStep(s, sofar);
    var t := SkipSpace(s);
    if t == "" {
      assert TokensAre(s, []);
    } else {
      var (token, k) := Step(t).value;
      StepMoves(t);
      TokenIff(t, token, k);
      TokensTaken(t[k..], Added(sofar, token));
      var ts :| TokensAre(t[k..], ts);
      assert ([token] + ts)[1..] == ts;
      assert TokensAre(s, [token] + ts);
    }
  }

  lemma {:induction false} TitleIs(ts: seq<Token>)
    ensures AttrsOf(ts).argument == Argument(ts)
    ensures forall name :: name in AttrsOf(ts).values <==> ValueOf(ts, name).Some?
    ensures forall name | name in AttrsOf(ts).values :: ValueOf(ts, name) == Some(AttrsOf(ts).values[name])
  {
    if ts != [] { TitleIs(ts[..|ts| - 1]); }
  }

  /** ":::", a name, and what stands behind the name. */
  ghost predicate HeadIs(raw: string, name: string, rest: string) {
    exists t, payload :: HeadText(raw, t, payload) && NameAndRest(payload, name, rest)
  }

  ghost predicate NameAndRest(payload: string, name: string, rest: string) {
    NameThen(payload, name) && Trimmed(payload[|name|..], rest)
  }

  ghost predicate HeadText(raw: string, t: string, payload: string) {
    Trimmed(raw, t) && StartsWith(t, ":::") && t != ":::" && Trimmed(t[3..], payload)
  }

  predicate NameThen(payload: string, name: string) {
    IsIdentifier(name) && StartsWith(payload, name) && (|name| < |payload| ==> IsSpace(payload[|name|]))
  }

  lemma NameThenIff(payload: string, name: string)
    ensures NameThen(payload, name) <==> name == payload[..WordLength(payload)] && IsIdentifier(name)
  {
    hide IsIdentifier, WordLength, NoSpace;
    WordLengthIs(payload, name);
    if IsIdentifier(name) { IdentifierIsToken(name); }
  }

  lemma HeadReads(raw: string, name: string, rest: string)
    requires HeadIs(raw, name, rest)
    ensures DirectiveOpen(raw) ==
      match ParseAttrs(rest, Attrs(map[], ""))
      case None => OpenerHangs
      case Some(attrs) => Opener(name, attrs)
  {
    hide Trimmed, Trim, WordLength, IsIdentifier, ParseAttrs;
    var t, payload :| HeadText(raw, t, payload) && NameAndRest(payload, name, rest);
    TrimIff(raw, t);
    TrimIff(t[3..], payload);
    NameThenIff(payload, name);
    TrimIff(payload[|name|..], rest);
  }

  lemma OpenerIsHead(raw: string) returns (name: string, rest: string)
    requires !DirectiveOpen(raw).NoOpener?
    ensures HeadIs(raw, name, rest)
  {
    hide Trimmed, Trim, WordLength, IsIdentifier, ParseAttrs, NameThen;
    var t := Trim(raw);
    TrimIff(raw, t);
    var payload := Trim(t[3..]);
    TrimIff(t[3..], payload);
    name := payload[..WordLength(payload)];
    NameThenIff(payload, name);
    rest := Trim(payload[|name|..]);
    TrimIff(payload[|name|..], rest);
    assert HeadText(raw, t, payload) && NameAndRest(payload, name, rest);
  }

  /** The line opens a directive. */
  ghost predicate IsHead(raw: string) {
    exists name, rest :: HeadIs(raw, name, rest)
  }

  lemma HeadIff(raw: string)
    ensures IsHead(raw) <==> !DirectiveOpen(raw).NoOpener?
  {
    hide HeadIs, DirectiveOpen;
    if IsHead(raw) {
      var name, rest :| HeadIs(raw, name, rest);
      HeadReads(raw, name, rest);
    }
    if !DirectiveOpen(raw).NoOpener? { var name, rest := OpenerIsHead(raw); }
  }

  /** And its tokens end: the parser comes back from it. */
  ghost predicate OpenerIs(raw: string, name: string, title: string) {
    exists rest, ts :: HeadIs(raw, name, rest) && TokensAre(rest, ts) && title == TitleOf(ts)
  }

  /** The title that the parser takes. */
  function TitleFrom(attrs: Attrs): string {
    if "title" in attrs.values then attrs.values["title"] else attrs.argument
  }

  lemma OpenerReads(raw: string, name: string, title: string)
    requires OpenerIs(raw, name, title)
    ensures DirectiveOpen(raw).Opener? && DirectiveOpen(raw).name == name
    ensures TitleFrom(DirectiveOpen(raw).attrs) == title
  {
    hide HeadIs, TokensAre, DirectiveOpen, AttrsOf, Argument, ValueOf;
    var rest, ts :| HeadIs(raw, name, rest) && TokensAre(rest, ts) && title == TitleOf(ts);
    HeadReads(raw, name, rest);
    TokensRead(rest, [], ts);
    assert [] + ts == ts;
    NoTokens();
    TitleIs(ts);
  }

  lemma NoTokens()
    ensures AttrsOf([]) == Attrs(map[], "")
  {
  }

  lemma OpenerIff(raw: string, name: string, title: string)
    ensures OpenerIs(raw, name, title) <==>
      var d := DirectiveOpen(raw);
      d.Opener? && d.name == name && TitleFrom(d.attrs) == title
  {
    hide HeadIs, TokensAre, DirectiveOpen, AttrsOf, TitleFrom, TitleOf, ParseAttrs;
    if OpenerIs(raw, name, title) { OpenerReads(raw, name, title); }
    var d := DirectiveOpen(raw);
    if d.Opener? {
      var n, rest := OpenerIsHead(raw);
      HeadReads(raw, n, rest);
      TokensTaken(rest, Attrs(map[], ""));
      var ts :| TokensAre(rest, ts);
      assert OpenerIs(raw, n, TitleOf(ts));
      OpenerReads(raw, n, TitleOf(ts));
    }
  }
}
