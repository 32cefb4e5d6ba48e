/** JSON as anybody may write it, and the tree that the parser makes of it
    (src/lib/functionlib.cpp:2165-2387): white space wherever it may stand, strings in either
    quote with any character behind a backslash, numbers, words and nested values. */
module JsonWritten {
  import opened Text
  import opened DTreeModel
  import opened Json

  // ----- values -----

  datatype Mark = Plain(c: char) | Escaped(c: char)

  datatype Value =
    | Quoted(quote: char, marks: seq<Mark>)
    | Number(digits: string)
    | Word(word: string)
    | Object(members: seq<Member>, gap: string)
    | Array(items: seq<Item>, gap: string)

  /** `before` "key" `after` : `gap` value `behind` */
  datatype Member = Member(before: string, quote: char, key: seq<Mark>, after: string, gap: string, value: Value,
    behind: string)

  datatype Item = Item(before: string, value: Value, behind: string)

  predicate QuoteOk(quote: char) {
    quote == '"' || quote == '\''
  }

  predicate MarksOk(ms: seq<Mark>, quote: char) {
    forall i | 0 <= i < |ms| :: ms[i].Plain? ==> ms[i].c != quote && ms[i].c != '\\'
  }

  predicate NumberOk(s: string) {
    s != "" && IsDigit(s[0]) && forall i | 0 <= i < |s| :: IsNumberChar(s[i])
  }

  predicate WordOk(s: string) {
    s != "" && IsAlpha(s[0]) && forall i | 0 <= i < |s| :: IsAlnum(s[i])
  }

  predicate ValueOk(v: Value)
    decreases v, 1
  {
    match v
    case Quoted(quote, marks) => QuoteOk(quote) && MarksOk(marks, quote)
    case Number(digits) => NumberOk(digits)
    case Word(word) => WordOk(word)
    case Object(members, gap) => MembersOk(members) && Blank(gap)
    case Array(items, gap) => ItemsOk(items) && Blank(gap)
  }

  predicate MembersOk(ms: seq<Member>)
    decreases ms, 0
  {
    ms != [] ==> MemberOk(ms[0]) && MembersOk(ms[1..])
  }

  predicate MemberOk(m: Member)
    decreases m, 0
  {
    && Blank(m.before) && Blank(m.after) && Blank(m.gap) && Blank(m.behind)
    && QuoteOk(m.quote) && MarksOk(m.key, m.quote) && ValueOk(m.value)
  }

  predicate ItemsOk(items: seq<Item>)
    decreases items, 0
  {
    items != [] ==> ItemOk(items[0]) && ItemsOk(items[1..])
  }

  predicate ItemOk(item: Item)
    decreases item, 0
  {
    Blank(item.before) && Blank(item.behind) && ValueOk(item.value)
  }

  // ----- their texts -----

  function MarksText(ms: seq<Mark>): string {
    if ms == [] then ""
    else Written(ms[0]) + MarksText(ms[1..])
  }

  function Written(m: Mark): string {
    match m case Plain(c) => [c] case Escaped(c) => ['\\', c]
  }

  function InQuotes(quote: char, ms: seq<Mark>): string {
    [quote] + MarksText(ms) + [quote]
  }

  function ValueText(v: Value): string
    decreases v, 1
  {
    match v
    case Quoted(quote, marks) => InQuotes(quote, marks)
    case Number(digits) => digits
    case Word(word) => word
    case Object(members, gap) => "{" + (if members == [] then gap else MembersText(members)) + "}"
    case Array(items, gap) => "[" + (if items == [] then gap else ItemsText(items)) + "]"
  }

  function MembersText(ms: seq<Member>): string
    decreases ms, 0
  {
    if ms == [] then ""
    else if |ms| == 1 then MemberText(ms[0])
    else MemberText(ms[0]) + "," + MembersText(ms[1..])
  }

  function MemberText(m: Member): string
    decreases m, 0
  {
    m.before + InQuotes(m.quote, m.key) + m.after + ":" + m.gap + ValueText(m.value) + m.behind
  }

  function ItemsText(items: seq<Item>): string
    decreases items, 0
  {
    if items == [] then ""
    else if |items| == 1 then ItemText(items[0])
    else ItemText(items[0]) + "," + ItemsText(items[1..])
  }

  function ItemText(item: Item): string
    decreases item, 0
  {
    item.before + ValueText(item.value) + item.behind
  }

  // ----- what they mean -----

  /** A code point behind 'u' is not read: its digits stay. */
  function Meaning(c: char): string {
    if c == 'n' then "\n" else if c == 't' then "\t" else if c == 'r' then "\r"
    else if c == 'b' then "\U{8}" else if c == 'f' then "\U{c}" else if c == 'u' then "" else [c]
  }

  function MarksValue(ms: seq<Mark>): string {
    if ms == [] then ""
    else (match ms[0] case Plain(c) => [c] case Escaped(c) => Meaning(c)) + MarksValue(ms[1..])
  }

  /** Numbers stay text; of the words only two mean anything. */
  function TreeOf(v: Value): Tree
    decreases v, 1
  {
    match v
    case Quoted(_, marks) => Str(MarksValue(marks))
    case Number(digits) => Str(digits)
    case Word(word) => if word == "true" then Bool(true) else if word == "false" then Bool(false) else Str("")
    case Object(members, _) => Map(Assigned([], members), false, 0)
    case Array(items, _) => PushAll(Map([], true, 0), TreesOf(items))
  }

  /** The members assigned one by one. */
  function Assigned(es: seq<Entry>, ms: seq<Member>): seq<Entry>
    decreases ms, 0
  {
    if ms == [] then es else Assigned(MapPut(es, MarksValue(ms[0].key), TreeIn(ms[0])), ms[1..])
  }

  function TreeIn(m: Member): Tree
    decreases m, 0
  {
    TreeOf(m.value)
  }

  function TreesOf(items: seq<Item>): (r: seq<Tree>)
    ensures |r| == |items|
    decreases items, 0
  {
    if items == [] then [] else [ItemTree(items[0])] + TreesOf(items[1..])
  }

  function ItemTree(item: Item): Tree
    decreases item, 0
  {
    TreeOf(item.value)
  }

  /** The tree of the last member of that key. */
  function LastTree(ms: seq<Member>, key: string): Option<Tree> {
    if ms == [] then None
    else
      var last := ms[|ms| - 1];
      if MarksValue(last.key) == key then Some(TreeOf(last.value)) else LastTree(ms[..|ms| - 1], key)
  }

  lemma {:induction false} AssignedLast(es: seq<Entry>, ms: seq<Member>)
    requires ms != []
    ensures var front, last := ms[..|ms| - 1], ms[|ms| - 1];
      Assigned(es, ms) == MapPut(Assigned(es, front), MarksValue(last.key), TreeOf(last.value))
    decreases |ms|
  {
    hide MapPut, MarksValue, TreeOf;
    if |ms| > 1 {
      AssignedLast(MapPut(es, MarksValue(ms[0].key), TreeIn(ms[0])), ms[1..]);
      assert ms[1..][..|ms| - 2] == ms[..|ms| - 1][1..];
    }
  }

  /** An object holds for every key the last member's value, and nothing else. */
  lemma {:induction false} ObjectHolds(ms: seq<Member>)
    ensures Sorted(Assigned([], ms)) && forall key :: Lookup(Assigned([], ms), key) == LastTree(ms, key)
    decreases |ms|
  {
    hide MapPut, MarksValue, TreeOf, Lookup, Sorted, Less, Assigned;
    if ms == [] {
      NothingAssigned();
    } else {
      var front, last := ms[..|ms| - 1], ms[|ms| - 1];
      ObjectHolds(front);
      AssignedLast([], ms);
      PutKeepsSorted(Assigned([], front), MarksValue(last.key), TreeOf(last.value));
      forall key ensures Lookup(Assigned([], ms), key) == LastTree(ms, key) {
        LookupPut(Assigned([], front), MarksValue(last.key), TreeOf(last.value), key);
      }
    }
  }

  lemma NothingAssigned()
    ensures Assigned([], []) == [] && Sorted([]) && forall key :: Lookup([], key) == None
  {
  }

  // ----- strings, numbers and words are read -----

  lemma {:induction false} MarksRead(ms: seq<Mark>, quote: char, rest: string)
    requires QuoteOk(quote) && MarksOk(ms, quote)
    ensures DecodeString(MarksText(ms) + [quote] + rest, quote) == (MarksValue(ms), rest)
  {
    hide DecodeString, MarksText, MarksValue, Meaning;
    if ms == [] {
      StringEnds(quote, rest);
    } else {
      MarksRead(ms[1..], quote, rest);
      MarkRead(ms, quote, rest);
    }
  }

  lemma StringEnds(quote: char, rest: string)
    requires QuoteOk(quote)
    ensures DecodeString(MarksText([]) + [quote] + rest, quote) == (MarksValue([]), rest)
  {
    var s := MarksText([]) + [quote] + rest;
    assert s[0] == quote && s[1..] == rest;
  }

  lemma MarksFirst(ms: seq<Mark>, quote: char, rest: string)
    requires ms != []
    ensures MarksText(ms) + [quote] + rest == Written(ms[0]) + (MarksText(ms[1..]) + [quote] + rest)
  {
  }

  lemma MarkRead(ms: seq<Mark>, quote: char, rest: string)
    requires QuoteOk(quote) && MarksOk(ms, quote) && ms != []
    requires DecodeString(MarksText(ms[1..]) + [quote] + rest, quote) == (MarksValue(ms[1..]), rest)
    ensures DecodeString(MarksText(ms) + [quote] + rest, quote) == (MarksValue(ms), rest)
  {
    hide Unescape, Meaning, DecodeString, MarksText;
    var more := MarksText(ms[1..]) + [quote] + rest;
    MarksFirst(ms, quote, rest);
    if ms[0].Plain? { PlainStep(ms[0].c, quote, more); } else { EscapedStep(ms[0].c, quote, more); }
  }

  lemma PlainStep(c: char, quote: char, more: string)
    requires c != quote && c != '\\'
    ensures var r := DecodeString(more, quote);
      DecodeString([c] + more, quote) == ([c] + r.0, r.1)
  {
    assert ([c] + more)[1..] == more;
  }

  lemma EscapedStep(c: char, quote: char, more: string)
    requires QuoteOk(quote)
    ensures var r := DecodeString(more, quote);
      DecodeString(['\\', c] + more, quote) == (Meaning(c) + r.0, r.1)
  {
    hide Unescape, Meaning;
    var s := ['\\', c] + more;
    assert s[1..] == [c] + more && ([c] + more)[1..] == more;
    MeaningIs(c);
  }

  lemma MeaningIs(c: char)
    ensures Unescape(c) == Meaning(c)
  {
  }

  lemma {:induction false} NumberRead(s: string, rest: string)
    requires (forall i | 0 <= i < |s| :: IsNumberChar(s[i])) && (rest == "" || !IsNumberChar(rest[0]))
    ensures DecodeNumber(s + rest) == (s, rest)
  {
    if s == "" {
      assert s + rest == rest;
    } else {
      assert (s + rest)[1..] == s[1..] + rest;
      NumberRead(s[1..], rest);
      assert s == [s[0]] + s[1..];
    }
  }

  lemma {:induction false} WordRead(s: string, rest: string)
    requires (forall i | 0 <= i < |s| :: IsAlnum(s[i])) && (rest == "" || !IsAlnum(rest[0]))
    ensures DecodeKeyword(s + rest) == (s, rest)
  {
    if s == "" {
      assert s + rest == rest;
    } else {
      assert (s + rest)[1..] == s[1..] + rest;
      WordRead(s[1..], rest);
      assert s == [s[0]] + s[1..];
    }
  }

  /** Nothing that a number or a word would go on with. */
  predicate Stops(rest: string) {
    rest == "" || (!IsAlnum(rest[0]) && rest[0] != '.')
  }

  // ----- white space -----

  lemma BlankStops(s: string, rest: string)
    requires Blank(s) && rest != "" && Stops(rest)
    ensures Stops(s + rest)
  {
  }

  lemma ValueStarts(v: Value)
    requires ValueOk(v)
    ensures ValueText(v) != "" && !IsSpace(ValueText(v)[0]) && ValueText(v)[0] !in "],}:"
  {
    hide MembersText, ItemsText, MarksText;
  }

  // ----- values are read -----

  lemma {:induction false} ValueReads(gap: string, v: Value, rest: string)
    requires Blank(gap) && ValueOk(v) && Stops(rest)
    ensures DecodeValue(gap + ValueText(v) + rest) == Done(TreeOf(v), rest)
    decreases v, 1
  {
    hide *;
    var s := ValueText(v) + rest;
    ValueStarts(v);
    assert gap + ValueText(v) + rest == gap + s;
    SkipsTo(gap, s);
    match v
    case Quoted(quote, marks) => QuotedReads(gap + s, s, v, rest);
    case Number(digits) => NumberReads(gap + s, s, v, rest);
    case Word(word) => WordReads(gap + s, s, v, rest);
    case Object(members, inner) =>
      ObjectStarts(v, rest);
      if members == [] {
        EmptyObject(gap + s, s, v, rest);
      } else {
        MembersRead(members, rest, []);
        ObjectReads(gap + s, s, v, rest);
      }
    case Array(items, inner) =>
      ArrayStarts(v, rest);
      if items == [] {
        EmptyArray(gap + s, s, v, rest);
      } else {
        ItemsRead(items, rest, []);
        ArrayReads(gap + s, s, v, rest);
      }
  }

  lemma QuotedReads(text: string, s: string, v: Value, rest: string)
    requires ValueOk(v) && v.Quoted? && s == ValueText(v) + rest && SkipSpace(text) == s
    ensures DecodeValue(text) == Done(TreeOf(v), rest)
  {
    hide SkipSpace, DecodeString, MarksText, MarksValue, MarksOk;
    MarksRead(v.marks, v.quote, rest);
    assert s[0] == v.quote && s[1..] == MarksText(v.marks) + [v.quote] + rest;
  }

  lemma NumberReads(text: string, s: string, v: Value, rest: string)
    requires ValueOk(v) && v.Number? && s == ValueText(v) + rest && SkipSpace(text) == s && Stops(rest)
    ensures DecodeValue(text) == Done(TreeOf(v), rest)
  {
    hide SkipSpace, DecodeNumber;
    NumberRead(v.digits, rest);
    assert s[0] == v.digits[0];
  }

  lemma WordReads(text: string, s: string, v: Value, rest: string)
    requires ValueOk(v) && v.Word? && s == ValueText(v) + rest && SkipSpace(text) == s && Stops(rest)
    ensures DecodeValue(text) == Done(TreeOf(v), rest)
  {
    hide SkipSpace, DecodeKeyword;
    WordRead(v.word, rest);
    assert s[0] == v.word[0];
  }

  lemma ObjectStarts(v: Value, rest: string)
    requires v.Object? && ValueOk(v)
    ensures MembersOk(v.members) && Blank(v.gap)
    ensures var s := ValueText(v) + rest;
      s[0] == '{' && s[1..] == (if v.members == [] then v.gap else MembersText(v.members)) + "}" + rest
  {
    hide MembersText, MembersOk, Blank;
    InBrackets(if v.members == [] then v.gap else MembersText(v.members), rest);
  }

  lemma EmptyObject(text: string, s: string, v: Value, rest: string)
    requires v.Object? && v.members == [] && Blank(v.gap) && SkipSpace(text) == s != ""
    requires s[0] == '{' && s[1..] == v.gap + "}" + rest
    ensures DecodeValue(text) == Done(TreeOf(v), rest)
  {
    hide SkipSpace;
    assert v.gap + "}" + rest == v.gap + ("}" + rest);
    SkipsTo(v.gap, "}" + rest);
    assert ("}" + rest)[1..] == rest;
  }

  lemma ObjectReads(text: string, s: string, v: Value, rest: string)
    requires v.Object? && v.members != [] && SkipSpace(text) == s != ""
    requires s[0] == '{' && s[1..] == MembersText(v.members) + "}" + rest
    requires DecodeMap(SkipSpace(MembersText(v.members) + "}" + rest), []) ==
      Done(Map(Assigned([], v.members), false, 0), rest)
    ensures DecodeValue(text) == Done(TreeOf(v), rest)
  {
    hide SkipSpace, DecodeMap, MembersText, Assigned;
  }

  lemma ArrayStarts(v: Value, rest: string)
    requires v.Array? && ValueOk(v)
    ensures ItemsOk(v.items) && Blank(v.gap)
    ensures var s := ValueText(v) + rest;
      s[0] == '[' && s[1..] == (if v.items == [] then v.gap else ItemsText(v.items)) + "]" + rest
  {
    hide ItemsText, ItemsOk, Blank;
    InBrackets(if v.items == [] then v.gap else ItemsText(v.items), rest);
  }

  lemma InBrackets(inner: string, rest: string)
    ensures ("[" + inner + "]" + rest)[0] == '[' && ("[" + inner + "]" + rest)[1..] == inner + "]" + rest
    ensures ("{" + inner + "}" + rest)[0] == '{' && ("{" + inner + "}" + rest)[1..] == inner + "}" + rest
  {
  }

  lemma EmptyArray(text: string, s: string, v: Value, rest: string)
    requires v.Array? && v.items == [] && Blank(v.gap) && SkipSpace(text) == s != ""
    requires s[0] == '[' && s[1..] == v.gap + "]" + rest
    ensures DecodeValue(text) == Done(TreeOf(v), rest)
  {
    hide SkipSpace;
    assert v.gap + "]" + rest == v.gap + ("]" + rest);
    SkipsTo(v.gap, "]" + rest);
    assert ("]" + rest)[1..] == rest;
  }

  lemma ArrayReads(text: string, s: string, v: Value, rest: string)
    requires v.Array? && v.items != [] && SkipSpace(text) == s != ""
    requires s[0] == '[' && s[1..] == ItemsText(v.items) + "]" + rest
    requires DecodeArray(SkipSpace(ItemsText(v.items) + "]" + rest), PushAll(Map([], true, 0), [])) ==
      Done(PushAll(Map([], true, 0), [] + TreesOf(v.items)), rest)
    ensures DecodeValue(text) == Done(TreeOf(v), rest)
  {
    hide SkipSpace, DecodeArray, ItemsText, PushValue;
    assert [] + TreesOf(v.items) == TreesOf(v.items);
    assert PushAll(Map([], true, 0), []) == Map([], true, 0);
  }

  // ----- members -----

  /** What stands behind a member: the end, or a comma and the others. */
  function AfterMember(ms: seq<Member>, rest: string): string {
    if |ms| <= 1 then "}" + rest else "," + (MembersText(ms[1..]) + "}" + rest)
  }

  lemma MemberSplits(ms: seq<Member>, rest: string)
    requires ms != []
    ensures var m, tail := ms[0], AfterMember(ms, rest);
      MembersText(ms) + "}" + rest == m.before + (InQuotes(m.quote, m.key)
        + (m.after + (":" + (m.gap + ValueText(m.value) + (m.behind + tail)))))
  {
    hide ValueText, InQuotes;
    var m := ms[0];
    var tail := AfterMember(ms, rest);
    assert MembersText(ms) + "}" + rest == MemberText(m) + tail by { CommaSplits(ms, rest); }
    MemberTextSplits(m, tail);
  }

  lemma CommaSplits(ms: seq<Member>, rest: string)
    requires ms != []
    ensures MembersText(ms) + "}" + rest == MemberText(ms[0]) + AfterMember(ms, rest)
  {
    hide MemberText;
  }

  lemma MemberTextSplits(m: Member, tail: string)
    ensures MemberText(m) + tail == m.before + (InQuotes(m.quote, m.key)
      + (m.after + (":" + (m.gap + ValueText(m.value) + (m.behind + tail)))))
  {
    hide ValueText, InQuotes;
  }

  lemma AfterMemberIs(ms: seq<Member>, rest: string)
    requires ms != []
    ensures var tail := AfterMember(ms, rest);
      && tail != "" && Stops(tail) && !IsSpace(tail[0])
      && (|ms| == 1 ==> tail[0] == '}' && tail[1..] == rest)
      && (|ms| > 1 ==> tail[0] == ',' && tail[1..] == MembersText(ms[1..]) + "}" + rest)
  {
    hide MembersText;
  }

  lemma MemberParts(ms: seq<Member>)
    requires ms != [] && MembersOk(ms)
    ensures var m := ms[0];
      && Blank(m.before) && Blank(m.after) && Blank(m.gap) && Blank(m.behind)
      && QuoteOk(m.quote) && MarksOk(m.key, m.quote) && ValueOk(m.value) && MembersOk(ms[1..])
  {
  }

  lemma {:induction false} MembersRead(ms: seq<Member>, rest: string, es: seq<Entry>)
    requires ms != [] && MembersOk(ms)
    ensures DecodeMap(SkipSpace(MembersText(ms) + "}" + rest), es) == Done(Map(Assigned(es, ms), false, 0), rest)
    decreases ms, 0
  {
    hide *;
    var m, tail := ms[0], AfterMember(ms, rest);
    MemberParts(ms);
    MemberSplits(ms, rest);
    AfterMemberIs(ms, rest);
    var colon := ":" + (m.gap + ValueText(m.value) + (m.behind + tail));
    var key := InQuotes(m.quote, m.key) + (m.after + colon);
    QuotesStart(m.quote, m.key, m.after + colon);
    SkipsTo(m.before, key);
    MarksRead(m.key, m.quote, m.after + colon);
    ColonStarts(m.gap + ValueText(m.value) + (m.behind + tail));
    SkipsTo(m.after, colon);
    BlankStops(m.behind, tail);
    MemberRead(m, m.behind + tail);
    SkipsTo(m.behind, tail);
    var after := MapPut(es, MarksValue(m.key), TreeIn(m));
    MapStep(key, es, m, m.after + colon, m.behind + tail, tail);
    AssignedFirst(es, ms);
    if |ms| == 1 {
      MapEnds(tail, after);
      NoMore(after, ms);
    } else {
      MapComma(tail, after);
      MembersRead(ms[1..], rest, after);
    }
  }

  lemma MemberRead(m: Member, rest: string)
    requires Blank(m.gap) && ValueOk(m.value) && Stops(rest)
    ensures DecodeValue(m.gap + ValueText(m.value) + rest) == Done(TreeIn(m), rest)
    decreases m, 0
  {
    hide ValueText, DecodeValue, TreeOf;
    ValueReads(m.gap, m.value, rest);
  }

  lemma QuotesStart(quote: char, ms: seq<Mark>, rest: string)
    requires QuoteOk(quote)
    ensures var s := InQuotes(quote, ms) + rest;
      && s != "" && s[0] == quote && !IsSpace(s[0]) && s[1..] == MarksText(ms) + [quote] + rest
  {
    hide MarksText;
  }

  lemma ColonStarts(rest: string)
    ensures (":" + rest) != "" && !IsSpace((":" + rest)[0]) && (":" + rest)[0] == ':' && (":" + rest)[1..] == rest
  {
  }

  /** One turn of the map loop. */
  lemma MapStep(s: string, es: seq<Entry>, m: Member, behindKey: string, behindValue: string, tail: string)
    requires s != "" && QuoteOk(s[0]) && DecodeString(s[1..], s[0]) == (MarksValue(m.key), behindKey)
    requires SkipSpace(behindKey) != "" && SkipSpace(behindKey)[0] == ':'
    requires DecodeValue(SkipSpace(behindKey)[1..]) == Done(TreeIn(m), behindValue) && SkipSpace(behindValue) == tail
    ensures DecodeMap(s, es) == DecodeMap(tail, MapPut(es, MarksValue(m.key), TreeIn(m)))
  {
    hide SkipSpace, DecodeString, DecodeValue, MapPut, MarksValue, TreeIn;
  }

  lemma MapEnds(s: string, es: seq<Entry>)
    requires s != "" && s[0] == '}'
    ensures DecodeMap(s, es) == Done(Map(es, false, 0), s[1..])
  {
  }

  lemma MapComma(s: string, es: seq<Entry>)
    requires s != "" && s[0] == ','
    ensures DecodeMap(s, es) == DecodeMap(SkipSpace(s[1..]), es)
  {
    hide SkipSpace;
  }

  lemma AssignedFirst(es: seq<Entry>, ms: seq<Member>)
    requires ms != []
    ensures Assigned(es, ms) == Assigned(MapPut(es, MarksValue(ms[0].key), TreeIn(ms[0])), ms[1..])
  {
    hide MapPut, MarksValue, TreeIn;
  }

  lemma NoMore(es: seq<Entry>, ms: seq<Member>)
    requires |ms| == 1
    ensures Assigned(es, ms[1..]) == es
  {
  }

  // ----- items -----

  function AfterItem(items: seq<Item>, rest: string): string {
    if |items| <= 1 then "]" + rest else "," + (ItemsText(items[1..]) + "]" + rest)
  }

  lemma ItemSplits(items: seq<Item>, rest: string)
    requires items != []
    ensures var item, tail := items[0], AfterItem(items, rest);
      ItemsText(items) + "]" + rest == item.before + (ValueText(item.value) + (item.behind + tail))
  {
    hide *;
    ItemsComma(items, rest);
    ItemTextSplits(items[0], AfterItem(items, rest));
  }

  lemma ItemTextSplits(item: Item, tail: string)
    ensures ItemText(item) + tail == item.before + (ValueText(item.value) + (item.behind + tail))
  {
    hide ValueText;
  }

  lemma ItemsComma(items: seq<Item>, rest: string)
    requires items != []
    ensures ItemsText(items) + "]" + rest == ItemText(items[0]) + AfterItem(items, rest)
  {
    hide ItemText;
  }

  lemma AfterItemIs(items: seq<Item>, rest: string)
    requires items != []
    ensures var tail := AfterItem(items, rest);
      && tail != "" && Stops(tail) && !IsSpace(tail[0])
      && (|items| == 1 ==> tail[0] == ']' && tail[1..] == rest)
      && (|items| > 1 ==> tail[0] == ',' && tail[1..] == ItemsText(items[1..]) + "]" + rest)
  {
    hide ItemsText;
  }

  lemma ItemParts(items: seq<Item>)
    requires items != [] && ItemsOk(items)
    ensures Blank(items[0].before) && Blank(items[0].behind) && ValueOk(items[0].value) && ItemsOk(items[1..])
  {
  }

  /** `before` is what the list holds already. */
  lemma {:induction false} ItemsRead(items: seq<Item>, rest: string, before: seq<Tree>)
    requires items != [] && ItemsOk(items)
    ensures DecodeArray(SkipSpace(ItemsText(items) + "]" + rest), PushAll(Map([], true, 0), before)) ==
      Done(PushAll(Map([], true, 0), before + TreesOf(items)), rest)
    decreases items, 0
  {
    hide *;
    var item, tail := items[0], AfterItem(items, rest);
    ItemParts(items);
    ItemSplits(items, rest);
    AfterItemIs(items, rest);
    var s := ValueText(item.value) + (item.behind + tail);
    ValueFront(item.value, item.behind + tail);
    SkipsTo(item.before, s);
    BlankStops(item.behind, tail);
    ItemRead(item, item.behind + tail);
    SkipsTo(item.behind, tail);
    var after := before + [ItemTree(item)];
    ArrayStep(s, before, item, item.behind + tail, tail);
    TreesFirst(before, items);
    if |items| == 1 {
      ArrayEnds(tail, PushAll(Map([], true, 0), after));
    } else {
      ArrayComma(tail, PushAll(Map([], true, 0), after));
      ItemsRead(items[1..], rest, after);
    }
  }

  lemma ValueFront(v: Value, rest: string)
    requires ValueOk(v)
    ensures var s := ValueText(v) + rest;
      s != "" && !IsSpace(s[0]) && s[0] != ']' && s[0] != ',' && |s| > |rest|
  {
    hide ValueText, ValueOk;
    ValueStarts(v);
  }

  lemma ItemRead(item: Item, rest: string)
    requires ValueOk(item.value) && Stops(rest)
    ensures DecodeValue(ValueText(item.value) + rest) == Done(ItemTree(item), rest)
    decreases item, 0
  {
    hide ValueText, DecodeValue, TreeOf;
    ValueReads("", item.value, rest);
    assert "" + ValueText(item.value) == ValueText(item.value);
  }

  lemma ArrayStep(s: string, before: seq<Tree>, item: Item, behind: string, tail: string)
    requires s != "" && s[0] != ']' && s[0] != ',' && |s| > |behind|
    requires DecodeValue(s) == Done(ItemTree(item), behind) && SkipSpace(behind) == tail
    ensures DecodeArray(s, PushAll(Map([], true, 0), before)) ==
      DecodeArray(tail, PushAll(Map([], true, 0), before + [ItemTree(item)]))
  {
    hide SkipSpace, DecodeValue, PushValue, ItemTree;
    assert (before + [ItemTree(item)])[..|before|] == before;
  }

  lemma ArrayEnds(s: string, list: Tree)
    requires s != "" && s[0] == ']'
    ensures DecodeArray(s, list) == Done(list, s[1..])
  {
  }

  lemma ArrayComma(s: string, list: Tree)
    requires s != "" && s[0] == ','
    ensures DecodeArray(s, list) == DecodeArray(SkipSpace(s[1..]), list)
  {
    hide SkipSpace;
  }

  lemma TreesFirst(before: seq<Tree>, items: seq<Item>)
    requires items != []
    ensures before + [ItemTree(items[0])] + TreesOf(items[1..]) == before + TreesOf(items)
    ensures |items| == 1 ==> before + [ItemTree(items[0])] == before + TreesOf(items)
  {
    hide ItemTree;
    var more := TreesOf(items[1..]);
    assert TreesOf(items) == [ItemTree(items[0])] + more;
    TreesAssoc(before, [ItemTree(items[0])], more);
  }

  lemma TreesAssoc(a: seq<Tree>, b: seq<Tree>, c: seq<Tree>)
    ensures a + (b + c) == a + b + c && (c == [] ==> b + c == b)
  {
  }

  // ----- documents -----

  /** Every writing of a value, with white space around it, decodes to its tree. */
  lemma DocumentReads(before: string, v: Value, behind: string)
    requires Blank(before) && Blank(behind) && ValueOk(v)
    ensures JsonDecode(before + ValueText(v) + behind) == Some(TreeOf(v))
  {
    hide ValueText, ValueOk, DecodeValue, TreeOf;
    ValueReads(before, v, behind);
  }

  /** `null` is an empty text, like every word but two. */
  lemma OtherWordsAreEmpty(word: string)
    requires WordOk(word) && word != "true" && word != "false"
    ensures JsonDecode(word) == Some(Str(""))
  {
    hide WordOk, JsonDecode;
    DocumentReads("", Word(word), "");
    assert "" + word + "" == word;
  }

  /** The escape of a code point, here of 'A', leaves its four digits. */
  lemma CodePointIsNotRead()
    ensures JsonDecode("\"\\u0041\"") == Some(Str("0041"))
  {
    hide JsonDecode;
    var marks := [Escaped('u'), Plain('0'), Plain('0'), Plain('4'), Plain('1')];
    FiveMarks(marks);
    DocumentReads("", Quoted('"', marks), "");
    assert "" + InQuotes('"', marks) + "" == InQuotes('"', marks);
  }

  lemma FiveMarks(marks: seq<Mark>)
    requires marks == [Escaped('u'), Plain('0'), Plain('0'), Plain('4'), Plain('1')]
    ensures InQuotes('"', marks) == "\"\\u0041\"" && MarksValue(marks) == "0041"
  {
    assert marks[1..] == [Plain('0'), Plain('0'), Plain('4'), Plain('1')];
    assert marks[1..][1..] == [Plain('0'), Plain('4'), Plain('1')];
    assert marks[1..][1..][1..] == [Plain('4'), Plain('1')];
    assert marks[1..][1..][1..][1..] == [Plain('1')];
    assert MarksText([Plain('1')]) == "1" && MarksValue([Plain('1')]) == "1";
    assert MarksText([Plain('4'), Plain('1')]) == "41" && MarksValue([Plain('4'), Plain('1')]) == "41";
    assert MarksText(marks[1..][1..]) == "041" && MarksValue(marks[1..][1..]) == "041";
    assert MarksText(marks[1..]) == "0041" && MarksValue(marks[1..]) == "0041";
  }
}
