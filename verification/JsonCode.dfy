/** The JSON routines as the source runs them: append loops for printing, a
    shared cursor and a result object for parsing.  Each is proved against the
    functions of module Json. */
module JsonCode {
  import opened Text
  import opened DTreeModel
  import opened Json
  import opened JsonRoundTrip

  // ----- printing -----

  method JsonEscape(s: string, q: char) returns (r: string)
    ensures r == Escape(s, q)
  {
    r := [q];
    var i := 0;
    assert s[0..] == s;
    while i < |s|
      invariant i <= |s|
      invariant r + EscapeBody(s[i..], q) == [q] + EscapeBody(s, q)
    {
      assert s[i..][1..] == s[i + 1..];
      r := r + EscapeChar(s[i], q);
      i := i + 1;
    }
    r := r + [q];
  }

  function Separator(i: nat): string {
    if i == 0 then "" else ", "
  }

  /** The text of the items from `i` on, with the separator before it. */
  function ItemsFrom(es: seq<Entry>, i: nat, q: char): string
    requires i <= |es|
  {
    if i == |es| then "" else Separator(i) + EncodeItems(es[i..], q)
  }

  function PairsFrom(es: seq<Entry>, i: nat, q: char): string
    requires i <= |es|
  {
    if i == |es| then "" else Separator(i) + EncodePairs(es[i..], q)
  }

  lemma ItemsFromStep(r: string, es: seq<Entry>, i: nat, q: char)
    requires i < |es|
    ensures r + ItemsFrom(es, i, q) == r + Separator(i) + Encode(es[i].value, q) + ItemsFrom(es, i + 1, q)
  {
    assert es[i..][1..] == es[i + 1..];
    Reassociate(r, Separator(i), Encode(es[i].value, q), EncodeItems(es[i + 1..], q), i + 1 == |es|);
  }

  lemma PairsFromStep(r: string, es: seq<Entry>, i: nat, q: char)
    requires i < |es|
    ensures r + PairsFrom(es, i, q) == r + Separator(i) + EncodePair(es[i], q) + PairsFrom(es, i + 1, q)
  {
    assert es[i..][1..] == es[i + 1..];
    Reassociate(r, Separator(i), EncodePair(es[i], q), EncodePairs(es[i + 1..], q), i + 1 == |es|);
  }

  lemma Reassociate(r: string, separator: string, text: string, others: string, last: bool)
    ensures r + (separator + (if last then text else text + ", " + others))
         == r + separator + text + (if last then "" else ", " + others)
  {
    if last {
      assert r + separator + text + "" == r + separator + text;
    } else {
      Assoc(text, ", ", others);
      Assoc(r, separator, text + (", " + others));
      Assoc(r + separator, text, ", " + others);
    }
  }

  method EncodeTree(t: Tree, q: char) returns (r: string)
    requires Valid(t)
    ensures r == Encode(t, q)
    decreases t
  {
    match t {
      case Str(s) => r := JsonEscape(s, q);
      case Num(n, m) => r := NumText(n, m);
      case Bool(b) => r := if b then "true" else "false";
      case Map(es, _, _) =>
        if IsList(t) {
          r := EncodeListLoop(t, q);
        } else {
          r := EncodeMapLoop(t, q);
        }
    }
  }

  method EncodeListLoop(t: Tree, q: char) returns (r: string)
    requires Valid(t) && IsList(t)
    ensures r == Encode(t, q)
    decreases t, 0
  {
    var es := t.entries;
    r := "[";
    var i := 0;
    assert es[0..] == es;
    while i < |es|
      invariant i <= |es|
      invariant r + ItemsFrom(es, i, q) == "[" + EncodeItems(es, q)
    {
      ItemsFromStep(r, es, i, q);
      LookupAt(es, i);
      r := r + Separator(i);
      match Lookup(es, Dec(i)) {
        case None => r := r + "null";
        case Some(child) =>
          assert child == es[i].value && es[i] in es;
          var text := EncodeTree(child, q);
          r := r + text;
      }
      i := i + 1;
    }
    assert r + "" == r;
    r := r + "]";
  }

  lemma PairText(e: Entry, q: char)
    ensures EncodePair(e, q) == Escape(e.key, q) + ": " + Encode(e.value, q)
  {
  }

  lemma PairsFromEnds(es: seq<Entry>, q: char)
    ensures PairsFrom(es, 0, q) == EncodePairs(es, q) && PairsFrom(es, |es|, q) == ""
  {
    assert es[0..] == es;
  }

  method EncodeMapLoop(t: Tree, q: char) returns (r: string)
    requires Valid(t) && t.Map? && !IsList(t)
    ensures r == Encode(t, q)
    decreases t, 0
  {
    hide PairsFrom, EncodePair, Separator, EncodePairs, EncodeItems, Escape, Sorted;
    var es := t.entries;
    r := "{";
    var i := 0;
    PairsFromEnds(es, q);
    while i < |es|
      invariant i <= |es|
      invariant r + PairsFrom(es, i, q) == "{" + EncodePairs(es, q)
    {
      PairsFromStep(r, es, i, q);
      assert es[i] in es;
      r := r + Separator(i);
      var key := JsonEscape(es[i].key, q);
      var text := EncodeTree(es[i].value, q);
      PairText(es[i], q);
      r := r + (key + ": " + text);
      i := i + 1;
    }
    assert r + "" == r;
    r := r + "}";
  }

  // ----- parsing -----

  /** The text ahead of the cursor; a cursor one past the end has none. */
  function Ahead(s: string, i: nat): string {
    if i <= |s| then s[i..] else ""
  }

  lemma AheadStep(s: string, i: nat)
    ensures i >= |s| ==> Ahead(s, i) == ""
    ensures i < |s| ==> Ahead(s, i) != "" && Ahead(s, i)[0] == s[i] && Ahead(s, i)[1..] == Ahead(s, i + 1)
    ensures |Ahead(s, i)| == if i < |s| then |s| - i else 0
  {
  }

  method ConsumeSpace(s: string, start: nat) returns (i: nat)
    requires start <= |s| + 1
    ensures start <= i <= |s| + 1 && (start <= |s| ==> i <= |s|)
    ensures Ahead(s, i) == SkipSpace(Ahead(s, start))
  {
    i := start;
    while i < |s| && IsSpace(s[i])
      invariant start <= i <= |s| + 1 && (start <= |s| ==> i <= |s|)
      invariant SkipSpace(Ahead(s, i)) == SkipSpace(Ahead(s, start))
    {
      assert s[i..][1..] == s[i + 1..];
      i := i + 1;
    }
  }

  function CharAt(s: string, i: nat): char {
    if i < |s| then s[i] else '\0'
  }

  /** The outcome of the string loop with `result` read and `rest` ahead. */
  function StringFrom(result: string, rest: string, quote: char): (string, string) {
    var d := DecodeString(rest, quote);
    (result + d.0, d.1)
  }

  lemma StringTurn(result: string, rest: string, quote: char)
    ensures rest == "" ==> StringFrom(result, rest, quote) == (result, rest)
    ensures rest != "" && rest[0] == quote ==> StringFrom(result, rest, quote) == (result, rest[1..])
    ensures rest != "" && rest[0] != quote && rest[0] == '\\' ==>
      StringFrom(result, rest, quote) == StringFrom(result + Unescape(Peek(rest[1..])), Rest(rest[1..]), quote)
    ensures rest != "" && rest[0] != quote && rest[0] != '\\' ==>
      StringFrom(result, rest, quote) == StringFrom(result + [rest[0]], rest[1..], quote)
  {
    if rest == "" || rest[0] == quote {
      assert result + "" == result;
    } else if rest[0] == '\\' {
      Assoc(result, Unescape(Peek(rest[1..])), DecodeString(Rest(rest[1..]), quote).0);
    } else {
      Assoc(result, [rest[0]], DecodeString(rest[1..], quote).0);
    }
  }

  method DecodeStringAt(s: string, start: nat, quote: char) returns (result: string, i: nat)
    requires start <= |s|
    ensures start <= i <= |s| + 1
    ensures (result, Ahead(s, i)) == DecodeString(Ahead(s, start), quote)
  {
    hide DecodeString, StringFrom;
    i, result := start, "";
    StringFromNothing(Ahead(s, start), quote);
    while i < |s|
      invariant start <= i <= |s| + 1
      invariant StringFrom(result, Ahead(s, i), quote) == DecodeString(Ahead(s, start), quote)
    {
      AheadStep(s, i);
      StringTurn(result, Ahead(s, i), quote);
      var c := s[i];
      if c == quote {
        i := i + 1;
        return;
      } else if c == '\\' {
        i := i + 1;
        assert Rest(Ahead(s, i)) == Ahead(s, i + 1);
        result := result + Unescape(CharAt(s, i));
      } else {
        result := result + [c];
      }
      i := i + 1;
    }
    StringTurn(result, Ahead(s, i), quote);
  }

  lemma StringFromNothing(rest: string, quote: char)
    ensures StringFrom("", rest, quote) == DecodeString(rest, quote)
  {
    assert "" + DecodeString(rest, quote).0 == DecodeString(rest, quote).0;
  }

  /** The leading run of characters that `keyword` or number syntax accepts. */
  lemma {:induction false} KeywordEnds(s: string, i: nat, j: nat)
    requires i <= j <= |s| && (j == |s| || !IsAlnum(s[j]))
    requires forall k | i <= k < j :: IsAlnum(s[k])
    ensures DecodeKeyword(s[i..]) == (s[i..j], s[j..])
    decreases j - i
  {
    if i < j {
      KeywordEnds(s, i + 1, j);
      assert s[i..][1..] == s[i + 1..];
      assert [s[i]] + s[i + 1..j] == s[i..j];
    } else {
      assert s[i..j] == "";
    }
  }

  lemma {:induction false} NumberEnds(s: string, i: nat, j: nat)
    requires i <= j <= |s| && (j == |s| || !IsNumberChar(s[j]))
    requires forall k | i <= k < j :: IsNumberChar(s[k])
    ensures DecodeNumber(s[i..]) == (s[i..j], s[j..])
    decreases j - i
  {
    if i < j {
      NumberEnds(s, i + 1, j);
      assert s[i..][1..] == s[i + 1..];
      assert [s[i]] + s[i + 1..j] == s[i..j];
    } else {
      assert s[i..j] == "";
    }
  }

  method DecodeKeywordAt(s: string, start: nat) returns (result: string, i: nat)
    requires start <= |s|
    ensures start <= i <= |s|
    ensures (result, Ahead(s, i)) == DecodeKeyword(SkipSpace(Ahead(s, start)))
  {
    hide DecodeKeyword, SkipSpace, IsAlnum;
    i := ConsumeSpace(s, start);
    result := "";
    ghost var from := i;
    while i < |s|
      invariant from <= i <= |s|
      invariant result == s[from..i] && forall k | from <= k < i :: IsAlnum(s[k])
    {
      if !IsAlnum(s[i]) {
        KeywordEnds(s, from, i);
        return;
      }
      assert s[from..i + 1] == s[from..i] + [s[i]];
      result := result + [s[i]];
      i := i + 1;
    }
    KeywordEnds(s, from, i);
  }

  method DecodeNumberAt(s: string, start: nat) returns (result: string, i: nat)
    requires start <= |s|
    ensures start <= i <= |s|
    ensures (result, Ahead(s, i)) == DecodeNumber(SkipSpace(Ahead(s, start)))
  {
    hide DecodeNumber, SkipSpace, IsNumberChar;
    i := ConsumeSpace(s, start);
    result := "";
    ghost var from := i;
    while i < |s|
      invariant from <= i <= |s|
      invariant result == s[from..i] && forall k | from <= k < i :: IsNumberChar(s[k])
    {
      if !IsNumberChar(s[i]) {
        NumberEnds(s, from, i);
        return;
      }
      assert s[from..i + 1] == s[from..i] + [s[i]];
      result := result + [s[i]];
      i := i + 1;
    }
    NumberEnds(s, from, i);
  }

  /** `diverges` reports that the C++ call would not return. */
  method DecodeValueAt(s: string, start: nat) returns (diverges: bool, t: Tree, i: nat)
    requires start <= |s|
    ensures start <= i <= |s| + 1
    ensures DecodeValue(Ahead(s, start)) == if diverges then Diverges else Done(t, Ahead(s, i))
    decreases |s| - start, 0
  {
    hide DecodeMap, DecodeArray, DecodeString, DecodeKeyword, DecodeNumber, SkipSpace, Ahead;
    diverges := false;
    i := ConsumeSpace(s, start);
    AheadStep(s, i);
    SkipSpaceTwice(Ahead(s, start));
    var result := new DTree();
    var c := CharAt(s, i);
    if c == '"' || c == '\'' {
      var text;
      text, i := DecodeStringAt(s, i + 1, c);
      result.SetString(text);
    } else if IsDigit(c) {
      var text;
      text, i := DecodeNumberAt(s, i);
      result.SetString(text);
    } else if c == '{' {
      diverges, t, i := DecodeMapAt(s, i + 1);
      return;
    } else if c == '[' {
      diverges, t, i := DecodeArrayAt(s, i + 1);
      return;
    } else {
      var word;
      word, i := DecodeKeywordAt(s, i);
      if word == "true" {
        result.SetBool(true);
      } else if word == "false" {
        result.SetBool(false);
      } else if word == "null" {
        result.SetString("");
      }
    }
    t := result.Value();
  }

  lemma SkipSpaceTwice(s: string)
    ensures SkipSpace(SkipSpace(s)) == SkipSpace(s)
  {
  }

  lemma MapTurn(rest: string, es: seq<Entry>)
    requires rest != ""
    ensures rest[0] == '}' ==> DecodeMap(rest, es) == Done(Map(es, false, 0), rest[1..])
    ensures rest[0] == ',' ==> DecodeMap(rest, es) == DecodeMap(SkipSpace(rest[1..]), es)
    ensures rest[0] in {'"', '\''} ==> DecodeMap(rest, es) == MapPair(rest, es)
    ensures rest[0] !in {'}', ',', '"', '\''} ==> DecodeMap(rest, es) == Done(Map(es, false, 0), rest)
  {
  }

  /** The key branch of the map loop. */
  function MapPair(rest: string, es: seq<Entry>): Decoded
    requires rest != ""
  {
    var key := DecodeString(rest[1..], rest[0]);
    var r := SkipSpace(key.1);
    if Peek(r) != ':' then Done(Map(es, false, 0), r)
    else match DecodeValue(r[1..])
      case Diverges => Diverges
      case Done(v, after) => DecodeMap(SkipSpace(after), MapPut(es, key.0, v))
  }

  method DecodeMapAt(s: string, start: nat) returns (diverges: bool, t: Tree, i: nat)
    requires start <= |s|
    ensures start <= i <= |s| + 1
    ensures DecodeMap(SkipSpace(Ahead(s, start)), []) == if diverges then Diverges else Done(t, Ahead(s, i))
    decreases |s| - start, 1
  {
    hide DecodeMap, DecodeValue, DecodeString, SkipSpace, MapPut, Ahead;
    diverges := false;
    var es: seq<Entry> := [];
    i := ConsumeSpace(s, start);
    while i < |s|
      invariant start <= i <= |s| + 1
      invariant DecodeMap(Ahead(s, i), es) == DecodeMap(SkipSpace(Ahead(s, start)), [])
      decreases |s| + 1 - i
    {
      AheadStep(s, i);
      MapTurn(Ahead(s, i), es);
      var c := s[i];
      if c == '}' {
        return false, Map(es, false, 0), i + 1;
      } else if c == ',' {
        i := i + 1;
      } else if c == '"' || c == '\'' {
        var key;
        key, i := DecodeStringAt(s, i + 1, c);
        i := ConsumeSpace(s, i);
        AheadStep(s, i);
        if CharAt(s, i) != ':' { return false, Map(es, false, 0), i; }
        var v;
        diverges, v, i := DecodeValueAt(s, i + 1);
        if diverges { t := EMPTY_TREE; return; }
        es := MapPut(es, key, v);
      } else {
        return false, Map(es, false, 0), i;
      }
      i := ConsumeSpace(s, i);
    }
    AheadStep(s, i);
    NothingAhead(Ahead(s, i), es);
    t := Map(es, false, 0);
  }

  lemma NothingAhead(rest: string, es: seq<Entry>)
    requires rest == ""
    ensures DecodeMap(rest, es) == Done(Map(es, false, 0), rest)
  {
  }

  lemma ArrayTurn(rest: string, list: Tree)
    requires rest != ""
    ensures rest[0] == ']' ==> DecodeArray(rest, list) == Done(list, rest[1..])
    ensures rest[0] == ',' ==> DecodeArray(rest, list) == DecodeArray(SkipSpace(rest[1..]), list)
    ensures rest[0] !in {']', ','} ==> DecodeArray(rest, list) == ListGoesOn(DecodeValue(rest), |rest|, list)
  {
  }

  method DecodeArrayAt(s: string, start: nat) returns (diverges: bool, t: Tree, i: nat)
    requires start <= |s|
    ensures start <= i <= |s| + 1
    ensures DecodeArray(SkipSpace(Ahead(s, start)), Map([], true, 0)) == if diverges then Diverges else Done(t,
        Ahead(s, i))
    decreases |s| - start, 1
  {
    hide DecodeArray, DecodeValue, SkipSpace, PushValue, Ahead;
    diverges := false;
    var result := new DTree();
    result.SetArray();
    i := ConsumeSpace(s, start);
    while i < |s|
      invariant start <= i <= |s| + 1
      invariant DecodeArray(Ahead(s, i), result.Value()) == DecodeArray(SkipSpace(Ahead(s, start)), Map([], true, 0))
      decreases |s| + 1 - i
    {
      AheadStep(s, i);
      ArrayTurn(Ahead(s, i), result.Value());
      var c := s[i];
      if c == ']' {
        t := result.Value();
        i := i + 1;
        return;
      } else if c == ',' {
        i := i + 1;
      } else {
        var before := i;
        var v;
        diverges, v, i := DecodeValueAt(s, i);
        // A value that consumed nothing: the loop would come back to the same
        // cursor for ever.
        if !diverges && i == before { diverges := true; }
        if diverges { t := EMPTY_TREE; return; }
        AheadStep(s, i);
        result.Push(v);
      }
      i := ConsumeSpace(s, i);
    }
    AheadStep(s, i);
    ArrayEnds(Ahead(s, i), result.Value());
    t := result.Value();
  }

  lemma ArrayEnds(rest: string, list: Tree)
    requires rest == ""
    ensures DecodeArray(rest, list) == Done(list, rest)
  {
  }
}
