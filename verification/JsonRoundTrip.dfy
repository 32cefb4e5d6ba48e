/** Decoding what was encoded.  It gives the tree back exactly when the tree
    holds no negative number: `json_decode_value` has no case for the sign, so a
    map is cut short at it and a list never ends. */
module JsonRoundTrip {
  import opened Text
  import opened DTreeModel
  import opened Json

  /** The invariant of `std::map` at every node. */
  predicate Valid(t: Tree) {
    t.Map? ==> Sorted(t.entries) && forall e | e in t.entries :: Valid(e.value)
  }

  predicate SignFree(t: Tree) {
    match t
    case Num(negative, _) => !negative
    case Map(es, _, _) => forall e | e in es :: SignFree(e.value)
    case _ => true
  }

  predicate AllSignFree(es: seq<Entry>) {
    forall e | e in es :: SignFree(e.value)
  }

  predicate AllValid(es: seq<Entry>) {
    Sorted(es) && forall e | e in es :: Valid(e.value)
  }

  /** The tree as the parser rebuilds it. */
  function Canon(t: Tree): Tree
    decreases t, 1
  {
    match t
    case Num(negative, micros) => Str(NumText(negative, micros))
    case Map(es, _, _) => if IsList(t) then Map(CanonAll(es), true, |es|) else Map(CanonAll(es), false, 0)
    case _ => t
  }

  function CanonAll(es: seq<Entry>): (r: seq<Entry>)
    ensures |r| == |es| && forall i | 0 <= i < |es| :: r[i].key == es[i].key
    decreases es, 0
  {
    if es == [] then [] else [Entry(es[0].key, Canon(es[0].value))] + CanonAll(es[1..])
  }

  // ----- what `Canon` keeps -----

  /** Same type and same key-to-value map at every node; a number may come back
      as a text that reads as the same value. */
  ghost predicate SameContent(a: Tree, b: Tree) {
    match a
    case Str(s) => b == Str(s)
    case Bool(f) => b == Bool(f)
    case Num(negative, micros) => b.Str? && ReadsAs(b.text, negative, micros)
    case Map(es, _, _) =>
      && b.Map? && |b.entries| == |es| && IsList(a) == IsList(b)
      && forall i | 0 <= i < |es| :: es[i].key == b.entries[i].key && SameContent(es[i].value, b.entries[i].value)
  }

  /** `text` is a decimal numeral with six fraction digits and this value. */
  ghost predicate ReadsAs(text: string, negative: bool, micros: nat) {
    exists whole: string, fraction: string ::
      && AllDigits(whole) && AllDigits(fraction) && |fraction| == 6 && whole != ""
      && text == (if negative then "-" else "") + whole + "." + fraction
      && DigitsValue(whole + fraction) == micros
  }

  predicate AllDigits(s: string) {
    forall i | 0 <= i < |s| :: IsDigit(s[i])
  }

  lemma {:induction false} CanonKeepsContent(t: Tree)
    ensures SameContent(t, Canon(t))
    decreases t, 1
  {
    match t
    case Num(negative, micros) => NumTextReadsBack(negative, micros);
    case Map(es, _, _) => CanonAllKeepsContent(es);
    case _ =>
  }

  lemma {:induction false} CanonAllKeepsContent(es: seq<Entry>)
    ensures forall i | 0 <= i < |es| :: SameContent(es[i].value, CanonAll(es)[i].value)
    decreases es, 0
  {
    if es != [] {
      CanonKeepsContent(es[0].value);
      CanonAllKeepsContent(es[1..]);
      forall i | 0 < i < |es| ensures SameContent(es[i].value, CanonAll(es)[i].value) {
        assert es[i] == es[1..][i - 1] && CanonAll(es)[i] == CanonAll(es[1..])[i - 1];
      }
    }
  }

  function Pow10(n: nat): nat {
    if n == 0 then 1 else 10 * Pow10(n - 1)
  }

  lemma {:induction false} DigitsValueSplit(a: string, b: string)
    requires AllDigits(a) && AllDigits(b)
    ensures AllDigits(a + b)
    ensures DigitsValue(a + b) == DigitsValue(a) * Pow10(|b|) + DigitsValue(b)
  {
    if b == "" {
      assert a + b == a;
    } else {
      hide DigitsValue;
      var c, last := b[..|b| - 1], b[|b| - 1];
      DigitsValueSplit(a, c);
      DigitsValueSnoc(a + c, last);
      DigitsValueSnoc(c, last);
      assert b == c + [last] && a + b == a + c + [last];
      TimesTen(DigitsValue(a), Pow10(|c|), DigitsValue(c), DigitOf(last));
    }
  }

  lemma DigitsValueSnoc(a: string, c: char)
    requires AllDigits(a) && IsDigit(c)
    ensures AllDigits(a + [c]) && DigitsValue(a + [c]) == DigitsValue(a) * 10 + DigitOf(c)
  {
    assert (a + [c])[..|a + [c]| - 1] == a;
  }

  lemma TimesTen(a: nat, p: nat, c: nat, last: nat)
    ensures (a * p + c) * 10 + last == a * (10 * p) + (c * 10 + last)
  {
  }

  lemma {:induction false} PadKeepsValue(s: string, width: nat)
    requires AllDigits(s)
    ensures DigitsValue(PadTo(s, width)) == DigitsValue(s)
    ensures |PadTo(s, width)| == if |s| >= width then |s| else width
    decreases width - |s|
  {
    if |s| < width {
      PadKeepsValue("0" + s, width);
      DigitsValueSplit("0", s);
      assert "0"[..0] == "" && DigitOf('0') == 0;
    }
  }

  lemma {:induction false} DecLength(n: nat, width: nat)
    requires n < Pow10(width) && width > 0
    ensures |Dec(n)| <= width
    decreases width
  {
    if n >= 10 { DecLength(n / 10, width - 1); }
  }

  lemma NumTextReadsBack(negative: bool, micros: nat)
    ensures ReadsAs(NumText(negative, micros), negative, micros)
  {
    var whole, fraction := Dec(micros / 1000000), PadTo(Dec(micros % 1000000), 6);
    SixPlaces();
    assert |fraction| == 6 && DigitsValue(fraction) == micros % 1000000 by {
      DecLength(micros % 1000000, 6);
      PadKeepsValue(Dec(micros % 1000000), 6);
      DecReadsBack(micros % 1000000);
    }
    assert DigitsValue(whole + fraction) == micros by {
      DecReadsBack(micros / 1000000);
      DigitsValueSplit(whole, fraction);
    }
    assert NumText(negative, micros) == (if negative then "-" else "") + whole + "." + fraction;
  }

  lemma SixPlaces()
    ensures Pow10(6) == 1000000
  {
    assert Pow10(2) == 100;
    assert Pow10(4) == 10000;
  }

  // ----- strings -----

  predicate IsQuote(q: char) {
    q == '"' || q == '\''
  }

  lemma DecodeBackslash(x: char, q: char, tail: string)
    requires IsQuote(q)
    ensures DecodeString(['\\', x] + tail, q)
         == (Unescape(x) + DecodeString(tail, q).0, DecodeString(tail, q).1)
  {
    var all := ['\\', x] + tail;
    assert all[1..] == [x] + tail;
    assert Rest(all[1..]) == tail;
  }

  lemma DecodeOneChar(c: char, q: char, tail: string)
    requires IsQuote(q)
    ensures DecodeString(EscapeChar(c, q) + tail, q)
         == ([c] + DecodeString(tail, q).0, DecodeString(tail, q).1)
  {
    var e := EscapeChar(c, q);
    if |e| == 2 {
      assert e == ['\\', e[1]] && Unescape(e[1]) == [c];
      DecodeBackslash(e[1], q, tail);
    } else {
      assert e == [c] && c != q && c != '\\';
      assert (e + tail)[1..] == tail;
    }
  }

  lemma DecodeClose(q: char, rest: string)
    requires IsQuote(q)
    ensures DecodeString([q] + rest, q) == ("", rest)
  {
    assert ([q] + rest)[1..] == rest;
  }

  lemma {:induction false} DecodeEscaped(s: string, q: char, rest: string)
    requires IsQuote(q)
    ensures DecodeString(EscapeBody(s, q) + [q] + rest, q) == (s, rest)
  {
    hide EscapeChar, DecodeString;
    if s == "" {
      assert EscapeBody(s, q) + [q] + rest == [q] + rest;
      DecodeClose(q, rest);
    } else {
      var tail := EscapeBody(s[1..], q) + [q] + rest;
      DecodeEscaped(s[1..], q, rest);
      DecodeOneChar(s[0], q, tail);
      assert EscapeBody(s, q) + [q] + rest == EscapeChar(s[0], q) + tail;
      assert s == [s[0]] + s[1..];
    }
  }

  lemma DecodeKey(key: string, q: char, rest: string)
    requires IsQuote(q)
    ensures Escape(key, q) + rest != "" && (Escape(key, q) + rest)[0] == q
    ensures DecodeString((Escape(key, q) + rest)[1..], q) == (key, rest)
  {
    DecodeEscaped(key, q, rest);
    assert (Escape(key, q) + rest)[1..] == EscapeBody(key, q) + [q] + rest;
  }

  // ----- scalars -----

  /** What may follow a printed value. */
  predicate Stop(rest: string) {
    rest == "" || rest[0] in {',', ']', '}'}
  }

  lemma {:induction false} DecodeDigits(a: string, rest: string)
    requires forall i | 0 <= i < |a| :: IsNumberChar(a[i])
    requires Stop(rest)
    ensures DecodeNumber(a + rest) == (a, rest)
  {
    if a == "" {
      assert a + rest == rest;
    } else {
      DecodeDigits(a[1..], rest);
      assert (a + rest)[1..] == a[1..] + rest;
      assert [a[0]] + a[1..] == a;
    }
  }

  lemma {:induction false} DecodeWord(a: string, rest: string)
    requires forall i | 0 <= i < |a| :: IsAlnum(a[i])
    requires Stop(rest)
    ensures DecodeKeyword(a + rest) == (a, rest)
  {
    if a == "" {
      assert a + rest == rest;
    } else {
      DecodeWord(a[1..], rest);
      assert (a + rest)[1..] == a[1..] + rest;
      assert [a[0]] + a[1..] == a;
    }
  }

  lemma DecodeScalar(t: Tree, q: char, rest: string)
    requires !t.Map? && SignFree(t) && IsQuote(q) && Stop(rest)
    ensures DecodeValue(Encode(t, q) + rest) == Done(Canon(t), rest)
  {
    match t {
      case Str(s) => DecodeKey(s, q, rest);
      case Num(n, m) => DecodeDigits(NumText(n, m), rest);
      case Bool(b) => DecodeWord(if b then "true" else "false", rest);
    }
  }

  /** A negative number is not consumed at all. */
  lemma DecodeNegative(t: Tree, q: char, rest: string)
    requires t.Num? && t.negative
    ensures Encode(t, q) + rest != "" && (Encode(t, q) + rest)[0] == '-'
    ensures DecodeValue(Encode(t, q) + rest) == Done(Str(""), Encode(t, q) + rest)
  {
  }

  lemma EncodeStart(t: Tree, q: char, rest: string)
    requires IsQuote(q)
    ensures var s := Encode(t, q) + rest;
      s != "" && !IsSpace(s[0]) && s[0] !in {']', ',', '}'} && SkipSpace(s) == s
  {
  }

  // ----- maps and lists, no sign anywhere -----

  lemma {:induction false} DecodeEncoded(t: Tree, q: char, rest: string)
    requires Valid(t) && SignFree(t) && IsQuote(q) && Stop(rest)
    ensures DecodeValue(Encode(t, q) + rest) == Done(Canon(t), rest)
    decreases t, 1
  {
    if !t.Map? {
      DecodeScalar(t, q, rest);
    } else if IsList(t) {
      OpenList(t, q, rest);
      IndexNamedIsShort(t.entries);
      WholeList(t.entries);
      DecodeItems(t.entries, 0, q, rest);
    } else {
      OpenObject(t, q, rest);
      DecodePairs(t.entries, [], q, rest);
      NothingBefore(t.entries);
    }
  }

  lemma WholeList(es: seq<Entry>)
    ensures es[0..] == es && es[..|es|] == es
    ensures ListUpTo(es, 0) == Map([], true, 0) && ListUpTo(es, |es|) == Map(CanonAll(es), true, |es|)
  {
  }

  lemma NothingBefore(es: seq<Entry>)
    ensures [] + CanonAll(es) == CanonAll(es)
  {
  }

  lemma OpenList(t: Tree, q: char, rest: string)
    requires IsList(t) && IsQuote(q)
    ensures DecodeValue(Encode(t, q) + rest)
         == DecodeArray(EncodeItems(t.entries, q) + "]" + rest, Map([], true, 0))
  {
    hide EncodePairs, EncodeItems, DecodeArray, SkipSpace, IsQuote;
    var s := Encode(t, q) + rest;
    assert s[0] == '[' && s[1..] == EncodeItems(t.entries, q) + "]" + rest;
    ItemsStart(t.entries, q, rest);
    OpenBrace(s);
  }

  lemma OpenObject(t: Tree, q: char, rest: string)
    requires t.Map? && !IsList(t) && IsQuote(q)
    ensures DecodeValue(Encode(t, q) + rest)
         == DecodeMap(EncodePairs(t.entries, q) + "}" + rest, [])
  {
    hide EncodePairs, EncodeItems, DecodeMap, SkipSpace, IsList, IsQuote;
    var s := Encode(t, q) + rest;
    assert s[0] == '{' && s[1..] == EncodePairs(t.entries, q) + "}" + rest;
    PairsStart(t.entries, q, rest);
    OpenBrace(s);
  }

  lemma OpenBrace(s: string)
    requires s != "" && (s[0] == '{' || s[0] == '[')
    ensures s[0] == '{' ==> DecodeValue(s) == DecodeMap(SkipSpace(s[1..]), [])
    ensures s[0] == '[' ==> DecodeValue(s) == DecodeArray(SkipSpace(s[1..]), Map([], true, 0))
  {
    hide DecodeMap, DecodeArray, DecodeKeyword, DecodeNumber, DecodeString;
    assert SkipSpace(s) == s;
  }

  lemma ItemsStart(es: seq<Entry>, q: char, rest: string)
    requires IsQuote(q)
    ensures var s := EncodeItems(es, q) + "]" + rest; SkipSpace(s) == s
  {
    if es != [] {
      var first := Encode(es[0].value, q);
      EncodeStart(es[0].value, q, "");
      assert first + "" == first;
    }
  }

  lemma PairsStart(es: seq<Entry>, q: char, rest: string)
    requires IsQuote(q)
    ensures var s := EncodePairs(es, q) + "}" + rest; SkipSpace(s) == s
  {
  }

  /** The text after the first pair or item: a separator and the others, or the end. */
  function After(tail: string, more: bool, close: char, rest: string): string {
    if more then [',', ' '] + (tail + [close] + rest) else [close] + rest
  }

  lemma ItemsSplit(es: seq<Entry>, q: char, rest: string)
    requires es != []
    ensures EncodeItems(es, q) + "]" + rest
         == Encode(es[0].value, q) + After(EncodeItems(es[1..], q), |es| > 1, ']', rest)
  {
    if |es| > 1 {
      Regroup(Encode(es[0].value, q), EncodeItems(es[1..], q), "]", rest);
    } else {
      Assoc(Encode(es[0].value, q), "]", rest);
    }
  }

  lemma PairsSplit(es: seq<Entry>, q: char, rest: string)
    requires es != []
    ensures EncodePairs(es, q) + "}" + rest
         == Escape(es[0].key, q) + ([':', ' '] + (Encode(es[0].value, q) + After(EncodePairs(es[1..], q), |es| > 1,
             '}', rest)))
  {
    var pair := EncodePair(es[0], q);
    if |es| > 1 {
      Regroup(pair, EncodePairs(es[1..], q), "}", rest);
    } else {
      Assoc(pair, "}", rest);
    }
    Assoc(Escape(es[0].key, q) + ": ", Encode(es[0].value, q), After(EncodePairs(es[1..], q), |es| > 1, '}', rest));
    Assoc(Escape(es[0].key, q), ": ", Encode(es[0].value, q) + After(EncodePairs(es[1..], q), |es| > 1, '}', rest));
  }

  lemma Regroup(a: string, tail: string, close: string, rest: string)
    ensures a + ", " + tail + close + rest == a + ([',', ' '] + (tail + close + rest))
  {
  }

  lemma Assoc(a: string, b: string, c: string)
    ensures a + b + c == a + (b + c)
  {
  }

  lemma SkipSeparator(tail: string, close: char, rest: string)
    requires SkipSpace(tail + [close] + rest) == tail + [close] + rest
    ensures var s := After(tail, true, close, rest);
      s != "" && s[0] == ',' && SkipSpace(s) == s && SkipSpace(s[1..]) == tail + [close] + rest
  {
    SkipCommaSpace(tail + [close] + rest);
  }

  lemma SkipCommaSpace(text: string)
    requires SkipSpace(text) == text
    ensures var s := [',', ' '] + text; SkipSpace(s) == s && SkipSpace(s[1..]) == text
  {
    var s := [',', ' '] + text;
    assert s[1..] == [' '] + text;
    assert s[1..][1..] == text;
  }

  /** The list loop at item `k` of a printed list. */
  lemma {:induction false} DecodeItems(all: seq<Entry>, k: nat, q: char, rest: string)
    requires AllValid(all) && AllSignFree(all) && IndexNamed(all) && IsQuote(q)
    requires k <= |all| <= 10
    ensures DecodeArray(EncodeItems(all[k..], q) + "]" + rest, ListUpTo(all, k))
         == Done(ListUpTo(all, |all|), rest)
    decreases all, 1, |all| - k
  {
    if k == |all| {
      NoMoreItems(all, q, rest);
    } else {
      DecodeItemsStep(all, k, q, rest);
      DecodeItems(all, k + 1, q, rest);
    }
  }

  lemma NoMoreItems(all: seq<Entry>, q: char, rest: string)
    ensures DecodeArray(EncodeItems(all[|all|..], q) + "]" + rest, ListUpTo(all, |all|))
         == Done(ListUpTo(all, |all|), rest)
  {
    assert all[|all|..] == [];
    assert EncodeItems([], q) + "]" + rest == "]" + rest;
  }

  /** The list read when the first `k` items are. */
  function ListUpTo(all: seq<Entry>, k: nat): Tree
    requires k <= |all|
  {
    Map(CanonAll(all[..k]), true, k)
  }

  lemma {:induction false} DecodeItemsStep(all: seq<Entry>, k: nat, q: char, rest: string)
    requires k < |all| <= 10 && IndexNamed(all) && IsQuote(q)
    requires Valid(all[k].value) && SignFree(all[k].value)
    ensures DecodeArray(EncodeItems(all[k..], q) + "]" + rest, ListUpTo(all, k))
         == DecodeArray(EncodeItems(all[k + 1..], q) + "]" + rest, ListUpTo(all, k + 1))
    decreases all, 0
  {
    var es := all[k..];
    assert es[1..] == all[k + 1..];
    ItemsAfterSeparator(es, ListUpTo(all, k), q, rest);
    DecodeEncoded(all[k].value, q, After(EncodeItems(es[1..], q), |es| > 1, ']', rest));
    ListGrows(all, k, q, rest);
  }

  lemma CanonAllCons(es: seq<Entry>, done: seq<Entry>)
    requires es != []
    ensures done + [Entry(es[0].key, Canon(es[0].value))] + CanonAll(es[1..]) == done + CanonAll(es)
  {
  }

  lemma ListGrows(all: seq<Entry>, k: nat, q: char, rest: string)
    requires k < |all| <= 10 && IndexNamed(all) && IsQuote(q)
    requires var es := all[k..];
      var tail := After(EncodeItems(es[1..], q), |es| > 1, ']', rest);
      DecodeValue(Encode(es[0].value, q) + tail) == Done(Canon(es[0].value), tail)
    ensures DecodeArray(EncodeItems(all[k..], q) + "]" + rest, ListUpTo(all, k))
         == DecodeArray(EncodeItems(all[k..][1..], q) + "]" + rest, ListUpTo(all, k + 1))
  {
    var es, v := all[k..], all[k].value;
    var tail := After(EncodeItems(es[1..], q), |es| > 1, ']', rest);
    var printed := Encode(v, q) + tail;
    calc {
      DecodeArray(EncodeItems(es, q) + "]" + rest, ListUpTo(all, k));
      { DecodeOneItem(es, ListUpTo(all, k), q, rest); }
      ListGoesOn(Done(Canon(v), tail), |printed|, ListUpTo(all, k));
      { EncodeStart(v, q, ""); assert Encode(v, q) + "" == Encode(v, q); }
      DecodeArray(SkipSpace(tail), PushValue(ListUpTo(all, k), Canon(v)));
      { PushInOrder(all, k); }
      DecodeArray(SkipSpace(tail), ListUpTo(all, k + 1));
      { ItemsAfterSeparator(es, ListUpTo(all, k + 1), q, rest); }
      DecodeArray(EncodeItems(es[1..], q) + "]" + rest, ListUpTo(all, k + 1));
    }
  }

  /** What the list loop does with an item read from `length` characters. */
  function ListGoesOn(item: Decoded, length: nat, list: Tree): Decoded {
    match item
    case Diverges => Diverges
    case Done(v, after) =>
      if |after| == length then Diverges else DecodeArray(SkipSpace(after), PushValue(list, v))
  }

  /** One turn of the list loop at the head of printed items. */
  lemma DecodeOneItem(es: seq<Entry>, list: Tree, q: char, rest: string)
    requires es != [] && IsQuote(q)
    ensures var printed := Encode(es[0].value, q) + After(EncodeItems(es[1..], q), |es| > 1, ']', rest);
      DecodeArray(EncodeItems(es, q) + "]" + rest, list)
        == ListGoesOn(DecodeValue(printed), |printed|, list)
  {
    ItemsSplit(es, q, rest);
    EncodeStart(es[0].value, q, After(EncodeItems(es[1..], q), |es| > 1, ']', rest));
  }

  lemma ItemsAfterSeparator(es: seq<Entry>, list: Tree, q: char, rest: string)
    requires es != [] && IsQuote(q)
    ensures var tail := After(EncodeItems(es[1..], q), |es| > 1, ']', rest);
      && Stop(tail) && SkipSpace(tail) == tail
      && DecodeArray(tail, list) == DecodeArray(EncodeItems(es[1..], q) + "]" + rest, list)
  {
    ItemsStart(es[1..], q, rest);
    if |es| > 1 {
      SkipSeparator(EncodeItems(es[1..], q), ']', rest);
    } else {
      assert EncodeItems(es[1..], q) + "]" + rest == "]" + rest;
    }
  }

  lemma PushInOrder(all: seq<Entry>, k: nat)
    requires k < |all| <= 10 && IndexNamed(all)
    ensures PushValue(ListUpTo(all, k), Canon(all[k].value)) == ListUpTo(all, k + 1)
  {
    var done, v := CanonAll(all[..k]), Canon(all[k].value);
    forall i | 0 <= i < k ensures Less(done[i].key, Dec(k)) {
      IndexKeysAscend(i, k);
    }
    PutAtEnd(done, Dec(k), v);
    CanonAllSnoc(all, k);
  }

  lemma CanonAllSnoc(all: seq<Entry>, k: nat)
    requires k < |all|
    ensures CanonAll(all[..k + 1]) == CanonAll(all[..k]) + [Entry(all[k].key, Canon(all[k].value))]
  {
    hide CanonAll, Canon;
    CanonAllAppend(all[..k], all[k]);
    assert all[..k + 1] == all[..k] + [all[k]];
  }

  lemma {:induction false} CanonAllAppend(es: seq<Entry>, e: Entry)
    ensures CanonAll(es + [e]) == CanonAll(es) + [Entry(e.key, Canon(e.value))]
  {
    if es == [] {
      assert es + [e] == [e];
    } else {
      CanonAllAppend(es[1..], e);
      assert (es + [e])[1..] == es[1..] + [e];
    }
  }

  lemma {:induction false} DecodePairs(es: seq<Entry>, done: seq<Entry>, q: char, rest: string)
    requires AllValid(es) && AllSignFree(es) && IsQuote(q)
    requires forall e, d | e in es && d in done :: Less(d.key, e.key)
    ensures DecodeMap(EncodePairs(es, q) + "}" + rest, done)
         == Done(Map(done + CanonAll(es), false, 0), rest)
    decreases es, 1
  {
    if es == [] {
      assert EncodePairs(es, q) + "}" + rest == "}" + rest;
      assert done + CanonAll(es) == done;
    } else {
      var grown := done + [Entry(es[0].key, Canon(es[0].value))];
      DecodePairsStep(es, done, q, rest);
      KeysStayBelow(es, done, grown[|done|]);
      DecodePairs(es[1..], grown, q, rest);
      CanonAllCons(es, done);
    }
  }

  lemma {:induction false} DecodePairsStep(es: seq<Entry>, done: seq<Entry>, q: char, rest: string)
    requires es != [] && Valid(es[0].value) && SignFree(es[0].value) && IsQuote(q)
    requires forall d | d in done :: Less(d.key, es[0].key)
    ensures DecodeMap(EncodePairs(es, q) + "}" + rest, done)
         == DecodeMap(EncodePairs(es[1..], q) + "}" + rest, done + [Entry(es[0].key, Canon(es[0].value))])
    decreases es, 0
  {
    var key, v := es[0].key, es[0].value;
    var tail := After(EncodePairs(es[1..], q), |es| > 1, '}', rest);
    var grown := done + [Entry(key, Canon(v))];
    assert Stop(tail) by { PairsAfterSeparator(es, grown, q, rest); }
    calc {
      DecodeMap(EncodePairs(es, q) + "}" + rest, done);
      { DecodeOnePair(es, done, q, rest); }
      MapGoesOn(DecodeValue(Encode(v, q) + tail), done, key);
      { DecodeEncoded(v, q, tail); }
      DecodeMap(SkipSpace(tail), grown);
      { PairsAfterSeparator(es, grown, q, rest); }
      DecodeMap(EncodePairs(es[1..], q) + "}" + rest, grown);
    }
  }

  lemma KeysStayBelow(es: seq<Entry>, done: seq<Entry>, added: Entry)
    requires es != [] && Sorted(es) && added.key == es[0].key
    requires forall e, d | e in es && d in done :: Less(d.key, e.key)
    ensures forall e, d | e in es[1..] && d in done + [added] :: Less(d.key, e.key)
  {
    forall e, d | e in es[1..] && d in done + [added] ensures Less(d.key, e.key) {
      var i :| 0 <= i < |es[1..]| && es[1..][i] == e;
      assert es[i + 1] == e;
    }
  }

  lemma PairsAfterSeparator(es: seq<Entry>, done: seq<Entry>, q: char, rest: string)
    requires es != [] && IsQuote(q)
    ensures var tail := After(EncodePairs(es[1..], q), |es| > 1, '}', rest);
      && Stop(tail) && SkipSpace(tail) == tail
      && DecodeMap(tail, done) == DecodeMap(EncodePairs(es[1..], q) + "}" + rest, done)
  {
    PairsStart(es[1..], q, rest);
    if |es| > 1 {
      SkipSeparator(EncodePairs(es[1..], q), '}', rest);
    } else {
      assert EncodePairs(es[1..], q) + "}" + rest == "}" + rest;
    }
  }

  /** What the map loop does with a value read for a new last key. */
  function MapGoesOn(value: Decoded, done: seq<Entry>, key: string): Decoded {
    match value
    case Diverges => Diverges
    case Done(v, after) => DecodeMap(SkipSpace(after), done + [Entry(key, v)])
  }

  /** One turn of the map loop at the head of printed pairs, whatever the value
      decodes to. */
  lemma DecodeOnePair(es: seq<Entry>, done: seq<Entry>, q: char, rest: string)
    requires es != [] && IsQuote(q)
    requires forall d | d in done :: Less(d.key, es[0].key)
    ensures var printed := Encode(es[0].value, q) + After(EncodePairs(es[1..], q), |es| > 1, '}', rest);
      DecodeMap(EncodePairs(es, q) + "}" + rest, done)
        == MapGoesOn(DecodeValue(printed), done, es[0].key)
  {
    var key := es[0].key;
    var tail := After(EncodePairs(es[1..], q), |es| > 1, '}', rest);
    var printed := Encode(es[0].value, q) + tail;
    PairsSplit(es, q, rest);
    DecodeKey(key, q, [':', ' '] + printed);
    EncodeStart(es[0].value, q, tail);
    SkipColonSpace(printed);
    match DecodeValue(printed) {
      case Diverges =>
      case Done(v, _) => PutAtEnd(done, key, v);
    }
  }

  lemma SkipColonSpace(printed: string)
    requires SkipSpace(printed) == printed
    ensures var s := [':', ' '] + printed;
      SkipSpace(s) == s && DecodeValue(s[1..]) == DecodeValue(printed)
  {
    var s := [':', ' '] + printed;
    assert s[1..] == [' '] + printed;
    assert s[1..][1..] == printed;
  }

  // ----- a negative number somewhere -----

  /** What decoding a printed `t` with a negative number in it comes to: no
      return, or a tree of other content and the cursor stuck at a minus sign. */
  ghost predicate Broken(d: Decoded, t: Tree) {
    d.Diverges? || (!SameContent(t, d.tree) && AtSign(d.rest))
  }

  predicate AtSign(s: string) {
    s != "" && s[0] == '-'
  }

  /** The first entry whose value holds a negative number. */
  function FirstSigned(es: seq<Entry>): (k: nat)
    requires !AllSignFree(es)
    ensures k < |es| && !SignFree(es[k].value) && AllSignFree(es[..k])
  {
    if !SignFree(es[0].value) then 0
    else
      assert es == [es[0]] + es[1..];
      var k := 1 + FirstSigned(es[1..]);
      assert es[..k] == [es[0]] + es[1..][..k - 1];
      k
  }

  /** A map cut short: every entry before the first signed one is read, that one
      is read wrongly, and nothing after it is read at all. */
  ghost predicate CutShort(d: Decoded, es: seq<Entry>, done: seq<Entry>)
    requires !AllSignFree(es)
  {
    d.Diverges? || (AtSign(d.rest) && exists v :: CutAt(d.tree, es, done, FirstSigned(es), v))
  }

  ghost predicate CutAt(t: Tree, es: seq<Entry>, done: seq<Entry>, k: nat, v: Tree)
    requires k < |es|
  {
    && !SameContent(es[k].value, v)
    && t == Map(done + CanonAll(es[..k]) + [Entry(es[k].key, v)], false, 0)
  }

  lemma {:induction false} DecodeSigned(t: Tree, q: char, rest: string)
    requires Valid(t) && !SignFree(t) && IsQuote(q) && Stop(rest)
    ensures Broken(DecodeValue(Encode(t, q) + rest), t)
    decreases t, 1
  {
    if t.Num? {
      DecodeNegative(t, q, rest);
    } else if IsList(t) {
      OpenList(t, q, rest);
      IndexNamedIsShort(t.entries);
      WholeList(t.entries);
      DecodeItemsSigned(t.entries, 0, q, rest);
    } else {
      OpenObject(t, q, rest);
      DecodePairsSigned(t.entries, [], q, rest);
      CutShortIsBroken(DecodeMap(EncodePairs(t.entries, q) + "}" + rest, []), t);
    }
  }

  lemma CutShortIsBroken(d: Decoded, t: Tree)
    requires t.Map? && !IsList(t) && !AllSignFree(t.entries)
    requires CutShort(d, t.entries, [])
    ensures Broken(d, t)
  {
    if d.Done? {
      hide CanonAll, Canon, SignFree, FirstSigned, IsList;
      var es, k := t.entries, FirstSigned(t.entries);
      var v :| CutAt(d.tree, es, [], k, v);
      assert d.tree.entries[k] == Entry(es[k].key, v);
      assert !SameContent(es[k].value, d.tree.entries[k].value);
    }
  }

  /** A list with a negative number anywhere below it is never finished. */
  lemma {:induction false} DecodeItemsSigned(all: seq<Entry>, k: nat, q: char, rest: string)
    requires AllValid(all) && IndexNamed(all) && IsQuote(q)
    requires k < |all| <= 10 && !AllSignFree(all[k..])
    ensures DecodeArray(EncodeItems(all[k..], q) + "]" + rest, ListUpTo(all, k)) == Diverges
    decreases all, 0, |all| - k
  {
    var es, v := all[k..], all[k].value;
    if SignFree(v) {
      AllSignFreeTail(es);
      assert es[1..] == all[k + 1..];
      DecodeItemsStep(all, k, q, rest);
      DecodeItemsSigned(all, k + 1, q, rest);
    } else {
      var tail := After(EncodeItems(es[1..], q), |es| > 1, ']', rest);
      assert Stop(tail) by { ItemsAfterSeparator(es, ListUpTo(all, k), q, rest); }
      DecodeSigned(v, q, tail);
      DecodeOneItem(es, ListUpTo(all, k), q, rest);
      ListStuckAtSign(DecodeValue(Encode(v, q) + tail), |Encode(v, q) + tail|, ListUpTo(all, k));
    }
  }

  lemma AllSignFreeTail(es: seq<Entry>)
    requires es != [] && SignFree(es[0].value)
    ensures AllSignFree(es) == AllSignFree(es[1..])
  {
    assert es == [es[0]] + es[1..];
  }

  lemma ListStuckAtSign(item: Decoded, length: nat, list: Tree)
    requires item.Diverges? || AtSign(item.rest)
    ensures ListGoesOn(item, length, list) == Diverges
  {
    if item.Done? {
      var s := item.rest;
      assert SkipSpace(s) == s;
      assert DecodeValue(s) == Done(Str(""), s);
    }
  }

  lemma {:induction false} DecodePairsSigned(es: seq<Entry>, done: seq<Entry>, q: char, rest: string)
    requires AllValid(es) && !AllSignFree(es) && IsQuote(q)
    requires forall e, d | e in es && d in done :: Less(d.key, e.key)
    ensures CutShort(DecodeMap(EncodePairs(es, q) + "}" + rest, done), es, done)
    decreases es, 0
  {
    var key, v := es[0].key, es[0].value;
    var tail := After(EncodePairs(es[1..], q), |es| > 1, '}', rest);
    if SignFree(v) {
      var grown := done + [Entry(key, Canon(v))];
      AllSignFreeTail(es);
      KeysStayBelow(es, done, Entry(key, Canon(v)));
      DecodePairsStep(es, done, q, rest);
      DecodePairsSigned(es[1..], grown, q, rest);
      CutShortCons(DecodeMap(EncodePairs(es[1..], q) + "}" + rest, grown), es, done);
    } else {
      assert Stop(tail) by { PairsAfterSeparator(es, done, q, rest); }
      DecodeSigned(v, q, tail);
      DecodeOnePair(es, done, q, rest);
      MapStuckAtSign(DecodeValue(Encode(v, q) + tail), es, done);
    }
  }

  lemma MapStuckAtSign(value: Decoded, es: seq<Entry>, done: seq<Entry>)
    requires es != [] && !SignFree(es[0].value) && Broken(value, es[0].value)
    ensures !AllSignFree(es) && CutShort(MapGoesOn(value, done, es[0].key), es, done)
  {
    assert es[0] in es;
    assert FirstSigned(es) == 0;
    if value.Done? {
      var s, grown := value.rest, done + [Entry(es[0].key, value.tree)];
      assert SkipSpace(s) == s;
      assert DecodeMap(s, grown) == Done(Map(grown, false, 0), s);
      assert done + CanonAll(es[..0]) + [Entry(es[0].key, value.tree)] == grown;
      assert CutAt(Map(grown, false, 0), es, done, 0, value.tree);
    }
  }

  lemma CutShortCons(d: Decoded, es: seq<Entry>, done: seq<Entry>)
    requires es != [] && SignFree(es[0].value) && !AllSignFree(es) && !AllSignFree(es[1..])
    requires CutShort(d, es[1..], done + [Entry(es[0].key, Canon(es[0].value))])
    ensures CutShort(d, es, done)
  {
    if d.Done? {
      var grown := done + [Entry(es[0].key, Canon(es[0].value))];
      var k := FirstSigned(es[1..]);
      assert FirstSigned(es) == k + 1;
      var v :| CutAt(d.tree, es[1..], grown, k, v);
      assert grown + CanonAll(es[1..][..k]) == done + CanonAll(es[..k + 1]) by {
        assert es[..k + 1][1..] == es[1..][..k];
        CanonAllCons(es[..k + 1], done);
      }
      assert CutAt(d.tree, es, done, k + 1, v);
    }
  }

  // ----- the main results -----

  /** `json_decode(json_encode(t))` returns a tree of the same content, numbers as
      texts of the same value, if and only if no number in `t` has a minus sign;
      it is then the canonical one. */
  lemma RoundTripIff(t: Tree)
    requires Valid(t)
    ensures (match JsonDecode(JsonEncode(t)) case None => false case Some(d) => SameContent(t, d)) <==> SignFree(t)
    ensures JsonDecode(JsonEncode(t)) == Some(Canon(t)) <==> SignFree(t)
    ensures SameContent(t, Canon(t))
  {
    CanonKeepsContent(t);
    assert JsonEncode(t) + "" == JsonEncode(t);
    if SignFree(t) {
      DecodeEncoded(t, '"', "");
    } else {
      DecodeSigned(t, '"', "");
    }
  }

  /** The smallest failures: a map loses the entries after the sign, a list is
      never finished. */
  lemma NegativeNumberWitness()
    ensures var minusOne := Num(true, 1000000);
      && JsonDecode(JsonEncode(Map([Entry("a", minusOne), Entry("b", Bool(true))], false, 0)))
         == Some(Map([Entry("a", Str(""))], false, 0))
      && JsonDecode(JsonEncode(Map([Entry("0", minusOne)], true, 1))) == None
  {
    NegativeInMap();
    NegativeInList();
  }

  lemma NegativeInMap()
    ensures JsonDecode(JsonEncode(Map([Entry("a", Num(true, 1000000)), Entry("b", Bool(true))], false, 0)))
         == Some(Map([Entry("a", Str(""))], false, 0))
  {
    var minusOne := Num(true, 1000000);
    var es := [Entry("a", minusOne), Entry("b", Bool(true))];
    var after := After(EncodePairs(es[1..], '"'), true, '}', "");
    var pairs := EncodePairs(es, '"') + "}" + "";
    OpenObject(Map(es, false, 0), '"', "");
    assert JsonEncode(Map(es, false, 0)) + "" == JsonEncode(Map(es, false, 0));
    DecodeNegative(minusOne, '"', after);
    DecodeOnePair(es, [], '"', "");
    var s := Encode(minusOne, '"') + after;
    assert DecodeMap(pairs, []) == DecodeMap(SkipSpace(s), [] + [Entry("a", Str(""))]);
    assert SkipSpace(s) == s;
    assert [] + [Entry("a", Str(""))] == [Entry("a", Str(""))];
  }

  lemma NegativeInList()
    ensures JsonDecode(JsonEncode(Map([Entry("0", Num(true, 1000000))], true, 1))) == None
  {
    var minusOne := Num(true, 1000000);
    var list := [Entry("0", minusOne)];
    assert list[0].key == Dec(0);
    assert list[0] in list;
    OpenList(Map(list, true, 1), '"', "");
    assert JsonEncode(Map(list, true, 1)) + "" == JsonEncode(Map(list, true, 1));
    WholeList(list);
    DecodeItemsSigned(list, 0, '"', "");
  }
}
