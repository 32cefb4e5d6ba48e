/** Query strings, which are also the session file format (src/lib/uri.cpp:181-263,
    769-815; `split` and `to_hex` of the function library). */
module Query {
  import opened Text

  // ----- percent encoding -----

  predicate Unreserved(c: char) {
    IsAlnum(c) || c == '~' || c == '.' || c == '_' || c == '-'
  }

  predicate IsHex(c: char) {
    IsDigit(c) || 'a' <= c <= 'f' || 'A' <= c <= 'F'
  }

  /** `char_to_u8` */
  function HexValue(c: char): (v: nat)
    ensures v < 16
  {
    if IsDigit(c) then c as int - '0' as int
    else if 'a' <= c <= 'f' then c as int - 'a' as int + 10
    else if 'A' <= c <= 'F' then c as int - 'A' as int + 10
    else 0
  }

  function EncodeChar(c: char): string {
    if Unreserved(c) then [c]
    else ['%', HexDigit(c as int / 16 % 16), HexDigit(c as int % 16)]
  }

  function UriEncode(s: string): string {
    if s == "" then "" else UriEncode(s[..|s| - 1]) + EncodeChar(s[|s| - 1])
  }

  /** The character at the front, and how many it was written with. */
  function DecodeChar(s: string): (r: (char, nat))
    requires s != ""
    ensures 1 <= r.1 <= |s|
  {
    if s[0] == '%' && 2 < |s| && IsHex(s[1]) && IsHex(s[2]) then ((HexValue(s[1]) * 16 + HexValue(s[2])) as char, 3)
    else if s[0] == '+' then (' ', 1)
    else (s[0], 1)
  }

  function UriDecode(s: string): string {
    if s == "" then "" else [DecodeChar(s).0] + UriDecode(s[DecodeChar(s).1..])
  }

  method UriEncodeLoop(q: string) returns (result: string)
    ensures result == UriEncode(q)
  {
    result := "";
    var i := 0;
    while i < |q|
      invariant i <= |q| && result == UriEncode(q[..i])
    {
      assert q[..i + 1][..i] == q[..i];
      result := result + EncodeChar(q[i]);
      i := i + 1;
    }
    assert q[..|q|] == q;
  }

  method UriDecodeLoop(q: string) returns (result: string)
    ensures result == UriDecode(q)
  {
    hide DecodeChar;
    result := "";
    var i := 0;
    while i < |q|
      invariant i <= |q| && result + UriDecode(q[i..]) == UriDecode(q)
    {
      var (c, n) := DecodeChar(q[i..]);
      assert q[i..][n..] == q[i + n..];
      result := result + [c];
      i := i + n;
    }
  }

  // ----- splitting -----

  /** `split` at a single character: always at least one part. */
  function Split(s: string, d: char): (parts: seq<string>)
    ensures parts != []
  {
    if s == "" then [""]
    else
      var front := Split(s[..|s| - 1], d);
      var n := |front| - 1;
      if s[|s| - 1] == d then front + [""] else front[..n] + [front[n] + [s[|s| - 1]]]
  }

  method SplitLoop(s: string, d: char) returns (parts: seq<string>)
    ensures parts == Split(s, d)
  {
    parts := [];
    var start := 0;
    var end := Find(s, d, 0);
    while end < |s|
      invariant start <= end <= |s| && end == Find(s, d, start)
      invariant start == 0 ==> parts == []
      invariant start > 0 ==> s[start - 1] == d && parts == Split(s[..start - 1], d)
    {
      SplitPiece(s, d, start, end);
      parts := parts + [s[start..end]];
      start := end + 1;
      end := Find(s, d, start);
    }
    SplitPiece(s, d, start, end);
    parts := parts + [s[start..]];
    assert s[..end] == s && s[start..end] == s[start..];
  }

  lemma {:induction false} SplitWhole(s: string, d: char)
    requires Without(s, d)
    ensures Split(s, d) == [s]
  {
    if s != "" {
      SplitWhole(s[..|s| - 1], d);
      assert s == s[..|s| - 1] + [s[|s| - 1]];
    }
  }

  /** A separator and a part without one add that part. */
  lemma {:induction false} SplitAppend(a: string, b: string, d: char)
    requires Without(b, d)
    ensures Split(a + [d] + b, d) == Split(a, d) + [b]
    decreases |b|
  {
    var s := a + [d] + b;
    if b == "" {
      assert s[..|s| - 1] == a;
    } else {
      var front := b[..|b| - 1];
      SplitAppend(a, front, d);
      assert s[..|s| - 1] == a + [d] + front;
      assert (Split(a, d) + [front])[..|Split(a, d)|] == Split(a, d);
      assert b == front + [b[|b| - 1]];
    }
  }

  lemma SplitPiece(s: string, d: char, start: nat, end: nat)
    requires start <= end <= |s| && (forall i | start <= i < end :: s[i] != d)
    requires start > 0 ==> s[start - 1] == d
    ensures Split(s[..end], d) == (if start == 0 then [] else Split(s[..start - 1], d)) + [s[start..end]]
  {
    if start == 0 {
      SplitWhole(s[..end], d);
    } else {
      SplitAppend(s[..start - 1], s[start..end], d);
      assert s[..end] == s[..start - 1] + [d] + s[start..end];
    }
  }

  // ----- queries -----

  /** The parsed map, and the first part that had no '='. */
  datatype Parsed = Parsed(values: map<string, string>, keyless: string)

  const NOTHING := Parsed(map[], "")

  function AddPart(p: Parsed, part: string): Parsed {
    if part == "" then p
    else
      var equals := Find(part, '=', 0);
      if equals == |part| then
        var key := UriDecode(part);
        Parsed(p.values[key := ""], if p.keyless == "" then key else p.keyless)
      else p.(values := p.values[UriDecode(part[..equals]) := UriDecode(part[equals + 1..])])
  }

  function AddParts(parts: seq<string>): Parsed {
    if parts == [] then NOTHING else AddPart(AddParts(parts[..|parts| - 1]), parts[|parts| - 1])
  }

  function ParseQuery(q: string): Parsed {
    AddParts(Split(q, '&'))
  }

  method ParseQueryLoop(q: string) returns (result: Parsed)
    ensures result == ParseQuery(q)
  {
    var parts := SplitLoop(q, '&');
    result := NOTHING;
    var k := 0;
    while k < |parts|
      invariant k <= |parts| && result == AddParts(parts[..k])
    {
      assert parts[..k + 1][..k] == parts[..k];
      result := AddPart(result, parts[k]);
      k := k + 1;
    }
    assert parts[..|parts|] == parts;
  }

  function Item(p: (string, string)): string {
    UriEncode(p.0) + "=" + UriEncode(p.1)
  }

  /** `encode_query`, on the entries in the order in which the map walks them. */
  function EncodeQuery(items: seq<(string, string)>): string {
    if items == [] then ""
    else
      var front := EncodeQuery(items[..|items| - 1]);
      (if |front| > 0 then front + "&" else front) + Item(items[|items| - 1])
  }

  method EncodeQueryLoop(items: seq<(string, string)>) returns (result: string)
    ensures result == EncodeQuery(items)
  {
    hide Item;
    result := "";
    var k := 0;
    while k < |items|
      invariant k <= |items| && result == EncodeQuery(items[..k])
    {
      assert items[..k + 1][..k] == items[..k];
      if |result| > 0 { result := result + "&"; }
      result := result + Item(items[k]);
      k := k + 1;
    }
    assert items[..|items|] == items;
  }

  /** What assigning the entries one by one makes of an empty map. */
  function MapOf(items: seq<(string, string)>): map<string, string> {
    if items == [] then map[]
    else MapOf(items[..|items| - 1])[items[|items| - 1].0 := items[|items| - 1].1]
  }

  // ----- what was encoded is read back -----

  /** A `char` that stands for a byte. */
  predicate IsBytes(s: string) {
    forall i | 0 <= i < |s| :: s[i] as int < 256
  }

  lemma CharReadsBack(c: char, rest: string)
    requires c as int < 256
    ensures DecodeChar(EncodeChar(c) + rest) == (c, |EncodeChar(c)|)
  {
    if !Unreserved(c) {
      HexReadsBack(c as int / 16);
      HexReadsBack(c as int % 16);
    }
  }

  lemma HexReadsBack(d: nat)
    requires d < 16
    ensures IsHex(HexDigit(d)) && HexValue(HexDigit(d)) == d
  {
  }

  lemma {:induction false} EncodePrepend(c: char, s: string)
    ensures UriEncode([c] + s) == EncodeChar(c) + UriEncode(s)
  {
    hide EncodeChar;
    var t := [c] + s;
    if s == "" {
      assert t[..0] == "";
    } else {
      EncodePrepend(c, s[..|s| - 1]);
      assert t[..|t| - 1] == [c] + s[..|s| - 1];
    }
  }

  /** `uri_decode` undoes `uri_encode` on every byte string. */
  lemma {:induction false} UriRoundTrip(s: string)
    requires IsBytes(s)
    ensures UriDecode(UriEncode(s)) == s
  {
    if s != "" {
      hide EncodeChar, DecodeChar;
      var rest := UriEncode(s[1..]);
      EncodePrepend(s[0], s[1..]);
      assert s == [s[0]] + s[1..];
      CharReadsBack(s[0], rest);
      assert (EncodeChar(s[0]) + rest)[|EncodeChar(s[0])|..] == rest;
      UriRoundTrip(s[1..]);
    }
  }

  lemma {:induction false} EncodedIsSafe(s: string)
    ensures Without(UriEncode(s), '&') && Without(UriEncode(s), '=')
  {
    if s != "" { EncodedIsSafe(s[..|s| - 1]); }
  }

  lemma ItemReadsBack(p: Parsed, item: (string, string))
    requires IsBytes(item.0) && IsBytes(item.1)
    ensures Without(Item(item), '&') && Item(item) != ""
    ensures AddPart(p, Item(item)) == p.(values := p.values[item.0 := item.1])
  {
    hide UriEncode, UriDecode;
    EncodedIsSafe(item.0);
    EncodedIsSafe(item.1);
    var part, n := Item(item), |UriEncode(item.0)|;
    assert part[n] == '=' && part[..n] == UriEncode(item.0) && part[n + 1..] == UriEncode(item.1);
    assert forall i | 0 <= i < n :: part[i] == UriEncode(item.0)[i];
    assert Find(part, '=', 0) == n;
    UriRoundTrip(item.0);
    UriRoundTrip(item.1);
  }

  /** Entries that were encoded one after the other are read back by assigning them
      one after the other. */
  lemma {:induction false} QueryRoundTrip(items: seq<(string, string)>)
    requires forall i | 0 <= i < |items| :: IsBytes(items[i].0) && IsBytes(items[i].1)
    ensures ParseQuery(EncodeQuery(items)) == Parsed(MapOf(items), "")
  {
    if items == [] {
      assert Split("", '&') == [""];
      assert AddParts([""]) == AddPart(AddParts([""][..0]), "");
    } else {
      hide Item, AddPart;
      var front, last := items[..|items| - 1], items[|items| - 1];
      QueryRoundTrip(front);
      var before := AddParts(Split(EncodeQuery(front), '&'));
      ItemReadsBack(before, last);
      if front == [] {
        assert EncodeQuery(items) == Item(last);
        assert MapOf(items) == MapOf(front)[last.0 := last.1] == map[last.0 := last.1];
        SplitWhole(Item(last), '&');
        OnePart(Item(last));
        ItemReadsBack(NOTHING, last);
      } else {
        EncodedNotEmpty(front);
        SplitAppend(EncodeQuery(front), Item(last), '&');
        assert EncodeQuery(front) + "&" == EncodeQuery(front) + ['&'];
        var parts := Split(EncodeQuery(front), '&');
        assert (parts + [Item(last)])[..|parts|] == parts;
      }
    }
  }

  lemma OnePart(part: string)
    ensures AddParts([part]) == AddPart(NOTHING, part)
  {
    assert [part][..0] == [];
  }

  lemma EncodedNotEmpty(items: seq<(string, string)>)
    requires items != []
    ensures EncodeQuery(items) != ""
  {
  }

  /** Walking a map in key order and assigning its entries rebuilds the map. */
  lemma {:induction false} MapOfHolds(items: seq<(string, string)>, i: nat)
    requires forall j, k | 0 <= j < k < |items| :: Less(items[j].0, items[k].0)
    requires i < |items|
    ensures items[i].0 in MapOf(items) && MapOf(items)[items[i].0] == items[i].1
  {
    var n := |items| - 1;
    if i < n {
      MapOfHolds(items[..n], i);
      LessIrreflexive(items[n].0);
    }
  }

  lemma {:induction false} MapOfHoldsOnly(items: seq<(string, string)>, key: string)
    requires key in MapOf(items)
    ensures exists i :: 0 <= i < |items| && items[i].0 == key
  {
    var n := |items| - 1;
    if items[n].0 != key {
      MapOfHoldsOnly(items[..n], key);
      var i :| 0 <= i < n && items[..n][i].0 == key;
      assert items[i].0 == key;
    }
  }

  // ----- a map, walked in key order -----

  lemma {:induction false} LeastKey(keys: set<string>)
    requires keys != {}
    ensures exists k :: k in keys && forall j | j in keys :: j == k || Less(k, j)
  {
    hide Less;
    var a :| a in keys;
    var rest := keys - {a};
    if rest == {} {
      assert keys == {a};
    } else {
      LeastKey(rest);
      var k :| k in rest && forall j | j in rest :: j == k || Less(k, j);
      LessTotal(a, k);
      var least := if Less(a, k) then a else k;
      forall j | j in keys ensures j == least || Less(least, j) {
        if j != a && j != k && Less(a, k) { LessTransitive(a, k, j); }
      }
    }
  }

  /** The entries of a `std::map`, in the order in which it is walked. */
  ghost function Walk(m: map<string, string>): (items: seq<(string, string)>)
    ensures |items| == |m| && forall i | 0 <= i < |items| :: items[i].0 in m && m[items[i].0] == items[i].1
    decreases |m|
  {
    if m == map[] then []
    else
      assert m.Keys != {} by { assert exists k :: k in m; }
      LeastKey(m.Keys);
      var k :| k in m && forall j | j in m :: j == k || Less(k, j);
      WithoutOne(m, k);
      [(k, m[k])] + Walk(m - {k})
  }

  lemma WithoutOne(m: map<string, string>, k: string)
    requires k in m
    ensures |m - {k}| == |m| - 1 && m == (m - {k})[k := m[k]]
  {
    var rest := m - {k};
    assert m.Keys == rest.Keys + {k};
    assert |m.Keys| == |m| && |rest.Keys| == |rest|;
  }

  lemma {:induction false} WalkAscends(m: map<string, string>)
    ensures forall i, j | 0 <= i < j < |m| :: Less(Walk(m)[i].0, Walk(m)[j].0)
    decreases |m|
  {
    if m != map[] {
      hide Less;
      var items := Walk(m);
      var k := items[0].0;
      WithoutOne(m, k);
      var rest := Walk(m - {k});
      assert items == [(k, m[k])] + rest;
      WalkAscends(m - {k});
      forall j | 0 <= j < |rest| ensures Less(k, rest[j].0) {
        assert rest[j].0 in m - {k};
      }
    }
  }

  lemma MapOfWalk(m: map<string, string>)
    ensures MapOf(Walk(m)) == m
  {
    hide Less, Walk, MapOf;
    var items := Walk(m);
    WalkAscends(m);
    var r := MapOf(items);
    forall i | 0 <= i < |items| ensures items[i].0 in r && r[items[i].0] == items[i].1 { MapOfHolds(items, i); }
    forall key | key in r ensures key in m && m[key] == r[key] {
      MapOfHoldsOnly(items, key);
      var i :| 0 <= i < |items| && items[i].0 == key;
    }
    forall key | key in m ensures key in r { WalkHasAll(m, key); }
  }

  lemma {:induction false} WalkHasAll(m: map<string, string>, key: string)
    requires key in m
    ensures exists i :: 0 <= i < |m| && Walk(m)[i].0 == key
    decreases |m|
  {
    var items := Walk(m);
    var k := items[0].0;
    if k != key {
      WithoutOne(m, k);
      WalkHasAll(m - {k}, key);
      var i :| 0 <= i < |m| - 1 && Walk(m - {k})[i].0 == key;
      assert items[i + 1].0 == key;
    }
  }

  /** A map that was encoded is read back as it was: empty or not, whatever bytes
      its keys and values hold.  So a saved session reloads unchanged. */
  lemma MapRoundTrip(m: map<string, string>)
    requires forall k | k in m :: IsBytes(k) && IsBytes(m[k])
    ensures ParseQuery(EncodeQuery(Walk(m))) == Parsed(m, "")
  {
    hide Walk, MapOf, ParseQuery, EncodeQuery, IsBytes;
    QueryRoundTrip(Walk(m));
    MapOfWalk(m);
  }
}
