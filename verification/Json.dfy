/** The JSON printer and parser (src/lib/functionlib.cpp, src/lib/dtree.cpp).

    The parser functions work on the text that is still ahead of the cursor.
    `json_decode_array` can loop for ever: a value that consumes nothing leaves
    the cursor, and so the next turn of the loop, exactly where they were.  That
    outcome is `Diverges`. */
module Json {
  import opened Text
  import opened DTreeModel

  // ----- printing -----

  function EscapeChar(c: char, q: char): string {
    if c == q then ['\\', q]
    else match c
      case '\t' => "\\t"
      case '\n' => "\\n"
      case '"' => "\\\""
      case '\r' => "\\r"
      case '\\' => "\\\\"
      case '\U{8}' => "\\b"
      case '\U{c}' => "\\f"
      case _ => [c]
  }

  function EscapeBody(s: string, q: char): string {
    if s == "" then "" else EscapeChar(s[0], q) + EscapeBody(s[1..], q)
  }

  /** `json_escape` */
  function Escape(s: string, q: char): string {
    [q] + EscapeBody(s, q) + [q]
  }

  function PadTo(s: string, width: nat): (r: string)
    requires forall i | 0 <= i < |s| :: IsDigit(s[i])
    ensures forall i | 0 <= i < |r| :: IsDigit(r[i])
    decreases width - |s|
  {
    if |s| >= width then s else PadTo("0" + s, width)
  }

  /** `std::to_string` on a finite `f64`: `%f`. */
  function NumText(negative: bool, micros: nat): string {
    (if negative then "-" else "") + Dec(micros / 1000000) + "." + PadTo(Dec(micros % 1000000), 6)
  }

  function Encode(t: Tree, q: char): string
    decreases t, 1
  {
    match t
    case Str(s) => Escape(s, q)
    case Num(n, m) => NumText(n, m)
    case Bool(b) => if b then "true" else "false"
    case Map(es, _, _) =>
      if IsList(t) then "[" + EncodeItems(es, q) + "]" else "{" + EncodePairs(es, q) + "}"
  }

  function EncodeItems(es: seq<Entry>, q: char): string
    decreases es, 0
  {
    if es == [] then ""
    else if |es| == 1 then Encode(es[0].value, q)
    else Encode(es[0].value, q) + ", " + EncodeItems(es[1..], q)
  }

  function EncodePair(e: Entry, q: char): string
    decreases e, 0
  {
    Escape(e.key, q) + ": " + Encode(e.value, q)
  }

  function EncodePairs(es: seq<Entry>, q: char): string
    decreases es, 0
  {
    if es == [] then ""
    else if |es| == 1 then EncodePair(es[0], q)
    else EncodePair(es[0], q) + ", " + EncodePairs(es[1..], q)
  }

  /** `DTree::to_string` */
  function ToText(t: Tree): string {
    match t
    case Str(s) => s
    case Num(n, m) => NumText(n, m)
    case Bool(b) => if b then "(true)" else "(false)"
    case Map(_, _, _) => ""
  }

  // ----- parsing -----

  /** `s[i]`, with the terminating NUL that `std::string` keeps behind its text. */
  function Peek(s: string): char {
    if s == "" then '\0' else s[0]
  }

  function Rest(s: string): (r: string)
    ensures |r| <= |s|
    ensures s != "" ==> |r| < |s|
  {
    if s == "" then "" else s[1..]
  }

  function Unescape(c: char): string {
    match c
    case 't' => "\t"
    case 'n' => "\n"
    case 'r' => "\r"
    case 'b' => "\U{8}"
    case 'f' => "\U{c}"
    case 'u' => ""
    case _ => [c]
  }

  /** `json_decode_String`: the text up to the closing quote, and what follows it. */
  function DecodeString(s: string, quote: char): (r: (string, string))
    ensures |r.1| <= |s|
  {
    if s == "" then ("", "")
    else if s[0] == quote then ("", s[1..])
    else if s[0] == '\\' then
      var after := DecodeString(Rest(s[1..]), quote);
      (Unescape(Peek(s[1..])) + after.0, after.1)
    else
      var after := DecodeString(s[1..], quote);
      ([s[0]] + after.0, after.1)
  }

  function DecodeKeyword(s: string): (r: (string, string))
    ensures |r.1| <= |s|
    ensures s != "" && IsAlnum(s[0]) ==> |r.1| < |s|
    ensures s == "" || !IsAlnum(s[0]) ==> r == ("", s)
  {
    if s == "" || !IsAlnum(s[0]) then ("", s)
    else var after := DecodeKeyword(s[1..]); ([s[0]] + after.0, after.1)
  }

  predicate IsNumberChar(c: char) {
    IsDigit(c) || c == '.'
  }

  function DecodeNumber(s: string): (r: (string, string))
    ensures |r.1| <= |s|
  {
    if s == "" || !IsNumberChar(s[0]) then ("", s)
    else var after := DecodeNumber(s[1..]); ([s[0]] + after.0, after.1)
  }

  datatype Decoded = Done(tree: Tree, rest: string) | Diverges

  function KeywordTree(word: string): Tree {
    if word == "true" then Bool(true) else if word == "false" then Bool(false) else Str("")
  }

  /** `json_decode_value` */
  function DecodeValue(s: string): (r: Decoded)
    ensures r.Done? ==> |r.rest| <= |s|
    decreases |s|, 0
  {
    var r := SkipSpace(s);
    var c := Peek(r);
    if c == '"' || c == '\'' then
      var text := DecodeString(r[1..], c);
      Done(Str(text.0), text.1)
    else if IsDigit(c) then
      var text := DecodeNumber(r);
      Done(Str(text.0), text.1)
    else if c == '{' then DecodeMap(SkipSpace(r[1..]), [])
    else if c == '[' then DecodeArray(SkipSpace(r[1..]), Map([], true, 0))
    else
      var word := DecodeKeyword(r);
      Done(KeywordTree(word.0), word.1)
  }

  /** The loop of `json_decode_map`, with `es` read so far. */
  function DecodeMap(s: string, es: seq<Entry>): (r: Decoded)
    ensures r.Done? ==> |r.rest| <= |s|
    decreases |s|, 1
  {
    if s == "" then Done(Map(es, false, 0), "")
    else if s[0] == '}' then Done(Map(es, false, 0), s[1..])
    else if s[0] == ',' then DecodeMap(SkipSpace(s[1..]), es)
    else if s[0] == '"' || s[0] == '\'' then
      var key := DecodeString(s[1..], s[0]);
      var r := SkipSpace(key.1);
      if Peek(r) != ':' then Done(Map(es, false, 0), r)
      else match DecodeValue(r[1..])
        case Diverges => Diverges
        case Done(v, after) => DecodeMap(SkipSpace(after), MapPut(es, key.0, v))
    else Done(Map(es, false, 0), s)
  }

  /** The loop of `json_decode_array`, with `list` read so far. */
  function DecodeArray(s: string, list: Tree): (r: Decoded)
    ensures r.Done? ==> |r.rest| <= |s|
    decreases |s|, 1
  {
    if s == "" then Done(list, "")
    else if s[0] == ']' then Done(list, s[1..])
    else if s[0] == ',' then DecodeArray(SkipSpace(s[1..]), list)
    else match DecodeValue(s)
      case Diverges => Diverges
      case Done(v, after) =>
        if |after| == |s| then Diverges else DecodeArray(SkipSpace(after), PushValue(list, v))
  }

  function JsonEncode(t: Tree): string {
    Encode(t, '"')
  }

  /** `json_decode`; `None` when the call does not return. */
  function JsonDecode(s: string): Option<Tree> {
    match DecodeValue(s)
    case Diverges => None
    case Done(t, _) => Some(t)
  }
}
