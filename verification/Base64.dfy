/** Bytes, and base64 as src/lib/uri.cpp does it (section 4 of RFC 4648). */
module Bytes {
  newtype byte = x: int | 0 <= x < 256
}

module Base64 {
  import opened Bytes
  import opened Text
  import opened Arith

  // ----- the alphabet -----

  function Symbol(v: int): char
    requires 0 <= v < 64
  {
    if v < 26 then ('A' as int + v) as char
    else if v < 52 then ('a' as int + v - 26) as char
    else if v < 62 then ('0' as int + v - 52) as char
    else if v == 62 then '+' else '/'
  }

  /** `base64_decode_value`: -1 for a character outside the alphabet. */
  function SymbolValue(c: char): (v: int)
    ensures -1 <= v < 64
  {
    if 'A' <= c <= 'Z' then c as int - 'A' as int
    else if 'a' <= c <= 'z' then c as int - 'a' as int + 26
    else if '0' <= c <= '9' then c as int - '0' as int + 52
    else if c == '+' then 62 else if c == '/' then 63 else -1
  }

  lemma SymbolReadsBack(v: int)
    requires 0 <= v < 64
    ensures SymbolValue(Symbol(v)) == v && Symbol(v) != '=' && !IsSpace(Symbol(v))
  {
  }

  // ----- encoding: the definition on groups of three bytes -----

  function Encode(b: seq<byte>): string {
    if |b| == 0 then ""
    else if |b| == 1 then [First(b[0]), Second(b[0], 0), '=', '=']
    else if |b| == 2 then [First(b[0]), Second(b[0], b[1]), Third(b[1], 0), '=']
    else [First(b[0]), Second(b[0], b[1]), Third(b[1], b[2]), Fourth(b[2])] + Encode(b[3..])
  }

  function First(x: byte): char { Symbol(x as int / 4) }
  function Second(x: byte, y: byte): char { Symbol(x as int % 4 * 16 + y as int / 16) }
  function Third(y: byte, z: byte): char { Symbol(y as int % 16 * 4 + z as int / 64) }
  function Fourth(z: byte): char { Symbol(z as int % 64) }

  // ----- encoding: the bit accumulator -----

  /** A 32-bit signed `int`. */
  function Wrap32(x: int): int {
    (x + 0x8000_0000) % 0x1_0000_0000 - 0x8000_0000
  }

  lemma WrapKeepsLowBits(x: int)
    ensures Wrap32(x) % 4096 == x % 4096
  {
    var q := (x + 0x8000_0000) / 0x1_0000_0000;
    AddMultiple(x, -1048576 * q, 4096);
    assert Wrap32(x) == x + -1048576 * q * 4096;
  }

  /** `(val >> bits) & 0x3F` for the shifts that occur. */
  function Six(val: int, bits: int): (r: int)
    requires bits in {0, 2, 4, 6}
    ensures 0 <= r < 64
  {
    (val / Power(bits)) % 64
  }

  function Power(bits: int): (p: int)
    requires bits in {0, 2, 4, 6}
    ensures p > 0
  {
    if bits == 0 then 1 else if bits == 2 then 4 else if bits == 4 then 16 else 64
  }

  /** The six bits read are those of `low`, whatever stands above bit 12. */
  lemma SixReadsLowBits(val: int, low: int, bits: int)
    requires bits in {0, 2, 4, 6} && val % 4096 == low % 4096
    ensures Six(val, bits) == Six(low, bits)
  {
    var p := Power(bits);
    var k := val / 4096 - low / 4096;
    var scale := 64 / p;
    assert val == low + k * scale * 64 * p;
    AddMultiple(low, k * scale * 64, p);
    AddMultiple(low / p, k * scale, 64);
  }

  /** The symbols that the bytes of a started group already determine. */
  function Started(r: seq<byte>): string
    requires |r| < 3
  {
    if |r| == 0 then "" else if |r| == 1 then [First(r[0])] else [First(r[0]), Second(r[0], r[1])]
  }

  /** What has been appended after `n` bytes. */
  function Emitted(b: seq<byte>, n: nat): string
    requires n <= |b|
  {
    Encode(b[..n - n % 3]) + Started(b[n - n % 3..n])
  }

  lemma {:induction false} EncodeAppend(a: seq<byte>, b: seq<byte>)
    requires |a| % 3 == 0
    ensures Encode(a + b) == Encode(a) + Encode(b)
  {
    if a == [] {
      assert a + b == b;
    } else {
      assert (a + b)[3..] == a[3..] + b;
      EncodeAppend(a[3..], b);
    }
  }

  lemma EmittedWhole(b: seq<byte>, n: nat)
    requires n + 3 <= |b| && n % 3 == 0
    ensures Emitted(b, n + 3)
         == Encode(b[..n]) + [First(b[n]), Second(b[n], b[n + 1]), Third(b[n + 1], b[n + 2]), Fourth(b[n + 2])]
  {
    hide Symbol, First, Second, Third, Fourth;
    var g := b[n..n + 3];
    assert b[..n + 3] == b[..n] + g;
    EncodeAppend(b[..n], g);
    EncodeThree(g);
    assert b[n + 3..n + 3] == [];
  }

  lemma EncodeThree(g: seq<byte>)
    requires |g| == 3
    ensures Encode(g) == [First(g[0]), Second(g[0], g[1]), Third(g[1], g[2]), Fourth(g[2])]
  {
    hide Symbol;
    assert g[3..] == [];
    assert Encode([]) == "";
  }

  /** The bits of the last byte that the accumulator still owes. */
  predicate Owes(b: seq<byte>, i: nat, val: int, bits: int)
    requires i <= |b|
  {
    && bits == -6 + 2 * (i % 3)
    && (i % 3 == 1 ==> val % 4 == b[i - 1] as int % 4)
    && (i % 3 == 2 ==> val % 16 == b[i - 1] as int % 16)
  }

  method Base64Encode(raw: seq<byte>) returns (result: string)
    ensures result == Encode(raw)
  {
    hide Six, Wrap32, Encode, Emitted, Flush, Symbol;
    result := "";
    var val, bits := 0, -6;
    EmittedNothing(raw);
    var i := 0;
    while i < |raw|
      invariant i <= |raw|
      invariant Owes(raw, i, val, bits)
      invariant result == Emitted(raw, i)
    {
      NextSymbols(raw, i, val);
      val := Wrap32(val * 256 + raw[i] as int);
      bits := bits + 8;
      result, bits := FlushBits(result, val, bits);
      i := i + 1;
    }
    PadEncode(raw);
    ghost var rest := raw[|raw| - |raw| % 3..];
    if bits > -6 {
      // ((val << 8) >> (bits + 8)) & 0x3F
      LastSymbol(val, bits);
      result := result + [Symbol(Six(Wrap32(val * 256), bits + 8))];
    }
    result := PadResult(result, Encode(raw));
  }

  /** The inner loop: all whole symbols that are left in the accumulator. */
  method FlushBits(before: string, val: int, atMost: int) returns (result: string, bits: int)
    requires atMost in {2, 4, 6}
    ensures result == before + Flush(val, atMost) && bits == atMost % 6 - 6
  {
    hide Flush, Symbol, Six;
    result, bits := before, atMost;
    while bits >= 0
      invariant bits in {-6, -4, -2, 0, 2, 4, 6} && bits <= atMost && bits % 6 == atMost % 6
      invariant result + Flush(val, bits) == before + Flush(val, atMost)
    {
      FlushStep(result, val, bits);
      result := result + [Symbol(Six(val, bits))];
      bits := bits - 6;
    }
    FlushNothing(result, val, bits);
  }

  /** The last loop: padding up to a whole group. */
  method PadResult(before: string, ghost whole: string) returns (result: string)
    requires |before| <= |whole| && before == whole[..|before|] && forall k | |before| <= k < |whole| :: whole[k] == '='
    requires |whole| % 4 == 0 && |whole| - |before| < 4
    ensures result == whole
  {
    result := before;
    while |result| % 4 != 0
      invariant |before| <= |result| <= |whole| && result == whole[..|result|]
      decreases |whole| - |result|
    {
      result := result + ['='];
    }
  }

  /** The symbols the inner loop appends from `bits` down. */
  function Flush(val: int, bits: int): string
    requires bits in {-6, -4, -2, 0, 2, 4, 6}
    decreases bits + 6
  {
    if bits < 0 then "" else [Symbol(Six(val, bits))] + Flush(val, bits - 6)
  }

  lemma FlushStep(r: string, val: int, bits: int)
    requires bits in {0, 2, 4, 6}
    ensures r + Flush(val, bits) == r + [Symbol(Six(val, bits))] + Flush(val, bits - 6)
  {
  }

  lemma FlushNothing(r: string, val: int, bits: int)
    requires bits in {-6, -4, -2}
    ensures r + Flush(val, bits) == r
  {
  }

  lemma EmittedNothing(b: seq<byte>)
    ensures Emitted(b, 0) == ""
  {
    assert b[..0] == [];
  }

  /** Six bits taken from the end of what was kept and the front of `c`. */
  lemma SixAcross(val: int, c: int)
    requires 0 <= c < 256
    ensures Six(Wrap32(val * 256 + c), 2) == c / 4
    ensures Six(Wrap32(val * 256 + c), 4) == val % 4 * 16 + c / 16
    ensures Six(Wrap32(val * 256 + c), 6) == val % 16 * 4 + c / 64
  {
    WrapKeepsLowBits(val * 256 + c);
    SixReadsLowBits(Wrap32(val * 256 + c), val * 256 + c, 2);
    SixReadsLowBits(Wrap32(val * 256 + c), val * 256 + c, 4);
    SixReadsLowBits(Wrap32(val * 256 + c), val * 256 + c, 6);
    ShiftTwo(val, c);
    ShiftFour(val, c);
    ShiftSix(val, c);
  }

  lemma ShiftTwo(val: int, c: int)
    requires 0 <= c < 256
    ensures (val * 256 + c) / 4 % 64 == c / 4
  {
    AddMultiple(c, val * 64, 4);
    AddMultiple(c / 4, val, 64);
  }

  lemma ShiftFour(val: int, c: int)
    requires 0 <= c < 256
    ensures (val * 256 + c) / 16 % 64 == val % 4 * 16 + c / 16
  {
    AddMultiple(c, val * 16, 16);
    var q, r := val / 4, val % 4;
    assert val * 16 + c / 16 == r * 16 + c / 16 + q * 64;
    AddMultiple(r * 16 + c / 16, q, 64);
  }

  lemma ShiftSix(val: int, c: int)
    requires 0 <= c < 256
    ensures (val * 256 + c) / 64 % 64 == val % 16 * 4 + c / 64
  {
    AddMultiple(c, val * 4, 64);
    var q, r := val / 16, val % 16;
    assert val * 4 + c / 64 == r * 4 + c / 64 + q * 64;
    AddMultiple(r * 4 + c / 64, q, 64);
  }

  lemma SixOfByte(val: int, c: int)
    requires 0 <= c < 256
    ensures Six(Wrap32(val * 256 + c), 0) == c % 64
  {
    WrapKeepsLowBits(val * 256 + c);
    SixReadsLowBits(Wrap32(val * 256 + c), val * 256 + c, 0);
    AddMultiple(c, 4 * val, 64);
  }

  lemma LowBitsOfNext(val: int, c: int)
    requires 0 <= c < 256
    ensures Wrap32(val * 256 + c) % 4 == c % 4 && Wrap32(val * 256 + c) % 16 == c % 16
  {
    var next := Wrap32(val * 256 + c);
    WrapKeepsLowBits(val * 256 + c);
    var k := next / 4096 - (val * 256 + c) / 4096;
    AddMultiple(c, k * 1024 + val * 64, 4);
    AddMultiple(c, k * 256 + val * 16, 16);
    assert next == val * 256 + c + k * 4096;
  }

  lemma NextSymbols(b: seq<byte>, i: nat, val: int)
    requires i < |b| && Owes(b, i, val, -6 + 2 * (i % 3))
    ensures var next := Wrap32(val * 256 + b[i] as int);
      && Emitted(b, i + 1) == Emitted(b, i) + Flush(next, 2 + 2 * (i % 3))
      && Owes(b, i + 1, next, -6 + 2 * ((i + 1) % 3))
  {
    hide Six, Wrap32, Symbol, Encode, Emitted, Flush;
    var c := b[i] as int;
    LowBitsOfNext(val, c);
    NextFlush(b, i, val);
    EmittedStep(b, i);
  }

  /** The symbols that byte `i` completes. */
  function Completed(b: seq<byte>, i: nat): string
    requires i < |b|
  {
    if i % 3 == 0 then [First(b[i])]
    else if i % 3 == 1 then [Second(b[i - 1], b[i])]
    else [Third(b[i - 1], b[i]), Fourth(b[i])]
  }

  lemma NextFlush(b: seq<byte>, i: nat, val: int)
    requires i < |b| && Owes(b, i, val, -6 + 2 * (i % 3))
    ensures Flush(Wrap32(val * 256 + b[i] as int), 2 + 2 * (i % 3)) == Completed(b, i)
  {
    hide Wrap32, Flush, First, Second, Third, Fourth;
    if i % 3 == 0 {
      FlushFirst(val, b[i]);
    } else if i % 3 == 1 {
      FlushSecond(val, b[i - 1], b[i]);
    } else {
      FlushThird(val, b[i - 1], b[i]);
    }
  }

  lemma FlushFirst(val: int, x: byte)
    ensures Flush(Wrap32(val * 256 + x as int), 2) == [First(x)]
  {
    hide Six, Wrap32, Symbol, Flush;
    SixAcross(val, x as int);
    FlushOne(Wrap32(val * 256 + x as int), 2);
  }

  lemma FlushSecond(val: int, x: byte, y: byte)
    requires val % 4 == x as int % 4
    ensures Flush(Wrap32(val * 256 + y as int), 4) == [Second(x, y)]
  {
    hide Six, Wrap32, Symbol, Flush;
    SixAcross(val, y as int);
    FlushOne(Wrap32(val * 256 + y as int), 4);
  }

  lemma FlushThird(val: int, y: byte, z: byte)
    requires val % 16 == y as int % 16
    ensures Flush(Wrap32(val * 256 + z as int), 6) == [Third(y, z), Fourth(z)]
  {
    hide Six, Wrap32, Symbol, Flush;
    SixAcross(val, z as int);
    SixOfByte(val, z as int);
    FlushTwo(Wrap32(val * 256 + z as int));
  }

  lemma FlushOne(val: int, bits: int)
    requires bits in {2, 4}
    ensures Flush(val, bits) == [Symbol(Six(val, bits))]
  {
    assert Flush(val, bits - 6) == "";
  }

  lemma FlushTwo(val: int)
    ensures Flush(val, 6) == [Symbol(Six(val, 6)), Symbol(Six(val, 0))]
  {
    assert Flush(val, 0) == [Symbol(Six(val, 0))] + Flush(val, -6);
  }

  lemma EmittedStep(b: seq<byte>, i: nat)
    requires i < |b|
    ensures Emitted(b, i + 1) == Emitted(b, i) + Completed(b, i)
  {
    hide Symbol, First, Second, Third, Fourth, Encode, Emitted;
    var whole := i - i % 3;
    if i % 3 == 2 {
      EmittedWhole(b, whole);
      EmittedPart(b, whole, i);
      assert b[whole..i] == [b[whole], b[whole + 1]];
    } else {
      EmittedPart(b, whole, i);
      EmittedPart(b, whole, i + 1);
      if i % 3 == 1 {
        assert b[whole..i + 1] == [b[whole], b[i]] && b[whole..i] == [b[whole]];
      } else {
        assert b[whole..i + 1] == [b[i]];
      }
    }
  }

  lemma EmittedPart(b: seq<byte>, whole: nat, n: nat)
    requires whole <= n <= |b| && whole % 3 == 0 && n - whole < 3
    ensures Emitted(b, n) == Encode(b[..whole]) + Started(b[whole..n])
  {
    assert n - n % 3 == whole;
  }

  lemma LastSymbol(val: int, bits: int)
    requires bits in {-4, -2}
    ensures Six(Wrap32(val * 256), bits + 8) == if bits == -4 then val % 4 * 16 else val % 16 * 4
  {
    SixAcross(val, 0);
  }

  /** What ends the text after a started group: its last symbol, then padding. */
  function Tail(r: seq<byte>): string
    requires |r| < 3
  {
    if |r| == 0 then ""
    else if |r| == 1 then [Symbol(r[0] as int % 4 * 16), '=', '=']
    else [Symbol(r[1] as int % 16 * 4), '=']
  }

  lemma ShortText(r: seq<byte>)
    requires |r| < 3
    ensures Encode(r) == Started(r) + Tail(r)
  {
    hide Symbol, First, Second, Third;
    if |r| == 1 {
      assert Second(r[0], 0) == Symbol(r[0] as int % 4 * 16) by { SecondAlone(r[0]); }
      JoinOne(First(r[0]), Second(r[0], 0));
    } else if |r| == 2 {
      assert Third(r[1], 0) == Symbol(r[1] as int % 16 * 4) by { ThirdAlone(r[1]); }
      JoinTwo(First(r[0]), Second(r[0], r[1]), Third(r[1], 0));
    }
  }

  lemma SecondAlone(x: byte)
    ensures Second(x, 0) == Symbol(x as int % 4 * 16)
  {
  }

  lemma ThirdAlone(y: byte)
    ensures Third(y, 0) == Symbol(y as int % 16 * 4)
  {
  }

  lemma JoinOne(a: char, b: char)
    ensures [a] + [b, '=', '='] == [a, b, '=', '=']
  {
  }

  lemma JoinTwo(a: char, b: char, c: char)
    ensures [a, b] + [c, '='] == [a, b, c, '=']
  {
  }

  lemma PadEncode(b: seq<byte>)
    ensures |Encode(b)| % 4 == 0
    ensures Encode(b) == Emitted(b, |b|) + Tail(b[|b| - |b| % 3..])
  {
    hide *;
    var k := |b| - |b| % 3;
    PadSplit(b[..k], b[k..]);
    assert b == b[..k] + b[k..];
    EncodeLength(b);
  }

  lemma PadSplit(front: seq<byte>, rest: seq<byte>)
    requires |front| % 3 == 0 && |rest| < 3
    ensures Encode(front + rest) == Emitted(front + rest, |front + rest|) + Tail(rest)
  {
    hide *;
    EncodeAppend(front, rest);
    ShortText(rest);
    EmittedAt(front, rest);
    AssocThree(Encode(front), Started(rest), Tail(rest));
  }

  lemma EmittedAt(front: seq<byte>, rest: seq<byte>)
    requires |front| % 3 == 0 && |rest| < 3
    ensures Emitted(front + rest, |front + rest|) == Encode(front) + Started(rest)
  {
    hide Encode, Started;
    var b := front + rest;
    assert |b| - |b| % 3 == |front|;
    assert b[..|front|] == front && b[|front|..|b|] == rest;
  }

  lemma AssocThree(x: string, y: string, z: string)
    ensures x + (y + z) == x + y + z
  {
  }

  lemma {:induction false} EncodeLength(b: seq<byte>)
    ensures |Encode(b)| % 4 == 0
  {
    hide Symbol;
    if |b| >= 3 { EncodeLength(b[3..]); }
  }

  // ----- decoding -----

  function Clean(raw: string): string {
    if raw == "" then ""
    else if IsSpace(raw[0]) then Clean(raw[1..])
    else [raw[0]] + Clean(raw[1..])
  }

  function Quad(c: char): int {
    if c == '=' then 0 else SymbolValue(c)
  }

  function Padding(g: string): nat {
    if g == "" then 0 else (if g[0] == '=' then 1 else 0) + Padding(g[1..])
  }

  /** The four characters of a group, accepted or not. */
  predicate GroupOk(g: string, last: bool)
    requires |g| == 4
  {
    && Quad(g[0]) >= 0 && Quad(g[1]) >= 0 && Quad(g[2]) >= 0 && Quad(g[3]) >= 0
    && Padding(g) <= 2
    && (Padding(g) > 0 ==> last)
    && !(g[2] == '=' && g[3] != '=')
  }

  function GroupBytes(g: string): seq<byte>
    requires |g| == 4 && forall i | 0 <= i < 4 :: Quad(g[i]) >= 0
  {
    [Byte0(Quad(g[0]), Quad(g[1]))]
    + (if g[2] != '=' then [Byte1(Quad(g[1]), Quad(g[2]))] else [])
    + (if g[3] != '=' then [Byte2(Quad(g[2]), Quad(g[3]))] else [])
  }

  predicate IsSix(v: int) { 0 <= v < 64 }

  function Byte0(p: int, q: int): byte
    requires IsSix(p) && IsSix(q)
  {
    (p * 4 + q / 16) as byte
  }

  function Byte1(q: int, r: int): byte
    requires IsSix(q) && IsSix(r)
  {
    (q % 16 * 16 + r / 4) as byte
  }

  function Byte2(r: int, s: int): byte
    requires IsSix(r) && IsSix(s)
  {
    (r % 4 * 64 + s) as byte
  }

  function DecodeGroups(s: string): Option<seq<byte>> {
    if s == "" then Some([])
    else if |s| < 4 || !GroupOk(s[..4], |s| == 4) then None
    else match DecodeGroups(s[4..])
      case None => None
      case Some(rest) => Some(GroupBytes(s[..4]) + rest)
  }

  /** `base64_decode`; `None` is `ok == false`. */
  function Decode(raw: string): Option<seq<byte>> {
    DecodeGroups(Clean(raw))
  }

  /** The text without its white space. */
  method CleanText(raw: string) returns (cleaned: string)
    ensures cleaned == Clean(raw)
  {
    hide Clean;
    CleanNothing();
    cleaned := "";
    var k := 0;
    assert raw[0..] == raw;
    while k < |raw|
      invariant k <= |raw| && cleaned + Clean(raw[k..]) == Clean(raw)
    {
      CleanStep(raw, k);
      if !IsSpace(raw[k]) { cleaned := cleaned + [raw[k]]; }
      k := k + 1;
    }
    assert raw[|raw|..] == "" && cleaned + "" == cleaned;
  }

  /** One group of four characters, appended to `before`. */
  method DecodeGroup(g: string, last: bool, before: seq<byte>) returns (ok: bool, out: seq<byte>)
    requires |g| == 4
    ensures ok == GroupOk(g, last)
    ensures ok ==> (forall i | 0 <= i < 4 :: Quad(g[i]) >= 0) && out == before + GroupBytes(g)
  {
    hide Padding, SymbolValue, GroupBytes, Byte0, Byte1, Byte2;
    ok, out := false, before;
    PaddingOfFour(g);
    var values: seq<int> := [];
    var padding := 0;
    var j := 0;
    while j < 4
      invariant 0 <= j <= 4 && |values| == j
      invariant forall m | 0 <= m < j :: values[m] == Quad(g[m]) >= 0
      invariant padding == PaddingTo(g, j)
    {
      var c := g[j];
      if c == '=' {
        values := values + [0];
        padding := padding + 1;
      } else {
        if SymbolValue(c) < 0 { return; }
        values := values + [SymbolValue(c)];
      }
      j := j + 1;
    }
    if padding > 2 || (padding > 0 && !last) || (g[2] == '=' && g[3] != '=') { return; }
    out := out + [Byte0(values[0], values[1])];
    if g[2] != '=' { out := out + [Byte1(values[1], values[2])]; }
    if g[3] != '=' { out := out + [Byte2(values[2], values[3])]; }
    ok := true;
    GroupAppended(before, g, out);
  }

  method Base64Decode(raw: string) returns (ok: bool, result: seq<byte>)
    ensures Decode(raw) == if ok then Some(result) else None
    ensures !ok ==> result == []
  {
    hide DecodeGroups, Clean, GroupOk, Prepend, GroupBytes;
    ok, result := false, [];
    var cleaned := CleanText(raw);
    NoGroups();
    if |cleaned| == 0 { return true, []; }
    if |cleaned| % 4 != 0 {
      OddLength(cleaned);
      return;
    }
    var out: seq<byte> := [];
    var i := 0;
    assert cleaned[0..] == cleaned;
    PrependNothing(DecodeGroups(cleaned));
    while i < |cleaned|
      invariant i <= |cleaned| && (|cleaned| - i) % 4 == 0
      invariant Decode(raw) == Prepend(out, DecodeGroups(cleaned[i..]))
    {
      ghost var before := out;
      var group := cleaned[i..][..4];
      GroupStep(cleaned, i);
      PrependNone(before);
      var good;
      good, out := DecodeGroup(group, i + 4 == |cleaned|, out);
      if !good { return; }
      PrependTwice(before, GroupBytes(group), DecodeGroups(cleaned[i + 4..]));
      i := i + 4;
    }
    assert cleaned[|cleaned|..] == "";
    PrependSome(out);
    return true, out;
  }

  function PaddingTo(g: string, j: nat): nat
    requires j <= |g| == 4
  {
    (if j > 0 && g[0] == '=' then 1 else 0) + (if j > 1 && g[1] == '=' then 1 else 0)
    + (if j > 2 && g[2] == '=' then 1 else 0) + (if j > 3 && g[3] == '=' then 1 else 0)
  }

  lemma CleanNothing()
    ensures Clean("") == ""
  {
  }

  lemma CleanStep(raw: string, k: nat)
    requires k < |raw|
    ensures Clean(raw[k..]) == (if IsSpace(raw[k]) then "" else [raw[k]]) + Clean(raw[k + 1..])
  {
    assert raw[k..][1..] == raw[k + 1..];
  }

  lemma NoGroups()
    ensures DecodeGroups("") == Some([])
  {
  }

  lemma GroupStep(s: string, i: nat)
    requires i + 4 <= |s|
    ensures var g, last := s[i..][..4], i + 4 == |s|;
      DecodeGroups(s[i..]) == if GroupOk(g, last) then Prepend(GroupBytes(g), DecodeGroups(s[i + 4..])) else None
  {
    assert s[i..][4..] == s[i + 4..];
  }

  function Prepend(a: seq<byte>, r: Option<seq<byte>>): Option<seq<byte>> {
    if r.Some? then Some(a + r.value) else None
  }

  lemma GroupAppended(before: seq<byte>, g: string, out: seq<byte>)
    requires |g| == 4 && forall i | 0 <= i < 4 :: Quad(g[i]) >= 0
    requires out == before + [Byte0(Quad(g[0]), Quad(g[1]))]
                  + (if g[2] != '=' then [Byte1(Quad(g[1]), Quad(g[2]))] else [])
                  + (if g[3] != '=' then [Byte2(Quad(g[2]), Quad(g[3]))] else [])
    ensures out == before + GroupBytes(g)
  {
  }

  lemma PrependNone(a: seq<byte>)
    ensures Prepend(a, None) == None
  {
  }

  lemma PrependSome(a: seq<byte>)
    ensures Prepend(a, Some([])) == Some(a)
  {
    assert a + [] == a;
  }

  lemma PrependNothing(r: Option<seq<byte>>)
    ensures Prepend([], r) == r
  {
    if r.Some? { assert [] + r.value == r.value; }
  }

  lemma PrependTwice(a: seq<byte>, b: seq<byte>, r: Option<seq<byte>>)
    ensures Prepend(a, Prepend(b, r)) == Prepend(a + b, r)
  {
    if r.Some? { assert a + (b + r.value) == a + b + r.value; }
  }

  lemma {:induction false} OddLength(s: string)
    requires |s| % 4 != 0
    ensures DecodeGroups(s) == None
  {
    hide GroupOk, GroupBytes;
    if |s| >= 4 { OddLength(s[4..]); }
  }

  // ----- the round trip -----

  lemma {:induction false} CleanKeeps(s: string)
    requires forall i | 0 <= i < |s| :: !IsSpace(s[i])
    ensures Clean(s) == s
  {
    if s != "" { CleanKeeps(s[1..]); assert s == [s[0]] + s[1..]; }
  }

  lemma {:induction false} EncodeHasNoSpace(b: seq<byte>)
    ensures forall i | 0 <= i < |Encode(b)| :: !IsSpace(Encode(b)[i])
  {
    if |b| >= 3 {
      EncodeHasNoSpace(b[3..]);
      var rest := Encode(b[3..]);
      assert forall i | 4 <= i < |Encode(b)| :: Encode(b)[i] == rest[i - 4];
    }
  }

  /** Any bytes come back unchanged. */
  lemma RoundTrip(b: seq<byte>)
    ensures Decode(Encode(b)) == Some(b)
  {
    EncodeHasNoSpace(b);
    CleanKeeps(Encode(b));
    GroupsRoundTrip(b);
  }

  lemma {:induction false} GroupsRoundTrip(b: seq<byte>)
    ensures DecodeGroups(Encode(b)) == Some(b)
  {
    if |b| == 0 {
    } else if |b| < 3 {
      var s := Encode(b);
      assert s[..4] == s && s[4..] == "";
      GroupRoundTrip(b);
      assert b + [] == b;
    } else {
      var g := b[..3];
      var s := Encode(b);
      assert g[3..] == [] && Encode(g) + "" == Encode(g);
      assert s[..4] == Encode(g) && s[4..] == Encode(b[3..]);
      GroupRoundTrip(g);
      GroupsRoundTrip(b[3..]);
      assert g + b[3..] == b;
    }
  }

  lemma GroupRoundTrip(b: seq<byte>)
    requires 1 <= |b| <= 3
    ensures |Encode(b)| == 4 && GroupOk(Encode(b), true) && (|b| == 3 ==> GroupOk(Encode(b), false))
    ensures GroupBytes(Encode(b)) == b
  {
    hide Symbol, SymbolValue, Padding;
    var x := b[0] as int;
    var y := if |b| > 1 then b[1] as int else 0;
    var z := if |b| > 2 then b[2] as int else 0;
    var s := Encode(b);
    if |b| == 3 { EncodeThree(b); }
    assert s == [Symbol(x / 4), Symbol(x % 4 * 16 + y / 16),
                 if |b| > 1 then Symbol(y % 16 * 4 + z / 64) else '=',
                 if |b| > 2 then Symbol(z % 64) else '='];
    SymbolReadsBack(x / 4);
    SymbolReadsBack(x % 4 * 16 + y / 16);
    SymbolReadsBack(y % 16 * 4 + z / 64);
    SymbolReadsBack(z % 64);
    PaddingOfFour(s);
    BitsReadBack(x, y, z);
  }

  lemma BitsReadBack(x: int, y: int, z: int)
    requires 0 <= x < 256 && 0 <= y < 256 && 0 <= z < 256
    ensures x / 4 * 4 + (x % 4 * 16 + y / 16) / 16 == x
    ensures (x % 4 * 16 + y / 16) % 16 * 16 + (y % 16 * 4 + z / 64) / 4 == y
    ensures (y % 16 * 4 + z / 64) % 4 * 64 + z % 64 == z
  {
  }

  lemma PaddingOfFour(s: string)
    requires |s| == 4
    ensures Padding(s) == (if s[0] == '=' then 1 else 0) + (if s[1] == '=' then 1 else 0)
                        + (if s[2] == '=' then 1 else 0) + (if s[3] == '=' then 1 else 0)
  {
    assert s[1..][1..] == s[2..] && s[2..][1..] == s[3..] && s[3..][1..] == "";
    assert Padding(s[3..]) == if s[3] == '=' then 1 else 0;
    assert Padding(s[2..]) == (if s[2] == '=' then 1 else 0) + Padding(s[3..]);
    assert Padding(s[1..]) == (if s[1] == '=' then 1 else 0) + Padding(s[2..]);
  }

  // ----- which texts are encodings -----

  /** The last group as an encoder writes it: no '=' in the first two places, and
      no bit set that belongs to no byte. */
  predicate LastCanonical(g: string)
    requires |g| == 4
  {
    && g[0] != '=' && g[1] != '='
    && (if g[2] == '=' then Quad(g[1]) % 16 == 0 else g[3] == '=' ==> Quad(g[2]) % 4 == 0)
  }

  predicate Canonical(s: string) {
    |s| >= 4 ==> LastCanonical(s[|s| - 4..])
  }

  lemma ValueReadsBack(c: char)
    requires SymbolValue(c) >= 0
    ensures Symbol(SymbolValue(c)) == c
  {
  }

  lemma SymbolsDiffer(v: int, w: int)
    requires IsSix(v) && IsSix(w)
    ensures Symbol(v) == Symbol(w) <==> v == w
  {
    SymbolReadsBack(v);
    SymbolReadsBack(w);
  }

  /** The bits of a group are those of its bytes. */
  lemma BitsOfGroup(p: int, q: int, r: int, s: int)
    requires IsSix(p) && IsSix(q) && IsSix(r) && IsSix(s)
    ensures First(Byte0(p, q)) == Symbol(p)
    ensures Second(Byte0(p, q), Byte1(q, r)) == Symbol(q) && Second(Byte0(p, q), 0) == Symbol(q / 16 * 16)
    ensures Third(Byte1(q, r), Byte2(r, s)) == Symbol(r) && Third(Byte1(q, r), 0) == Symbol(r / 4 * 4)
    ensures Fourth(Byte2(r, s)) == Symbol(s)
  {
    hide First, Second, Third, Fourth, Symbol, Byte0, Byte1, Byte2;
    BitsOfFirst(p, q);
    BitsOfSecond(p, q, r);
    BitsOfThird(q, r, s);
    BitsOfFourth(r, s);
  }

  lemma BitsOfFirst(p: int, q: int)
    requires IsSix(p) && IsSix(q)
    ensures First(Byte0(p, q)) == Symbol(p)
  {
    hide Symbol, Byte0;
    ByteOfSixes(p, q);
    LowOfSum(p, q / 16, 4);
  }

  lemma BitsOfSecond(p: int, q: int, r: int)
    requires IsSix(p) && IsSix(q) && IsSix(r)
    ensures Second(Byte0(p, q), Byte1(q, r)) == Symbol(q) && Second(Byte0(p, q), 0) == Symbol(q / 16 * 16)
  {
    hide Symbol, Second, Byte0, Byte1;
    var high, low := q / 16, q % 16;
    SixSplits(q, 16);
    ByteOfSixes(p, q);
    ByteOfSixes(q, r);
    SixSplits(r, 4);
    LowOfSum(p, high, 4);
    LowOfSum(low, r / 4, 16);
    SecondIs(Byte0(p, q), Byte1(q, r), high, low);
    SecondIs(Byte0(p, q), 0, high, 0);
  }

  lemma SixSplits(v: int, m: int)
    requires IsSix(v) && m in {4, 16}
    ensures v / m * m + v % m == v && 0 <= v / m < 64 / m && 0 <= v % m < m
  {
  }

  lemma SecondIs(x: byte, y: byte, high: int, low: int)
    requires x as int % 4 == high && y as int / 16 == low
    ensures Second(x, y) == Symbol(high * 16 + low)
  {
    hide Symbol;
  }

  lemma ThirdIs(y: byte, z: byte, high: int, low: int)
    requires y as int % 16 == high && z as int / 64 == low
    ensures Third(y, z) == Symbol(high * 4 + low)
  {
    hide Symbol;
  }

  lemma BitsOfThird(q: int, r: int, s: int)
    requires IsSix(q) && IsSix(r) && IsSix(s)
    ensures Third(Byte1(q, r), Byte2(r, s)) == Symbol(r) && Third(Byte1(q, r), 0) == Symbol(r / 4 * 4)
  {
    hide Symbol, Third, Byte1, Byte2;
    var high, low := r / 4, r % 4;
    SixSplits(r, 4);
    ByteOfSixes(q, r);
    ByteOfSixes(r, s);
    LowOfSum(q % 16, high, 16);
    LowOfSum(low, s, 64);
    ThirdIs(Byte1(q, r), Byte2(r, s), high, low);
    ThirdIs(Byte1(q, r), 0, high, 0);
  }

  /** The parts of a number that was put together from them. */
  lemma LowOfSum(high: int, low: int, m: int)
    requires 0 <= low < m
    ensures (high * m + low) % m == low && (high * m + low) / m == high
  {
    DivModUnique(high * m + low, high, low, m);
  }

  lemma ByteOfSixes(v: int, w: int)
    requires IsSix(v) && IsSix(w)
    ensures Byte0(v, w) as int == v * 4 + w / 16 && Byte1(v, w) as int == v % 16 * 16 + w / 4
    ensures Byte2(v, w) as int == v % 4 * 64 + w
  {
  }

  lemma BitsOfFourth(r: int, s: int)
    requires IsSix(r) && IsSix(s)
    ensures Fourth(Byte2(r, s)) == Symbol(s)
  {
    hide Symbol, Byte2;
    ByteOfSixes(r, s);
    LowOfSum(r % 4, s, 64);
  }

  lemma EncodeOne(x: byte)
    ensures Encode([x]) == [First(x), Second(x, 0), '=', '=']
  {
  }

  lemma EncodeTwo(x: byte, y: byte)
    ensures Encode([x, y]) == [First(x), Second(x, y), Third(y, 0), '=']
  {
  }

  /** A group that was read is the encoding of its bytes if and only if it is
      written as an encoder writes it. */
  lemma GroupIsEncodingIff(g: string, last: bool)
    requires |g| == 4 && GroupOk(g, last)
    ensures Encode(GroupBytes(g)) == g <==> LastCanonical(g)
    ensures !last ==> |GroupBytes(g)| == 3 && LastCanonical(g)
  {
    hide Symbol, SymbolValue, First, Second, Third, Fourth, Byte0, Byte1, Byte2, Encode, Padding;
    var p, q, r, s := Quad(g[0]), Quad(g[1]), Quad(g[2]), Quad(g[3]);
    PaddingOfFour(g);
    BitsOfGroup(p, q, r, s);
    SymbolReadsBack(p);
    SymbolReadsBack(q);
    SymbolsDiffer(q / 16 * 16, q);
    SymbolsDiffer(r / 4 * 4, r);
    forall i | 0 <= i < 4 && g[i] != '=' ensures Symbol(Quad(g[i])) == g[i] { ValueReadsBack(g[i]); }
    var x, y, z := Byte0(p, q), Byte1(q, r), Byte2(r, s);
    if g[2] == '=' {
      assert GroupBytes(g) == [x];
      EncodeOne(x);
    } else if g[3] == '=' {
      assert GroupBytes(g) == [x, y];
      EncodeTwo(x, y);
    } else {
      assert GroupBytes(g) == [x, y, z];
      EncodeThree([x, y, z]);
    }
  }

  lemma {:induction false} GroupsAreEncodingIff(s: string)
    requires DecodeGroups(s).Some?
    ensures Encode(DecodeGroups(s).value) == s <==> Canonical(s)
  {
    hide Padding, SymbolValue, GroupBytes, LastCanonical, Encode;
    if s == "" {
      EncodeNothing();
    } else {
      var g, rest := s[..4], s[4..];
      var b, more := GroupBytes(g), DecodeGroups(rest).value;
      GroupIsEncodingIff(g, |s| == 4);
      if rest == "" {
        assert s == g && s[|s| - 4..] == g && b + [] == b;
      } else {
        GroupsAreEncodingIff(rest);
        OddLengthIsNone(rest);
        EncodeAppend(b, more);
        assert s == g + rest && s[|s| - 4..] == rest[|rest| - 4..];
        assert |Encode(b)| == 4;
      }
    }
  }

  lemma EncodeNothing()
    ensures Encode([]) == ""
  {
  }

  lemma OddLengthIsNone(s: string)
    ensures s != "" && DecodeGroups(s).Some? ==> |s| >= 4
  {
  }

  /** A text that is accepted is, but for white space, the encoding of what it is
      read as if and only if its last group is written as an encoder writes it. */
  lemma IsEncodingIff(raw: string)
    requires Decode(raw).Some?
    ensures Encode(Decode(raw).value) == Clean(raw) <==> Canonical(Clean(raw))
  {
    hide DecodeGroups, Clean, Canonical, Encode;
    GroupsAreEncodingIff(Clean(raw));
  }

  /** `QR==` reads as the one byte of `QQ==`, and `=AAA` as the three of `AAAA`. */
  lemma OtherTextsAreRead()
    ensures Decode("QR==") == Some([65]) && Encode([65]) == "QQ=="
    ensures Decode("=AAA") == Some([0, 0, 0]) && Encode([0, 0, 0]) == "AAAA"
  {
    hide Decode, Padding, GroupOk, GroupBytes;
    LooseBits();
    LoosePadding();
    OneGroup("QR==");
    OneGroup("=AAA");
    EncodeOne(65);
    EncodeThree([0, 0, 0]);
  }

  lemma LooseBits()
    ensures GroupOk("QR==", true) && GroupBytes("QR==") == [65]
  {
    hide SymbolValue, Padding, Byte0, Byte1, Byte2;
    ValuesOfLetters();
    PaddingOfFour("QR==");
    ByteOfSixes(16, 17);
  }

  lemma LoosePadding()
    ensures GroupOk("=AAA", true) && GroupBytes("=AAA") == [0, 0, 0]
  {
    hide SymbolValue, Padding, Byte0, Byte1, Byte2;
    ValuesOfLetters();
    PaddingOfFour("=AAA");
    ByteOfSixes(0, 0);
  }

  lemma ValuesOfLetters()
    ensures SymbolValue('A') == 0 && SymbolValue('Q') == 16 && SymbolValue('R') == 17
  {
  }

  lemma OneGroup(g: string)
    requires |g| == 4 && GroupOk(g, true) && forall i | 0 <= i < 4 :: !IsSpace(g[i])
    ensures Decode(g) == Some(GroupBytes(g))
  {
    hide Padding, SymbolValue, GroupBytes;
    CleanKeeps(g);
    assert g[..4] == g && g[4..] == "";
    NoGroups();
    assert GroupBytes(g) + [] == GroupBytes(g);
  }
}
