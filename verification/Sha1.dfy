/** SHA-1 as section 6.1 of RFC 3174 defines it, on the padding of section 4. */
module Sha1Spec {
  type word = bv32

  datatype Five = Five(a: word, b: word, c: word, d: word, e: word)

  const INITIAL := Five(0x67452301, 0xEFCDAB89, 0x98BADCFE, 0x10325476, 0xC3D2E1F0)

  // The circular left shifts S^1, S^5 and S^30.
  function Rol1(x: word): word { (x << 1) | (x >> 31) }
  function Rol5(x: word): word { (x << 5) | (x >> 27) }
  function Rol30(x: word): word { (x << 30) | (x >> 2) }

  function Choice(b: word, c: word, d: word): word { (b & c) | (!b & d) }
  function Parity(b: word, c: word, d: word): word { b ^ c ^ d }
  function Majority(b: word, c: word, d: word): word { (b & c) | (b & d) | (c & d) }

  function F(t: nat, b: word, c: word, d: word): word {
    if t < 20 then Choice(b, c, d)
    else if t < 40 then Parity(b, c, d)
    else if t < 60 then Majority(b, c, d)
    else Parity(b, c, d)
  }

  function K(t: nat): word {
    if t < 20 then 0x5A827999 else if t < 40 then 0x6ED9EBA1 else if t < 60 then 0x8F1BBCDC else 0xCA62C1D6
  }

  /** Four octets, most significant first. */
  function BigWord(b: seq<bv8>): word
    requires |b| == 4
  {
    ((b[0] as word) << 24) | ((b[1] as word) << 16) | ((b[2] as word) << 8) | (b[3] as word)
  }

  /** The 80-word schedule of a 64-octet block. */
  function W(block: seq<bv8>, t: nat): word
    requires |block| == 64
  {
    if t < 16 then BigWord(block[4 * t..4 * t + 4])
    else Rol1(W(block, t - 3) ^ W(block, t - 8) ^ W(block, t - 14) ^ W(block, t - 16))
  }

  function Total(x: word, f: word, e: word, w: word, k: word): word {
    x + f + e + w + k
  }

  function Step(s: Five, t: nat, w: word): Five {
    Five(Total(Rol5(s.a), F(t, s.b, s.c, s.d), s.e, w, K(t)), s.a, Rol30(s.b), s.c, s.d)
  }

  function Rounds(h: Five, block: seq<bv8>, t: nat): Five
    requires |block| == 64
  {
    if t == 0 then h else Step(Rounds(h, block, t - 1), t - 1, W(block, t - 1))
  }

  function Sum(x: Five, y: Five): Five {
    Five(x.a + y.a, x.b + y.b, x.c + y.c, x.d + y.d, x.e + y.e)
  }

  function Compress(h: Five, block: seq<bv8>): Five
    requires |block| == 64
  {
    Sum(h, Rounds(h, block, 80))
  }

  /** All blocks of `m`, in order. */
  function HashBlocks(m: seq<bv8>): Five
    requires |m| % 64 == 0
  {
    if m == [] then INITIAL else Compress(HashBlocks(m[..|m| - 64]), m[|m| - 64..])
  }

  function Zeros(n: nat): seq<bv8> {
    seq(n, _ => 0)
  }

  function Octet(n: nat, place: nat): bv8
    requires place > 0 && n / place >= 0
  {
    (n / place % 256) as bv8
  }

  /** A 64-bit number, most significant octet first. */
  function LengthOctets(n: nat): seq<bv8> {
    [Octet(n, 0x100_0000_0000_0000), Octet(n, 0x1_0000_0000_0000), Octet(n, 0x100_0000_0000), Octet(n, 0x1_0000_0000),
     Octet(n, 0x100_0000), Octet(n, 0x1_0000), Octet(n, 0x100), Octet(n, 1)]
  }

  lemma PadLength(n: nat)
    ensures (n + 1 + (55 - n) % 64 + 8) % 64 == 0
  {
    var q := (55 - n) / 64;
    assert n + 1 + (55 - n) % 64 + 8 == 64 * (1 - q);
  }

  /** Section 4: a one bit, zeros, and the length of the message in bits. */
  function Pad(m: seq<bv8>): (p: seq<bv8>)
    ensures |p| % 64 == 0
  {
    PadLength(|m|);
    m + [0x80] + Zeros((55 - |m|) % 64) + LengthOctets(8 * |m|)
  }

  function WordOctets(w: word): seq<bv8> {
    [((w >> 24) & 0xFF) as bv8, ((w >> 16) & 0xFF) as bv8, ((w >> 8) & 0xFF) as bv8, (w & 0xFF) as bv8]
  }

  function Octets(h: Five): seq<bv8> {
    WordOctets(h.a) + WordOctets(h.b) + WordOctets(h.c) + WordOctets(h.d) + WordOctets(h.e)
  }

  function Sha1(m: seq<bv8>): seq<bv8> {
    Octets(HashBlocks(Pad(m)))
  }
}

/** The source's SHA-1 (src/lib/hash.cpp:89-275): sixteen words used in a circle,
    working variables that trade places, a two-word bit counter, and a message
    that may come in pieces. */
module Sha1Code {
  import opened Sha1Spec
  import opened Arith

  const MAX_U32 := 0x1_0000_0000

  // ----- one block -----

  /** What a little-endian machine finds in four octets of memory. */
  function LittleWord(b: seq<bv8>): word
    requires |b| == 4
  {
    ((b[3] as word) << 24) | ((b[2] as word) << 16) | ((b[1] as word) << 8) | (b[0] as word)
  }

  function Rol24(x: word): word { (x << 24) | (x >> 8) }
  function Rol8(x: word): word { (x << 8) | (x >> 24) }

  /** The byte swap of `blk0`. */
  function Swapped(x: word): word {
    (Rol24(x) & 0xFF00FF00) | (Rol8(x) & 0x00FF00FF)
  }

  lemma SwapLoads(b: seq<bv8>)
    requires |b| == 4
    ensures Swapped(LittleWord(b)) == BigWord(b)
  {
    SwapFour(b[0], b[1], b[2], b[3]);
  }

  lemma SwapFour(a: bv8, b: bv8, c: bv8, d: bv8)
    ensures Swapped(((d as word) << 24) | ((c as word) << 16) | ((b as word) << 8) | (a as word))
      == ((a as word) << 24) | ((b as word) << 16) | ((c as word) << 8) | (d as word)
  {
  }

  // The mixing functions as the macros R0 to R4 write them.
  function CodeChoice(w: word, x: word, y: word): word { (w & (x ^ y)) ^ y }
  function CodeMajority(w: word, x: word, y: word): word { ((w | x) & y) | (w & x) }

  function Mixed(t: nat, w: word, x: word, y: word): word {
    if t < 20 then CodeChoice(w, x, y)
    else if t < 40 then Parity(w, x, y)
    else if t < 60 then CodeMajority(w, x, y)
    else Parity(w, x, y)
  }

  lemma ChoiceAgrees(w: word, x: word, y: word)
    ensures CodeChoice(w, x, y) == Choice(w, x, y)
  {
    ChoiceBits(w, x, y);
  }

  lemma ChoiceBits(w: bv32, x: bv32, y: bv32)
    ensures (w & x) | (!w & y) == (w & (x ^ y)) ^ y
  {
  }

  lemma MajorityAgrees(w: word, x: word, y: word)
    ensures CodeMajority(w, x, y) == Majority(w, x, y)
  {
    MajorityBits(w, x, y);
  }

  lemma MajorityBits(w: bv32, x: bv32, y: bv32)
    ensures ((w | x) & y) | (w & x) == (w & x) | (w & y) | (x & y)
  {
  }

  lemma MixedIsF(t: nat, w: word, x: word, y: word)
    ensures Mixed(t, w, x, y) == F(t, w, x, y)
  {
    hide CodeChoice, Choice, CodeMajority, Majority, Parity;
    ChoiceAgrees(w, x, y);
    MajorityAgrees(w, x, y);
  }

  function Added(z: word, mixed: word, blk: word, k: word, rolled: word): word {
    z + (mixed + blk + k + rolled)
  }

  function NextZ(t: nat, v: word, w: word, x: word, y: word, z: word, blk: word): word {
    Added(z, Mixed(t, w, x, y), blk, K(t), Rol5(v))
  }

  lemma NextZIsStep(t: nat, s: Five, blk: word)
    ensures Step(s, t, blk) == Five(NextZ(t, s.a, s.b, s.c, s.d, s.e, blk), s.a, Rol30(s.b), s.c, s.d)
  {
    hide Mixed, F, K, Rol5, Rol30, Added, Total;
    MixedIsF(t, s.b, s.c, s.d);
    AnyOrder(s.e, F(t, s.b, s.c, s.d), blk, K(t), Rol5(s.a));
  }

  lemma AnyOrder(z: word, m: word, b: word, k: word, r: word)
    ensures Added(z, m, b, k, r) == Total(r, m, z, b, k)
  {
    AnyOrderBits(z, m, b, k, r);
  }

  lemma AnyOrderBits(z: bv32, m: bv32, b: bv32, k: bv32, r: bv32)
    ensures z + (m + b + k + r) == r + m + z + b + k
  {
  }

  // ----- the circle of sixteen words -----

  /** Before step `t` the circle holds the last sixteen words of the schedule;
      places not reached yet still hold raw memory. */
  ghost predicate Circle(ring: seq<word>, block: seq<bv8>, t: nat)
    requires |block| == 64
  {
    && |ring| == 16
    && (forall k | t <= k < 16 :: ring[k] == LittleWord(block[4 * k..4 * k + 4]))
    && (forall k | 0 <= k < t && t - 16 <= k :: ring[k % 16] == W(block, k))
  }

  /** What step `t` writes at its place in the circle. */
  function NextWord(ring: seq<word>, t: nat): word
    requires |ring| == 16
  {
    if t < 16 then Swapped(ring[t])
    else Rol1(ring[(t + 13) % 16] ^ ring[(t + 8) % 16] ^ ring[(t + 2) % 16] ^ ring[t % 16])
  }

  lemma SamePlace(k: int, t: int)
    requires t - 16 < k < t
    ensures k % 16 != t % 16
  {
  }

  lemma NextWordIsW(ring: seq<word>, block: seq<bv8>, t: nat)
    requires |block| == 64 && Circle(ring, block, t)
    ensures NextWord(ring, t) == W(block, t)
  {
    hide Swapped, BigWord, LittleWord, Rol1;
    if t < 16 {
      SwapLoads(block[4 * t..4 * t + 4]);
    } else {
      assert (t + 13) % 16 == (t - 3) % 16 && (t + 8) % 16 == (t - 8) % 16 && (t + 2) % 16 == (t - 14) % 16
          && t % 16 == (t - 16) % 16;
      assert ring[(t - 3) % 16] == W(block, t - 3);
      assert ring[(t - 8) % 16] == W(block, t - 8);
      assert ring[(t - 14) % 16] == W(block, t - 14);
      assert ring[(t - 16) % 16] == W(block, t - 16);
    }
  }

  lemma CircleTurns(ring: seq<word>, block: seq<bv8>, t: nat)
    requires |block| == 64 && Circle(ring, block, t)
    ensures Circle(ring[t % 16 := NextWord(ring, t)], block, t + 1)
  {
    hide W, NextWord, LittleWord;
    NextWordIsW(ring, block, t);
    var next := ring[t % 16 := NextWord(ring, t)];
    forall k | 0 <= k < t + 1 && t + 1 - 16 <= k ensures next[k % 16] == W(block, k) {
      if k < t { SamePlace(k, t); }
    }
  }

  // ----- SHA1Transform -----

  /** `blk0` and `blk`: the word of step `t`, written back into the circle. */
  method TakeWord(ring: array<word>, t: nat, ghost block: seq<bv8>) returns (w: word)
    requires |block| == 64 && Circle(ring[..], block, t)
    modifies ring
    ensures Circle(ring[..], block, t + 1) && w == W(block, t)
  {
    hide NextWord, Circle, W;
    assert ring.Length == 16 by { CircleLength(ring[..], block, t); }
    NextWordIsW(ring[..], block, t);
    CircleTurns(ring[..], block, t);
    ghost var before := ring[..];
    w := NextWordOf(ring, t);
    ring[t % 16] := w;
    assert ring[..] == before[t % 16 := w];
  }

  lemma CircleLength(ring: seq<word>, block: seq<bv8>, t: nat)
    requires |block| == 64 && Circle(ring, block, t)
    ensures |ring| == 16
  {
  }

  method NextWordOf(ring: array<word>, t: nat) returns (w: word)
    requires ring.Length == 16
    ensures w == NextWord(ring[..], t)
  {
    hide Rol1, Swapped;
    if t < 16 {
      w := Swapped(ring[t]);
    } else {
      w := Rol1(ring[(t + 13) % 16] ^ ring[(t + 8) % 16] ^ ring[(t + 2) % 16] ^ ring[t % 16]);
    }
  }

  /** One use of a macro R0 to R4: `z` takes the sum and `w` is rotated. */
  method Round(ring: array<word>, t: nat, v: word, w0: word, x: word, y: word, z0: word, ghost h: Five,
      ghost block: seq<bv8>)
    returns (w: word, z: word)
    requires |block| == 64 && Circle(ring[..], block, t) && Rounds(h, block, t) == Five(v, w0, x, y, z0)
    modifies ring
    ensures Circle(ring[..], block, t + 1) && Rounds(h, block, t + 1) == Five(z, v, w, x, y)
  {
    hide Circle, W, NextZ, Rol30, Step;
    var blk := TakeWord(ring, t, block);
    NextZIsStep(t, Five(v, w0, x, y, z0), blk);
    z := NextZ(t, v, w0, x, y, z0, blk);
    w := Rol30(w0);
  }

  /** The copy of the block into words of memory. */
  method LoadWords(block: seq<bv8>) returns (ring: array<word>)
    requires |block| == 64
    ensures fresh(ring) && Circle(ring[..], block, 0)
  {
    hide LittleWord;
    ring := new word[16];
    var i := 0;
    while i < 16
      invariant 0 <= i <= 16
      invariant forall k | 0 <= k < i :: ring[k] == LittleWord(block[4 * k..4 * k + 4])
    {
      ring[i] := LittleWord(block[4 * i..4 * i + 4]);
      i := i + 1;
    }
    CircleStarts(ring[..], block);
  }

  /** Five uses, after which every variable is back in its place. */
  method FiveRounds(ring: array<word>, t: nat, s: Five, ghost h: Five, ghost block: seq<bv8>) returns (r: Five)
    requires |block| == 64 && Circle(ring[..], block, t) && Rounds(h, block, t) == s
    modifies ring
    ensures Circle(ring[..], block, t + 5) && Rounds(h, block, t + 5) == r
  {
    hide Circle, Rounds, W;
    var a, b, c, d, e := s.a, s.b, s.c, s.d, s.e;
    b, e := Round(ring, t, a, b, c, d, e, h, block);
    a, d := Round(ring, t + 1, e, a, b, c, d, h, block);
    e, c := Round(ring, t + 2, d, e, a, b, c, h, block);
    d, b := Round(ring, t + 3, c, d, e, a, b, h, block);
    c, a := Round(ring, t + 4, b, c, d, e, a, h, block);
    r := Five(a, b, c, d, e);
  }

  /** `SHA1Transform` */
  method Transform(state: Five, block: seq<bv8>) returns (r: Five)
    requires |block| == 64
    ensures r == Compress(state, block)
  {
    hide Circle, Rounds, Sum;
    var ring := LoadWords(block);
    RoundsStart(state, block);
    var s := state;
    var t := 0;
    while t < 80
      invariant t % 5 == 0 && t <= 80 && fresh(ring)
      invariant Circle(ring[..], block, t) && Rounds(state, block, t) == s
    {
      s := FiveRounds(ring, t, s, state, block);
      t := t + 5;
    }
    r := Sum(state, s);
  }

  lemma CircleStarts(ring: seq<word>, block: seq<bv8>)
    requires |block| == 64 && |ring| == 16
    requires forall i | 0 <= i < 16 :: ring[i] == LittleWord(block[4 * i..4 * i + 4])
    ensures Circle(ring, block, 0)
  {
  }

  lemma RoundsStart(h: Five, block: seq<bv8>)
    requires |block| == 64
    ensures Rounds(h, block, 0) == h
  {
  }

  // ----- the bit counter -----

  /** The two words are the low and high half of the bit length. */
  predicate Counts(count0: nat, count1: nat, octets: nat) {
    count0 == 8 * octets % MAX_U32 && count1 == 8 * octets / MAX_U32 % MAX_U32
  }

  /** The carry is noticed as a sum that came out smaller. */
  lemma CountAdds(count0: nat, count1: nat, octets: nat, len: nat)
    requires Counts(count0, count1, octets) && len < MAX_U32
    ensures var low := (count0 + 8 * len % MAX_U32) % MAX_U32;
      var carried := if low < count0 then count1 + 1 else count1;
      Counts(low, (carried + len / 0x2000_0000) % MAX_U32, octets + len)
  {
    var a, b := 8 * octets, 8 * len;
    var x := a % MAX_U32 + b % MAX_U32;
    var carry := if x >= MAX_U32 then 1 else 0;
    DivModUnique(x, carry, x - carry * MAX_U32, MAX_U32);
    AddMultiple(x, a / MAX_U32 + b / MAX_U32, MAX_U32);
    assert a + b == x + (a / MAX_U32 + b / MAX_U32) * MAX_U32;
    var high := a / MAX_U32 + b / MAX_U32 + carry;
    assert (a + b) / MAX_U32 == high;
    assert b / MAX_U32 == len / 0x2000_0000;
    ModTwice(a / MAX_U32, b / MAX_U32 + carry);
  }

  lemma ModTwice(x: nat, y: nat)
    ensures (x % MAX_U32 + y) % MAX_U32 == (x + y) % MAX_U32
  {
    AddMultiple(x % MAX_U32 + y, x / MAX_U32, MAX_U32);
  }

  lemma CountLow(count0: nat, count1: nat, octets: nat)
    requires Counts(count0, count1, octets)
    ensures count0 / 8 % 64 == octets % 64
  {
    var n := octets % 0x2000_0000;
    assert octets == n + octets / 0x2000_0000 * 0x2000_0000;
    DivModUnique(8 * octets, octets / 0x2000_0000, 8 * n, MAX_U32);
    assert count0 == 8 * n;
    AddMultiple(n, octets / 0x2000_0000 * 0x80_0000, 64);
  }

  // ----- a message in pieces -----

  function Whole(m: seq<bv8>): (r: seq<bv8>)
    ensures |r| % 64 == 0
  {
    m[..|m| - |m| % 64]
  }

  function Rest(m: seq<bv8>): seq<bv8> {
    m[|m| - |m| % 64..]
  }

  lemma BlockAdds(x: seq<bv8>, block: seq<bv8>)
    requires |x| % 64 == 0 && |block| == 64
    ensures |x + block| % 64 == 0 && HashBlocks(x + block) == Compress(HashBlocks(x), block)
  {
    hide Compress;
    var y := x + block;
    assert y[..|y| - 64] == x && y[|y| - 64..] == block;
  }

  lemma WholeAndRest(m: seq<bv8>, data: seq<bv8>, i: nat)
    requires i <= |data| && (|m| + i) % 64 == 0 && |data| - i < 64
    ensures Whole(m + data) == m + data[..i] && Rest(m + data) == data[i..]
  {
    var n := |m| + |data|;
    assert n % 64 == |data| - i by {
      AddMultiple(|data| - i, (|m| + i) / 64, 64);
    }
  }

  lemma StillFits(m: seq<bv8>, data: seq<bv8>)
    requires |m| % 64 + |data| < 64
    ensures Whole(m + data) == Whole(m) && Rest(m + data) == Rest(m) + data
  {
    var n := |m| + |data|;
    assert n % 64 == |m| % 64 + |data| by {
      AddMultiple(|m| % 64 + |data|, |m| / 64, 64);
    }
  }

  class Context {
    var state: Five
    var count0: nat
    var count1: nat
    const buffer: array<bv8>

    /** The context after `m`, in however many pieces it came. */
    ghost predicate Holds(m: seq<bv8>)
      reads this, buffer
    {
      && buffer.Length == 64
      && state == HashBlocks(Whole(m)) && Counts(count0, count1, |m|)
      && buffer[..|m| % 64] == Rest(m)
    }

    /** `SHA1Init` */
    constructor ()
      ensures Holds([]) && fresh(buffer)
    {
      state := INITIAL;
      count0, count1 := 0, 0;
      buffer := new bv8[64];
      new;
      assert buffer[..0] == [];
    }

    method Count(len: nat, ghost octets: nat)
      requires len < MAX_U32 && Counts(count0, count1, octets)
      modifies this`count0, this`count1
      ensures Counts(count0, count1, octets + len)
    {
      hide Counts;
      CountAdds(count0, count1, octets, len);
      var j := count0;
      count0 := (count0 + 8 * len % MAX_U32) % MAX_U32;
      if count0 < j { count1 := count1 + 1; }
      count1 := (count1 + len / 0x2000_0000) % MAX_U32;
    }

    /** `memcpy` into the buffer. */
    method Store(at: nat, data: seq<bv8>)
      requires buffer.Length == 64 && at + |data| <= 64
      modifies buffer
      ensures buffer[..at] == old(buffer[..at]) && buffer[at..at + |data|] == data
    {
      var k := 0;
      while k < |data|
        invariant k <= |data|
        invariant buffer[..at] == old(buffer[..at])
        invariant forall i | 0 <= i < k :: buffer[at + i] == data[i]
      {
        buffer[at + k] := data[k];
        k := k + 1;
      }
    }

    /** `SHA1Update`.  Its indices are 32-bit words: the first test is right as long
        as the new bytes and those in the buffer are fewer than 2^32, and then the
        loop's is. */
    method Update(data: seq<bv8>, ghost m: seq<bv8>)
      requires Holds(m) && |m| % 64 + |data| < MAX_U32
      modifies this, buffer
      ensures Holds(m + data)
    {
      hide Counts, HashBlocks;
      var j := count0 / 8 % 64;
      CountLow(count0, count1, |m|);
      Count(|data|, |m|);
      if (j + |data|) % MAX_U32 > 63 {
        state := Absorb(j, data, m);
        var i := AbsorbBlocks(64 - j, data, m);
        WholeAndRest(m, data, i);
        Store(0, data[i..]);
      } else {
        StillFits(m, data);
        Store(j, data);
        assert buffer[..j + |data|] == buffer[..j] + buffer[j..j + |data|];
      }
    }

    /** Takes whole blocks straight from the data. */
    method AbsorbBlocks(start: nat, data: seq<bv8>, ghost m: seq<bv8>) returns (i: nat)
      requires start <= |data| && |m| % 64 + |data| < MAX_U32
      requires (|m| + start) % 64 == 0 && state == HashBlocks(m + data[..start])
      modifies this`state
      ensures i <= |data| < i + 64 && (|m| + i) % 64 == 0 && state == HashBlocks(m + data[..i])
    {
      hide HashBlocks;
      i := start;
      NoWrap(|m|, i, |data|);
      while (i + 63) % MAX_U32 < |data|
        invariant i + 63 < MAX_U32
        invariant i <= |data| && (|m| + i) % 64 == 0 && state == HashBlocks(m + data[..i])
      {
        BlockAdds(m + data[..i], data[i..i + 64]);
        assert m + data[..i] + data[i..i + 64] == m + data[..i + 64];
        state := Transform(state, data[i..i + 64]);
        i := i + 64;
        NoWrap(|m|, i, |data|);
      }
    }

    /** Completes the block in the buffer. */
    method Absorb(j: nat, data: seq<bv8>, ghost m: seq<bv8>) returns (r: Five)
      requires j == |m| % 64 && j + |data| > 63
      requires buffer.Length == 64 && state == HashBlocks(Whole(m)) && buffer[..j] == Rest(m)
      modifies buffer
      ensures (|m| + 64 - j) % 64 == 0 && r == HashBlocks(m + data[..64 - j])
    {
      hide HashBlocks;
      Store(j, data[..64 - j]);
      assert buffer[..] == buffer[..j] + buffer[j..];
      assert m + data[..64 - j] == Whole(m) + buffer[..];
      BlockAdds(Whole(m), buffer[..]);
      r := Transform(state, buffer[..]);
    }

    /** Zero bytes until eight are left in the block. */
    method PadZeros(ghost m: seq<bv8>)
      requires Holds(m + [0x80])
      modifies this, buffer
      ensures Holds(m + [0x80] + Zeros((55 - |m|) % 64))
    {
      hide HashBlocks, Counts, Whole, Rest;
      ghost var z := (55 - |m|) % 64;
      ghost var k := 0;
      assert m + [0x80] == m + [0x80] + Zeros(0);
      ZerosNeeded(|m|, 0);
      CountLow(count0, count1, |m| + 1);
      while count0 / 8 % 64 != 56
        invariant k <= z && Holds(m + [0x80] + Zeros(k))
        invariant count0 / 8 % 64 == 56 <==> k == z
        decreases z - k
      {
        Update([0], m + [0x80] + Zeros(k));
        OneMoreZero(m + [0x80], k);
        k := k + 1;
        ZerosNeeded(|m|, k);
        CountLow(count0, count1, |m| + 1 + k);
      }
    }

    /** `SHA1Final` */
    method Final(ghost m: seq<bv8>) returns (digest: seq<bv8>)
      requires Holds(m)
      modifies this, buffer
      ensures digest == Sha1(m)
    {
      hide HashBlocks, Octets, Counts, Octet, LengthOctets;
      var finalCount := CountOctets(count0, count1);
      CountOctetsAreLength(count0, count1, |m|);
      Update([0x80], m);
      PadZeros(m);
      Update(finalCount, m + [0x80] + Zeros((55 - |m|) % 64));
      assert Whole(Pad(m)) == Pad(m);
      digest := Octets(state);
    }
  }

  /** From a block boundary the index has room for a block. */
  lemma NoWrap(before: nat, i: nat, length: nat)
    requires (before + i) % 64 == 0 && i <= length && before % 64 + length < MAX_U32
    ensures i + 63 < MAX_U32
  {
  }

  lemma OneMoreZero(m: seq<bv8>, k: nat)
    ensures m + Zeros(k) + [0] == m + Zeros(k + 1)
  {
  }

  lemma ZerosNeeded(n: nat, k: nat)
    requires k <= (55 - n) % 64
    ensures (n + 1 + k) % 64 == 56 <==> k == (55 - n) % 64
  {
    var z, q := (55 - n) % 64, (55 - n) / 64;
    assert n + 1 + k == 56 - (z - k) + -q * 64;
    AddMultiple(56 - (z - k), -q, 64);
  }

  /** The eight bytes of the counter, high word first. */
  function CountOctets(count0: nat, count1: nat): seq<bv8> {
    [Octet(count1, 0x100_0000), Octet(count1, 0x1_0000), Octet(count1, 0x100), Octet(count1, 1),
     Octet(count0, 0x100_0000), Octet(count0, 0x1_0000), Octet(count0, 0x100), Octet(count0, 1)]
  }

  lemma LowOctet(n: nat, place: nat, k: nat)
    requires place > 0 && 256 * k * place == MAX_U32
    ensures n / place >= 0 && n % MAX_U32 / place >= 0
    ensures Octet(n % MAX_U32, place) == Octet(n, place)
  {
    var q, r := n / MAX_U32, n % MAX_U32;
    QuotientNonNegative(n, place);
    QuotientNonNegative(r, place);
    Regroup(q, k, place);
    AddMultiple(r, q * (256 * k), place);
    AddMultiple(r / place, q * k, 256);
    assert q * (256 * k) == q * k * 256;
  }

  lemma Regroup(q: int, k: int, place: int)
    ensures q * (256 * k) * place == q * (256 * k * place)
  {
  }

  lemma HighOctet(n: nat, place: nat)
    requires place > 0
    ensures MAX_U32 * place > 0 && n / (MAX_U32 * place) >= 0 && n / MAX_U32 / place >= 0
    ensures Octet(n / MAX_U32, place) == Octet(n, MAX_U32 * place)
  {
    DivDiv(n, MAX_U32, place);
    QuotientNonNegative(n / MAX_U32, place);
  }

  /** The two words, written out, are the 64-bit length in bits. */
  lemma CountOctetsAreLength(count0: nat, count1: nat, octets: nat)
    requires Counts(count0, count1, octets)
    ensures CountOctets(count0, count1) == LengthOctets(8 * octets)
  {
    var n := 8 * octets;
    var h := n / MAX_U32;
    LowOctet(n, 0x100_0000, 1);
    LowOctet(n, 0x1_0000, 0x100);
    LowOctet(n, 0x100, 0x1_0000);
    LowOctet(n, 1, 0x100_0000);
    LowOctet(h, 0x100_0000, 1);
    LowOctet(h, 0x1_0000, 0x100);
    LowOctet(h, 0x100, 0x1_0000);
    LowOctet(h, 1, 0x100_0000);
    HighOctet(n, 0x100_0000);
    HighOctet(n, 0x1_0000);
    HighOctet(n, 0x100);
    HighOctet(n, 1);
  }

  // ----- gen_sha1 -----

  function HexDigit(d: bv8): char {
    if d < 10 then ('0' as int + d as int) as char else ('A' as int + d as int - 10) as char
  }

  function HexText(b: seq<bv8>): string {
    if b == [] then "" else HexText(b[..|b| - 1]) + [HexDigit(b[|b| - 1] >> 4), HexDigit(b[|b| - 1] & 0x0F)]
  }

  function PlainText(b: seq<bv8>): string {
    seq(|b|, i requires 0 <= i < |b| => b[i] as char)
  }

  method ToHexText(digest: seq<bv8>) returns (result: string)
    ensures result == HexText(digest)
  {
    hide HexDigit;
    result := "";
    var i := 0;
    while i < |digest|
      invariant i <= |digest| && result == HexText(digest[..i])
    {
      assert digest[..i + 1][..i] == digest[..i];
      result := result + [HexDigit(digest[i] >> 4), HexDigit(digest[i] & 0x0F)];
      i := i + 1;
    }
    assert digest[..|digest|] == digest;
  }

  /** `gen_sha1`.  The length is passed on as 32 bits, so a string of 4 GiB or more
      is first cut to its length modulo 2^32; every shorter one gets its SHA-1. */
  method GenSha1(s: seq<bv8>, asBinary: bool) returns (result: string)
    ensures var digest := Sha1(if |s| < MAX_U32 then s else s[..|s| % MAX_U32]);
      result == if asBinary then PlainText(digest) else HexText(digest)
  {
    hide Sha1, HexText;
    var data := s[..|s| % MAX_U32];
    assert |s| < MAX_U32 ==> data == s;
    var context := new Context();
    assert [] + data == data;
    context.Update(data, []);
    var digest := context.Final(data);
    if asBinary {
      result := PlainText(digest);
    } else {
      result := ToHexText(digest);
    }
  }

  function Joined(pieces: seq<seq<bv8>>): seq<bv8> {
    if pieces == [] then [] else Joined(pieces[..|pieces| - 1]) + pieces[|pieces| - 1]
  }

  /** However a message is cut into updates, the digest is that of the message, as
      long as no update wraps the 32-bit index. */
  method DigestOfPieces(pieces: seq<seq<bv8>>) returns (digest: seq<bv8>)
    requires forall i | 0 <= i < |pieces| :: |Joined(pieces[..i])| % 64 + |pieces[i]| < MAX_U32
    ensures digest == Sha1(Joined(pieces))
  {
    hide Sha1;
    var context := new Context();
    var k := 0;
    while k < |pieces|
      invariant k <= |pieces| && fresh(context) && fresh(context.buffer) && context.Holds(Joined(pieces[..k]))
    {
      assert pieces[..k + 1][..k] == pieces[..k];
      context.Update(pieces[k], Joined(pieces[..k]));
      k := k + 1;
    }
    assert pieces[..|pieces|] == pieces;
    digest := context.Final(Joined(pieces));
  }
}
