/** UTF-8: the validity check of the WebSocket layer and the encoder of the XML
    decoder (src/lib/uri.cpp:110-169, src/lib/functionlib.cpp:1233-1261; sections
    3 and 4 of RFC 3629). */
module Utf8 {
  import opened Bytes
  import opened Text

  // ----- the encoding -----

  predicate Scalar(cp: int) {
    0 <= cp <= 0x10FFFF && !(0xD800 <= cp <= 0xDFFF)
  }

  function Follow(x: nat): byte {
    (128 + x % 64) as byte
  }

  /** Section 3 of RFC 3629. */
  function Encode(cp: int): (b: seq<byte>)
    requires Scalar(cp)
    ensures 1 <= |b| <= 4
  {
    if cp <= 0x7F then [cp as byte]
    else if cp <= 0x7FF then [(192 + cp / 64) as byte, Follow(cp)]
    else if cp <= 0xFFFF then [(224 + cp / 4096) as byte, Follow(cp / 64), Follow(cp)]
    else [(240 + cp / 262144) as byte, Follow(cp / 4096), Follow(cp / 64), Follow(cp)]
  }

  predicate AllScalar(cps: seq<int>) {
    forall i | 0 <= i < |cps| :: Scalar(cps[i])
  }

  function EncodeAll(cps: seq<int>): seq<byte>
    requires AllScalar(cps)
  {
    if cps == [] then [] else Encode(cps[0]) + EncodeAll(cps[1..])
  }

  /** `xml_utf8_from_codepoint` */
  function FromCodepoint(cp: nat): seq<byte> {
    if cp == 0 || !Scalar(cp) then [] else Encode(cp)
  }

  // ----- reading one character -----

  datatype Lead = Plain | Multi(trailing: nat, bits: nat) | NoLead

  /** What the first byte announces. */
  function LeadOf(c: byte): Lead {
    if c <= 0x7F then Plain
    else if 192 <= c < 224 then if c == 192 then NoLead else Multi(1, c as int - 192)
    else if 224 <= c < 240 then Multi(2, c as int - 224)
    else if 240 <= c < 248 then Multi(3, c as int - 240)
    else NoLead
  }

  predicate IsFollow(c: byte) {
    128 <= c < 192
  }

  /** The code point of a lead and its following bytes. */
  function Gather(bits: nat, b: seq<byte>): nat
    requires forall i | 0 <= i < |b| :: IsFollow(b[i])
  {
    if b == [] then bits else Gather(bits, b[..|b| - 1]) * 64 + b[|b| - 1] as int % 64
  }

  /** Neither overlong, nor a surrogate, nor out of range. */
  predicate Fits(trailing: nat, cp: nat) {
    && (trailing == 1 ==> cp >= 0x80) && (trailing == 2 ==> cp >= 0x800) && (trailing == 3 ==> cp >= 0x10000)
    && Scalar(cp)
  }

  /** Length of the character at the front; None if there is no valid one. */
  function UnitLength(b: seq<byte>): (n: Option<nat>)
    requires b != []
    ensures n.Some? ==> 1 <= n.value <= |b|
  {
    match LeadOf(b[0])
    case Plain => Some(1)
    case NoLead => None
    case Multi(t, bits) =>
      if t >= |b| || exists i | 1 <= i <= t :: !IsFollow(b[i]) then None
      else if Fits(t, Gather(bits, b[1..t + 1])) then Some(t + 1)
      else None
  }

  predicate Valid(b: seq<byte>) {
    if b == [] then true
    else match UnitLength(b)
      case None => false
      case Some(n) => Valid(b[n..])
  }

  // ----- the check as a loop -----

  method GatherFollowing(rest: seq<byte>, trailing: nat, bits: nat) returns (follows: bool, cp: nat)
    requires trailing < |rest|
    ensures follows == forall k | 1 <= k <= trailing :: IsFollow(rest[k])
    ensures follows ==> cp == Gather(bits, rest[1..trailing + 1])
  {
    cp := bits;
    var j := 1;
    while j <= trailing
      invariant 1 <= j <= trailing + 1
      invariant forall k | 1 <= k < j :: IsFollow(rest[k])
      invariant cp == Gather(bits, rest[1..j])
    {
      if !IsFollow(rest[j]) { return false, cp; }
      assert rest[1..j + 1][..j - 1] == rest[1..j];
      cp := cp * 64 + rest[j] as int % 64;
      j := j + 1;
    }
    return true, cp;
  }

  /** `ws_is_valid_utf8` */
  method IsValidUtf8(input: seq<byte>) returns (ok: bool)
    ensures ok == Valid(input)
  {
    var i := 0;
    while i < |input|
      invariant i <= |input| && Valid(input) == Valid(input[i..])
    {
      var rest := input[i..];
      var lead := LeadOf(input[i]);
      match lead {
        case Plain =>
          assert rest[1..] == input[i + 1..];
          i := i + 1;
        case NoLead => return false;
        case Multi(trailing, bits) =>
          if i + trailing >= |input| { return false; }
          var follows, cp := GatherFollowing(rest, trailing, bits);
          if !follows { return false; }
          if !Fits(trailing, cp) { return false; }
          assert rest[trailing + 1..] == input[i + trailing + 1..];
          i := i + trailing + 1;
      }
    }
    return true;
  }

  // ----- the check accepts exactly the encodings -----

  lemma UnitIsEncoding(b: seq<byte>)
    requires b != [] && UnitLength(b).Some?
    ensures exists cp | Scalar(cp) :: b[..UnitLength(b).value] == Encode(cp)
  {
    hide Encode;
    match LeadOf(b[0])
    case Plain =>
      EncodeOne(b[0]);
      assert b[..1] == [b[0]];
    case Multi(t, bits) =>
      var cp := Gather(bits, b[1..t + 1]);
      if t == 1 {
        GatherOne(bits, b[1..2]);
        EncodeTwo(b[0], b[1]);
        assert b[..2] == [b[0], b[1]];
      } else if t == 2 {
        GatherTwo(bits, b[1..3]);
        EncodeThree(b[0], b[1], b[2]);
        assert b[..3] == [b[0], b[1], b[2]];
      } else {
        GatherThree(bits, b[1..4]);
        EncodeFour(b[0], b[1], b[2], b[3]);
        assert b[..4] == [b[0], b[1], b[2], b[3]];
      }
  }

  lemma EncodeOne(x: byte)
    requires x <= 0x7F
    ensures Scalar(x as int) && Encode(x as int) == [x]
  {
  }

  lemma EncodeTwo(x: byte, y: byte)
    requires 192 <= x < 224 && IsFollow(y)
    ensures var cp := (x as int - 192) * 64 + (y as int - 128);
      Fits(1, cp) ==> Encode(cp) == [x, y]
  {
  }

  lemma EncodeThree(x: byte, y: byte, z: byte)
    requires 224 <= x < 240 && IsFollow(y) && IsFollow(z)
    ensures var cp := (x as int - 224) * 4096 + (y as int - 128) * 64 + (z as int - 128);
      Fits(2, cp) ==> Encode(cp) == [x, y, z]
  {
    var h := (x as int - 224) * 64 + (y as int - 128);
    var cp := h * 64 + (z as int - 128);
    assert cp / 64 == h && cp % 64 == z as int - 128;
    assert h / 64 == x as int - 224 && h % 64 == y as int - 128;
    assert cp / 4096 == h / 64;
  }

  lemma EncodeFour(w: byte, x: byte, y: byte, z: byte)
    requires 240 <= w < 248 && IsFollow(x) && IsFollow(y) && IsFollow(z)
    ensures var cp := (w as int - 240) * 262144 + (x as int - 128) * 4096 + (y as int - 128) * 64 + (z as int - 128);
      Fits(3, cp) ==> Encode(cp) == [w, x, y, z]
  {
    var g := (w as int - 240) * 64 + (x as int - 128);
    var h := g * 64 + (y as int - 128);
    var cp := h * 64 + (z as int - 128);
    assert cp / 64 == h && cp % 64 == z as int - 128;
    assert h / 64 == g && h % 64 == y as int - 128;
    assert g / 64 == w as int - 240 && g % 64 == x as int - 128;
    assert cp / 4096 == h / 64 && cp / 262144 == h / 4096 && h / 4096 == g / 64;
  }

  lemma GatherOne(bits: nat, b: seq<byte>)
    requires |b| == 1 && IsFollow(b[0])
    ensures Gather(bits, b) == bits * 64 + (b[0] as int - 128)
  {
  }

  lemma GatherTwo(bits: nat, b: seq<byte>)
    requires |b| == 2 && IsFollow(b[0]) && IsFollow(b[1])
    ensures Gather(bits, b) == bits * 4096 + (b[0] as int - 128) * 64 + (b[1] as int - 128)
  {
    GatherOne(bits, b[..1]);
  }

  lemma GatherThree(bits: nat, b: seq<byte>)
    requires |b| == 3 && IsFollow(b[0]) && IsFollow(b[1]) && IsFollow(b[2])
    ensures Gather(bits,
        b) == bits * 262144 + (b[0] as int - 128) * 4096 + (b[1] as int - 128) * 64 + (b[2] as int - 128)
  {
    GatherTwo(bits, b[..2]);
  }

  lemma EncodingIsUnit(cp: int, rest: seq<byte>)
    requires Scalar(cp)
    ensures UnitLength(Encode(cp) + rest) == Some(|Encode(cp)|)
  {
    var e := Encode(cp);
    var b := e + rest;
    if |e| == 1 {
    } else if |e| == 2 {
      TwoIsUnit(cp, b);
    } else if |e| == 3 {
      ThreeIsUnit(cp, b);
    } else {
      FourIsUnit(cp, b);
    }
  }

  lemma TwoIsUnit(cp: int, b: seq<byte>)
    requires 0x80 <= cp <= 0x7FF && |b| >= 2 && b[0] == (192 + cp / 64) as byte && b[1] == Follow(cp)
    ensures UnitLength(b) == Some(2)
  {
    GatherOne(cp / 64, b[1..2]);
  }

  lemma ThreeIsUnit(cp: int, b: seq<byte>)
    requires 0x800 <= cp <= 0xFFFF && Scalar(cp)
    requires |b| >= 3 && b[0] == (224 + cp / 4096) as byte && b[1] == Follow(cp / 64) && b[2] == Follow(cp)
    ensures UnitLength(b) == Some(3)
  {
    GatherTwo(cp / 4096, b[1..3]);
    assert cp / 4096 == cp / 64 / 64;
  }

  lemma FourIsUnit(cp: int, b: seq<byte>)
    requires 0x10000 <= cp <= 0x10FFFF
    requires |b| >= 4 && b[0] == (240 + cp / 262144) as byte
    requires b[1] == Follow(cp / 4096) && b[2] == Follow(cp / 64) && b[3] == Follow(cp)
    ensures UnitLength(b) == Some(4)
  {
    GatherThree(cp / 262144, b[1..4]);
    assert cp / 4096 == cp / 64 / 64 && cp / 262144 == cp / 64 / 64 / 64;
  }

  lemma {:induction false} EncodingsAreValid(cps: seq<int>)
    requires AllScalar(cps)
    ensures Valid(EncodeAll(cps))
  {
    if cps != [] {
      var rest := EncodeAll(cps[1..]);
      EncodingIsUnit(cps[0], rest);
      assert EncodeAll(cps)[|Encode(cps[0])|..] == rest;
      EncodingsAreValid(cps[1..]);
    }
  }

  lemma FirstUnit(b: seq<byte>) returns (n: nat, cp: int)
    requires b != [] && Valid(b)
    ensures 0 < n <= |b| && Scalar(cp) && b[..n] == Encode(cp) && Valid(b[n..])
  {
    hide UnitLength, Encode, Scalar;
    UnitIsEncoding(b);
    n := UnitLength(b).value;
    cp :| Scalar(cp) && b[..n] == Encode(cp);
  }

  lemma OneMore(cp: int, rest: seq<int>)
    requires Scalar(cp) && AllScalar(rest)
    ensures AllScalar([cp] + rest) && EncodeAll([cp] + rest) == Encode(cp) + EncodeAll(rest)
  {
    hide Scalar, Encode;
    assert ([cp] + rest)[1..] == rest;
  }

  lemma {:induction false} ValidIsEncoding(b: seq<byte>) returns (cps: seq<int>)
    requires Valid(b)
    ensures AllScalar(cps) && EncodeAll(cps) == b
  {
    if b == [] {
      cps := [];
    } else {
      hide Valid, Encode, Scalar, AllScalar, EncodeAll;
      var n, cp := FirstUnit(b);
      var rest := ValidIsEncoding(b[n..]);
      cps := [cp] + rest;
      OneMore(cp, rest);
      assert b == b[..n] + b[n..];
    }
  }

  /** Accepted are exactly the concatenations of encodings of scalar values. */
  lemma ValidIff(b: seq<byte>)
    ensures Valid(b) <==> exists cps | AllScalar(cps) :: EncodeAll(cps) == b
  {
    if Valid(b) {
      var cps := ValidIsEncoding(b);
    }
    forall cps | AllScalar(cps) && EncodeAll(cps) == b ensures Valid(b) {
      EncodingsAreValid(cps);
    }
  }

  /** The code point, read back from its bytes. */
  lemma EncodeParts(cp: int)
    requires Scalar(cp)
    ensures var e := Encode(cp);
      && (|e| == 1 ==> cp == e[0] as int)
      && (|e| == 2 ==> cp == (e[0] as int - 192) * 64 + (e[1] as int - 128))
      && (|e| == 3 ==> cp == (e[0] as int - 224) * 4096 + (e[1] as int - 128) * 64 + (e[2] as int - 128))
      && (|e| == 4 ==>
            cp == (e[0] as int - 240) * 262144 + (e[1] as int - 128) * 4096 + (e[2] as int - 128) * 64
                  + (e[3] as int - 128))
  {
    var h := cp / 64;
    var g := h / 64;
    assert cp / 4096 == g && cp / 262144 == g / 64;
  }

  lemma EncodeInjective(a: int, c: int)
    requires Scalar(a) && Scalar(c) && Encode(a) == Encode(c)
    ensures a == c
  {
    hide Encode;
    EncodeParts(a);
    EncodeParts(c);
  }

  /** The concatenation is unique. */
  lemma {:induction false} EncodeAllInjective(a: seq<int>, c: seq<int>)
    requires AllScalar(a) && AllScalar(c) && EncodeAll(a) == EncodeAll(c)
    ensures a == c
  {
    if a != [] && c != [] {
      var ra, rc := EncodeAll(a[1..]), EncodeAll(c[1..]);
      EncodingIsUnit(a[0], ra);
      EncodingIsUnit(c[0], rc);
      var n := |Encode(a[0])|;
      assert (Encode(a[0]) + ra)[..n] == Encode(a[0]) && (Encode(c[0]) + rc)[..n] == Encode(c[0]);
      EncodeInjective(a[0], c[0]);
      assert (Encode(a[0]) + ra)[n..] == ra && (Encode(c[0]) + rc)[n..] == rc;
      EncodeAllInjective(a[1..], c[1..]);
      assert a == [a[0]] + a[1..] && c == [c[0]] + c[1..];
    }
  }

  // ----- what the XML decoder writes -----

  function FromCodepoints(cps: seq<nat>): seq<byte> {
    if cps == [] then [] else FromCodepoint(cps[0]) + FromCodepoints(cps[1..])
  }

  lemma {:induction false} FromCodepointsIsEncode(cps: seq<nat>)
    requires forall i | 0 <= i < |cps| :: cps[i] != 0 && Scalar(cps[i])
    ensures AllScalar(cps) && FromCodepoints(cps) == EncodeAll(cps)
  {
    if cps != [] { FromCodepointsIsEncode(cps[1..]); }
  }

  lemma {:induction false} NoZeroByte(cps: seq<int>)
    requires AllScalar(cps)
    ensures 0 in EncodeAll(cps) <==> 0 in cps
  {
    if cps != [] {
      NoZeroByte(cps[1..]);
      assert 0 in Encode(cps[0]) <==> cps[0] == 0;
      assert cps == [cps[0]] + cps[1..];
    }
  }

  /** Every accepted string without a NUL byte is the concatenation of what the
      encoder writes for one sequence of code points, and for no other. */
  lemma NulFreeIsWrittenOnce(b: seq<byte>) returns (cps: seq<nat>)
    requires Valid(b) && 0 !in b
    ensures (forall i | 0 <= i < |cps| :: cps[i] != 0 && Scalar(cps[i])) && FromCodepoints(cps) == b
    ensures forall other: seq<nat> | (forall i | 0 <= i < |other| :: other[i] != 0 && Scalar(other[i]))
        && FromCodepoints(other) == b :: other == cps
  {
    var found := ValidIsEncoding(b);
    NoZeroByte(found);
    cps := found;
    FromCodepointsIsEncode(cps);
    forall other: seq<nat> | (forall i | 0 <= i < |other| :: other[i] != 0 && Scalar(other[i]))
        && FromCodepoints(other) == b
      ensures other == cps
    {
      FromCodepointsIsEncode(other);
      EncodeAllInjective(other, cps);
    }
  }
}
