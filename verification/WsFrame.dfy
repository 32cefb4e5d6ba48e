/** WebSocket frames (src/lib/uri.cpp:870-898, 909-992; sections 5.2, 5.3 and 5.5
    of RFC 6455).  The result of parsing is a function of the buffer; the class
    below is the record that the source fills in place. */
module WsFrame {
  import opened Bytes
  import opened Arith
  import opened Bits

  const MAX_U64 := 0x1_0000_0000_0000_0000

  // ----- network byte order -----

  function Power(k: nat): (p: nat)
    ensures p > 0
  {
    if k == 0 then 1 else 256 * Power(k - 1)
  }

  /** The low `k` bytes of `n`, most significant first. */
  function BigEndian(n: nat, k: nat): (b: seq<byte>)
    ensures |b| == k
  {
    if k == 0 then [] else BigEndian(n / 256, k - 1) + [(n % 256) as byte]
  }

  function BigValue(b: seq<byte>): nat {
    if b == [] then 0 else BigValue(b[..|b| - 1]) * 256 + b[|b| - 1] as int
  }

  lemma {:induction false} ValueOfBigEndian(n: nat, k: nat)
    requires n < Power(k)
    ensures BigValue(BigEndian(n, k)) == n
  {
    if k > 0 {
      ValueOfBigEndian(n / 256, k - 1);
      assert BigEndian(n, k)[..k - 1] == BigEndian(n / 256, k - 1);
    }
  }

  lemma {:induction false} BigEndianOfValue(b: seq<byte>)
    ensures BigValue(b) < Power(|b|) && BigEndian(BigValue(b), |b|) == b
  {
    if b != [] {
      var front := b[..|b| - 1];
      BigEndianOfValue(front);
      AddMultiple(b[|b| - 1] as int, BigValue(front), 256);
      assert b == front + [b[|b| - 1]];
    }
  }

  lemma {:induction false} TopByte(b: seq<byte>)
    requires b != []
    ensures BigValue(b) / Power(|b| - 1) == b[0] as int
  {
    if |b| > 1 {
      var front, p := b[..|b| - 1], Power(|b| - 2);
      TopByte(front);
      AddMultiple(b[|b| - 1] as int, BigValue(front), 256);
      DivDiv(BigValue(b), 256, p);
    }
  }

  lemma TopBitOfEight(b: seq<byte>)
    requires |b| == 8
    ensures b[0] >= 128 <==> BigValue(b) >= 0x8000_0000_0000_0000
  {
    TopByte(b);
    PowerSeven();
    BigEndianOfValue(b);
  }

  lemma PowerSeven()
    ensures Power(7) == 0x100_0000_0000_0000 && Power(8) == MAX_U64 && Power(2) == 0x10000
  {
    assert Power(2) == 0x10000;
    assert Power(4) == 0x1_0000_0000 by { assert Power(3) == 0x100_0000; }
    assert Power(6) == 0x1_0000_0000_0000 by { assert Power(5) == 0x100_0000_0000; }
    assert Power(8) == 256 * Power(7);
  }

  // ----- masking -----

  function Mask(a: byte, b: byte): byte {
    XorFits(a as nat, b as nat, 8);
    EightBits();
    Xor(a as nat, b as nat) as byte
  }

  lemma EightBits()
    ensures TwoTo(8) == 256
  {
    assert TwoTo(4) == 16;
  }

  lemma MaskInverts(a: byte, b: byte)
    ensures Mask(Mask(a, b), b) == a
  {
    XorCancels(a as nat, b as nat);
  }

  /** Section 5.3: octet i is combined with octet i modulo 4 of the key. */
  function Masked(payload: seq<byte>, key: seq<byte>): (m: seq<byte>)
    requires |key| == 4
    ensures |m| == |payload|
  {
    seq(|payload|, i requires 0 <= i < |payload| => Mask(payload[i], key[i % 4]))
  }

  lemma MaskTwice(payload: seq<byte>, key: seq<byte>)
    requires |key| == 4
    ensures Masked(Masked(payload, key), key) == payload
  {
    forall i | 0 <= i < |payload| ensures Masked(Masked(payload, key), key)[i] == payload[i] {
      MaskInverts(payload[i], key[i % 4]);
    }
  }

  // ----- encoding -----

  function FirstByte(opcode: byte, final: bool): byte {
    (opcode as int % 16 + if final then 128 else 0) as byte
  }

  /** The length field, with `flag` (the mask bit) in front. */
  function LengthField(n: nat, flag: bool): seq<byte> {
    var top := if flag then 128 else 0;
    if n <= 125 then [(top + n) as byte]
    else if n <= 0xFFFF then [(top + 126) as byte] + BigEndian(n, 2)
    else [(top + 127) as byte] + BigEndian(n, 8)
  }

  /** `ws_encode_frame` */
  function Encode(payload: seq<byte>, opcode: byte, final: bool): seq<byte> {
    [FirstByte(opcode, final)] + LengthField(|payload|, false) + payload
  }

  /** The frame a client sends: section 5.2 with the mask bit and a key. */
  function EncodeMasked(payload: seq<byte>, opcode: byte, final: bool, key: seq<byte>): seq<byte>
    requires |key| == 4
  {
    [FirstByte(opcode, final)] + LengthField(|payload|, true) + key + Masked(payload, key)
  }

  method EncodeFrame(payload: seq<byte>, opcode: byte, final: bool) returns (frame: seq<byte>)
    requires |payload| < MAX_U64
    ensures frame == Encode(payload, opcode, final)
  {
    var firstByte := opcode as int % 16;
    if final { firstByte := firstByte + 128; }
    frame := [firstByte as byte];
    var n := |payload|;
    if n <= 125 {
      frame := frame + [n as byte];
    } else if n <= 0xFFFF {
      frame := frame + [126];
      frame := frame + [(n / 256 % 256) as byte];
      frame := frame + [(n % 256) as byte];
      assert BigEndian(n, 2) == BigEndian(n / 256 / 256, 0) + [(n / 256 % 256) as byte] + [(n % 256) as byte];
    } else {
      frame := frame + [127];
      var length := EightBytes(n);
      frame := frame + length;
    }
    frame := frame + payload;
  }

  method EightBytes(n: nat) returns (b: seq<byte>)
    requires n < MAX_U64
    ensures b == BigEndian(n, 8)
  {
    hide Shifted, BigEndian;
    b := [];
    var shift := 8;
    NoBytes(Shifted(n, 8));
    while shift > 0
      invariant 0 <= shift <= 8
      invariant b == BigEndian(Shifted(n, shift), 8 - shift)
    {
      shift := shift - 1;
      ShiftedStep(n, shift);
      BigEndianStep(Shifted(n, shift), 7 - shift);
      b := b + [(Shifted(n, shift) % 256) as byte];
    }
    ShiftedEnds(n);
  }

  lemma NoBytes(n: nat)
    ensures BigEndian(n, 0) == []
  {
  }

  function Shifted(n: nat, places: nat): nat {
    QuotientNonNegative(n, Power(places));
    n / Power(places)
  }

  lemma ShiftedStep(n: nat, places: nat)
    ensures Shifted(n, places + 1) == Shifted(n, places) / 256
  {
    DivDiv(n, Power(places), 256);
  }

  lemma ShiftedEnds(n: nat)
    requires n < MAX_U64
    ensures Shifted(n, 0) == n
  {
  }

  lemma BigEndianStep(n: nat, i: nat)
    ensures BigEndian(n / 256, i) + [(n % 256) as byte] == BigEndian(n, i + 1)
  {
  }

  // ----- parsing -----

  datatype Frame = Frame(opcode: byte, final: bool, masked: bool, payload: seq<byte>)

  datatype Outcome =
    | Incomplete
    | Bad(error: string)
    | Parsed(frame: Frame, length: nat)

  const NON_MINIMAL := "non-minimal websocket frame length"
  const BAD_LENGTH := "invalid websocket frame length"
  const RESERVED := "reserved websocket bits are not supported"
  const LONG_CONTROL := "control frames must be 125 bytes or less"

  lemma Bounds(b: seq<byte>)
    requires |b| <= 8
    ensures BigValue(b) < MAX_U64
  {
    BigEndianOfValue(b);
    PowerSeven();
    PowerGrows(|b|, 8);
  }

  lemma {:induction false} PowerGrows(i: nat, j: nat)
    requires i <= j
    ensures Power(i) <= Power(j)
    decreases j
  {
    if i < j { PowerGrows(i, j - 1); }
  }

  datatype Head = HeadIncomplete | HeadBad(error: string) | Head(n: nat, at: nat)

  /** The payload length, and where the length field ends. */
  function ParseHead(b: seq<byte>): (h: Head)
    requires |b| >= 2
    ensures h.Head? ==> h.n < MAX_U64 && 2 <= h.at <= |b|
  {
    var short := b[1] as int % 128;
    if short == 126 then
      if |b| < 4 then HeadIncomplete
      else if BigValue(b[2..4]) < 126 then HeadBad(NON_MINIMAL)
      else Bounds(b[2..4]); Head(BigValue(b[2..4]), 4)
    else if short == 127 then
      if |b| < 10 then HeadIncomplete
      else if b[2] >= 128 then HeadBad(BAD_LENGTH)
      else if BigValue(b[2..10]) <= 0xFFFF then HeadBad(NON_MINIMAL)
      else Bounds(b[2..10]); Head(BigValue(b[2..10]), 10)
    else Head(short, 2)
  }

  /** `WSFrame::parse` */
  function Parse(b: seq<byte>): Outcome {
    if |b| < 2 then Incomplete
    else match ParseHead(b)
      case HeadIncomplete => Incomplete
      case HeadBad(e) => Bad(e)
      case Head(n, at) => ParseBody(b, n, at)
  }

  /** What follows the length field, which ends at `at`. */
  function ParseBody(b: seq<byte>, n: nat, at: nat): Outcome
    requires 2 <= at <= |b| && n < MAX_U64
  {
    var start := if b[1] >= 128 then at + 4 else at;
    var opcode := (b[0] as int % 16) as byte;
    var whole := (start + n) % MAX_U64;
    if whole < start then Bad(BAD_LENGTH)
    else if b[0] as int / 16 % 8 != 0 then Bad(RESERVED)
    else if opcode >= 8 && n > 125 then Bad(LONG_CONTROL)
    else if |b| < whole then Incomplete
    else Parsed(Frame(opcode, b[0] >= 128, b[1] >= 128, PayloadOf(b, at, whole)), whole)
  }

  /** The payload that ends at `whole`, unmasked with the key in front of it if there
      is one. */
  function PayloadOf(b: seq<byte>, at: nat, whole: nat): seq<byte>
    requires 2 <= at <= whole <= |b| && (b[1] >= 128 ==> at + 4 <= whole)
  {
    if b[1] >= 128 then Masked(b[at + 4..whole], b[at..at + 4]) else b[at..whole]
  }

  // ----- parsing does not depend on what follows, or on when it is tried -----

  lemma BodyStable(a: seq<byte>, c: seq<byte>, n: nat, at: nat)
    requires 2 <= at <= |a| && n < MAX_U64 && ParseBody(a, n, at) != Incomplete
    ensures ParseBody(a + c, n, at) == ParseBody(a, n, at)
  {
    hide PayloadOf;
    assert (a + c)[0] == a[0] && (a + c)[1] == a[1];
    if ParseBody(a, n, at).Parsed? { PayloadStable(a, c, at, ParseBody(a, n, at).length); }
  }

  lemma PayloadStable(a: seq<byte>, c: seq<byte>, at: nat, whole: nat)
    requires 2 <= at <= whole <= |a| && (a[1] >= 128 ==> at + 4 <= whole)
    ensures (a + c)[1] == a[1] && PayloadOf(a + c, at, whole) == PayloadOf(a, at, whole)
  {
    hide Masked;
    if a[1] >= 128 {
      SliceKept(a, c, at, at + 4);
      SliceKept(a, c, at + 4, whole);
    } else {
      SliceKept(a, c, at, whole);
    }
  }

  lemma SliceKept(a: seq<byte>, c: seq<byte>, i: nat, j: nat)
    requires i <= j <= |a|
    ensures (a + c)[i..j] == a[i..j]
  {
  }

  lemma HeadStable(a: seq<byte>, c: seq<byte>)
    requires |a| >= 2 && !ParseHead(a).HeadIncomplete?
    ensures ParseHead(a + c) == ParseHead(a)
  {
    if |a| >= 4 { assert (a + c)[2..4] == a[2..4]; }
    if |a| >= 10 { assert (a + c)[2..10] == a[2..10]; }
  }

  /** Success and errors survive any extension of the buffer. */
  lemma PrefixStable(a: seq<byte>, c: seq<byte>)
    requires Parse(a) != Incomplete
    ensures Parse(a + c) == Parse(a)
  {
    hide ParseBody, ParseHead;
    HeadStable(a, c);
    if ParseHead(a).Head? { BodyStable(a, c, ParseHead(a).n, ParseHead(a).at); }
  }

  lemma ParsedFits(b: seq<byte>)
    ensures match Parse(b) case Parsed(f, n) => 2 <= n <= |b| && |f.payload| <= n case _ => true
  {
  }

  /** A strict prefix of a frame is no frame and no error. */
  lemma StrictPrefixIncomplete(b: seq<byte>, k: nat)
    requires Parse(b).Parsed? && k < Parse(b).length
    ensures k <= |b| && Parse(b[..k]) == Incomplete
  {
    ParsedFits(b);
    ParsedFits(b[..k]);
    assert b[..k] + b[k..] == b;
    if Parse(b[..k]) != Incomplete { PrefixStable(b[..k], b[k..]); }
  }

  // ----- encoding and parsing undo each other -----

  const MAX_LENGTH := 0x8000_0000_0000_0000

  lemma HeadParses(first: byte, n: nat, flag: bool, tail: seq<byte>)
    requires n < MAX_U64
    ensures var b := [first] + LengthField(n, flag) + tail;
      ParseHead(b) == if n >= MAX_LENGTH then HeadBad(BAD_LENGTH) else Head(n, 1 + |LengthField(n, flag)|)
  {
    hide BigEndian, BigValue, Power;
    var b := [first] + LengthField(n, flag) + tail;
    PowerSeven();
    if n <= 125 {
    } else if n <= 0xFFFF {
      assert b[2..4] == BigEndian(n, 2);
      ValueOfBigEndian(n, 2);
    } else {
      assert b[2..10] == BigEndian(n, 8);
      ValueOfBigEndian(n, 8);
      TopBitOfEight(b[2..10]);
    }
  }

  /** A parse of the encoding, with anything after it, gives back exactly what was
      encoded, unless the payload is too long for a control frame or for the
      length field; then the parser says which. */
  lemma ParseUndoesEncode(payload: seq<byte>, opcode: byte, final: bool, rest: seq<byte>)
    requires |payload| < MAX_U64
    ensures Parse(Encode(payload, opcode, final) + rest) ==
      if |payload| >= MAX_LENGTH then Bad(BAD_LENGTH)
      else if opcode as int % 16 >= 8 && |payload| > 125 then Bad(LONG_CONTROL)
      else Parsed(Frame((opcode as int % 16) as byte, final, false, payload), |Encode(payload, opcode, final)|)
  {
    hide LengthField, ParseHead, ParseBody, FirstByte;
    var field := LengthField(|payload|, false);
    var b := [FirstByte(opcode, final)] + field + (payload + rest);
    assert Encode(payload, opcode, final) + rest == b;
    HeadParses(FirstByte(opcode, final), |payload|, false, payload + rest);
    FieldFlag(|payload|, false);
    assert b[1 + |field|..1 + |field| + |payload|] == payload;
    if |payload| < MAX_LENGTH { PlainBody(b, 1 + |field|, payload, opcode, final); }
  }

  lemma PlainBody(b: seq<byte>, at: nat, payload: seq<byte>, opcode: byte, final: bool)
    requires 2 <= at <= 10 && at + |payload| <= |b| && |payload| < MAX_LENGTH
    requires b[0] == FirstByte(opcode, final) && b[1] < 128 && b[at..at + |payload|] == payload
    ensures ParseBody(b, |payload|, at) ==
      if opcode as int % 16 >= 8 && |payload| > 125 then Bad(LONG_CONTROL)
      else Parsed(Frame((opcode as int % 16) as byte, final, false, payload), at + |payload|)
  {
    hide FirstByte;
    FirstByteParts(opcode, final);
  }

  lemma FieldFlag(n: nat, flag: bool)
    ensures 1 <= |LengthField(n, flag)| <= 9 && (LengthField(n, flag)[0] >= 128 <==> flag)
  {
  }

  lemma FirstByteParts(opcode: byte, final: bool)
    ensures var f := FirstByte(opcode, final);
      (f >= 128 <==> final) && f as int % 16 == opcode as int % 16 && f as int / 16 % 8 == 0
  {
  }

  /** A masked frame decodes to the payload the client masked. */
  lemma ParseUnmasks(payload: seq<byte>, opcode: byte, final: bool, key: seq<byte>, rest: seq<byte>)
    requires |key| == 4 && |payload| < MAX_LENGTH && (opcode as int % 16 < 8 || |payload| <= 125)
    ensures Parse(EncodeMasked(payload, opcode, final, key) + rest) ==
      Parsed(Frame((opcode as int % 16) as byte, final, true, payload), |EncodeMasked(payload, opcode, final, key)|)
  {
    hide LengthField, Masked, ParseHead, PayloadOf, FirstByte;
    var field, sealed := LengthField(|payload|, true), Masked(payload, key);
    var at := 1 + |field|;
    var b := [FirstByte(opcode, final)] + field + (key + sealed + rest);
    assert EncodeMasked(payload, opcode, final, key) + rest == b;
    HeadParses(FirstByte(opcode, final), |payload|, true, key + sealed + rest);
    FieldFlag(|payload|, true);
    assert b[0] == FirstByte(opcode, final) && b[1] == field[0];
    SealedPayload([FirstByte(opcode, final)] + field, payload, key, rest);
    FirstByteParts(opcode, final);
  }

  lemma SealedPayload(head: seq<byte>, payload: seq<byte>, key: seq<byte>, rest: seq<byte>)
    requires |head| >= 2 && head[1] >= 128 && |key| == 4
    ensures var b := head + (key + Masked(payload, key) + rest);
      PayloadOf(b, |head|, |head| + 4 + |payload|) == payload
  {
    hide Masked;
    var b, at := head + (key + Masked(payload, key) + rest), |head|;
    assert b[at..at + 4] == key;
    assert b[at + 4..at + 4 + |payload|] == Masked(payload, key);
    MaskTwice(payload, key);
  }

  /** A parsed buffer starts with the encoding of the parsed frame: every frame
      has one encoding, and none but encodings are accepted. */
  lemma EncodeUndoesParse(b: seq<byte>)
    requires Parse(b).Parsed?
    ensures var f, n := Parse(b).frame, Parse(b).length;
      && n <= |b|
      && (if f.masked then exists key | |key| == 4 :: b[..n] == EncodeMasked(f.payload, f.opcode, f.final, key)
          else b[..n] == Encode(f.payload, f.opcode, f.final))
  {
    hide ParseBody, ParseHead;
    HeadEncodes(b);
    BodyEncodes(b, ParseHead(b).n, ParseHead(b).at);
  }

  lemma HeadEncodes(b: seq<byte>)
    requires |b| >= 2
    ensures match ParseHead(b) case Head(n, at) => b[1..at] == LengthField(n, b[1] >= 128) case _ => true
  {
    hide BigEndian, BigValue, Power;
    PowerSeven();
    var short := b[1] as int % 128;
    if short == 126 && |b| >= 4 {
      BigEndianOfValue(b[2..4]);
      assert b[1..4] == [b[1]] + b[2..4];
    } else if short == 127 && |b| >= 10 {
      BigEndianOfValue(b[2..10]);
      assert b[1..10] == [b[1]] + b[2..10];
    } else {
      assert b[1..2] == [b[1]];
    }
  }

  lemma BodyEncodes(b: seq<byte>, n: nat, at: nat)
    requires 2 <= at <= |b| && n < MAX_U64 && ParseBody(b, n, at).Parsed?
    requires b[1..at] == LengthField(n, b[1] >= 128)
    ensures var f, m := ParseBody(b, n, at).frame, ParseBody(b, n, at).length;
      && m <= |b|
      && (if f.masked then exists key | |key| == 4 :: b[..m] == EncodeMasked(f.payload, f.opcode, f.final, key)
          else b[..m] == Encode(f.payload, f.opcode, f.final))
  {
    hide LengthField, Mask;
    var f, m := ParseBody(b, n, at).frame, ParseBody(b, n, at).length;
    assert b[..at] == [b[0]] + b[1..at];
    FirstByteWhole(b[0]);
    if f.masked {
      var key := b[at..at + 4];
      MaskTwice(b[at + 4..m], key);
      assert b[..m] == b[..at] + key + b[at + 4..m];
      assert b[..m] == EncodeMasked(f.payload, f.opcode, f.final, key);
    } else {
      assert b[..m] == b[..at] + b[at..m];
    }
  }

  lemma FirstByteWhole(b: byte)
    requires b as int / 16 % 8 == 0
    ensures FirstByte((b as int % 16) as byte, b >= 128) == b
  {
  }

  // ----- the record -----

  class WSFrame {
    var opcode: byte
    var final: bool
    var masked: bool
    var payloadLength: nat
    var headerLength: nat
    var frameLength: nat
    var payload: seq<byte>

    /** True with the frame in the fields, or false, with an error if the bytes can
        never become a frame. */
    method ParseInto(b: seq<byte>) returns (ok: bool, error: string)
      modifies this
      ensures ok == Parse(b).Parsed?
      ensures error == match Parse(b) case Bad(e) => e case _ => ""
      ensures ok ==> Parse(b) == Parsed(Frame(opcode, final, masked, payload), frameLength)
      ensures !ok ==> payload == []
      ensures |b| >= 2 ==> opcode as int == b[0] as int % 16 && final == (b[0] >= 128) && masked == (b[1] >= 128)
      ensures |b| >= 2 ==>
        payloadLength == LengthRead(b) && match ParseHead(b)
        case Head(_, end) =>
          && headerLength == end + (if b[1] >= 128 then 4 else 0)
          && frameLength == (headerLength + payloadLength) % MAX_U64
        case _ => headerLength == 2 && frameLength == old(frameLength)
      ensures |b| < 2 ==> unchanged(`opcode, `final, `masked, `payloadLength, `headerLength, `frameLength)
    {
      hide ParseHead, PayloadOf, LengthRead, BigValue;
      ok, error, payload := true, "", [];
      if |b| < 2 { return false, ""; }
      opcode := (b[0] as int % 16) as byte;
      final := b[0] >= 128;
      var reserved := b[0] as int / 16 % 8 != 0;
      masked := b[1] >= 128;
      ok, error, payloadLength, headerLength := ReadHead(b);
      if !ok { return; }
      var maskOffset := headerLength;
      if masked { headerLength := headerLength + 4; }
      frameLength := (headerLength + payloadLength) % MAX_U64;
      if frameLength < headerLength { return false, BAD_LENGTH; }
      if reserved { return false, RESERVED; }
      if opcode >= 8 && payloadLength > 125 { return false, LONG_CONTROL; }
      if |b| < frameLength { return false, ""; }
      payload := ReadPayload(b, maskOffset, frameLength);
    }
  }

  /** The length as far as it can be read: the seven bits of the second byte, or the
      two or eight bytes they announce, if all are there and the sign is not set. */
  function LengthRead(b: seq<byte>): nat
    requires |b| >= 2
  {
    var n := b[1] as int % 128;
    if n == 126 && |b| >= 4 then BigValue(b[2..4])
    else if n == 127 && |b| >= 10 && b[2] < 128 then BigValue(b[2..10])
    else n
  }

  method ReadHead(b: seq<byte>) returns (ok: bool, error: string, n: nat, at: nat)
    requires |b| >= 2
    ensures match ParseHead(b)
      case HeadIncomplete => !ok && error == ""
      case HeadBad(e) => !ok && error == e
      case Head(m, end) => ok && error == "" && n == m && at == end
    ensures n == LengthRead(b) && (!ok ==> at == 2)
  {
    n, at := b[1] as int % 128, 2;
    if n == 126 {
      if |b| < 4 { return false, "", n, at; }
      n := b[2] as int * 256 + b[3] as int;
      TwoBytes(b[2..4]);
      if n < 126 { return false, NON_MINIMAL, n, at; }
      at := 4;
    } else if n == 127 {
      if |b| < 10 { return false, "", n, at; }
      if b[2] >= 128 { return false, BAD_LENGTH, n, at; }
      n := 0;
      var i := 0;
      while i < 8
        invariant 0 <= i <= 8 && n == BigValue(b[2..2 + i])
      {
        assert b[2..3 + i][..i] == b[2..2 + i];
        n := n * 256 + b[2 + i] as int;
        i := i + 1;
      }
      if n <= 0xFFFF { return false, NON_MINIMAL, n, at; }
      at := 10;
    }
    return true, "", n, at;
  }

  method ReadPayload(b: seq<byte>, at: nat, whole: nat) returns (payload: seq<byte>)
    requires 2 <= at <= whole <= |b| && (b[1] >= 128 ==> at + 4 <= whole)
    ensures payload == PayloadOf(b, at, whole)
  {
    if b[1] >= 128 {
      payload := Unmask(b[at + 4..whole], b[at..at + 4]);
    } else {
      payload := b[at..whole];
    }
  }

  method Unmask(raw: seq<byte>, key: seq<byte>) returns (payload: seq<byte>)
    requires |key| == 4
    ensures payload == Masked(raw, key)
  {
    hide Mask;
    payload := raw;
    var i := 0;
    while i < |payload|
      invariant i <= |payload| == |raw|
      invariant forall k | 0 <= k < |raw| :: payload[k] == if k < i then Masked(raw, key)[k] else raw[k]
    {
      payload := payload[i := Mask(payload[i], key[i % 4])];
      i := i + 1;
    }
  }

  lemma TwoBytes(b: seq<byte>)
    requires |b| == 2
    ensures BigValue(b) == b[0] as int * 256 + b[1] as int
  {
    assert BigValue(b[..1]) == BigValue(b[..1][..0]) * 256 + b[..1][0] as int;
  }
}
