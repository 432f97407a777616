/**
  Text encodings and their validators.

  The yardstick for UTF-8 is the encoding of RFC 3629: a byte string is acceptable when it is what
  some sequence of Unicode scalar values encodes to.
 */
module Encodings {
  import opened Bits

  datatype Encoding = ASCII | UTF8

  // ---- RFC 3629, section 3: what a scalar value encodes to ----

  predicate IsScalar(c: nat) { c <= 0xD7FF || 0xE000 <= c <= 0x10FFFF }

  type Scalar = c: nat | IsScalar(c)

  /** A trailing byte that carries six bits. */
  function TailByte(c: nat): Byte { 0x80 + c % 0x40 }

  function EncodeScalar(c: Scalar): (s: seq<Byte>)
    ensures 1 <= |s| <= 4
  {
    var c1: nat := c / 0x40;
    var c2: nat := c1 / 0x40;
    var c3: nat := c2 / 0x40;
    if c < 0x80 then
      [c]
    else if c < 0x800 then
      var head: Byte := 0xC0 + c1;
      [head, TailByte(c)]
    else if c < 0x1_0000 then
      var head: Byte := 0xE0 + c2;
      [head, TailByte(c1), TailByte(c)]
    else
      assert IsScalar(c);
      var head: Byte := 0xF0 + c3;
      [head, TailByte(c2), TailByte(c1), TailByte(c)]
  }

  function EncodeAll(cs: seq<Scalar>): seq<Byte> {
    if cs == [] then [] else EncodeScalar(cs[0]) + EncodeAll(cs[1..])
  }

  // ---- RFC 3629, section 4: the grammar of one character ----

  predicate IsTail(b: Byte) { 0x80 <= b <= 0xBF }

  predicate IsChar(s: seq<Byte>) {
    match |s|
    case 1 => s[0] <= 0x7F
    case 2 => 0xC2 <= s[0] <= 0xDF && IsTail(s[1])
    case 3 => ThreeByteHead(s[0], s[1]) && IsTail(s[1]) && IsTail(s[2])
    case 4 => FourByteHead(s[0], s[1]) && IsTail(s[1]) && IsTail(s[2]) && IsTail(s[3])
    case _ => false
  }

  predicate ThreeByteHead(a: Byte, b: Byte) {
    (a == 0xE0 && b >= 0xA0) || 0xE1 <= a <= 0xEC || (a == 0xED && b <= 0x9F) || 0xEE <= a <= 0xEF
  }

  predicate FourByteHead(a: Byte, b: Byte) {
    (a == 0xF0 && b >= 0x90) || 0xF1 <= a <= 0xF3 || (a == 0xF4 && b <= 0x8F)
  }

  /** Length of a character, read off its first byte; 0 when no character starts so. */
  function LeadLength(b: Byte): nat {
    if b < 0x80 then 1 else if b < 0xC0 then 0 else if b < 0xE0 then 2
    else if b < 0xF0 then 3 else if b < 0xF8 then 4 else 0
  }

  /** The bits of the code point that the first byte carries. */
  function Payload(b: Byte): nat {
    match LeadLength(b)
    case 2 => b % 0x20
    case 3 => b % 0x10
    case 4 => b % 0x08
    case _ => b
  }

  /** The code point collected from the first byte's payload and the tail bytes. */
  function CodePoint(payload: nat, tail: seq<Byte>): nat {
    if tail == [] then payload
    else
      var b: nat := tail[|tail| - 1];
      CodePoint(payload, tail[..|tail| - 1]) * 0x40 + b % 0x40
  }

  lemma CodePointBySize(p: nat, t: seq<Byte>)
    ensures |t| == 0 ==> CodePoint(p, t) == p
    ensures |t| == 1 ==> CodePoint(p, t) == p * 0x40 + t[0] as nat % 0x40
    ensures |t| == 2 ==> CodePoint(p, t) == (p * 0x40 + t[0] as nat % 0x40) * 0x40 + t[1] as nat % 0x40
    ensures |t| == 3 ==> CodePoint(p, t) ==
                         ((p * 0x40 + t[0] as nat % 0x40) * 0x40 + t[1] as nat % 0x40) * 0x40 + t[2] as nat % 0x40
  {
    if |t| == 1 {
      assert t[..0] == [];
    } else if |t| == 2 {
      CodePointBySize(p, t[..1]);
    } else if |t| == 3 {
      CodePointBySize(p, t[..2]);
    }
  }

  lemma SixBits(x: nat, y: nat)
    requires y < 0x40
    ensures (x * 0x40 + y) / 0x40 == x && (x * 0x40 + y) % 0x40 == y
  {
  }

  /** The first byte of a character announces its length. */
  lemma CharLead(s: seq<Byte>)
    requires IsChar(s)
    ensures s != [] && |s| == LeadLength(s[0])
  {
  }

  lemma CharRange(s: seq<Byte>)
    requires IsChar(s)
    ensures |s| == LeadLength(s[0]) && IsScalar(CodePoint(Payload(s[0]), s[1..]))
    ensures SmallestOfLength(|s|) <= CodePoint(Payload(s[0]), s[1..])
  {
    hide CodePoint, IsChar, LeadLength, Payload;
    CharLead(s);
    RangeChecksDecide(s);
  }

  function DecodeChar(s: seq<Byte>): Scalar
    requires IsChar(s)
  {
    CharRange(s);
    CodePoint(Payload(s[0]), s[1..])
  }

  lemma EncodeOneOrTwo(c: Scalar)
    requires c < 0x800
    ensures IsChar(EncodeScalar(c)) && DecodeChar(EncodeScalar(c)) == c
  {
    hide CodePoint;
    var s := EncodeScalar(c);
    CodePointBySize(Payload(s[0]), s[1..]);
  }

  /** A tail byte carries six bits. */
  lemma TailBits(c: nat)
    ensures IsTail(TailByte(c)) && TailByte(c) as nat % 0x40 == c % 0x40
  {
  }

  lemma ThreeByteHeadBits(h: nat)
    requires h < 0x10
    ensures Payload(0xE0 + h) == h
  {
  }

  lemma FourByteHeadBits(h: nat)
    requires h < 0x08
    ensures Payload(0xF0 + h) == h
  {
  }

  /** A number and its base-64 digits. */
  lemma ThreeDigits(c: nat)
    requires 0x800 <= c < 0x1_0000
    ensures var c1 := c / 0x40;
            var c2 := c1 / 0x40;
            && c2 < 0x10 && (c2 * 0x40 + c1 % 0x40) * 0x40 + c % 0x40 == c
            && (c2 == 0 ==> c1 % 0x40 >= 0x20)
            && (IsScalar(c) && c2 == 13 ==> c1 % 0x40 < 0x20)
  {
  }

  lemma FourDigits(c: Scalar)
    requires 0x1_0000 <= c
    ensures var c1 := c / 0x40;
            var c2 := c1 / 0x40;
            var c3 := c2 / 0x40;
            && c3 <= 4 && ((c3 * 0x40 + c2 % 0x40) * 0x40 + c1 % 0x40) * 0x40 + c % 0x40 == c
            && (c3 == 0 ==> c2 % 0x40 >= 0x10) && (c3 == 4 ==> c2 % 0x40 < 0x10)
  {
    assert IsScalar(c);
  }

  lemma EncodeThree(c: Scalar)
    requires 0x800 <= c < 0x1_0000
    ensures IsChar(EncodeScalar(c)) && DecodeChar(EncodeScalar(c)) == c
  {
    hide CodePoint, LeadLength, Payload;
    var s := EncodeScalar(c);
    var c1: nat := c / 0x40;
    var c2: nat := c1 / 0x40;
    assert IsScalar(c);
    ThreeDigits(c);
    ThreeByteHeadBits(c2);
    TailBits(c1);
    TailBits(c);
    assert s == [0xE0 + c2, TailByte(c1), TailByte(c)];
    CodePointBySize(c2, s[1..]);
  }

  lemma EncodeFour(c: Scalar)
    requires 0x1_0000 <= c
    ensures IsChar(EncodeScalar(c)) && DecodeChar(EncodeScalar(c)) == c
  {
    hide CodePoint, LeadLength, Payload;
    var s := EncodeScalar(c);
    var c1: nat := c / 0x40;
    var c2: nat := c1 / 0x40;
    var c3: nat := c2 / 0x40;
    FourDigits(c);
    FourByteHeadBits(c3);
    TailBits(c2);
    TailBits(c1);
    TailBits(c);
    assert s == [0xF0 + c3, TailByte(c2), TailByte(c1), TailByte(c)];
    CodePointBySize(c3, s[1..]);
  }

  /** The grammar describes exactly the encodings: no overlong forms, no surrogates. */
  lemma EncodeIsChar(c: Scalar)
    ensures IsChar(EncodeScalar(c)) && DecodeChar(EncodeScalar(c)) == c
  {
    if c < 0x800 { EncodeOneOrTwo(c); } else if c < 0x1_0000 { EncodeThree(c); } else { EncodeFour(c); }
  }

  lemma TwoByteEncode(s: seq<Byte>)
    requires IsChar(s) && |s| == 2
    ensures EncodeScalar(DecodeChar(s)) == s
  {
    hide CodePoint;
    CharRange(s);
    CodePointBySize(Payload(s[0]), s[1..]);
    var p, d1 := Payload(s[0]), s[1] as nat % 0x40;
    SixBits(p, d1);
  }

  lemma ThreeByteEncode(s: seq<Byte>)
    requires IsChar(s) && |s| == 3
    ensures EncodeScalar(DecodeChar(s)) == s
  {
    hide CodePoint, LeadLength, Payload, ThreeByteHead;
    CharRange(s);
    CodePointBySize(Payload(s[0]), s[1..]);
    var p, d1, d2 := Payload(s[0]), s[1] as nat % 0x40, s[2] as nat % 0x40;
    SixBits(p, d1);
    SixBits(p * 0x40 + d1, d2);
    HeadOfLength(s[0]);
    TailOf(s[1]);
    TailOf(s[2]);
  }

  lemma FourByteEncode(s: seq<Byte>)
    requires IsChar(s) && |s| == 4
    ensures EncodeScalar(DecodeChar(s)) == s
  {
    hide CodePoint, LeadLength, Payload, FourByteHead;
    CharRange(s);
    CodePointBySize(Payload(s[0]), s[1..]);
    var p, d1, d2, d3 := Payload(s[0]), s[1] as nat % 0x40, s[2] as nat % 0x40, s[3] as nat % 0x40;
    SixBits(p, d1);
    SixBits(p * 0x40 + d1, d2);
    SixBits((p * 0x40 + d1) * 0x40 + d2, d3);
    HeadOfLength(s[0]);
    TailOf(s[1]);
    TailOf(s[2]);
    TailOf(s[3]);
  }

  /** First bytes and tail bytes are their mark and their bits. */
  lemma HeadOfLength(b: Byte)
    ensures LeadLength(b) == 3 ==> b == 0xE0 + Payload(b) && Payload(b) < 0x10
    ensures LeadLength(b) == 4 ==> b == 0xF0 + Payload(b) && Payload(b) < 0x08
  {
  }

  lemma TailOf(b: Byte)
    requires IsTail(b)
    ensures b == 0x80 + b as nat % 0x40
  {
  }

  lemma CharIsEncode(s: seq<Byte>)
    requires IsChar(s)
    ensures EncodeScalar(DecodeChar(s)) == s
  {
    match |s| {
      case 2 => TwoByteEncode(s);
      case 3 => ThreeByteEncode(s);
      case 4 => FourByteEncode(s);
      case _ =>
        hide CodePoint;
        CodePointBySize(Payload(s[0]), s[1..]);
    }
  }

  function CharLength(s: seq<Byte>): (n: nat)
    ensures n <= |s| && (n > 0 ==> IsChar(s[..n]))
  {
    if s == [] then 0
    else
      var n := LeadLength(s[0]);
      if n <= |s| && IsChar(s[..n]) then n else 0
  }

  /** Text that can be taken apart into characters from the front. */
  predicate IsUtf8(s: seq<Byte>) {
    s == [] || (CharLength(s) > 0 && IsUtf8(s[CharLength(s)..]))
  }

  lemma CharLengthOf(c: seq<Byte>, rest: seq<Byte>)
    requires IsChar(c)
    ensures CharLength(c + rest) == |c|
  {
    assert (c + rest)[..|c|] == c;
  }

  lemma FrontChar(c: seq<Byte>, rest: seq<Byte>)
    requires IsChar(c)
    ensures IsUtf8(c + rest) <==> IsUtf8(rest)
  {
    CharLengthOf(c, rest);
    assert (c + rest)[|c|..] == rest;
  }

  lemma {:induction false} EncodedIsUtf8(cs: seq<Scalar>)
    ensures IsUtf8(EncodeAll(cs))
  {
    if cs == [] {
    } else {
      EncodedIsUtf8(cs[1..]);
      EncodeIsChar(cs[0]);
      FrontChar(EncodeScalar(cs[0]), EncodeAll(cs[1..]));
    }
  }

  function DecodeAll(s: seq<Byte>): seq<Scalar>
    requires IsUtf8(s)
  {
    if s == [] then [] else [DecodeChar(s[..CharLength(s)])] + DecodeAll(s[CharLength(s)..])
  }

  lemma DecodeCons(s: seq<Byte>)
    requires IsUtf8(s) && s != []
    ensures var n := CharLength(s); DecodeAll(s) == [DecodeChar(s[..n])] + DecodeAll(s[n..])
  {
  }

  lemma {:induction false} DecodeThenEncode(s: seq<Byte>)
    requires IsUtf8(s)
    ensures EncodeAll(DecodeAll(s)) == s
  {
    hide IsChar, EncodeScalar, DecodeChar, CodePoint;
    if s == [] {
    } else {
      var front, rest := s[..CharLength(s)], s[CharLength(s)..];
      CharIsEncode(front);
      DecodeThenEncode(rest);
      DecodeCons(s);
      EncodeCons(DecodeChar(front), DecodeAll(rest));
      assert s == front + rest;
    }
  }

  lemma EncodeCons(c: Scalar, cs: seq<Scalar>)
    ensures EncodeAll([c] + cs) == EncodeScalar(c) + EncodeAll(cs)
  {
    assert ([c] + cs)[1..] == cs;
  }

  lemma {:induction false} EncodeThenDecode(cs: seq<Scalar>)
    ensures IsUtf8(EncodeAll(cs)) && DecodeAll(EncodeAll(cs)) == cs
  {
    EncodedIsUtf8(cs);
    if cs == [] {
    } else {
      EncodeThenDecode(cs[1..]);
      var c, rest := EncodeScalar(cs[0]), EncodeAll(cs[1..]);
      EncodeIsChar(cs[0]);
      CharLengthOf(c, rest);
      assert (c + rest)[..|c|] == c && (c + rest)[|c|..] == rest;
    }
  }

  /** The text decodes to scalar values, in exactly one way. */
  lemma Utf8MeansEncoded(s: seq<Byte>)
    ensures IsUtf8(s) <==> exists cs: seq<Scalar> :: EncodeAll(cs) == s
    ensures forall cs: seq<Scalar>, ds: seq<Scalar> :: EncodeAll(cs) == s && EncodeAll(ds) == s ==> cs == ds
  {
    if IsUtf8(s) { DecodeThenEncode(s); }
    forall cs: seq<Scalar> | EncodeAll(cs) == s ensures IsUtf8(s) && DecodeAll(s) == cs { EncodeThenDecode(cs); }
  }

  // ---- the validators ----

  predicate IsAscii(s: seq<Byte>) {
    forall i :: 0 <= i < |s| ==> s[i] <= 0x7F
  }

  predicate IsText(encoding: Encoding, s: seq<Byte>) {
    match encoding
    case ASCII => IsAscii(s)
    case UTF8 => IsUtf8(s)
  }

  /** What the encodings of a string mean: bytes below 0x80, or what scalar values encode to. */
  lemma TextMeans(encoding: Encoding, s: seq<Byte>)
    ensures encoding == ASCII ==> (IsText(encoding, s) <==> forall i :: 0 <= i < |s| ==> s[i] < 0x80)
    ensures encoding == UTF8 ==> (IsText(encoding, s) <==> exists cs: seq<Scalar> :: EncodeAll(cs) == s)
  {
    hide IsUtf8, EncodeAll;
    Utf8MeansEncoded(s);
  }

  /** The scalar values: all code points but the surrogates. */
  lemma ScalarsAre(c: nat)
    ensures IsScalar(c) <==> c <= 0x10FFFF && !(0xD800 <= c <= 0xDFFF)
  {
  }

  /** The bytes of an encoding, with the digits of the value taken out of it directly. */
  lemma EncodingIs(c: Scalar)
    ensures c < 0x80 ==> EncodeScalar(c) == [c]
    ensures 0x80 <= c < 0x800 ==> EncodeScalar(c) == [0xC0 + c / 0x40, 0x80 + c % 0x40]
    ensures 0x800 <= c < 0x1_0000 ==>
              EncodeScalar(c) == [0xE0 + c / 0x1000, 0x80 + c / 0x40 % 0x40, 0x80 + c % 0x40]
    ensures 0x1_0000 <= c ==>
              && c / 0x4_0000 <= 4
              && EncodeScalar(c) ==
                 [0xF0 + c / 0x4_0000, 0x80 + c / 0x1000 % 0x40, 0x80 + c / 0x40 % 0x40, 0x80 + c % 0x40]
  {
    assert IsScalar(c);
    assert c / 0x40 / 0x40 == c / 0x1000 && c / 0x1000 / 0x40 == c / 0x4_0000;
  }

  lemma EncodingsConcatenate(c: Scalar, cs: seq<Scalar>)
    ensures EncodeAll([]) == [] && EncodeAll([c] + cs) == EncodeScalar(c) + EncodeAll(cs)
  {
    EncodeCons(c, cs);
  }

  lemma MaskedLow(c: Byte)
    ensures And(c, 0x1F) == c % 0x20 && And(c, 0x0F) == c % 0x10
    ensures And(c, 0x07) == c % 0x08 && And(c, 0x3F) == c % 0x40
  {
    hide And, Low;
    assert Pow2(3) == 0x08 && Pow2(4) == 0x10 && Pow2(5) == 0x20 && Pow2(6) == 0x40;
    MaskIsLow(c, 3); MaskIsLow(c, 4); MaskIsLow(c, 5); MaskIsLow(c, 6);
    LowIsMod(c, 3); LowIsMod(c, 4); LowIsMod(c, 5); LowIsMod(c, 6);
  }

  lemma MaskedHigh(c: Byte)
    ensures And(c, 0xE0) == c - c % 0x20 && And(c, 0xF0) == c - c % 0x10
    ensures And(c, 0xF8) == c - c % 0x08 && And(c, 0xC0) == c - c % 0x40
  {
    hide And, Low;
    Pow2Widths();
    assert Pow2(2) == 4 && Pow2(3) == 0x08 && Pow2(4) == 0x10 && Pow2(5) == 0x20 && Pow2(6) == 0x40;
    ShlIsTimes(7, 5); ShlIsTimes(15, 4); ShlIsTimes(31, 3); ShlIsTimes(3, 6);
    HighMask(c, 3, 5); HighMask(c, 4, 4); HighMask(c, 5, 3); HighMask(c, 2, 6);
    LowIsMod(c, 3); LowIsMod(c, 4); LowIsMod(c, 5); LowIsMod(c, 6);
  }

  lemma CodePointStep(payload: nat, tail: seq<Byte>, b: Byte)
    ensures Or(Shl(CodePoint(payload, tail), 6), And(b, 0x3F)) == CodePoint(payload, tail + [b])
  {
    hide And, Or, Shl;
    var cp := CodePoint(payload, tail);
    MaskedLow(b);
    assert Pow2(6) == 0x40;
    OrIsAdd(cp, b % 0x40, 6);
    ShlIsTimes(cp, 6);
    assert (tail + [b])[..|tail|] == tail;
  }

  function SmallestOfLength(n: nat): nat {
    match n
    case 2 => 0x80
    case 3 => 0x800
    case 4 => 0x1_0000
    case _ => 0
  }

  /** What the first two bytes of a long character restrict is the range of the code point. */
  lemma ThreeByteRange(a: Byte, b: Byte, d: nat)
    requires LeadLength(a) == 3 && IsTail(b) && d < 0x40
    ensures ThreeByteHead(a, b) <==>
            var cp := (Payload(a) * 0x40 + b as nat % 0x40) * 0x40 + d;
            0x800 <= cp && IsScalar(cp)
  {
    HeadOfLength(a);
    TailOf(b);
  }

  lemma FourByteRange(a: Byte, b: Byte, d: nat, e: nat)
    requires LeadLength(a) == 4 && IsTail(b) && d < 0x40 && e < 0x40
    ensures FourByteHead(a, b) <==>
            var cp := ((Payload(a) * 0x40 + b as nat % 0x40) * 0x40 + d) * 0x40 + e;
            0x1_0000 <= cp && IsScalar(cp)
  {
    HeadOfLength(a);
    TailOf(b);
  }

  /** Range checks on the collected code point decide whether the bytes form a character. */
  lemma RangeChecksDecide(s: seq<Byte>)
    requires s != [] && |s| == LeadLength(s[0])
    ensures var cp := CodePoint(Payload(s[0]), s[1..]);
            IsChar(s) <==> (forall k :: 1 <= k < |s| ==> IsTail(s[k])) && SmallestOfLength(|s|) <= cp && IsScalar(cp)
  {
    CodePointBySize(Payload(s[0]), s[1..]);
    hide CodePoint, Payload, ThreeByteHead, FourByteHead, IsScalar;
    if |s| == 3 {
      if IsTail(s[1]) { ThreeByteRange(s[0], s[1], s[2] as nat % 0x40); }
    } else if |s| == 4 {
      if IsTail(s[1]) { FourByteRange(s[0], s[1], s[2] as nat % 0x40, s[3] as nat % 0x40); }
    } else {
      ShortRange(s);
    }
  }

  lemma ShortRange(s: seq<Byte>)
    requires 1 <= |s| <= 2 && |s| == LeadLength(s[0])
    ensures var cp := CodePoint(Payload(s[0]), s[1..]);
            IsChar(s) <==> (forall k :: 1 <= k < |s| ==> IsTail(s[k])) && SmallestOfLength(|s|) <= cp && IsScalar(cp)
  {
    hide CodePoint;
    CodePointBySize(Payload(s[0]), s[1..]);
  }

  method ValidateAscii(s: seq<Byte>) returns (ok: bool)
    ensures ok <==> IsAscii(s)
  {
    for i := 0 to |s|
      invariant IsAscii(s[..i])
    {
      if s[i] > 0x7F { return false; }
    }
    return true;
  }

  /** The announced length and the payload of a first byte; length 0 for a byte that cannot be one. */
  method ScanLead(c: Byte) returns (n: nat, cp: nat)
    ensures n == LeadLength(c) && cp == Payload(c)
  {
    hide And;
    MaskedLow(c);
    MaskedHigh(c);
    if c < 0x80 { return 1, c; }
    if And(c, 0xE0) == 0xC0 { return 2, And(c, 0x1F); }
    if And(c, 0xF0) == 0xE0 { return 3, And(c, 0x0F); }
    if And(c, 0xF8) == 0xF0 { return 4, And(c, 0x07); }
    return 0, c;
  }

  /** One round of the validator: the length of the character at the front, 0 to reject. */
  method ScanChar(s: seq<Byte>) returns (length: nat)
    requires s != []
    ensures length == CharLength(s)
  {
    hide And, Or, Shl, IsChar, CodePoint;
    var c := s[0];
    var n, cp := ScanLead(c);
    if n == 0 || n > |s| { return 0; }
    ghost var one := s[..n];
    RangeChecksDecide(one);
    CodePointBySize(Payload(c), one[1..1]);
    var k := 1;
    while k < n
      invariant 1 <= k <= n
      invariant forall j :: 1 <= j < k ==> IsTail(one[j])
      invariant cp == CodePoint(Payload(c), one[1..k])
    {
      var cc := s[k];
      MaskedHigh(cc);
      assert one[k] == cc;
      if And(cc, 0xC0) != 0x80 { return 0; }
      CodePointStep(Payload(c), one[1..k], cc);
      assert one[1..k] + [cc] == one[1..k + 1];
      cp := Or(Shl(cp, 6), And(cc, 0x3F));
      k := k + 1;
    }
    assert one[1..k] == one[1..];
    if cp < SmallestOfLength(n) { return 0; }
    if cp > 0x10FFFF { return 0; }
    if 0xD800 <= cp <= 0xDFFF { return 0; }
    return n;
  }

  method ValidateUtf8(s: seq<Byte>) returns (ok: bool)
    ensures ok <==> IsUtf8(s)
  {
    hide IsChar;
    var i := 0;
    while i < |s|
      invariant i <= |s|
      invariant IsUtf8(s) <==> IsUtf8(s[i..])
    {
      var n := ScanChar(s[i..]);
      if n == 0 { return false; }
      assert s[i..][n..] == s[i + n..];
      i := i + n;
    }
    return true;
  }

  method ValidateEncoding(encoding: Encoding, s: seq<Byte>) returns (ok: bool)
    ensures ok <==> IsText(encoding, s)
  {
    match encoding
    case ASCII => ok := ValidateAscii(s);
    case UTF8 => ok := ValidateUtf8(s);
  }
}
