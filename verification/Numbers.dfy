/** Numbers: reading them from text, printing them, comparing them. */
module Numbers {
  import opened Bits
  import opened Encodings
  import opened Options
  import opened Strings

  datatype NumberType = Overflow | SInt8 | SInt16 | SInt32 | SInt64 | UInt8 | UInt16 | UInt32 | UInt64Type

  datatype Number = Number(numberType: NumberType, value: int)

  const TWO_TO_63: int := 0x8000_0000_0000_0000
  const TWO_TO_64: int := 0x1_0000_0000_0000_0000

  /** The values a number of each type can hold; the overflow marker holds zero. */
  predicate ValidNumber(n: Number) {
    match n.numberType
    case Overflow => n.value == 0
    case SInt8 => -0x80 <= n.value < 0x80
    case SInt16 => -0x8000 <= n.value < 0x8000
    case SInt32 => -0x8000_0000 <= n.value < 0x8000_0000
    case SInt64 => -TWO_TO_63 <= n.value < TWO_TO_63
    case UInt8 => 0 <= n.value < 0x100
    case UInt16 => 0 <= n.value < 0x1_0000
    case UInt32 => 0 <= n.value < 0x1_0000_0000
    case UInt64Type => 0 <= n.value < TWO_TO_64
  }

  const OVERFLOWN := Number(Overflow, 0)

  // ---- digit text ----

  function DigitValue(b: Byte): Option<nat> {
    if 0x30 <= b <= 0x39 then Some(b - 0x30)
    else if 0x61 <= b <= 0x66 then Some(b - 0x61 + 10)
    else if 0x41 <= b <= 0x46 then Some(b - 0x41 + 10)
    else None
  }

  predicate IsDigit(b: Byte, base: nat) { DigitValue(b).Some? && DigitValue(b).value < base }

  predicate IsDigits(s: seq<Byte>, base: nat) { forall i :: 0 <= i < |s| ==> IsDigit(s[i], base) }

  /** The value of digit text, most significant digit first; zero for no digits. */
  function ValueOf(s: seq<Byte>, base: nat): nat
    requires IsDigits(s, base)
  {
    if s == [] then 0 else ValueOf(s[..|s| - 1], base) * base + DigitValue(s[|s| - 1]).value
  }

  /** `'c'`, or an escape after which anything may stand before the closing quote. */
  function CharLiteral(s: seq<Byte>): Option<nat> {
    if |s| < 3 || s[0] != 0x27 || s[|s| - 1] != 0x27 then None
    else if s[1] == 0x5C then Escape(s[2])
    else if |s| != 3 then None
    else Some(s[1])
  }

  /** n, t, r, b, 0, backslash and quote. */
  function Escape(b: Byte): Option<nat> {
    if b == 0x6E then Some(0x0A)
    else if b == 0x74 then Some(0x09)
    else if b == 0x72 then Some(0x0D)
    else if b == 0x62 then Some(0x08)
    else if b == 0x30 then Some(0x00)
    else if b == 0x5C then Some(0x5C)
    else if b == 0x27 then Some(0x27)
    else None
  }

  predicate HasMarker(s: seq<Byte>, lower: Byte, upper: Byte) {
    |s| >= 2 && s[0] == 0x30 && (s[1] == lower || s[1] == upper)
  }

  predicate IsHex(s: seq<Byte>) { HasMarker(s, 0x78, 0x58) && IsDigits(s[2..], 16) }

  predicate IsBinary(s: seq<Byte>) { HasMarker(s, 0x62, 0x42) && IsDigits(s[2..], 2) }

  /** The number that text denotes, of any size; none for text that is not a number. */
  function Denotes(s: seq<Byte>): Option<nat> {
    if IsHex(s) then Some(ValueOf(s[2..], 16))
    else if IsBinary(s) then Some(ValueOf(s[2..], 2))
    else if IsDigits(s, 10) then Some(ValueOf(s, 10))
    else CharLiteral(s)
  }

  // ---- the scanners ----

  datatype Extraction = NoMatch | Extracted(value: UInt64) | TooLarge

  /** `strtoull()` on digit text of the base: the value, or a range error from 2^64 on. */
  function ParseBase(digits: seq<Byte>, base: nat): Extraction
    requires IsDigits(digits, base)
  {
    if ValueOf(digits, base) < TWO_TO_64 then Extracted(ValueOf(digits, base)) else TooLarge
  }

  /** Character `i` of the NUL-terminated text. */
  function At(line: seq<Byte>, i: nat): Byte
    requires i <= |line|
  {
    if i < |line| then line[i] else 0
  }

  method ExtractHexadecimal(line: seq<Byte>) returns (r: Extraction)
    requires NulFree(line)
    ensures r == if IsHex(line) then ParseBase(line[2..], 16) else NoMatch
  {
    if At(line, 0) != 0x30 || (At(line, 1) != 0x78 && At(line, 1) != 0x58) { return NoMatch; }
    var i := 2;
    while At(line, i) != 0
      invariant 2 <= i <= |line| && IsDigits(line[2..i], 16)
      decreases |line| - i
    {
      var c := line[i];
      if (c < 0x30 || c > 0x39) && (c < 0x61 || c > 0x66) && (c < 0x41 || c > 0x46) {
        assert line[2..][i - 2] == c;
        return NoMatch;
      }
      assert line[2..i + 1] == line[2..i] + [c];
      i := i + 1;
    }
    assert line[2..i] == line[2..];
    return ParseBase(line[2..], 16);
  }

  method ExtractBinary(line: seq<Byte>) returns (r: Extraction)
    requires NulFree(line)
    ensures r == if IsBinary(line) then ParseBase(line[2..], 2) else NoMatch
  {
    if At(line, 0) != 0x30 || (At(line, 1) != 0x62 && At(line, 1) != 0x42) { return NoMatch; }
    var i := 2;
    while At(line, i) != 0
      invariant 2 <= i <= |line| && IsDigits(line[2..i], 2)
      decreases |line| - i
    {
      var c := line[i];
      if c < 0x30 || c > 0x31 {
        assert line[2..][i - 2] == c;
        return NoMatch;
      }
      assert line[2..i + 1] == line[2..i] + [c];
      i := i + 1;
    }
    assert line[2..i] == line[2..];
    return ParseBase(line[2..], 2);
  }

  method ExtractDecimal(line: seq<Byte>) returns (r: Extraction)
    requires NulFree(line)
    ensures r == if IsDigits(line, 10) then ParseBase(line, 10) else NoMatch
  {
    var i := 0;
    while At(line, i) != 0
      invariant i <= |line| && IsDigits(line[..i], 10)
      decreases |line| - i
    {
      if line[i] < 0x30 || line[i] > 0x39 { return NoMatch; }
      i := i + 1;
    }
    assert line[..i] == line;
    return ParseBase(line, 10);
  }

  method ExtractCharacter(line: seq<Byte>) returns (r: Extraction)
    requires NulFree(line)
    ensures r == match CharLiteral(line) case None => NoMatch case Some(v) => Extracted(v)
  {
    if At(line, 0) != 0x27 || |line| < 3 { return NoMatch; }
    if line[|line| - 1] != 0x27 { return NoMatch; }
    if line[1] == 0x5C {
      var c := Escape(line[2]);
      if c.None? { return NoMatch; }
      return Extracted(c.value);
    }
    if |line| != 3 { return NoMatch; }
    return Extracted(line[1]);
  }

  /** The four scanners in turn; a range error ends the search. */
  method Extract(line: seq<Byte>) returns (r: Extraction)
    requires NulFree(line)
    ensures r == match Denotes(line)
                 case None => NoMatch
                 case Some(v) => if v < 0x1_0000_0000_0000_0000 then Extracted(v) else TooLarge
  {
    r := ExtractHexadecimal(line);
    if r != NoMatch { return; }
    r := ExtractBinary(line);
    if r != NoMatch { return; }
    r := ExtractDecimal(line);
    if r != NoMatch { return; }
    r := ExtractCharacter(line);
  }

  // ---- numbers from text ----

  /** The narrowest of the two 64-bit types that holds `v`, or the overflow marker. */
  function NumberFor(v: nat): (n: Number)
    ensures ValidNumber(n)
    ensures n.numberType == Overflow <==> v >= TWO_TO_64
    ensures n.numberType == SInt64 <==> v < TWO_TO_63
    ensures v < TWO_TO_64 ==> n.value == v
  {
    if v < TWO_TO_63 then Number(SInt64, v) else if v < TWO_TO_64 then Number(UInt64Type, v) else OVERFLOWN
  }

  /** The number of a string: none for empty or non-numeric text, the marker for non-ASCII text. */
  function Parsed(t: Text): Option<Number> {
    if t.bytes == [] then None
    else if !IsAscii(t.bytes) then Some(OVERFLOWN)
    else match Denotes(t.bytes) case None => None case Some(v) => Some(NumberFor(v))
  }

  method CreateNumber(t: Text) returns (r: Option<Number>)
    requires ValidText(t)
    ensures r == Parsed(t)
    ensures t.bytes == [] ==> r == None
    ensures (exists i :: 0 <= i < |t.bytes| && t.bytes[i] >= 0x80) ==> r == Some(Number(Overflow, 0))
    ensures t.bytes != [] && (forall i :: 0 <= i < |t.bytes| ==> t.bytes[i] < 0x80) ==>
              match Denotes(t.bytes)
              case None => r == None
              case Some(v) =>
                r == Some(if v < 0x8000_0000_0000_0000 then Number(SInt64, v)
                          else if v < 0x1_0000_0000_0000_0000 then Number(UInt64Type, v)
                          else Number(Overflow, 0))
  {
    hide Denotes;
    if |t.bytes| <= 0 { return None; }
    var ascii := ValidateEncoding(ASCII, t.bytes);
    if !ascii { return Some(OVERFLOWN); }
    var e := Extract(t.bytes);
    match e
    case NoMatch => return None;
    case TooLarge => return Some(OVERFLOWN);
    case Extracted(num) =>
      if num <= TWO_TO_63 - 1 { return Some(Number(SInt64, num)); }
      return Some(Number(UInt64Type, num));
  }

  method IsNumber(t: Text) returns (yes: bool)
    requires ValidText(t)
    ensures yes <==> (forall i :: 0 <= i < |t.bytes| ==> t.bytes[i] < 0x80) && Denotes(t.bytes).Some?
  {
    hide Denotes;
    var ascii := ValidateEncoding(ASCII, t.bytes);
    if !ascii { return false; }
    var e := Extract(t.bytes);
    return e != NoMatch;
  }

  /**
    The test and the conversion agree exactly on non-empty ASCII strings: the empty string passes
    the test but has no number, and non-ASCII text fails it but converts to the overflow marker.
   */
  lemma TestAndConversionAgree(t: Text)
    ensures (IsAscii(t.bytes) && Denotes(t.bytes).Some? <==> Parsed(t).Some?) <==> t.bytes != [] && IsAscii(t.bytes)
  {
    if t.bytes == [] { assert IsDigits(t.bytes, 10); }
  }

  // ---- printing ----

  function Decimal(n: nat): seq<Byte> {
    if n < 10 then [0x30 + n] else Decimal(n / 10) + [0x30 + n % 10]
  }

  /** Decimal text; "overflown" for the marker. Values above the signed range print unsigned. */
  function Description(n: Number): seq<Byte>
    requires ValidNumber(n)
  {
    if n.numberType == Overflow then [0x6F, 0x76, 0x65, 0x72, 0x66, 0x6C, 0x6F, 0x77, 0x6E]
    else if n.value >= 0 then Decimal(n.value)
    else [0x2D] + Decimal(-n.value)
  }

  lemma {:induction false} DecimalDigits(n: nat)
    ensures Decimal(n) != [] && IsDigits(Decimal(n), 10) && ValueOf(Decimal(n), 10) == n
  {
    if n >= 10 {
      DecimalDigits(n / 10);
      var s := Decimal(n);
      assert s[..|s| - 1] == Decimal(n / 10);
    } else {
      assert Decimal(n)[..0] == [];
    }
  }

  lemma DigitsAreAscii(s: seq<Byte>)
    requires IsDigits(s, 10)
    ensures IsAscii(s) && NulFree(s)
  {
    forall i | 0 <= i < |s| ensures 0 < s[i] <= 0x7F { assert IsDigit(s[i], 10); }
  }

  lemma DecimalDenotes(s: seq<Byte>)
    requires IsDigits(s, 10)
    ensures Denotes(s) == Some(ValueOf(s, 10))
  {
    if |s| >= 2 { assert IsDigit(s[1], 10); }
  }

  /**
    Parsing a printed number gives back its value exactly when the value is not negative; it gives
    back the very number exactly when that has the type the parser would choose.
   */
  lemma PrintThenParse(n: Number, encoding: Encoding)
    requires ValidNumber(n)
    ensures var r := Parsed(Text(encoding, Description(n)));
            && (r.Some? && r.value.value == n.value <==> n.value >= 0 && n.numberType != Overflow)
            && (r == Some(n) <==> n.value >= 0 && n.numberType == (if n.value < TWO_TO_63 then SInt64 else UInt64Type))
  {
    var s := Description(n);
    if n.numberType == Overflow {
      assert !IsDigit(s[0], 10);
      assert s[0] != 0x30 && s[0] != 0x27;
    } else if n.value >= 0 {
      DecimalDigits(n.value);
      DigitsAreAscii(s);
      DecimalDenotes(s);
    } else {
      assert s[0] == 0x2D && !IsDigit(s[0], 10);
    }
  }

  // ---- text of a number in any base ----

  /** The digits up to fifteen, with small or capital letters. */
  function Digit(d: nat, capitals: bool): Byte
    requires d < 16
  {
    if capitals
    then [0x30, 0x31, 0x32, 0x33, 0x34, 0x35, 0x36, 0x37, 0x38, 0x39, 0x41, 0x42, 0x43, 0x44, 0x45, 0x46][d]
    else [0x30, 0x31, 0x32, 0x33, 0x34, 0x35, 0x36, 0x37, 0x38, 0x39, 0x61, 0x62, 0x63, 0x64, 0x65, 0x66][d]
  }

  /** A byte is a digit of value `d` exactly when it is one of the two written forms of `d`. */
  lemma DigitsAre(b: Byte, d: nat)
    requires d < 16
    ensures DigitValue(b) == Some(d) <==> b == Digit(d, false) || b == Digit(d, true)
    ensures DigitValue(b).Some? ==> DigitValue(b).value < 16
  {
  }

  /** The number printed in a base from two to sixteen, without leading zeros. */
  function TextIn(n: nat, base: nat, capitals: bool): (s: seq<Byte>)
    requires 2 <= base <= 16
    ensures s != []
  {
    if n < base then [Digit(n, capitals)] else TextIn(n / base, base, capitals) + [Digit(n % base, capitals)]
  }

  /** Digit text of any base has the value that it prints. */
  lemma {:induction false} TextDenotes(n: nat, base: nat, capitals: bool)
    requires 2 <= base <= 16
    ensures IsDigits(TextIn(n, base, capitals), base) && ValueOf(TextIn(n, base, capitals), base) == n
    decreases n
  {
    hide DigitValue, Digit;
    var s, d := TextIn(n, base, capitals), n % base;
    if n < base {
      DigitsAre(s[0], n);
      assert s[..0] == [];
    } else {
      QuotientSmaller(n, base);
      TextDenotes(n / base, base, capitals);
      DigitsAre(s[|s| - 1], d);
      assert s[..|s| - 1] == TextIn(n / base, base, capitals);
      Quotient(n, base);
    }
  }

  lemma QuotientSmaller(n: nat, base: nat)
    requires 2 <= base && n >= base
    ensures n / base < n
  {
    Quotient(n, base);
    TwiceIsLess(n / base, base);
  }

  lemma TwiceIsLess(q: nat, base: nat)
    requires base >= 2
    ensures q * base >= 2 * q
  {
    assert q * base == q * (base - 2) + q * 2;
    assert q * (base - 2) >= 0;
  }

  lemma Quotient(n: nat, base: nat)
    requires base >= 2
    ensures n / base * base + n % base == n
  {
  }

  lemma HexDenotes(marker: Byte, s: seq<Byte>)
    requires (marker == 0x78 || marker == 0x58) && IsDigits(s, 16)
    ensures Denotes([0x30, marker] + s) == Some(ValueOf(s, 16))
  {
    hide DigitValue, ValueOf;
    assert ([0x30, marker] + s)[2..] == s;
  }

  lemma BinaryDenotes(marker: Byte, s: seq<Byte>)
    requires (marker == 0x62 || marker == 0x42) && IsDigits(s, 2)
    ensures Denotes([0x30, marker] + s) == Some(ValueOf(s, 2))
  {
    hide DigitValue, ValueOf;
    assert ([0x30, marker] + s)[2..] == s;
  }

  /** Behind either marker, in either case of letters, printed numbers are read back. */
  lemma MarkedText(n: nat, capitals: bool)
    ensures Denotes([0x30, 0x78] + TextIn(n, 16, capitals)) == Some(n)
    ensures Denotes([0x30, 0x58] + TextIn(n, 16, capitals)) == Some(n)
    ensures Denotes([0x30, 0x62] + TextIn(n, 2, capitals)) == Some(n)
    ensures Denotes([0x30, 0x42] + TextIn(n, 2, capitals)) == Some(n)
    ensures Denotes(TextIn(n, 10, capitals)) == Some(n)
  {
    hide Denotes, TextIn, ValueOf, IsDigit;
    TextDenotes(n, 16, capitals);
    TextDenotes(n, 2, capitals);
    TextDenotes(n, 10, capitals);
    HexDenotes(0x78, TextIn(n, 16, capitals));
    HexDenotes(0x58, TextIn(n, 16, capitals));
    BinaryDenotes(0x62, TextIn(n, 2, capitals));
    BinaryDenotes(0x42, TextIn(n, 2, capitals));
    DecimalDenotes(TextIn(n, 10, capitals));
  }

  /** Decimal text of any length, leading zeros included, denotes the sum of its digits in their places. */
  lemma AnyDecimalText(s: seq<Byte>, d: nat)
    requires (forall i :: 0 <= i < |s| ==> 0x30 <= s[i] <= 0x39) && d < 10
    ensures Denotes([]) == Some(0) && Denotes(s).Some?
    ensures Denotes(s + [0x30 + d]) == Some(Denotes(s).value * 10 + d)
  {
    hide Denotes;
    assert IsDigits([], 10) && IsDigits(s, 10) && IsDigits(s + [0x30 + d], 10);
    DecimalDenotes([]);
    DecimalDenotes(s);
    DecimalDenotes(s + [0x30 + d]);
    assert (s + [0x30 + d])[..|s|] == s;
  }

  /** The same behind the hexadecimal marker. */
  lemma AnyHexText(marker: Byte, s: seq<Byte>, d: nat, capitals: bool)
    requires (marker == 0x78 || marker == 0x58) && d < 16
    requires forall i :: 0 <= i < |s| ==> 0x30 <= s[i] <= 0x39 || 0x41 <= s[i] <= 0x46 || 0x61 <= s[i] <= 0x66
    ensures Denotes([0x30, marker] + []) == Some(0) && Denotes([0x30, marker] + s).Some?
    ensures Denotes([0x30, marker] + (s + [Digit(d, capitals)])) == Some(Denotes([0x30, marker] + s).value * 16 + d)
  {
    DigitsAre(Digit(d, capitals), d);
    assert IsDigits(s, 16);
    hide Denotes, DigitValue;
    HexDenotes(marker, []);
    HexDenotes(marker, s);
    HexDenotes(marker, s + [Digit(d, capitals)]);
    assert (s + [Digit(d, capitals)])[..|s|] == s;
  }

  /** The same behind the binary marker. */
  lemma AnyBinaryText(marker: Byte, s: seq<Byte>, d: nat)
    requires (marker == 0x62 || marker == 0x42) && d < 2
    requires forall i :: 0 <= i < |s| ==> s[i] == 0x30 || s[i] == 0x31
    ensures Denotes([0x30, marker] + []) == Some(0) && Denotes([0x30, marker] + s).Some?
    ensures Denotes([0x30, marker] + (s + [0x30 + d])) == Some(Denotes([0x30, marker] + s).value * 2 + d)
  {
    assert IsDigits(s, 2) && IsDigits([0x30 + d], 2);
    hide Denotes;
    BinaryDenotes(marker, []);
    BinaryDenotes(marker, s);
    BinaryDenotes(marker, s + [0x30 + d]);
    assert (s + [0x30 + d])[..|s|] == s;
  }

  /** Nothing else denotes a number. */
  lemma OnlyTheseDenote(s: seq<Byte>)
    requires Denotes(s).Some? && s != [] && s[0] != 0x27
    ensures || (forall i :: 0 <= i < |s| ==> 0x30 <= s[i] <= 0x39)
            || (|s| >= 2 && s[0] == 0x30 && (s[1] == 0x78 || s[1] == 0x58) &&
                forall i :: 2 <= i < |s| ==> 0x30 <= s[i] <= 0x39 || 0x41 <= s[i] <= 0x46 || 0x61 <= s[i] <= 0x66)
            || (|s| >= 2 && s[0] == 0x30 && (s[1] == 0x62 || s[1] == 0x42) &&
                forall i :: 2 <= i < |s| ==> s[i] == 0x30 || s[i] == 0x31)
  {
    if IsHex(s) {
      forall i | 2 <= i < |s| ensures IsDigit(s[i], 16) { assert s[i] == s[2..][i - 2]; }
    } else if IsBinary(s) {
      forall i | 2 <= i < |s| ensures IsDigit(s[i], 2) { assert s[i] == s[2..][i - 2]; }
    } else {
      forall i | 0 <= i < |s| ensures IsDigit(s[i], 10) {}
    }
  }

  /** Text in quotes: one character, or one of the seven escapes. */
  lemma QuotedText(c: Byte)
    requires c != 0x5C
    ensures Denotes([0x27, c, 0x27]) == Some(c)
    ensures Denotes([0x27, 0x5C, 0x6E, 0x27]) == Some(10) && Denotes([0x27, 0x5C, 0x74, 0x27]) == Some(9)
    ensures Denotes([0x27, 0x5C, 0x72, 0x27]) == Some(13) && Denotes([0x27, 0x5C, 0x62, 0x27]) == Some(8)
    ensures Denotes([0x27, 0x5C, 0x30, 0x27]) == Some(0) && Denotes([0x27, 0x5C, 0x5C, 0x27]) == Some(92)
    ensures Denotes([0x27, 0x5C, 0x27, 0x27]) == Some(39)
    ensures c !in {0x6E, 0x74, 0x72, 0x62, 0x30, 0x27} ==> Denotes([0x27, 0x5C, c, 0x27]) == None
  {
    hide Denotes, Escape, CharLiteral;
    QuoteIsNoDigit([0x27, c, 0x27]);
    EscapeText(0x6E);
    EscapeText(0x74);
    EscapeText(0x72);
    EscapeText(0x62);
    EscapeText(0x30);
    EscapeText(0x5C);
    EscapeText(0x27);
    EscapeText(c);
    OneCharText(c);
    EscapesAre(c);
  }

  lemma QuoteIsNoDigit(s: seq<Byte>)
    requires s != [] && s[0] == 0x27
    ensures Denotes(s) == CharLiteral(s)
  {
    assert !IsDigit(s[0], 10);
  }

  lemma EscapeText(b: Byte)
    ensures Denotes([0x27, 0x5C, b, 0x27]) == Escape(b)
  {
    hide Denotes;
    QuoteIsNoDigit([0x27, 0x5C, b, 0x27]);
  }

  lemma OneCharText(c: Byte)
    requires c != 0x5C
    ensures CharLiteral([0x27, c, 0x27]) == Some(c)
  {
  }

  lemma EscapesAre(c: Byte)
    ensures Escape(0x6E) == Some(10) && Escape(0x74) == Some(9) && Escape(0x72) == Some(13) && Escape(0x62) == Some(8)
    ensures Escape(0x30) == Some(0) && Escape(0x5C) == Some(92) && Escape(0x27) == Some(39)
    ensures c !in {0x6E, 0x74, 0x72, 0x62, 0x30, 0x5C, 0x27} ==> Escape(c) == None
  {
  }

  /** Any other text in quotes: the character after the backslash decides, and only one may stand alone. */
  lemma LongQuotedText(s: seq<Byte>)
    requires s != [] && s[0] == 0x27
    ensures Denotes(s).Some? ==> |s| >= 3 && s[|s| - 1] == 0x27 && (|s| == 3 || s[1] == 0x5C)
    ensures |s| > 3 && s[|s| - 1] == 0x27 && s[1] == 0x5C ==> Denotes(s) == Denotes([0x27, 0x5C, s[2], 0x27])
  {
    hide Denotes, Escape;
    QuoteIsNoDigit(s);
    if |s| > 3 { EscapeText(s[2]); }
  }

  /** What a number prints as. */
  lemma DescriptionIs(n: Number)
    requires ValidNumber(n)
    ensures n.numberType == Overflow ==> Description(n) == [0x6F, 0x76, 0x65, 0x72, 0x66, 0x6C, 0x6F, 0x77, 0x6E]
    ensures n.numberType != Overflow && n.value >= 0 ==> Description(n) == TextIn(n.value, 10, false)
    ensures n.numberType != Overflow && n.value < 0 ==> Description(n) == [0x2D] + TextIn(-n.value, 10, false)
  {
    DecimalIsText(n.value);
    DecimalIsText(-n.value);
  }

  lemma {:induction false} DecimalIsText(n: int)
    ensures n >= 0 ==> Decimal(n) == TextIn(n, 10, false)
    decreases if n >= 0 then n else 0
  {
    if n >= 10 { DecimalIsText(n / 10); }
  }

  /** The ranges of the types. */
  lemma RangesAre(n: Number)
    ensures ValidNumber(n) <==>
            match n.numberType
            case Overflow => n.value == 0
            case SInt8 => -128 <= n.value <= 127
            case SInt16 => -32768 <= n.value <= 32767
            case SInt32 => -2147483648 <= n.value <= 2147483647
            case SInt64 => -9223372036854775808 <= n.value <= 9223372036854775807
            case UInt8 => 0 <= n.value <= 255
            case UInt16 => 0 <= n.value <= 65535
            case UInt32 => 0 <= n.value <= 4294967295
            case UInt64Type => 0 <= n.value <= 18446744073709551615
  {
  }

  // ---- comparing ----

  /** Same type and same value. */
  predicate NumberEqual(a: Number, b: Number) {
    a.numberType == b.numberType && a.value == b.value
  }
}
