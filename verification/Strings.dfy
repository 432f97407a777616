/**
  Encoded strings: creation, equality and in-place editing.

  An immutable string is a value, a `Text`; a mutable one is a `MutableString`, which owns a
  NUL-terminated buffer. Both promise that the bytes contain no NUL and satisfy the validator of
  their encoding.
 */
module Strings {
  import opened Bits
  import opened Encodings
  import opened Options
  import opened Boundaries

  datatype Text = Text(encoding: Encoding, bytes: seq<Byte>)

  predicate NulFree(s: seq<Byte>) { forall i :: 0 <= i < |s| ==> s[i] != 0 }

  predicate ValidText(t: Text) { NulFree(t.bytes) && IsText(t.encoding, t.bytes) }

  // ---- creation ----

  /** The bytes of a buffer up to its first NUL, and at most `length` of them. */
  function UpToNul(buffer: seq<Byte>, length: nat): (s: seq<Byte>)
    requires length <= |buffer| || 0 in buffer
    ensures NulFree(s) && |s| <= length && s <= buffer
    ensures forall i :: 0 <= i < |s| ==> s[i] != 0
    ensures |s| == length || (|s| < |buffer| && buffer[|s|] == 0)
    decreases length
  {
    if length == 0 || buffer[0] == 0 then []
    else [buffer[0]] + UpToNul(buffer[1..], length - 1)
  }

  lemma {:induction false} UpToNulOf(s: seq<Byte>, buffer: seq<Byte>)
    requires NulFree(s) && s <= buffer
    ensures UpToNul(buffer, |s|) == s
  {
    if s == [] {
    } else {
      assert buffer[0] == s[0];
      UpToNulOf(s[1..], buffer[1..]);
    }
  }

  method StrNLen(buffer: seq<Byte>, length: nat) returns (n: nat)
    requires length <= |buffer| || 0 in buffer
    ensures n == |UpToNul(buffer, length)|
  {
    n := 0;
    while n < length && buffer[n] != 0
      invariant n <= length && n <= |buffer|
      invariant forall i :: 0 <= i < n ==> buffer[i] != 0
      decreases length - n
    {
      n := n + 1;
    }
  }

  /** A string is created exactly when the bytes up to the first NUL fit the encoding. */
  method Create(buffer: seq<Byte>, length: int, encoding: Encoding) returns (r: Option<Text>)
    requires length <= |buffer| || 0 in buffer
    ensures r.Some? <==> length >= 0 && IsText(encoding, UpToNul(buffer, length))
    ensures encoding == UTF8 ==>
              (r.Some? <==> length >= 0 && exists cs: seq<Scalar> :: EncodeAll(cs) == UpToNul(buffer, length))
    ensures encoding == ASCII ==>
              (r.Some? <==> length >= 0 && forall i :: 0 <= i < |UpToNul(buffer, length)| ==> buffer[i] < 0x80)
    ensures r.Some? ==> r.value == Text(encoding, UpToNul(buffer, length)) && ValidText(r.value)
  {
    hide IsText, EncodeAll;
    if length < 0 { return None; }
    TextMeans(encoding, UpToNul(buffer, length));
    var n := StrNLen(buffer, length);
    assert buffer[..n] == UpToNul(buffer, length);
    var ok := ValidateEncoding(encoding, buffer[..n]);
    if !ok { return None; }
    return Some(Text(encoding, buffer[..n]));
  }

  /** Creation from valid NUL-free bytes cannot fail. */
  method CreateFromPart(bytes: seq<Byte>, encoding: Encoding) returns (r: Option<Text>)
    requires NulFree(bytes)
    ensures r == if IsText(encoding, bytes) then Some(Text(encoding, bytes)) else None
  {
    UpToNulOf(bytes, bytes);
    r := Create(bytes, |bytes|, encoding);
  }

  // ---- comparison ----

  /** Two strings of whatever encodings are equal exactly when their bytes are. */
  method Equal(a: Text, b: Text) returns (same: bool)
    requires ValidText(a) && ValidText(b)
    ensures same <==> a.bytes == b.bytes
  {
    if |a.bytes| != |b.bytes| { return false; }
    if a.encoding != b.encoding {
      var aComplies := ValidateEncoding(b.encoding, a.bytes);
      var bComplies := ValidateEncoding(a.encoding, b.bytes);
      if !aComplies || !bComplies { return false; }
    }
    return a.bytes == b.bytes;
  }

  /**
    Does the range of `s` hold the bytes of `part`? The encodings never change the answer. A range
    longer than `part` is compared with its terminator and with what lies `behind` it in memory,
    and the terminator already tells them apart.
   */
  method EqualRange(s: Text, part: Text, location: nat, length: nat, behind: seq<Byte>) returns (same: bool)
    requires ValidText(s) && ValidText(part) && length <= |part.bytes| + 1 + |behind|
    ensures same <==>
            && length == |part.bytes| && location + length <= |s.bytes|
            && s.bytes[location..location + length] == part.bytes
  {
    hide IsUtf8;
    if |s.bytes| - location < length { return false; }
    if length < |part.bytes| { return false; }
    var window, other := s.bytes[location..location + length], (part.bytes + [0] + behind)[..length];
    RangesDiffer(s.bytes, part.bytes, location, length, behind);
    if s.encoding != part.encoding {
      if window == part.bytes && IsAscii(part.bytes) { AsciiIsUtf8(part.bytes); }
      var sComplies := ValidateEncoding(part.encoding, window);
      var partComplies := ValidateEncoding(s.encoding, other);
      if !sComplies || !partComplies { return false; }
    }
    return window == other;
  }

  /** Bytes without a NUL differ from a longer stretch at the terminator, at the latest. */
  lemma RangesDiffer(s: seq<Byte>, part: seq<Byte>, location: nat, length: nat, behind: seq<Byte>)
    requires NulFree(s) && location + length <= |s| && |part| <= length <= |part| + 1 + |behind|
    ensures length == |part| ==> (part + [0] + behind)[..length] == part
    ensures length > |part| ==> s[location..location + length] != (part + [0] + behind)[..length]
  {
    if length > |part| {
      assert s[location..location + length][|part|] == s[location + |part|];
      assert (part + [0] + behind)[..length][|part|] == 0;
    }
  }

  // ---- trimming, on values ----

  predicate IsWhitespace(b: Byte) { b == 0x20 || 0x09 <= b <= 0x0D }

  predicate Blank(s: seq<Byte>) { forall i :: 0 <= i < |s| ==> IsWhitespace(s[i]) }

  function TrimFront(s: seq<Byte>): seq<Byte> {
    if s != [] && IsWhitespace(s[0]) then TrimFront(s[1..]) else s
  }

  function TrimBack(s: seq<Byte>): seq<Byte> {
    if s != [] && IsWhitespace(s[|s| - 1]) then TrimBack(s[..|s| - 1]) else s
  }

  function Trimmed(s: seq<Byte>): seq<Byte> { TrimBack(TrimFront(s)) }

  /** `t` is `s` without its maximal whitespace ends. */
  predicate IsTrimOf(t: seq<Byte>, s: seq<Byte>, from: nat) {
    && from + |t| <= |s| && t == s[from..from + |t|]
    && Blank(s[..from]) && Blank(s[from + |t|..])
    && (t != [] ==> !IsWhitespace(t[0]) && !IsWhitespace(t[|t| - 1]))
  }

  lemma {:induction false} TrimFrontSkips(s: seq<Byte>, from: nat)
    requires from <= |s| && Blank(s[..from])
    ensures TrimFront(s) == TrimFront(s[from..])
  {
    if from > 0 {
      assert s[..from][0] == s[0];
      assert s[1..][..from - 1] == s[..from][1..];
      TrimFrontSkips(s[1..], from - 1);
      assert s[1..][from - 1..] == s[from..];
    } else {
      assert s[from..] == s;
    }
  }

  lemma {:induction false} TrimBackSkips(s: seq<Byte>, to: nat)
    requires to <= |s| && Blank(s[to..])
    ensures TrimBack(s) == TrimBack(s[..to])
  {
    if to < |s| {
      var w := s[to..];
      assert w[|w| - 1] == s[|s| - 1];
      assert s[..|s| - 1][to..] == w[..|w| - 1];
      TrimBackSkips(s[..|s| - 1], to);
      assert s[..|s| - 1][..to] == s[..to];
    } else {
      assert s[..to] == s;
    }
  }

  /** Removing the maximal whitespace ends has one result, `Trimmed`. */
  lemma TrimIsTrimmed(t: seq<Byte>, s: seq<Byte>, from: nat)
    requires IsTrimOf(t, s, from)
    ensures Trimmed(s) == t
  {
    TrimFrontSkips(s, from);
    var rest := s[from..];
    if t == [] {
      assert rest == s[from + |t|..];
      TrimFrontSkips(rest, |rest|);
      assert rest[|rest|..] == [] && rest[..|rest|] == rest;
    } else {
      assert rest[0] == t[0];
      assert rest[|t|..] == s[from + |t|..] && rest[..|t|] == t;
      TrimBackSkips(rest, |t|);
    }
  }

  lemma {:induction false} TrimFrontShape(s: seq<Byte>) returns (from: nat)
    ensures from <= |s| && TrimFront(s) == s[from..] && Blank(s[..from])
    ensures from < |s| ==> !IsWhitespace(s[from])
  {
    if s != [] && IsWhitespace(s[0]) {
      var k := TrimFrontShape(s[1..]);
      from := k + 1;
      assert s[..from] == [s[0]] + s[1..][..k];
    } else {
      from := 0;
    }
  }

  lemma BlankJoin(a: seq<Byte>, b: seq<Byte>)
    requires Blank(a) && Blank(b)
    ensures Blank(a + b)
  {
  }

  lemma {:induction false} TrimBackShape(s: seq<Byte>) returns (to: nat)
    ensures to <= |s| && TrimBack(s) == s[..to] && Blank(s[to..])
    ensures to > 0 ==> !IsWhitespace(s[to - 1])
  {
    to := |s|;
    if s != [] && IsWhitespace(s[|s| - 1]) {
      hide Blank;
      var init, last := s[..|s| - 1], s[|s| - 1..];
      to := TrimBackShape(init);
      assert Blank(last) by { OneBlank(s[|s| - 1]); assert last == [s[|s| - 1]]; }
      BlankJoin(init[to..], last);
      assert s[to..] == init[to..] + last && init[..to] == s[..to];
    }
  }

  lemma OneBlank(b: Byte)
    requires IsWhitespace(b)
    ensures Blank([b])
  {
  }

  lemma TrimmedIsTrim(s: seq<Byte>) returns (from: nat)
    ensures IsTrimOf(Trimmed(s), s, from)
  {
    from := TrimFrontShape(s);
    var rest := s[from..];
    var to := TrimBackShape(rest);
    assert rest[..to] == s[from..from + to] && rest[to..] == s[from + to..];
    if to > 0 { assert rest[..to][0] == s[from]; }
  }

  /** An empty slice; the parameter stands for any way to write it. */
  lemma EmptyIsBlank(s: seq<Byte>)
    requires s == []
    ensures Blank(s)
  {
  }

  lemma BlankUpTo(s: seq<Byte>, k: nat)
    requires k < |s| && Blank(s[..k]) && IsWhitespace(s[k])
    ensures Blank(s[..k + 1])
  {
    OneBlank(s[k]);
    BlankJoin(s[..k], [s[k]]);
    assert s[..k + 1] == s[..k] + [s[k]];
  }

  lemma BlankFrom(s: seq<Byte>, k: nat)
    requires k < |s| && Blank(s[k + 1..]) && IsWhitespace(s[k])
    ensures Blank(s[k..])
  {
    OneBlank(s[k]);
    BlankJoin([s[k]], s[k + 1..]);
    assert s[k..] == [s[k]] + s[k + 1..];
  }

  lemma TrimAllBlank(s: seq<Byte>)
    requires Blank(s[..|s|])
    ensures Trimmed(s) == []
  {
    assert s[|s|..|s|] == [] && s[|s|..] == [];
    TrimIsTrimmed([], s, |s|);
  }

  lemma TrimBetween(s: seq<Byte>, from: nat, to: nat)
    requires from < to <= |s| && Blank(s[..from]) && Blank(s[to..])
    requires !IsWhitespace(s[from]) && !IsWhitespace(s[to - 1])
    ensures Trimmed(s) == s[from..to]
  {
    TrimIsTrimmed(s[from..to], s, from);
  }

  /** What trimming leaves, with the whitespace characters spelled out: space, and HT to CR. */
  lemma TrimmedMeans(s: seq<Byte>) returns (from: nat)
    ensures var t := Trimmed(s);
            && from + |t| <= |s| && t == s[from..from + |t|]
            && (forall i :: 0 <= i < |s| && !(from <= i < from + |t|) ==> s[i] == 0x20 || 0x09 <= s[i] <= 0x0D)
            && (t != [] ==> t[0] != 0x20 && !(0x09 <= t[0] <= 0x0D))
            && (t != [] ==> t[|t| - 1] != 0x20 && !(0x09 <= t[|t| - 1] <= 0x0D))
  {
    hide Trimmed;
    from := TrimmedIsTrim(s);
    var to := from + |Trimmed(s)|;
    forall i | 0 <= i < |s| && !(from <= i < to) ensures IsWhitespace(s[i]) {
      if i < from { assert s[i] == s[..from][i]; } else { assert s[i] == s[to..][i - to]; }
    }
  }

  lemma TrimIdempotent(s: seq<Byte>)
    ensures Trimmed(Trimmed(s)) == Trimmed(s)
  {
    var t := Trimmed(s);
    var from := TrimmedIsTrim(s);
    assert t[..0] == [] && t[|t|..] == [] && t[0..|t|] == t;
    TrimIsTrimmed(t, t, 0);
  }

  /** Whitespace is ASCII, so trimming cuts at character boundaries. */
  lemma TrimKeepsText(encoding: Encoding, s: seq<Byte>)
    requires IsText(encoding, s)
    ensures IsText(encoding, Trimmed(s))
  {
    hide Trimmed;
    var from := TrimmedIsTrim(s);
    var t := Trimmed(s);
    var to := from + |t|;
    if encoding.UTF8? {
      hide IsUtf8;
      EmptyIsUtf8();
      if t != [] {
        if to < |s| { assert s[to..][0] == s[to]; }
        CutAtBoundary(s, to);
        assert s[..to][..from] == s[..from] && s[..to][from..] == t;
        if from > 0 { BoundaryAfterBlank(s[..to], from); }
      }
    }
  }

  lemma BoundaryAfterBlank(s: seq<Byte>, from: nat)
    requires IsUtf8(s) && 0 < from <= |s| && Blank(s[..from])
    ensures IsUtf8(s[from..])
  {
    hide IsUtf8;
    forall i | 0 <= i < from ensures s[i] <= 0x7F { assert s[i] == s[..from][i]; }
    AsciiIsUtf8(s[..from]);
    JoinUtf8(s[..from], s[from..]);
    assert s == s[..from] + s[from..];
  }

  lemma TrimKeepsValid(t: Text)
    requires ValidText(t)
    ensures ValidText(t.(bytes := Trimmed(t.bytes)))
  {
    hide Trimmed;
    TrimKeepsText(t.encoding, t.bytes);
    var from := TrimmedIsTrim(t.bytes);
  }

  lemma JoinText(encoding: Encoding, a: seq<Byte>, b: seq<Byte>)
    requires IsText(encoding, a) && IsText(encoding, b)
    ensures IsText(encoding, a + b)
  {
    if encoding.UTF8? { JoinUtf8(a, b); }
  }

  lemma JoinNulFree(a: seq<Byte>, b: seq<Byte>)
    requires NulFree(a) && NulFree(b)
    ensures NulFree(a + b)
  {
  }

  // ---- deleting, on values ----

  /** When deleting a range keeps the text valid: always in ASCII, and without tearing in UTF-8. */
  predicate CleanDelete(t: Text, from: nat, to: nat)
    requires from <= to <= |t.bytes|
  {
    t.encoding.UTF8? ==>
      var torn := TornHalves(t.bytes, from, to);
      torn == [] || IsChar(torn)
  }

  lemma DeleteKeepsValid(t: Text, from: nat, to: nat)
    requires ValidText(t) && from <= to <= |t.bytes|
    ensures ValidText(t.(bytes := DeleteBytes(t.bytes, from, to))) <==> CleanDelete(t, from, to)
  {
    hide IsUtf8, TornHalves, NulFree;
    DeleteNulFree(t.bytes, from, to);
    match t.encoding
    case ASCII => DeleteAscii(t.bytes, from, to);
    case UTF8 => DeleteKeepsUtf8(t.bytes, from, to);
  }

  /** `n` items moved down from `from` to `to`; everything else stays. */
  function Moved<T>(s: seq<T>, to: nat, from: nat, n: nat): (r: seq<T>)
    requires to <= from && from + n <= |s|
    ensures |r| == |s|
  {
    s[..to] + s[from..from + n] + s[to + n..]
  }

  lemma MovedAt<T>(s: seq<T>, to: nat, from: nat, n: nat, k: nat)
    requires to <= from && from + n <= |s| && k < |s|
    ensures Moved(s, to, from, n)[k] == s[if to <= k < to + n then k - to + from else k]
  {
  }

  /** Moving the rest of a terminated string down over a range deletes the range. */
  lemma MovedIsDeleted(s: seq<Byte>, length: nat, location: nat, count: nat)
    requires length < |s| && s[length] == 0 && NulFree(s[..length]) && location + count <= length
    ensures var r := Moved(s, location, location + count, length - (location + count) + 1);
            && r[..length - count] == DeleteBytes(s[..length], location, location + count)
            && r[length - count] == 0 && NulFree(r[..length - count])
  {
    DeleteNulFree(s[..length], location, location + count);
  }

  /** Moving a range of a NUL-free string to the front leaves it there. */
  lemma MovedIsKept(s: seq<Byte>, length: nat, start: nat, count: nat)
    requires length < |s| && NulFree(s[..length]) && start + count <= length
    ensures Moved(s, 0, start, count)[..count] == s[start..start + count] && NulFree(s[start..start + count])
    ensures start == 0 ==> Moved(s, 0, start, count) == s
  {
    assert s[start..start + count] == s[..length][start..start + count];
  }

  lemma DeleteAscii(s: seq<Byte>, from: nat, to: nat)
    requires IsAscii(s) && from <= to <= |s|
    ensures IsAscii(DeleteBytes(s, from, to))
  {
  }

  lemma DeleteNulFree(s: seq<Byte>, from: nat, to: nat)
    requires NulFree(s) && from <= to <= |s|
    ensures NulFree(DeleteBytes(s, from, to))
  {
  }

  // ---- the mutable string ----

  class MutableString {
    const encoding: Encoding
    var buffer: array<Byte>
    var length: nat

    /** NUL-free and NUL-terminated. */
    predicate Terminated()
      reads this, buffer
    {
      length < buffer.Length && buffer[length] == 0 && NulFree(buffer[..length])
    }

    function Value(): Text
      reads this, buffer
      requires Terminated()
    {
      Text(encoding, buffer[..length])
    }

    predicate Valid()
      reads this, buffer
    {
      Terminated() && ValidText(Value())
    }

    /** A mutable copy of a valid string. */
    constructor (t: Text)
      requires ValidText(t)
      ensures Valid() && fresh(buffer) && Value() == t
    {
      encoding := t.encoding;
      length := |t.bytes|;
      buffer := new Byte[|t.bytes| + 1](i requires 0 <= i => if i < |t.bytes| then t.bytes[i] else 0);
      new;
      assert buffer[..length] == t.bytes;
    }

    /** Reallocates to hold `extra` more bytes and the terminator; the bytes so far are kept. */
    method Grow(extra: nat)
      requires Valid()
      modifies this`buffer
      ensures fresh(buffer) && buffer.Length == length + extra + 1
      ensures buffer[..length] == old(buffer[..length])
    {
      var p := new Byte[length + extra + 1](_ => 0);
      forall i | 0 <= i < length { p[i] := buffer[i]; }
      assert p[..length] == buffer[..length];
      buffer := p;
    }

    /** Appends when the bytes fit this string's encoding and memory is available. */
    method AppendString(t: Text, memory: bool) returns (ok: bool)
      requires Valid() && ValidText(t)
      modifies this`buffer, this`length
      ensures Valid()
      ensures ok <==> IsText(encoding, t.bytes) && memory
      ensures encoding == UTF8 ==> (ok <==> memory && exists cs: seq<Scalar> :: EncodeAll(cs) == t.bytes)
      ensures encoding == ASCII ==> (ok <==> memory && forall i :: 0 <= i < |t.bytes| ==> t.bytes[i] < 0x80)
      ensures Value() == if ok then Text(encoding, old(Value()).bytes + t.bytes) else old(Value())
      ensures buffer[..length] == old(buffer[..length]) + if ok then t.bytes else []
      ensures if ok then fresh(buffer) else buffer == old(buffer)
    {
      hide NulFree, IsText, EncodeAll;
      TextMeans(encoding, t.bytes);
      ok := ValidateEncoding(encoding, t.bytes);
      if !ok || !memory { return false; }
      ghost var bytes := Value().bytes;
      JoinText(encoding, bytes, t.bytes);
      JoinNulFree(bytes, t.bytes);
      Grow(|t.bytes|);
      forall i | length <= i < length + |t.bytes| { buffer[i] := t.bytes[i - length]; }
      buffer[length + |t.bytes|] := 0;
      length := length + |t.bytes|;
      assert buffer[..length] == bytes + t.bytes;
    }

    /**
      Appends another mutable string, or this very string: the source's buffer is read after the
      reallocation, and it then holds the bytes it had before.
     */
    method AppendMutable(other: MutableString, memory: bool) returns (ok: bool)
      requires Valid() && other.Valid()
      modifies this`buffer, this`length
      ensures Valid()
      ensures ok <==> IsText(encoding, old(other.Value()).bytes) && memory
      ensures Value() == if ok then Text(encoding, old(Value()).bytes + old(other.Value()).bytes) else old(Value())
      ensures buffer[..length] == old(buffer[..length]) + if ok then old(other.buffer[..other.length]) else []
      ensures if ok then fresh(buffer) else buffer == old(buffer)
    {
      hide NulFree, IsText;
      ok := ValidateEncoding(encoding, other.buffer[..other.length]);
      if !ok || !memory { return false; }
      ghost var bytes, appended := Value().bytes, other.Value().bytes;
      JoinText(encoding, bytes, appended);
      JoinNulFree(bytes, appended);
      var n := other.length;
      Grow(n);
      assert other.buffer[..n] == appended;
      forall i | length <= i < length + n { buffer[i] := other.buffer[i - length]; }
      buffer[length + n] := 0;
      assert buffer[..length] == bytes && buffer[length..length + n] == appended;
      length := length + n;
      assert buffer[..length] == bytes + appended;
    }

    /** Moves the `n` bytes at `from` to `to`, as if through a copy. */
    method MoveDown(to: nat, from: nat, n: nat)
      requires to <= from && from + n <= buffer.Length
      modifies buffer
      ensures buffer[..] == Moved(old(buffer[..]), to, from, n)
    {
      hide Moved;
      ghost var s := buffer[..];
      forall i | to <= i < to + n { buffer[i] := buffer[i - to + from]; }
      forall k | 0 <= k < |s| ensures buffer[..][k] == Moved(s, to, from, n)[k] { MovedAt(s, to, from, n, k); }
    }

    /** Keeps `count` bytes from `start` on and terminates them. */
    method KeepRange(start: nat, count: nat)
      requires Terminated() && start + count <= length
      modifies this`length, buffer
      ensures Terminated() && length == count
      ensures buffer[..length] == old(buffer[start..start + count])
    {
      hide NulFree;
      ghost var all := buffer[..];
      assert all[..length] == buffer[..length];
      MovedIsKept(all, length, start, count);
      if start != 0 { MoveDown(0, start, count); }
      assert buffer[..count] == buffer[..][..count];
      buffer[count] := 0;
      length := count;
    }

    method TrimWhitespace() returns (ok: bool)
      requires Valid()
      modifies this`length, buffer
      ensures Valid() && ok && buffer == old(buffer)
      ensures Value() == Text(encoding, Trimmed(old(Value()).bytes))
      ensures buffer[..length] == Trimmed(old(buffer[..length]))
    {
      hide Trimmed, IsText, ValidText, NulFree, Blank, IsWhitespace;
      ghost var bytes := Value().bytes;
      TrimKeepsValid(Value());
      var start := 0;
      EmptyIsBlank(bytes[..start]);
      while start < length && IsWhitespace(buffer[start])
        invariant start <= length && Blank(bytes[..start])
        modifies {}
      {
        BlankUpTo(bytes, start);
        start := start + 1;
      }
      if start == length {
        TrimAllBlank(bytes);
        KeepRange(start, 0);
        return true;
      }
      var end := length - 1;
      EmptyIsBlank(bytes[end + 1..]);
      while end > start && IsWhitespace(buffer[end])
        invariant start <= end < length && Blank(bytes[end + 1..])
        modifies {}
      {
        BlankFrom(bytes, end);
        end := end - 1;
      }
      TrimBetween(bytes, start, end + 1);
      assert buffer[start..end + 1] == bytes[start..end + 1];
      KeepRange(start, end - start + 1);
      return true;
    }

    /** Closes the gap that removing a range of the string leaves; the terminator moves along. */
    method Collapse(location: nat, count: nat)
      requires Terminated() && location + count <= length
      modifies this`length, buffer
      ensures Terminated()
      ensures buffer[..length] == DeleteBytes(old(buffer[..length]), location, location + count)
    {
      hide NulFree, DeleteBytes, Moved;
      ghost var all := buffer[..];
      assert all[..length] == buffer[..length];
      MovedIsDeleted(all, length, location, count);
      MoveDown(location, location + count, length - (location + count) + 1);
      length := length - count;
      assert buffer[..length] == buffer[..][..length];
    }

    /**
      Removes the bytes of a range that lies in the string. The string stays NUL-free and
      terminated; it stays valid exactly when the range tears no character or joins two halves.
     */
    method DeleteRange(location: int, count: int) returns (ok: bool)
      requires Valid()
      modifies this`length, buffer
      ensures ok <==> location >= 0 && count >= 0 && location + count <= old(length)
      ensures Terminated() && buffer == old(buffer)
      ensures !ok ==> Value() == old(Value())
      ensures ok ==> Value() == Text(encoding, DeleteBytes(old(Value()).bytes, location, location + count))
      ensures ok ==>
                buffer[..length] == old(buffer[..length])[..location] + old(buffer[..length])[location + count..]
      ensures Valid() <==> !ok || CleanDelete(old(Value()), location, location + count)
    {
      hide ValidText, CleanDelete;
      if location < 0 || count < 0 { return false; }
      if length < location + count { return false; }
      DeleteKeepsValid(Value(), location, location + count);
      Collapse(location, count);
      return true;
    }
  }

  // ---- runs of edits ----

  datatype Edit = Append(text: Text) | AppendSelf | Trim | Delete(from: nat, to: nat)

  /** What an edit leaves: refused appends and deletes leave the string alone. */
  function Edited(t: Text, e: Edit): Text {
    match e
    case Append(x) => if IsText(t.encoding, x.bytes) then t.(bytes := t.bytes + x.bytes) else t
    case AppendSelf => t.(bytes := t.bytes + t.bytes)
    case Trim => t.(bytes := Trimmed(t.bytes))
    case Delete(from, to) => if from <= to <= |t.bytes| then t.(bytes := DeleteBytes(t.bytes, from, to)) else t
  }

  /** Every appended string is valid and every delete is clean where it happens. */
  predicate CleanRun(t: Text, edits: seq<Edit>)
    decreases |edits|
  {
    edits != [] ==> CleanEdit(t, edits[0]) && CleanRun(Edited(t, edits[0]), edits[1..])
  }

  predicate CleanEdit(t: Text, e: Edit) {
    && (e.Append? ==> ValidText(e.text))
    && (e.Delete? && e.from <= e.to <= |t.bytes| ==> CleanDelete(t, e.from, e.to))
  }

  function EditedAll(t: Text, edits: seq<Edit>): Text
    decreases |edits|
  {
    if edits == [] then t else EditedAll(Edited(t, edits[0]), edits[1..])
  }

  /** What the edits mean for the bytes. */
  lemma EditedMeans(t: Text, e: Edit, rest: seq<Edit>)
    ensures Edited(t, e).encoding == t.encoding
    ensures e.Append? ==> Edited(t, e).bytes == t.bytes + if IsText(t.encoding, e.text.bytes) then e.text.bytes else []
    ensures e.AppendSelf? ==> Edited(t, e).bytes == t.bytes + t.bytes
    ensures e.Trim? ==> Edited(t, e).bytes == Trimmed(t.bytes)
    ensures e.Delete? ==>
              Edited(t, e).bytes == if e.from <= e.to <= |t.bytes| then t.bytes[..e.from] + t.bytes[e.to..] else t.bytes
    ensures EditedAll(t, []) == t && EditedAll(t, [e] + rest) == EditedAll(Edited(t, e), rest)
  {
    hide IsText, Trimmed;
    assert ([e] + rest)[1..] == rest;
  }

  /** Runs without deletions are clean. */
  lemma {:induction false} WithoutDeletesIsClean(t: Text, edits: seq<Edit>)
    requires forall e :: e in edits ==> !e.Delete? && (e.Append? ==> ValidText(e.text))
    ensures CleanRun(t, edits)
    decreases |edits|
  {
    hide ValidText, Edited;
    if edits == [] {
    } else {
      WithoutDeletesIsClean(Edited(t, edits[0]), edits[1..]);
    }
  }

  lemma EditKeepsValid(t: Text, e: Edit)
    requires ValidText(t) && CleanEdit(t, e)
    ensures ValidText(Edited(t, e))
  {
    match e
    case Append(x) => if IsText(t.encoding, x.bytes) { JoinText(t.encoding, t.bytes, x.bytes); }
    case AppendSelf => JoinText(t.encoding, t.bytes, t.bytes);
    case Trim => TrimKeepsValid(t);
    case Delete(from, to) => if from <= to <= |t.bytes| { DeleteKeepsValid(t, from, to); }
  }

  /** Over any run of edits a string keeps its promise, and an append to itself doubles it. */
  lemma {:induction false} RunKeepsValid(t: Text, edits: seq<Edit>)
    requires ValidText(t) && CleanRun(t, edits)
    ensures ValidText(EditedAll(t, edits)) && EditedAll(t, edits).encoding == t.encoding
    decreases |edits|
  {
    if edits == [] {
    } else {
      EditKeepsValid(t, edits[0]);
      RunKeepsValid(Edited(t, edits[0]), edits[1..]);
    }
  }

  /** An edit of a mutable string does what it does to the value. */
  method ApplyEdit(m: MutableString, e: Edit)
    requires m.Valid() && CleanEdit(m.Value(), e)
    modifies m, m.buffer
    ensures m.Valid() && m.Value() == Edited(old(m.Value()), e)
    ensures m.buffer == old(m.buffer) || fresh(m.buffer)
  {
    hide IsText, NulFree, Trimmed, CleanDelete, DeleteBytes;
    match e
    case Append(text) => var ok := m.AppendString(text, true);
    case AppendSelf => var ok := m.AppendMutable(m, true);
    case Trim => var ok := m.TrimWhitespace();
    case Delete(from, to) => var ok := m.DeleteRange(from, to - from);
  }

  /** A clean run of edits on a mutable string. */
  method ApplyEdits(m: MutableString, edits: seq<Edit>)
    requires m.Valid() && CleanRun(m.Value(), edits)
    modifies m, m.buffer
    ensures m.Valid() && m.Value() == EditedAll(old(m.Value()), edits)
  {
    ghost var start := m.Value();
    assert edits[0..] == edits;
    for i := 0 to |edits|
      invariant m.Valid() && (m.buffer == old(m.buffer) || fresh(m.buffer))
      invariant CleanRun(m.Value(), edits[i..])
      invariant EditedAll(m.Value(), edits[i..]) == EditedAll(start, edits)
    {
      hide Edited, ValidText;
      assert edits[i..][0] == edits[i] && edits[i..][1..] == edits[i + 1..];
      ApplyEdit(m, edits[i]);
    }
  }
}
