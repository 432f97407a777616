/**
  What whole runs of a bit walker do: the file as one number, and writing and reading back a
  sequence of fields.

  Concrete examples take their widths and values as parameters that a precondition pins down, so
  that the solver does not unroll the bit functions on literals.
 */
module BitStreams {
  import opened Bits
  import opened Endian
  import opened Integers
  import opened FileHandles
  import opened BitWalkers

  // ---- the file as a number ----

  /**
    A write is an or on the number that the zero-extended file denotes, and cutting the result to
    the length of the file drops nothing.
   */
  lemma WriteIsOrOnNumber(data: seq<Byte>, pos: nat, x: UInt64)
    ensures LoadLE(OrAt(data, pos, x)) == Or(LoadLE(data), Shl(x, pos))
    ensures |OrAt(data, pos, x)| == Max(|data|, pos / 8 + 9)
  {
    var l, r := LoadLE(OrAt(data, pos, x)), Or(LoadLE(data), Shl(x, pos));
    forall i: nat ensures Bit(l, i) <==> Bit(r, i) {
      LoadLEBit(OrAt(data, pos, x), i);
      OrAtBit(data, pos, x, i);
      OrBit(LoadLE(data), Shl(x, pos), i);
      LoadLEBit(data, i);
      ShlBit(x, pos, i);
    }
    SameBits(l, r);
  }

  /** Writes at any two positions commute, whatever they overlap. */
  lemma OrAtCommutes(data: seq<Byte>, p: nat, x: UInt64, q: nat, y: UInt64)
    ensures OrAt(OrAt(data, p, x), q, y) == OrAt(OrAt(data, q, y), p, x)
  {
    var l, r := OrAt(OrAt(data, p, x), q, y), OrAt(OrAt(data, q, y), p, x);
    forall i: nat ensures StreamBit(l, i) <==> StreamBit(r, i) {
      OrAtBit(OrAt(data, p, x), q, y, i);
      OrAtBit(data, p, x, i);
      OrAtBit(OrAt(data, q, y), p, x, i);
      OrAtBit(data, q, y, i);
    }
    SameStream(l, r);
  }

  // ---- one field ----

  /**
    The guard under which a value survives being written in `n` bits. Only a big-endian field
    above one byte whose width is not a whole number of bytes can fail it: the swap moves the
    value's lowest byte to the top of the field, where only `n % 8` bits are left.
   */
  predicate Exact(endian: Order, value: nat, n: nat) {
    endian.Little? || n <= 8 || n % 8 == 0 || value % 0x100 < Pow2(n % 8)
  }

  lemma EncodedBit(endian: Order, value: nat, n: nat, i: nat)
    requires 1 <= n <= 64
    ensures Bit(Encode(endian, value, n), i) <==>
            if endian.Big? && n > 8
            then i < 8 * BytesFor(n) && Mirror(BytesFor(n), i) < n && Bit(value, Mirror(BytesFor(n), i))
            else i < n && Bit(value, i)
  {
    MaskIsPow2(n);
    MaskIsLow(value, n);
    LowBit(value, n, i);
    if endian.Big? && n > 8 {
      BSwapNBit(Low(value, n), BytesFor(n), i);
      if i < 8 * BytesFor(n) { LowBit(value, n, Mirror(BytesFor(n), i)); }
    }
  }

  /**
    What a write does to each bit of the file. Little-endian fields and fields up to a byte put bit
    `i` of the value at bit `i` behind the position; big-endian ones put the bytes in opposite order.
   */
  lemma WrittenBit(data: seq<Byte>, pos: nat, endian: Order, value: nat, n: nat, i: nat)
    requires 1 <= n <= 64
    ensures var b, after := (n + 7) / 8, StreamBit(OrAt(data, pos, Encode(endian, value, n)), pos + i);
            var j := 8 * (b - 1 - i / 8) + i % 8;
            after <==> || StreamBit(data, pos + i)
                       || (if endian.Big? && n > 8
                           then i < 8 * b && 0 <= j < n && Bit(value, j)
                           else i < n && Bit(value, i))
  {
    hide Bit, StreamBit, Encode, OrAt;
    OrAtBit(data, pos, Encode(endian, value, n), pos + i);
    EncodedBit(endian, value, n, i);
  }

  /** What a read takes each bit of the value from. */
  lemma ReadBit(data: seq<Byte>, pos: nat, endian: Order, n: nat, i: nat)
    requires 1 <= n <= 64
    ensures var b := (n + 7) / 8;
            var j := 8 * (b - 1 - i / 8) + i % 8;
            Bit(Decode(endian, FieldAt(data, pos, n), n), i) <==>
            if endian.Big? && n > 8 then i < 8 * b && 0 <= j < n && StreamBit(data, pos + j)
            else i < n && StreamBit(data, pos + i)
  {
    hide Bit, StreamBit, FieldAt;
    var b := BytesFor(n);
    if endian.Big? && n > 8 {
      BSwapNBit(FieldAt(data, pos, n), b, i);
      if i < 8 * b { FieldBit(data, pos, n, Mirror(b, i)); }
    } else {
      FieldBit(data, pos, n, i);
    }
  }

  lemma LowByteOf(value: nat, k: nat)
    ensures Bit(value % 0x100, k) <==> k < 8 && Bit(value, k)
  {
    Pow2Widths();
    LowIsMod(value, 8);
    LowBit(value, 8, k);
  }

  /** The bits of the top byte that do not fit the field mirror the lowest byte of the value. */
  lemma SpillPlace(n: nat, i: nat)
    requires 8 < n <= 64 && n % 8 != 0
    requires n <= i < 8 * BytesFor(n)
    ensures Mirror(BytesFor(n), i) == i % 8 >= n % 8
  {
    var b := n / 8;
    assert BytesFor(n) == b + 1 && i / 8 == b;
  }

  lemma SpillFrom(n: nat, k: nat) returns (i: nat)
    requires 8 < n <= 64 && n % 8 <= k < 8 && n % 8 != 0
    ensures n <= i < 8 * BytesFor(n) && i % 8 == k && k < n
  {
    var b := n / 8;
    assert BytesFor(n) == b + 1;
    i := 8 * b + k;
  }

  lemma HighBitOfLowByte(value: nat, r: nat, k: nat)
    requires value % 0x100 < Pow2(r) && r <= k < 8
    ensures !Bit(value, k)
  {
    BitsBelow(value % 0x100, r, k);
    LowByteOf(value, k);
  }

  /** Above its width, a swapped field shows the high bits of the value's lowest byte. */
  lemma SpilledBit(value: nat, n: nat, i: nat)
    requires 8 < n <= 64 && n <= i
    ensures Bit(Encode(Big, value, n), i) <==> n % 8 <= i % 8 && n % 8 != 0 && i < 8 * BytesFor(n) && Bit(value, i % 8)
  {
    hide Bit, Encode;
    EncodedBit(Big, value, n, i);
    if n % 8 != 0 && i < 8 * BytesFor(n) { SpillPlace(n, i); }
  }

  lemma ExactBitsFit(endian: Order, value: nat, n: nat, i: nat)
    requires 1 <= n <= 64 && Exact(endian, value, n) && i >= n
    ensures !Bit(Encode(endian, value, n), i)
  {
    if endian.Little? || n <= 8 {
      EncodedBit(endian, value, n, i);
    } else {
      SpilledBit(value, n, i);
      if n % 8 != 0 && n % 8 <= i % 8 { HighBitOfLowByte(value, n % 8, i % 8); }
    }
  }

  lemma InexactBitSpills(endian: Order, value: nat, n: nat) returns (i: nat)
    requires 1 <= n <= 64 && !Exact(endian, value, n)
    ensures i >= n && Bit(Encode(endian, value, n), i)
  {
    var k := TopBit(value % 0x100, n % 8);
    LowByteOf(value, k);
    i := SpillFrom(n, k);
    SpilledBit(value, n, i);
  }

  /** The encoded bits stay inside the field exactly under the guard. */
  lemma EncodeFits(endian: Order, value: nat, n: nat)
    requires 1 <= n <= 64
    ensures Encode(endian, value, n) < Pow2(n) <==> Exact(endian, value, n)
  {
    var x := Encode(endian, value, n);
    if Exact(endian, value, n) {
      forall i: nat | i >= n ensures !Bit(x, i) { ExactBitsFit(endian, value, n, i); }
      BoundFromBits(x, n);
    } else {
      var i := InexactBitSpills(endian, value, n);
      if x < Pow2(n) { BitsBelow(x, n, i); }
    }
  }

  /** A field that was cut to its width decodes to its value exactly under the guard. */
  lemma DecodeEncode(endian: Order, value: nat, n: nat)
    requires 1 <= n <= 64
    ensures Decode(endian, Low(Encode(endian, value, n), n), n) == Low(value, n) <==> Exact(endian, value, n)
  {
    var x, masked := Encode(endian, value, n), Low(value, n);
    MaskIsPow2(n);
    MaskIsLow(value, n);
    LowBound(value, n);
    EncodeFits(endian, value, n);
    if x < Pow2(n) { LowFits(x, n); } else { LowBound(x, n); }
    if endian.Big? && n > 8 {
      var b := BytesFor(n);
      Pow2Monotone(n, 8 * b);
      BSwapNInvolution(masked, b);
      BSwapNBound(masked, b);
      LowBound(x, n);
      BSwapNInvolution(Low(x, n), b);
    }
  }

  /** Reading a field looks at the bits of the field only. */
  lemma FieldDependsOnItsBits(s: seq<Byte>, t: seq<Byte>, pos: nat, n: nat)
    requires forall i: nat :: pos <= i < pos + n ==> (StreamBit(s, i) <==> StreamBit(t, i))
    ensures FieldAt(s, pos, n) == FieldAt(t, pos, n)
  {
    forall i: nat ensures Bit(FieldAt(s, pos, n), i) <==> Bit(FieldAt(t, pos, n), i) {
      FieldBit(s, pos, n, i);
      FieldBit(t, pos, n, i);
    }
    SameBits(FieldAt(s, pos, n), FieldAt(t, pos, n));
  }

  lemma FieldBit(s: seq<Byte>, pos: nat, n: nat, i: nat)
    ensures Bit(FieldAt(s, pos, n), i) <==> i < n && StreamBit(s, pos + i)
  {
    LowBit(Shr(LoadLE(s), pos), n, i);
    ShrBit(LoadLE(s), pos, i);
    LoadLEBit(s, pos + i);
  }

  predicate ZeroBetween(data: seq<Byte>, from: nat, to: nat) {
    forall i: nat :: from <= i < to ==> !StreamBit(data, i)
  }

  lemma FreshWriteBit(data: seq<Byte>, pos: nat, n: nat, x: UInt64, i: nat)
    requires ZeroBetween(data, pos, pos + n)
    ensures Bit(FieldAt(OrAt(data, pos, x), pos, n), i) <==> i < n && Bit(x, i)
  {
    FieldBit(OrAt(data, pos, x), pos, n, i);
    OrAtBit(data, pos, x, pos + i);
  }

  /** Writing into zero bits and reading the same bits gives the low part of what was or-ed in. */
  lemma FieldOfFreshWrite(data: seq<Byte>, pos: nat, n: nat, x: UInt64)
    requires ZeroBetween(data, pos, pos + n)
    ensures FieldAt(OrAt(data, pos, x), pos, n) == Low(x, n)
  {
    var field := FieldAt(OrAt(data, pos, x), pos, n);
    forall i: nat ensures Bit(field, i) <==> Bit(Low(x, n), i) {
      FreshWriteBit(data, pos, n, x, i);
      LowBit(x, n, i);
    }
    SameBits(field, Low(x, n));
  }

  /** Under the guard a write changes no bit outside its field. */
  lemma WriteFramed(data: seq<Byte>, pos: nat, endian: Order, value: nat, n: nat, i: nat)
    requires 1 <= n <= 64 && Exact(endian, value, n) && !(pos <= i < pos + n)
    ensures StreamBit(OrAt(data, pos, Encode(endian, value, n)), i) <==> StreamBit(data, i)
  {
    OrAtBit(data, pos, Encode(endian, value, n), i);
    EncodeFits(endian, value, n);
    if i >= pos + n { BitsBelow(Encode(endian, value, n), n, i - pos); }
  }

  /** The write changes no bit outside its field. */
  ghost predicate Framed(data: seq<Byte>, pos: nat, endian: Order, value: nat, n: nat)
    requires 1 <= n <= 64
  {
    forall i: nat :: !(pos <= i < pos + n) ==>
      (StreamBit(OrAt(data, pos, Encode(endian, value, n)), i) <==> StreamBit(data, i))
  }

  /** Bits that `x` has above its first `n` are set in the file already. */
  ghost predicate SpillIsSet(data: seq<Byte>, pos: nat, x: nat, n: nat) {
    forall i: nat :: i >= n && Bit(x, i) ==> StreamBit(data, pos + i)
  }

  /** On any file a write stays inside its field exactly when the bits it spills are set already. */
  lemma FramedBySpill(data: seq<Byte>, pos: nat, endian: Order, value: nat, n: nat)
    requires 1 <= n <= 64
    ensures Framed(data, pos, endian, value, n) <==> SpillIsSet(data, pos, Encode(endian, value, n), n)
  {
    hide Bit, OrAt, Encode, StreamBit;
    var x := Encode(endian, value, n);
    if Framed(data, pos, endian, value, n) {
      forall i: nat | i >= n && Bit(x, i) ensures StreamBit(data, pos + i) { OrAtBit(data, pos, x, pos + i); }
    } else {
      var i: nat :| !(pos <= i < pos + n) && (StreamBit(OrAt(data, pos, x), i) != StreamBit(data, i));
      OrAtBit(data, pos, x, i);
      assert Bit(x, i - pos) && !StreamBit(data, pos + (i - pos));
    }
  }

  /** Where the bits up to the next whole byte of the field are clear, that is the guard. */
  lemma FramedExactly(data: seq<Byte>, pos: nat, endian: Order, value: nat, n: nat)
    requires 1 <= n <= 64 && ZeroBetween(data, pos + n, pos + 8 * BytesFor(n))
    ensures Framed(data, pos, endian, value, n) <==> Exact(endian, value, n)
  {
    hide Bit, OrAt, Encode, StreamBit;
    FramedBySpill(data, pos, endian, value, n);
    if Exact(endian, value, n) {
      forall i: nat | i >= n ensures !Bit(Encode(endian, value, n), i) { ExactBitsFit(endian, value, n, i); }
    } else {
      var i := InexactBitSpills(endian, value, n);
      SpilledBit(value, n, i);
      assert !StreamBit(data, pos + i);
    }
  }

  /** A twelve-bit big-endian 255 sets the first bit behind its field, whatever was there. */
  lemma TwelveBitClobbers(data: seq<Byte>, pos: nat, value: UInt64, n: nat)
    requires value == 255 && n == 12
    ensures StreamBit(OrAt(data, pos, Encode(Big, value, n)), pos + n)
  {
    hide OrAt, Encode, StreamBit;
    OrAtBit(data, pos, Encode(Big, value, n), pos + n);
    SpilledBit(value, n, n);
    assert Bit(value, 4);
  }

  // ---- a sequence of fields ----

  datatype Field = Field(value: UInt64, width: nat)

  predicate ValidFields(fields: seq<Field>) {
    forall f :: f in fields ==> 1 <= f.width <= 64
  }

  function TotalWidth(fields: seq<Field>): nat {
    if fields == [] then 0 else fields[0].width + TotalWidth(fields[1..])
  }

  function WriteFields(data: seq<Byte>, pos: nat, endian: Order, fields: seq<Field>): seq<Byte>
    requires ValidFields(fields)
    decreases |fields|
  {
    if fields == [] then data
    else WriteFields(OrAt(data, pos, Encode(endian, fields[0].value, fields[0].width)),
                     pos + fields[0].width, endian, fields[1..])
  }

  /** Reading knows the widths only. */
  function ReadFields(data: seq<Byte>, pos: nat, endian: Order, widths: seq<nat>): seq<nat>
    decreases |widths|
  {
    if widths == [] then []
    else [Decode(endian, FieldAt(data, pos, widths[0]), widths[0])] +
         ReadFields(data, pos + widths[0], endian, widths[1..])
  }

  function Widths(fields: seq<Field>): (ws: seq<nat>)
    ensures |ws| == |fields| && forall i :: 0 <= i < |fields| ==> ws[i] == fields[i].width
  {
    seq(|fields|, i requires 0 <= i < |fields| => fields[i].width)
  }

  lemma ReadStep(data: seq<Byte>, pos: nat, endian: Order, fields: seq<Field>)
    requires fields != []
    ensures ReadFields(data, pos, endian, Widths(fields)) ==
            [Decode(endian, FieldAt(data, pos, fields[0].width), fields[0].width)] +
            ReadFields(data, pos + fields[0].width, endian, Widths(fields[1..]))
  {
    assert Widths(fields)[1..] == Widths(fields[1..]);
  }

  /** Fields follow each other without gaps, in order. */
  lemma FieldsFollow(data: seq<Byte>, pos: nat, endian: Order, f: Field, rest: seq<Field>)
    requires 1 <= f.width <= 64 && forall g :: g in rest ==> 1 <= g.width <= 64
    ensures TotalWidth([]) == 0 && TotalWidth([f] + rest) == f.width + TotalWidth(rest)
    ensures WriteFields(data, pos, endian, []) == data
    ensures WriteFields(data, pos, endian, [f] + rest) ==
            WriteFields(OrAt(data, pos, Encode(endian, f.value, f.width)), pos + f.width, endian, rest)
    ensures ReadFields(data, pos, endian, []) == []
    ensures ReadFields(data, pos, endian, [f.width] + Widths(rest)) ==
            [Decode(endian, FieldAt(data, pos, f.width), f.width)] +
            ReadFields(data, pos + f.width, endian, Widths(rest))
  {
    hide OrAt, Encode, Decode, FieldAt;
    assert ([f] + rest)[1..] == rest && ([f.width] + Widths(rest))[1..] == Widths(rest);
  }

  /** What a lossless stream gives back: each value modulo 2^width. */
  function Truncated(fields: seq<Field>): seq<nat> {
    if fields == [] then [] else [fields[0].value % Pow2(fields[0].width)] + Truncated(fields[1..])
  }

  predicate AllExact(endian: Order, fields: seq<Field>) {
    forall f :: f in fields ==> Exact(endian, f.value, f.width)
  }

  /** Writing the fields and reading them from the start gives every value modulo 2^width. */
  predicate ComesBack(data: seq<Byte>, pos: nat, endian: Order, fields: seq<Field>)
    requires ValidFields(fields)
  {
    ReadFields(WriteFields(data, pos, endian, fields), pos, endian, Widths(fields)) == Truncated(fields)
  }

  lemma {:induction false} LaterWritesAreAbove(data: seq<Byte>, pos: nat, endian: Order, fields: seq<Field>, i: nat)
    requires ValidFields(fields) && i < pos
    ensures StreamBit(WriteFields(data, pos, endian, fields), i) <==> StreamBit(data, i)
    decreases |fields|
  {
    if fields == [] {
    } else {
      var f := fields[0];
      OrAtBit(data, pos, Encode(endian, f.value, f.width), i);
      LaterWritesAreAbove(OrAt(data, pos, Encode(endian, f.value, f.width)), pos + f.width, endian, fields[1..], i);
    }
  }

  /** The first field of a written sequence reads back as its truncated encoding. */
  lemma FirstFieldRead(data: seq<Byte>, pos: nat, endian: Order, fields: seq<Field>)
    requires ValidFields(fields) && fields != []
    requires ZeroBetween(data, pos, pos + fields[0].width)
    ensures FieldAt(WriteFields(data, pos, endian, fields), pos, fields[0].width) ==
            Low(Encode(endian, fields[0].value, fields[0].width), fields[0].width)
  {
    var f := fields[0];
    var x := Encode(endian, f.value, f.width);
    var once, done := OrAt(data, pos, x), WriteFields(data, pos, endian, fields);
    FieldOfFreshWrite(data, pos, f.width, x);
    forall i: nat | pos <= i < pos + f.width ensures StreamBit(done, i) <==> StreamBit(once, i) {
      LaterWritesAreAbove(once, pos + f.width, endian, fields[1..], i);
    }
    FieldDependsOnItsBits(done, once, pos, f.width);
  }

  /**
    Round trip of a stream of fields over zero bits, at any position and in either byte order:
    every value comes back modulo 2^width exactly when every field meets the guard.
   */
  lemma {:induction false} RoundTrip(data: seq<Byte>, pos: nat, endian: Order, fields: seq<Field>)
    requires forall f :: f in fields ==> 1 <= f.width <= 64
    requires forall i: nat :: pos <= i < pos + TotalWidth(fields) ==> !StreamBit(data, i)
    ensures ReadFields(WriteFields(data, pos, endian, fields), pos, endian, Widths(fields)) == Truncated(fields) <==>
            forall f :: f in fields ==>
              endian.Little? || f.width <= 8 || f.width % 8 == 0 || f.value % 0x100 < Pow2(f.width % 8)
  {
    RoundTripGuard(data, pos, endian, fields);
  }

  lemma {:induction false} RoundTripGuard(data: seq<Byte>, pos: nat, endian: Order, fields: seq<Field>)
    requires ValidFields(fields) && ZeroBetween(data, pos, pos + TotalWidth(fields))
    ensures ComesBack(data, pos, endian, fields) <==> AllExact(endian, fields)
    decreases |fields|
  {
    hide OrAt, Encode, Decode, FieldAt, Exact, Pow2, Low, StreamBit;
    if fields == [] {
    } else {
      var f, rest := fields[0], fields[1..];
      var once := OrAt(data, pos, Encode(endian, f.value, f.width));
      var done := WriteFields(data, pos, endian, fields);
      FirstFieldRead(data, pos, endian, fields);
      ReadStep(done, pos, endian, fields);
      DecodeEncode(endian, f.value, f.width);
      LowIsMod(f.value, f.width);
      if Exact(endian, f.value, f.width) {
        forall i: nat | pos + f.width <= i < pos + TotalWidth(fields) ensures !StreamBit(once, i) {
          WriteFramed(data, pos, endian, f.value, f.width, i);
        }
        RoundTripGuard(once, pos + f.width, endian, rest);
        HeadAndTail(endian, fields);
        assert ReadFields(done, pos, endian, Widths(fields))[1..] ==
               ReadFields(done, pos + f.width, endian, Widths(rest));
        assert Truncated(fields)[1..] == Truncated(rest);
      } else {
        assert ReadFields(done, pos, endian, Widths(fields))[0] != Truncated(fields)[0];
      }
    }
  }

  lemma HeadAndTail(endian: Order, fields: seq<Field>)
    requires fields != []
    ensures AllExact(endian, fields) <==>
            Exact(endian, fields[0].value, fields[0].width) && AllExact(endian, fields[1..])
  {
    assert fields == [fields[0]] + fields[1..];
  }

  /** One field over zero bits: it reads back exactly under the guard. */
  lemma SingleField(data: seq<Byte>, pos: nat, endian: Order, value: UInt64, n: nat)
    requires 1 <= n <= 64 && ZeroBetween(data, pos, pos + n)
    ensures Decode(endian, FieldAt(OrAt(data, pos, Encode(endian, value, n)), pos, n), n) == value % Pow2(n) <==>
            Exact(endian, value, n)
  {
    FieldOfFreshWrite(data, pos, n, Encode(endian, value, n));
    DecodeEncode(endian, value, n);
    LowIsMod(value, n);
  }

  /** A twelve-bit big-endian field does not give back 255. */
  lemma TwelveBitLoss(data: seq<Byte>, pos: nat, value: UInt64, n: nat)
    requires value == 255 && n == 12 && ZeroBetween(data, pos, pos + n)
    ensures Decode(Big, FieldAt(OrAt(data, pos, Encode(Big, value, n)), pos, n), n) != value
  {
    hide Bit, Encode, FieldAt, Decode, OrAt;
    assert Pow2(4) == 16;
    Pow2Monotone(8, n);
    Pow2Widths();
    SingleField(data, pos, Big, value, n);
  }

  lemma {:induction false} TruncatedAt(fields: seq<Field>)
    ensures |Truncated(fields)| == |fields|
    ensures forall i :: 0 <= i < |fields| ==> Truncated(fields)[i] == fields[i].value % Pow2(fields[i].width)
    decreases |fields|
  {
    hide Pow2;
    if fields == [] {
    } else {
      TruncatedAt(fields[1..]);
    }
  }

  lemma {:induction false} ReadLength(data: seq<Byte>, pos: nat, endian: Order, widths: seq<nat>)
    ensures |ReadFields(data, pos, endian, widths)| == |widths|
    decreases |widths|
  {
    hide Decode, FieldAt;
    if widths == [] {
    } else {
      ReadLength(data, pos + widths[0], endian, widths[1..]);
    }
  }

  function Sum(widths: seq<nat>): nat {
    if widths == [] then 0 else widths[0] + Sum(widths[1..])
  }

  // ---- the same through a walker ----

  method PutFields(walker: BitWalker, fields: seq<Field>)
    requires walker.Valid() && walker.bytePos >= 0 && ValidFields(fields)
    requires walker.handle.file.readable && walker.handle.file.writable
    modifies walker, walker.handle.file, walker.handle.file.inode
    ensures walker.Valid() && walker.bytePos >= 0 && walker.Position() == old(walker.Position()) + TotalWidth(fields)
    ensures walker.handle.file.inode.data ==
            WriteFields(old(walker.handle.file.inode.data), old(walker.Position()), walker.endian, fields)
  {
    hide OrAt, Encode, Slice, WindowWrite;
    var inode, endian := walker.handle.file.inode, walker.endian;
    ghost var data0, start := inode.data, walker.Position();
    for i := 0 to |fields|
      invariant walker.Valid() && walker.bytePos >= 0
      invariant walker.Position() + TotalWidth(fields[i..]) == start + TotalWidth(fields)
      invariant WriteFields(inode.data, walker.Position(), endian, fields[i..]) ==
                WriteFields(data0, start, endian, fields)
    {
      assert fields[i..][0] == fields[i] && fields[i..][1..] == fields[i + 1..];
      var ok := walker.Write(fields[i].value, fields[i].width);
    }
  }

  /** A stream read of a field is Read followed by Skip. */
  method GetFields(walker: BitWalker, widths: seq<nat>) returns (values: seq<nat>)
    requires walker.Valid() && walker.bytePos >= 0 && walker.handle.file.readable
    requires forall n :: n in widths ==> 1 <= n <= 64
    modifies walker, walker.handle.file
    ensures walker.Valid() && walker.bytePos >= 0 && walker.Position() == old(walker.Position()) + Sum(widths)
    ensures values == ReadFields(walker.handle.file.inode.data, old(walker.Position()), walker.endian, widths)
  {
    hide FieldAt, Decode, Slice;
    var data, endian := walker.handle.file.inode.data, walker.endian;
    ghost var start := walker.Position();
    values := [];
    for i := 0 to |widths|
      invariant walker.Valid() && walker.bytePos >= 0
      invariant walker.Position() + Sum(widths[i..]) == start + Sum(widths)
      invariant values + ReadFields(data, walker.Position(), endian, widths[i..]) ==
                ReadFields(data, start, endian, widths)
    {
      assert widths[i..][0] == widths[i] && widths[i..][1..] == widths[i + 1..];
      assert widths[i] in widths;
      ghost var before := ReadFields(data, walker.Position(), endian, widths[i..]);
      var value := walker.Read(widths[i]);
      walker.Skip(widths[i]);
      assert before == [value] + ReadFields(data, walker.Position(), endian, widths[i + 1..]);
      values := values + [value];
    }
  }

  /** Writes the fields through a walker, goes back to the start, and reads them. */
  method PutThenGet(walker: BitWalker, fields: seq<Field>) returns (values: seq<nat>)
    requires walker.Valid() && walker.bytePos >= 0 && forall f :: f in fields ==> 1 <= f.width <= 64
    requires walker.handle.file.readable && walker.handle.file.writable
    requires forall i: nat :: walker.Position() <= i < walker.Position() + TotalWidth(fields) ==>
               !StreamBit(walker.handle.file.inode.data, i)
    modifies walker, walker.handle.file, walker.handle.file.inode
    ensures |values| == |fields|
    ensures (forall i :: 0 <= i < |fields| ==> values[i] == fields[i].value % Pow2(fields[i].width)) <==>
            forall f :: f in fields ==>
              walker.endian.Little? || f.width <= 8 || f.width % 8 == 0 || f.value % 0x100 < Pow2(f.width % 8)
  {
    hide Pow2;
    var bytePos, bitIndex := walker.bytePos, walker.bitIndex;
    ghost var data0, start := walker.handle.file.inode.data, walker.Position();
    PutFields(walker, fields);
    walker.Seek(bytePos, bitIndex);
    values := GetFields(walker, Widths(fields));
    RoundTrip(data0, start, walker.endian, fields);
    ReadLength(walker.handle.file.inode.data, start, walker.endian, Widths(fields));
    TruncatedAt(fields);
  }
}
