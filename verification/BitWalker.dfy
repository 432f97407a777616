/** Reading and writing bit fields at any bit position of a file. */
module BitWalkers {
  import opened Bits
  import opened Endian
  import opened Integers
  import opened FileHandles

  // ---- what one operation means on the zero-extended file ----

  /** `data` read as one number, or-ed with `x` moved up to bit `pos`. */
  function OrAt(data: seq<Byte>, pos: nat, x: nat): (r: seq<Byte>)
    ensures |r| == Max(|data|, pos / 8 + 9)
  {
    StoreLE(Or(LoadLE(data), Shl(x, pos)), Max(|data|, pos / 8 + 9))
  }

  /** The `n` bits from bit `pos` on. */
  function FieldAt(data: seq<Byte>, pos: nat, n: nat): nat {
    Low(Shr(LoadLE(data), pos), n)
  }

  function BytesFor(numBits: nat): nat { (numBits + 7) / 8 }

  function Mask(numBits: nat): nat
    requires 1 <= numBits <= 64
  {
    if numBits == 64 then 0xFFFF_FFFF_FFFF_FFFF
    else ShlIsTimes(1, numBits); Shl(1, numBits) - 1
  }

  lemma MaskIsPow2(numBits: nat)
    requires 1 <= numBits <= 64
    ensures Mask(numBits) == Pow2(numBits) - 1
  {
    Pow2Widths();
    ShlIsTimes(1, numBits);
  }

  lemma BytesForBound(n: nat)
    requires 8 < n <= 64
    ensures 2 <= BytesFor(n) <= 8 && n <= 8 * BytesFor(n) <= 64
  {
  }

  /** Masking and swapping stay within 64 bits. */
  lemma WordBound(value: nat, n: nat)
    requires 1 <= n <= 64
    ensures And(value, Mask(n)) < 0x1_0000_0000_0000_0000
    ensures n > 8 ==> BSwapN(And(value, Mask(n)), BytesFor(n)) < 0x1_0000_0000_0000_0000
  {
    MaskIsPow2(n);
    MaskIsLow(value, n);
    LowBound(value, n);
    Pow2Widths();
    Pow2Monotone(n, 64);
    if n > 8 {
      BytesForBound(n);
      BSwapNBound(And(value, Mask(n)), BytesFor(n));
      Pow2Monotone(8 * BytesFor(n), 64);
    }
  }

  /** The bits that are put into the file for `value`. */
  function Encode(endian: Order, value: nat, numBits: nat): UInt64
    requires 1 <= numBits <= 64
  {
    WordBound(value, numBits);
    var masked := And(value, Mask(numBits));
    if numBits > 8 && endian.Big? then BSwapN(masked, BytesFor(numBits)) else masked
  }

  /** The value that a field of the file stands for. */
  function Decode(endian: Order, field: nat, numBits: nat): nat {
    if numBits > 8 && endian.Big? then BSwapN(field, BytesFor(numBits)) else field
  }

  // ---- the nine-byte window ----

  function Window(data: seq<Byte>, at: nat): (w: seq<Byte>)
    ensures |w| == 9
  {
    var got := Slice(data, at, 9);
    got + Zeros(9 - |got|)
  }

  lemma WindowBit(data: seq<Byte>, at: nat, i: nat)
    ensures StreamBit(Window(data, at), i) <==> i < 72 && StreamBit(data, 8 * at + i)
  {
    assert (8 * at + i) / 8 == at + i / 8 && (8 * at + i) % 8 == i % 8;
    ZeroBit(i % 8);
  }

  lemma SpliceBit(data: seq<Byte>, at: nat, bytes: seq<Byte>, i: nat)
    ensures StreamBit(Splice(data, at, bytes), i) <==>
            if 8 * at <= i < 8 * (at + |bytes|) then StreamBit(bytes, i - 8 * at) else StreamBit(data, i)
  {
    ZeroBit(i % 8);
    if i >= 8 * at { assert (i - 8 * at) / 8 == i / 8 - at && (i - 8 * at) % 8 == i % 8; }
  }

  lemma OrAtBit(data: seq<Byte>, pos: nat, x: UInt64, i: nat)
    ensures StreamBit(OrAt(data, pos, x), i) <==> StreamBit(data, i) || (i >= pos && Bit(x, i - pos))
  {
    var n := Or(LoadLE(data), Shl(x, pos));
    StoreLEBit(n, Max(|data|, pos / 8 + 9), i);
    OrBit(LoadLE(data), Shl(x, pos), i);
    LoadLEBit(data, i);
    ShlBit(x, pos, i);
    if i >= pos + 64 { NoBitAbove64(x, i - pos); }
  }

  /** The window word after or-ing `x` in: no bit is lost to the 128-bit or the 72-bit limit. */
  lemma WindowOrBit(w: seq<Byte>, x: UInt64, b: nat, i: nat)
    requires |w| == 9 && b < 8
    ensures StreamBit(StoreLE(Or(LoadLE(w), Low(Shl(x, b), WORD_BITS)), 9), i) <==>
            StreamBit(w, i) || (i >= b && Bit(x, i - b))
  {
    var c := Or(LoadLE(w), Low(Shl(x, b), WORD_BITS));
    StoreLEBit(c, 9, i);
    OrBit(LoadLE(w), Low(Shl(x, b), WORD_BITS), i);
    LoadLEBit(w, i);
    LowBit(Shl(x, b), WORD_BITS, i);
    ShlBit(x, b, i);
    if i >= 72 { NoBitAbove64(x, i - b); }
  }

  /** Where an access lands: a seek to before the start fails and leaves the offset. */
  function LandsAt(target: int, offset: nat): nat { if target >= 0 then target else offset }

  /** The window is loaded at `from`, `x` is or-ed in at bit `b`, and the result stored at `to`. */
  function WindowWrite(data: seq<Byte>, from: nat, to: nat, b: nat, x: UInt64): (r: seq<Byte>)
    ensures |r| == Max(|data|, to + 9)
  {
    Splice(data, to, StoreLE(Or(LoadLE(Window(data, from)), Low(Shl(x, b), WORD_BITS)), 9))
  }

  lemma WindowWriteBit(data: seq<Byte>, at: nat, b: nat, x: UInt64, out: seq<Byte>, i: nat)
    requires b < 8
    requires out == StoreLE(Or(LoadLE(Window(data, at)), Low(Shl(x, b), WORD_BITS)), 9)
    ensures StreamBit(Splice(data, at, out), i) <==>
            StreamBit(data, i) || (i >= 8 * at + b && Bit(x, i - (8 * at + b)))
  {
    hide Bit, Shl, Low, Or, LoadLE, StoreLE, StreamBit, Window, Splice;
    SpliceBit(data, at, out, i);
    if i >= 8 * at {
      WindowOrBit(Window(data, at), x, b, i - 8 * at);
      WindowBit(data, at, i - 8 * at);
      if i >= 8 * at + 72 { NoBitAbove64(x, i - (8 * at + b)); }
    }
  }

  /** Read-modify-write of the window is the or on the whole zero-extended file. */
  lemma WindowWriteIsOr(data: seq<Byte>, at: nat, b: nat, x: UInt64)
    requires b < 8
    ensures WindowWrite(data, at, at, b, x) == OrAt(data, 8 * at + b, x)
  {
    var out := StoreLE(Or(LoadLE(Window(data, at)), Low(Shl(x, b), WORD_BITS)), 9);
    var l, r := Splice(data, at, out), OrAt(data, 8 * at + b, x);
    assert |l| == |r| by { assert (8 * at + b) / 8 == at; }
    forall i: nat ensures StreamBit(l, i) <==> StreamBit(r, i) {
      WindowWriteBit(data, at, b, x, out, i);
      OrAtBit(data, 8 * at + b, x, i);
    }
    SameStream(l, r);
  }

  /** Shifting and masking the window reads the field of the whole zero-extended file. */
  lemma WindowReadIsField(data: seq<Byte>, at: nat, b: nat, n: nat)
    requires b < 8 && 1 <= n <= 64
    ensures And(Shr(LoadLE(Window(data, at)), b), Mask(n)) == FieldAt(data, 8 * at + b, n)
  {
    hide Bit, Shr, Low, LoadLE, And, Mask, StreamBit, Window, Pow2;
    var s := Shr(LoadLE(Window(data, at)), b);
    MaskIsPow2(n);
    MaskIsLow(s, n);
    forall i: nat ensures Bit(Low(s, n), i) <==> Bit(FieldAt(data, 8 * at + b, n), i) {
      LowBit(s, n, i);
      ShrBit(LoadLE(Window(data, at)), b, i);
      LoadLEBit(Window(data, at), i + b);
      WindowBit(data, at, i + b);
      LowBit(Shr(LoadLE(data), 8 * at + b), n, i);
      ShrBit(LoadLE(data), 8 * at + b, i);
      LoadLEBit(data, i + (8 * at + b));
    }
    SameBits(Low(s, n), FieldAt(data, 8 * at + b, n));
  }

  // ---- the walker ----

  class BitWalker {
    const handle: FileHandle
    var bytePos: int
    var bitIndex: nat
    const endian: Order

    /** The byte position may lie before the start of the file: skips and failed transfers lead there. */
    predicate Valid()
      reads this
    {
      bitIndex < 8
    }

    function Position(): int
      reads this
    {
      8 * bytePos + bitIndex
    }

    constructor (handle: FileHandle, endian: Order)
      ensures Valid() && Position() == 0
      ensures fresh(this.handle) && this.handle.file == handle.file && this.endian == endian
    {
      var copy := handle.CreateCopy();
      this.handle, bytePos, bitIndex, this.endian := copy, 0, 0, endian;
    }

    method Reset()
      modifies this
      ensures Valid() && Position() == 0
    {
      bytePos, bitIndex := 0, 0;
    }

    /** Loads the nine bytes at the cursor; short reads leave zeros. */
    method LoadWindow() returns (got: int, chunk: nat)
      requires Valid()
      modifies handle.file
      ensures var data, from := handle.file.inode.data, LandsAt(bytePos, old(handle.file.offset));
              if handle.file.readable
              then && got >= 0 && chunk == LoadLE(Window(data, from))
                   && handle.file.offset == from + |Slice(data, from, 9)|
              else got < 0 && handle.file.offset == from
    {
      var win := new Byte[9](_ => 0);
      var position := handle.Seek(bytePos, Set);
      ghost var from := handle.file.offset;
      got := handle.Read(win, 9);
      chunk := LoadWindowLE(win, 9);
      assert win[..9] == win[..];
      assert got >= 0 ==> win[..] == Window(handle.file.inode.data, from);
    }

    /** Stores the nine low bytes of a word at the cursor. */
    method StoreWindow(chunk: nat) returns (put: int)
      requires Valid()
      modifies handle.file, handle.file.inode
      ensures var to := LandsAt(bytePos, old(handle.file.offset));
              if handle.file.writable
              then && put == 9 && handle.file.offset == to + 9
                   && handle.file.inode.data == Splice(old(handle.file.inode.data), to, StoreLE(chunk, 9))
              else && put == -1 && handle.file.offset == to
                   && handle.file.inode.data == old(handle.file.inode.data)
    {
      var win := new Byte[9](_ => 0);
      StoreWindowLE(win, chunk, 9);
      var position := handle.Seek(bytePos, Set);
      put := handle.Write(win, 9);
    }

    /**
      Ors `numBits` bits into the file and advances; on failure nothing but the offset moves. At or
      behind the start of the file the outcome does not depend on where the shared offset was.
      Before the start the window is loaded at that offset and stored behind what was loaded.
     */
    method Write(value: UInt64, numBits: nat) returns (ok: bool)
      requires Valid()
      modifies this, handle.file, handle.file.inode
      ensures Valid()
      ensures ok <==> 1 <= numBits <= 64 && handle.file.readable && handle.file.writable
      ensures ok && old(bytePos) >= 0 ==>
                handle.file.inode.data ==
                OrAt(old(handle.file.inode.data), old(Position()), Encode(endian, value, numBits))
      ensures var from := LandsAt(old(bytePos), old(handle.file.offset));
              var to := LandsAt(old(bytePos), from + |Slice(old(handle.file.inode.data), from, 9)|);
              if ok
              then && handle.file.offset == to + 9
                   && handle.file.inode.data ==
                      WindowWrite(old(handle.file.inode.data), from, to, old(bitIndex), Encode(endian, value, numBits))
              else && handle.file.inode.data == old(handle.file.inode.data)
                   && handle.file.offset == if !(1 <= numBits <= 64) then old(handle.file.offset)
                                            else if !handle.file.readable then from
                                            else to
      ensures Position() == old(Position()) + if ok then numBits else 0
    {
      hide Bit, OrAt, LoadLE, StoreLE, And, Or, Shl, Low, BSwapN, Splice, Slice;
      if numBits == 0 || numBits > 64 { return false; }
      WordBound(value, numBits);
      var word: UInt64 := And(value, Mask(numBits));
      if numBits > 8 && endian.Big? { word := BSwapN(word, BytesFor(numBits)); }
      var got, chunk := LoadWindow();
      if got < 0 { return false; }
      chunk := Or(chunk, Low(Shl(word, bitIndex), WORD_BITS));
      var put := StoreWindow(chunk);
      if put != 9 { return false; }
      if bytePos >= 0 { WindowWriteIsOr(old(handle.file.inode.data), bytePos, bitIndex, word); }

      var tmp := bitIndex + numBits;
      bytePos := bytePos + tmp / 8;
      bitIndex := tmp % 8;
      return true;
    }

    /**
      Reads a field without advancing; zero when the width is out of range or reading fails. Before
      the start of the file the field is the one at the shared offset.
     */
    method Read(numBits: nat) returns (value: nat)
      requires Valid()
      modifies handle.file
      ensures var data, from := handle.file.inode.data, LandsAt(bytePos, old(handle.file.offset));
              && value == (if 1 <= numBits <= 64 && handle.file.readable
                           then Decode(endian, FieldAt(data, 8 * from + bitIndex, numBits), numBits)
                           else 0)
              && handle.file.offset == (if !(1 <= numBits <= 64) then old(handle.file.offset)
                                        else if handle.file.readable then from + |Slice(data, from, 9)|
                                        else from)
    {
      hide Bit, FieldAt, LoadLE, And, Shr, BSwapN, Slice;
      if numBits == 0 || numBits > 64 { return 0; }
      ghost var from := LandsAt(bytePos, handle.file.offset);
      var got, chunk := LoadWindow();
      if got < 0 { return 0; }
      value := And(Shr(chunk, bitIndex), Mask(numBits));
      WindowReadIsField(handle.file.inode.data, from, bitIndex, numBits);
      if numBits > 8 && endian.Big? { value := BSwapN(value, BytesFor(numBits)); }
    }

    method AlignByte()
      requires Valid()
      modifies this
      ensures Valid() && bitIndex == 0
      ensures Position() == (old(Position()) + 7) / 8 * 8
    {
      if bitIndex != 0 {
        bitIndex := 0;
        bytePos := bytePos + 1;
      }
    }

    /** Bytes are written at the next byte boundary; a failed write moves the cursor back by one. */
    method WriteBuffer(buffer: array<Byte>, length: nat) returns (written: int)
      requires Valid() && length <= buffer.Length
      modifies this, handle.file, handle.file.inode
      ensures written == if handle.file.writable then length else -1
      ensures var to := LandsAt((old(Position()) + 7) / 8, old(handle.file.offset));
              && handle.file.offset == to + (if handle.file.writable then length else 0)
              && handle.file.inode.data == (if handle.file.writable && length > 0
                                            then Splice(old(handle.file.inode.data), to, buffer[..length])
                                            else old(handle.file.inode.data))
      ensures bitIndex == 0 && bytePos == (old(Position()) + 7) / 8 + written
      ensures handle.file.writable && length > 0 ==>
                var aligned := old(bytePos) + if old(bitIndex) == 0 then 0 else 1;
                var at := if aligned >= 0 then aligned else old(handle.file.offset);
                var was, data := old(handle.file.inode.data), handle.file.inode.data;
                && |data| == (if |was| < at + length then at + length else |was|)
                && (forall i :: at <= i < at + length ==> data[i] == buffer[i - at])
                && (forall i :: 0 <= i < |data| && !(at <= i < at + length) ==>
                      data[i] == if i < |was| then was[i] else 0)
    {
      hide Splice;
      AlignByte();
      var position := handle.Seek(bytePos, Set);
      written := handle.Write(buffer, length);
      bytePos := bytePos + written;
    }

    /** Bytes are read at the next byte boundary; a failed read moves the cursor back by one. */
    method ReadBuffer(buffer: array<Byte>, length: nat) returns (count: int)
      requires Valid() && length <= buffer.Length
      modifies this, handle.file, buffer
      ensures var from := LandsAt((old(Position()) + 7) / 8, old(handle.file.offset));
              var got := Slice(handle.file.inode.data, from, length);
              if handle.file.readable
              then && count == |got| && buffer[..] == got + old(buffer[..])[|got|..]
                   && handle.file.offset == from + |got|
              else count == -1 && buffer[..] == old(buffer[..]) && handle.file.offset == from
      ensures bitIndex == 0 && bytePos == (old(Position()) + 7) / 8 + count
      ensures handle.file.readable ==>
                var data := handle.file.inode.data;
                var aligned := old(bytePos) + if old(bitIndex) == 0 then 0 else 1;
                var from := if aligned >= 0 then aligned else old(handle.file.offset);
                && count == (if from >= |data| then 0 else if |data| - from < length then |data| - from else length)
                && (forall i :: 0 <= i < count ==> buffer[i] == data[from + i])
                && (forall i :: count <= i < buffer.Length ==> buffer[i] == old(buffer[i]))
    {
      hide Slice;
      AlignByte();
      var position := handle.Seek(bytePos, Set);
      count := handle.Read(buffer, length);
      bytePos := bytePos + count;
    }

    method Seek(bytePos: int, bitIndex: nat)
      modifies this
      ensures this.bytePos == bytePos && this.bitIndex == bitIndex
    {
      this.bytePos, this.bitIndex := bytePos, bitIndex;
    }

    /** Moves by any number of bits, forwards or backwards. */
    method Skip(numBits: int)
      modifies this
      ensures bitIndex < 8 && Position() == old(Position()) + numBits
    {
      var tmp := bitIndex + numBits;
      bytePos := bytePos + tmp / 8;
      bitIndex := tmp % 8;
    }

    method BytesUsed() returns (n: int)
      requires Valid()
      ensures n == (Position() + 7) / 8
    {
      n := bytePos + if bitIndex == 0 then 0 else 1;
    }
  }
}
