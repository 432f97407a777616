/**
  Byte order: windows of bytes read as little-endian numbers, and byte swapping.

  The yardstick for everything here is the bit string of a byte sequence: bit `i` lives in byte
  `i / 8`, and beyond the last byte there are only zeros.
 */
module Endian {
  import opened Bits

  /** Width of the wide unsigned type that windows are assembled in. */
  const WORD_BITS: nat := 128

  datatype Order = Little | Big

  /** Bit `i` of the endless zero-extended bit string that `s` starts. */
  predicate StreamBit(s: seq<Byte>, i: nat) {
    i / 8 < |s| && Bit(s[i / 8], i % 8)
  }

  /** The bytes of `s` as one little-endian number. */
  function LoadLE(s: seq<Byte>): nat {
    if s == [] then 0 else s[0] + 0x100 * LoadLE(s[1..])
  }

  function ByteAt(v: nat, j: nat): Byte {
    LowBound(Shr(v, 8 * j), 8);
    Pow2Widths();
    Low(Shr(v, 8 * j), 8)
  }

  /** The `n` low bytes of `v`, least significant first. */
  function StoreLE(v: nat, n: nat): (s: seq<Byte>)
    ensures |s| == n
  {
    seq(n, j requires 0 <= j < n => ByteAt(v, j))
  }

  /** A number put together from a low byte and the rest; `n` is pinned so that no literal is unrolled. */
  lemma JoinByteBit(b: Byte, rest: nat, n: nat, i: nat)
    requires n == 8
    ensures Bit(b + Pow2(n) * rest, i) <==> if i < n then Bit(b, i) else Bit(rest, i - n)
  {
    hide Bit, Shl, Or;
    Pow2Widths();
    OrIsAdd(rest, b, n);
    ShlIsTimes(rest, n);
    OrBit(Shl(rest, n), b, i);
    ShlBit(rest, n, i);
    if i >= n { BitsBelow(b, n, i); }
  }

  lemma {:induction false} LoadLEBit(s: seq<Byte>, i: nat)
    ensures Bit(LoadLE(s), i) <==> StreamBit(s, i)
  {
    hide Bit;
    if s == [] {
      ZeroBit(i);
    } else {
      Pow2Widths();
      JoinByteBit(s[0], LoadLE(s[1..]), 8, i);
      if i >= 8 {
        LoadLEBit(s[1..], i - 8);
        assert i / 8 == (i - 8) / 8 + 1 && i % 8 == (i - 8) % 8;
      }
    }
  }

  lemma ByteAtBit(v: nat, j: nat, k: nat)
    requires k < 8
    ensures Bit(ByteAt(v, j), k) <==> Bit(v, 8 * j + k)
  {
    hide Bit, Shr, Low;
    LowBit(Shr(v, 8 * j), 8, k);
    ShrBit(v, 8 * j, k);
  }

  lemma StoreLEBit(v: nat, n: nat, i: nat)
    ensures StreamBit(StoreLE(v, n), i) <==> i < 8 * n && Bit(v, i)
  {
    hide Bit, ByteAt;
    if i < 8 * n { ByteAtBit(v, i / 8, i % 8); }
  }

  /** Equally long byte strings with the same bits are equal. */
  lemma SameStream(s: seq<Byte>, t: seq<Byte>)
    requires |s| == |t|
    requires forall i: nat :: StreamBit(s, i) <==> StreamBit(t, i)
    ensures s == t
  {
    forall j | 0 <= j < |s| ensures s[j] == t[j] {
      forall k: nat ensures Bit(s[j], k) <==> Bit(t[j], k) {
        if k < 8 {
          assert (8 * j + k) / 8 == j && (8 * j + k) % 8 == k;
          assert StreamBit(s, 8 * j + k) <==> StreamBit(t, 8 * j + k);
        } else {
          Pow2Widths();
          BitsBelow(s[j], 8, k);
          BitsBelow(t[j], 8, k);
        }
      }
      SameBits(s[j], t[j]);
    }
  }

  lemma StoreLoad(s: seq<Byte>)
    ensures StoreLE(LoadLE(s), |s|) == s
  {
    forall i: nat ensures StreamBit(StoreLE(LoadLE(s), |s|), i) <==> StreamBit(s, i) {
      StoreLEBit(LoadLE(s), |s|, i);
      LoadLEBit(s, i);
    }
    SameStream(StoreLE(LoadLE(s), |s|), s);
  }

  lemma LoadStore(v: nat, n: nat)
    requires v < Pow2(8 * n)
    ensures LoadLE(StoreLE(v, n)) == v
  {
    forall i: nat ensures Bit(LoadLE(StoreLE(v, n)), i) <==> Bit(v, i) {
      LoadLEBit(StoreLE(v, n), i);
      StoreLEBit(v, n, i);
      if i >= 8 * n { BitsBelow(v, 8 * n, i); }
    }
    SameBits(LoadLE(StoreLE(v, n)), v);
  }

  // ---- the window loops ----

  lemma LoadStep(s: seq<Byte>, i: nat)
    requires i < |s| <= 16
    ensures Or(LoadLE(s[..i]), Low(Shl(s[i], 8 * i), WORD_BITS)) == LoadLE(s[..i + 1])
  {
    var a, b := LoadLE(s[..i]), Low(Shl(s[i], 8 * i), WORD_BITS);
    forall k: nat ensures Bit(Or(a, b), k) <==> Bit(LoadLE(s[..i + 1]), k) {
      OrBit(a, b, k);
      LowBit(Shl(s[i], 8 * i), WORD_BITS, k);
      ShlBit(s[i], 8 * i, k);
      LoadLEBit(s[..i], k);
      LoadLEBit(s[..i + 1], k);
      if k >= 8 * (i + 1) {
        Pow2Widths();
        BitsBelow(s[i], 8, k - 8 * i);
      } else if k >= 8 * i {
        assert k / 8 == i && k % 8 == k - 8 * i;
      }
    }
    SameBits(Or(a, b), LoadLE(s[..i + 1]));
  }

  /** Accumulates `n` bytes into a 128-bit word. */
  method LoadWindowLE(p: array<Byte>, n: nat) returns (v: nat)
    requires n <= p.Length && n <= 16
    ensures v == LoadLE(p[..n])
  {
    v := 0;
    var i := 0;
    while i < n
      invariant i <= n
      invariant v == LoadLE(p[..i])
    {
      LoadStep(p[..n], i);
      assert p[..n][..i] == p[..i] && p[..n][..i + 1] == p[..i + 1];
      v := Or(v, Low(Shl(p[i], 8 * i), WORD_BITS));
      i := i + 1;
    }
  }

  /** Writes the `n` low bytes of a word into the buffer. */
  method StoreWindowLE(p: array<Byte>, v: nat, n: nat)
    requires n <= p.Length
    modifies p
    ensures p[..n] == StoreLE(v, n)
    ensures p[n..] == old(p[n..])
  {
    var i := 0;
    while i < n
      invariant i <= n
      invariant p[..i] == StoreLE(v, n)[..i]
      invariant p[n..] == old(p[n..])
    {
      p[i] := ByteAt(v, i);
      assert p[..i + 1] == p[..i] + [p[i]];
      i := i + 1;
    }
  }

  // ---- byte swapping ----

  function Reverse(s: seq<Byte>): (r: seq<Byte>)
    ensures |r| == |s|
    ensures forall j :: 0 <= j < |s| ==> r[j] == s[|s| - 1 - j]
  {
    if s == [] then [] else Reverse(s[1..]) + [s[0]]
  }

  /** The compiler's byte swap of an unsigned type of `n` bytes, after conversion to that type. */
  function BuiltinBSwap(v: nat, n: nat): nat {
    LoadLE(Reverse(StoreLE(v, n)))
  }

  function BSwapN(v: nat, numBytes: nat): nat {
    match numBytes
    case 2 => BuiltinBSwap(v, 2)
    case 3 => Or(Or(And(Shr(v, 16), 0xFF), And(v, 0xFF00)), Shl(And(v, 0xFF), 16))
    case 4 => BuiltinBSwap(v, 4)
    case 5 => Shr(BuiltinBSwap(v, 8), (8 - numBytes) * 8)
    case 6 => Shr(BuiltinBSwap(v, 8), (8 - numBytes) * 8)
    case 7 => Shr(BuiltinBSwap(v, 8), (8 - numBytes) * 8)
    case 8 => Shr(BuiltinBSwap(v, 8), (8 - numBytes) * 8)
    case _ => v
  }

  /** Where bit `i` of an `n`-byte number goes when the bytes change places. */
  function Mirror(n: nat, i: nat): nat
    requires i < 8 * n
  {
    8 * (n - 1 - i / 8) + i % 8
  }

  lemma BuiltinBSwapBit(v: nat, n: nat, i: nat)
    ensures Bit(BuiltinBSwap(v, n), i) <==> i < 8 * n && Bit(v, Mirror(n, i))
  {
    var s := StoreLE(v, n);
    LoadLEBit(Reverse(s), i);
    if i < 8 * n {
      var j := n - 1 - i / 8;
      assert (8 * j + i % 8) / 8 == j && (8 * j + i % 8) % 8 == i % 8;
      StoreLEBit(v, n, 8 * j + i % 8);
    }
  }

  lemma LowByteBit(w: nat, i: nat)
    ensures Bit(And(w, 0xFF), i) <==> i < 8 && Bit(w, i)
  {
    Pow2Widths();
    MaskIsLow(w, 8);
    LowBit(w, 8, i);
  }

  lemma MiddleByteBit(w: nat, i: nat)
    ensures Bit(And(w, 0xFF00), i) <==> 8 <= i < 16 && Bit(w, i)
  {
    AndBit(w, 0xFF00, i);
    Pow2Widths();
    ShlIsTimes(0xFF, 8);
    ShlBit(0xFF, 8, i);
    if i >= 8 { MaskBit(8, i - 8); }
  }

  /** Three bytes put together from their places. */
  lemma JoinThreeBit(v: nat, a: nat, b: nat, c: nat, i: nat)
    requires Bit(a, i) <==> i < 8 && Bit(v, i + 16)
    requires Bit(b, i) <==> 8 <= i < 16 && Bit(v, i)
    requires i >= 16 ==> (Bit(c, i - 16) <==> i < 24 && Bit(v, i - 16))
    ensures Bit(Or(Or(a, b), Shl(c, 16)), i) <==> i < 24 && Bit(v, Mirror(3, i))
  {
    OrBit(Or(a, b), Shl(c, 16), i);
    OrBit(a, b, i);
    ShlBit(c, 16, i);
    if i < 8 {
      assert i < 24 && Mirror(3, i) == i + 16;
    } else if i < 16 {
      assert i < 24 && Mirror(3, i) == i;
    } else if i < 24 {
      assert i < 24 && Mirror(3, i) == i - 16;
    }
  }

  /** The mask-and-shift form used for three bytes. */
  lemma BSwap3Bit(v: nat, i: nat)
    ensures Bit(BSwapN(v, 3), i) <==> i < 24 && Bit(v, Mirror(3, i))
  {
    LowByteBit(Shr(v, 16), i);
    ShrBit(v, 16, i);
    MiddleByteBit(v, i);
    if i >= 16 { LowByteBit(v, i - 16); }
    JoinThreeBit(v, And(Shr(v, 16), 0xFF), And(v, 0xFF00), And(v, 0xFF), i);
  }

  lemma ShiftedBSwapBit(v: nat, n: nat, i: nat)
    requires 5 <= n <= 8
    ensures Bit(BSwapN(v, n), i) <==> i < 8 * n && Bit(v, Mirror(n, i))
  {
    hide Bit;
    ShrBit(BuiltinBSwap(v, 8), (8 - n) * 8, i);
    BuiltinBSwapBit(v, 8, i + (8 - n) * 8);
    assert (i + (8 - n) * 8) / 8 == i / 8 + (8 - n) && (i + (8 - n) * 8) % 8 == i % 8;
  }

  /** All the cases of the byte swap reverse the low `n` bytes and drop the rest. */
  lemma BSwapNBit(v: nat, n: nat, i: nat)
    requires 2 <= n <= 8
    ensures Bit(BSwapN(v, n), i) <==> i < 8 * n && Bit(v, Mirror(n, i))
  {
    if n == 3 {
      BSwap3Bit(v, i);
    } else if n >= 5 {
      ShiftedBSwapBit(v, n, i);
    } else {
      BuiltinBSwapBit(v, n, i);
    }
  }

  /** The same, with the place in the other byte order spelled out. */
  lemma BSwapNIs(v: nat, n: nat, i: nat)
    requires 2 <= n <= 8
    ensures Bit(BSwapN(v, n), i) <==> i < 8 * n && Bit(v, 8 * (n - 1 - i / 8) + i % 8)
  {
    hide Bit, BSwapN;
    BSwapNBit(v, n, i);
  }

  lemma BSwapNBound(v: nat, n: nat)
    requires 2 <= n <= 8
    ensures BSwapN(v, n) < Pow2(8 * n)
  {
    forall i: nat | i >= 8 * n ensures !Bit(BSwapN(v, n), i) { BSwapNBit(v, n, i); }
    BoundFromBits(BSwapN(v, n), 8 * n);
  }

  /** On `n`-byte values the byte swap is its own inverse. */
  lemma BSwapNInvolution(v: nat, n: nat)
    requires 1 <= n <= 8 && v < Pow2(8 * n)
    ensures BSwapN(BSwapN(v, n), n) == v
  {
    if n >= 2 {
      var w := BSwapN(v, n);
      forall i: nat ensures Bit(BSwapN(w, n), i) <==> Bit(v, i) {
        BSwapNBit(w, n, i);
        if i < 8 * n {
          BSwapNBit(v, n, Mirror(n, i));
          MirrorTwice(n, i);
        } else {
          BitsBelow(v, 8 * n, i);
        }
      }
      SameBits(BSwapN(w, n), v);
    }
  }

  lemma MirrorTwice(n: nat, i: nat)
    requires i < 8 * n
    ensures Mirror(n, i) < 8 * n && Mirror(n, Mirror(n, i)) == i
  {
    var j := n - 1 - i / 8;
    assert (8 * j + i % 8) / 8 == j && (8 * j + i % 8) % 8 == i % 8;
  }
}
