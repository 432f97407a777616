/**
  Unsigned machine words as natural numbers.

  A word of the C program is a `nat`; a fixed width is written out with `Low(v, width)`, which
  drops everything above the width. Every operation is characterised by what it does to each
  single bit, so that proofs about shifting and masking are proofs about bit positions.
 */
module Bits {

  type Byte = b: nat | b < 0x100

  type UInt64 = v: nat | v < 0x1_0000_0000_0000_0000

  /** Bit `i` of `v`, counting from the least significant one; `false` beyond the top of `v`. */
  predicate Bit(v: nat, i: nat)
    decreases i
  {
    if i == 0 then v % 2 == 1 else Bit(v / 2, i - 1)
  }

  function Pow2(n: nat): (p: nat)
    ensures p > 0
  {
    if n == 0 then 1 else 2 * Pow2(n - 1)
  }

  /** `v << k`, before any truncation to a width. */
  function Shl(v: nat, k: nat): nat {
    if k == 0 then v else 2 * Shl(v, k - 1)
  }

  /** `v >> k`. */
  function Shr(v: nat, k: nat): nat {
    if k == 0 then v else Shr(v / 2, k - 1)
  }

  /** The `n` low bits of `v`: conversion to an `n`-bit unsigned type. */
  function Low(v: nat, n: nat): nat {
    if n == 0 then 0 else v % 2 + 2 * Low(v / 2, n - 1)
  }

  /** `a | b`. */
  function Or(a: nat, b: nat): nat
    decreases a + b
  {
    if a == 0 && b == 0 then 0
    else (if a % 2 == 1 || b % 2 == 1 then 1 else 0) + 2 * Or(a / 2, b / 2)
  }

  /** `a & b`. */
  function And(a: nat, b: nat): nat
    decreases a + b
  {
    if a == 0 && b == 0 then 0
    else (if a % 2 == 1 && b % 2 == 1 then 1 else 0) + 2 * And(a / 2, b / 2)
  }

  // ---- each operation, bit by bit ----

  lemma {:induction false} ZeroBit(i: nat)
    ensures !Bit(0, i)
    decreases i
  {
    if i == 0 {
    } else {
      ZeroBit(i - 1);
    }
  }

  lemma {:induction false} ShlBit(v: nat, k: nat, i: nat)
    ensures Bit(Shl(v, k), i) <==> i >= k && Bit(v, i - k)
    decreases k
  {
    if k == 0 {
    } else {
      assert Shl(v, k) / 2 == Shl(v, k - 1);
      if i > 0 { ShlBit(v, k - 1, i - 1); }
    }
  }

  lemma {:induction false} ShrBit(v: nat, k: nat, i: nat)
    ensures Bit(Shr(v, k), i) <==> Bit(v, i + k)
    decreases k
  {
    if k == 0 {
    } else {
      ShrBit(v / 2, k - 1, i);
    }
  }

  lemma {:induction false} LowBit(v: nat, n: nat, i: nat)
    ensures Bit(Low(v, n), i) <==> i < n && Bit(v, i)
    decreases n
  {
    if n == 0 {
      ZeroBit(i);
    } else {
      assert Low(v, n) / 2 == Low(v / 2, n - 1);
      if i > 0 { LowBit(v / 2, n - 1, i - 1); }
    }
  }

  lemma {:induction false} OrBit(a: nat, b: nat, i: nat)
    ensures Bit(Or(a, b), i) <==> Bit(a, i) || Bit(b, i)
    decreases i
  {
    if a == 0 && b == 0 {
      ZeroBit(i);
    } else {
      assert Or(a, b) / 2 == Or(a / 2, b / 2);
      if i > 0 { OrBit(a / 2, b / 2, i - 1); }
    }
  }

  lemma {:induction false} AndBit(a: nat, b: nat, i: nat)
    ensures Bit(And(a, b), i) <==> Bit(a, i) && Bit(b, i)
    decreases i
  {
    if a == 0 && b == 0 {
      ZeroBit(i);
    } else {
      assert And(a, b) / 2 == And(a / 2, b / 2);
      if i > 0 { AndBit(a / 2, b / 2, i - 1); }
    }
  }

  // ---- a number is its bits ----

  lemma {:induction false} SameBits(a: nat, b: nat)
    requires forall i: nat :: Bit(a, i) <==> Bit(b, i)
    ensures a == b
    decreases a + b
  {
    if a + b == 0 {
    } else {
      assert Bit(a, 0) <==> Bit(b, 0);
      forall i: nat ensures Bit(a / 2, i) <==> Bit(b / 2, i) {
        assert Bit(a, i + 1) <==> Bit(b, i + 1);
      }
      SameBits(a / 2, b / 2);
    }
  }

  lemma {:induction false} BitsBelow(v: nat, n: nat, i: nat)
    requires v < Pow2(n) && i >= n
    ensures !Bit(v, i)
    decreases n
  {
    if n == 0 { ZeroBit(i); } else { BitsBelow(v / 2, n - 1, i - 1); }
  }

  lemma {:induction false} TopBit(v: nat, n: nat) returns (i: nat)
    requires v >= Pow2(n)
    ensures i >= n && Bit(v, i)
    decreases v
  {
    if n == 0 {
      if v == 1 { i := 0; } else { i := TopBit(v / 2, 0); i := i + 1; }
    } else {
      i := TopBit(v / 2, n - 1);
      i := i + 1;
    }
  }

  lemma BoundFromBits(v: nat, n: nat)
    requires forall i: nat :: i >= n ==> !Bit(v, i)
    ensures v < Pow2(n)
  {
    if v >= Pow2(n) {
      var i := TopBit(v, n);
      assert false;
    }
  }

  lemma {:induction false} SplitAt(v: nat, n: nat)
    ensures v == Shl(Shr(v, n), n) + Low(v, n)
    decreases n
  {
    if n == 0 {
    } else {
      SplitAt(v / 2, n - 1);
    }
  }

  lemma Doubling(a: int, b: int)
    ensures 2 * (a * b) == a * (2 * b) == (2 * a) * b
  {
  }

  lemma MultipleBound(d: int, m: int)
    requires m > 0
    ensures d >= 1 ==> d * m >= m
    ensures d <= -1 ==> d * m <= -m
  {
    if d >= 1 { assert (d - 1) * m >= 0; }
    if d <= -1 { assert (-1 - d) * m >= 0; }
  }

  lemma RemainderUnique(v: nat, m: nat, q: nat, r: nat)
    requires r < m && v == q * m + r
    ensures v % m == r
  {
    var d, w := v / m - q, v % m;
    assert d * m == (v / m) * m - q * m;
    assert d * m == r - w;
    MultipleBound(d, m);
  }

  /** Truncation to `n` bits is the remainder modulo 2^n. */
  lemma LowIsMod(v: nat, n: nat)
    ensures Low(v, n) == v % Pow2(n)
  {
    SplitAt(v, n);
    ShlIsTimes(Shr(v, n), n);
    LowBound(v, n);
    RemainderUnique(v, Pow2(n), Shr(v, n), Low(v, n));
  }

  lemma {:induction false} ShlIsTimes(v: nat, k: nat)
    ensures Shl(v, k) == v * Pow2(k)
    decreases k
  {
    if k == 0 {
    } else {
      ShlIsTimes(v, k - 1);
      Doubling(v, Pow2(k - 1));
    }
  }

  /** The mask `(1 << n) - 1` has exactly the bits below `n`. */
  lemma {:induction false} MaskBit(n: nat, i: nat)
    ensures Bit(Pow2(n) - 1, i) <==> i < n
    decreases n
  {
    if n == 0 {
      ZeroBit(i);
    } else {
      assert (Pow2(n) - 1) / 2 == Pow2(n - 1) - 1;
      if i > 0 { MaskBit(n - 1, i - 1); }
    }
  }

  /** Masking with `(1 << n) - 1` keeps the value modulo 2^n. */
  lemma MaskIsLow(v: nat, n: nat)
    ensures And(v, Pow2(n) - 1) == Low(v, n)
  {
    forall i: nat ensures Bit(And(v, Pow2(n) - 1), i) <==> Bit(Low(v, n), i) {
      AndBit(v, Pow2(n) - 1, i);
      MaskBit(n, i);
      LowBit(v, n, i);
    }
    SameBits(And(v, Pow2(n) - 1), Low(v, n));
  }

  lemma LowFits(v: nat, n: nat)
    requires v < Pow2(n)
    ensures Low(v, n) == v
  {
    forall i: nat ensures Bit(Low(v, n), i) <==> Bit(v, i) {
      LowBit(v, n, i);
      if i >= n { BitsBelow(v, n, i); }
    }
    SameBits(Low(v, n), v);
  }

  lemma LowBound(v: nat, n: nat)
    ensures Low(v, n) < Pow2(n)
  {
    forall i: nat | i >= n ensures !Bit(Low(v, n), i) { LowBit(v, n, i); }
    BoundFromBits(Low(v, n), n);
  }

  lemma {:induction false} Pow2Monotone(m: nat, n: nat)
    requires m <= n
    ensures Pow2(m) <= Pow2(n)
    decreases n
  {
    if m == n {
    } else {
      Pow2Monotone(m, n - 1);
    }
  }

  /** Or-ing a number into zero bits is adding it. */
  lemma {:induction false} OrIsAdd(a: nat, b: nat, k: nat)
    requires b < Pow2(k)
    ensures Or(Shl(a, k), b) == Shl(a, k) + b
    decreases k
  {
    if k == 0 {
      OrZero(a);
    } else {
      OrIsAdd(a, b / 2, k - 1);
      assert Shl(a, k) / 2 == Shl(a, k - 1) && Shl(a, k) % 2 == 0;
    }
  }

  lemma {:induction false} OrZero(a: nat)
    ensures Or(a, 0) == a
  {
    if a == 0 {
    } else {
      OrZero(a / 2);
    }
  }

  lemma {:induction false} Pow2Add(m: nat, n: nat)
    ensures Pow2(m + n) == Pow2(m) * Pow2(n)
    decreases m
  {
    if m == 0 {
    } else {
      Pow2Add(m - 1, n);
      Doubling(Pow2(m - 1), Pow2(n));
    }
  }

  /** The widths the program uses. */
  lemma Pow2Widths()
    ensures Pow2(8) == 0x100 && Pow2(16) == 0x1_0000
    ensures Pow2(32) == 0x1_0000_0000 && Pow2(64) == 0x1_0000_0000_0000_0000
  {
    assert Pow2(4) == 16;
    Pow2Add(4, 4);
    Pow2Add(8, 8);
    Pow2Add(16, 16);
    Pow2Add(32, 32);
  }

  lemma NoBitAbove64(v: UInt64, i: nat)
    requires i >= 64
    ensures !Bit(v, i)
  {
    Pow2Widths();
    BitsBelow(v, 64, i);
  }

  /** Masking out the low `k` bits of a number that has at most `m + k` bits. */
  lemma {:induction false} HighMask(v: nat, m: nat, k: nat)
    requires v < Pow2(m + k)
    ensures And(v, Shl(Pow2(m) - 1, k)) == v - Low(v, k)
    decreases k
  {
    if k == 0 {
      MaskIsLow(v, m);
      LowFits(v, m);
    } else {
      HighMask(v / 2, m, k - 1);
      assert Shl(Pow2(m) - 1, k) / 2 == Shl(Pow2(m) - 1, k - 1);
    }
  }
}
