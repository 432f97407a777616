/** The buffer that formatted output is collected in; it grows by doubling. */
module FormatBuffers {
  import opened Bits

  const INITIAL: nat := 64

  /** 64 times a power of two. */
  ghost predicate IsDoubled(n: nat) {
    exists k: nat :: n == INITIAL * Pow2(k)
  }

  lemma DoubledTwice(n: nat)
    requires IsDoubled(n)
    ensures IsDoubled(2 * n)
  {
    var k: nat :| n == INITIAL * Pow2(k);
    assert 2 * n == INITIAL * Pow2(k + 1);
  }

  lemma InitialIsDoubled()
    ensures IsDoubled(INITIAL)
  {
    assert INITIAL == INITIAL * Pow2(0);
  }

  class FormatBuffer {
    var data: array<Byte>
    var size: nat
    var cap: nat
    var failed: bool
    /** All bytes ever requested from the allocator for this buffer. */
    ghost var requested: nat

    function Contents(): seq<Byte>
      reads this, data
      requires size <= data.Length
    {
      data[..size]
    }

    /**
      Before the first emit nothing is allocated. Afterwards the capacity is 64 times a power of
      two, has room for a terminator, is no more than twice what is needed, and all reallocations
      together asked for at most twice the capacity.
     */
    ghost predicate Valid()
      reads this, data
    {
      && cap == data.Length && size <= cap && requested <= 2 * cap
      && (cap == 0 || (IsDoubled(cap) && size + 1 <= cap && (cap == INITIAL || cap < 2 * (size + 1))))
    }

    constructor ()
      ensures Valid() && fresh(data) && Contents() == [] && cap == 0 && requested == 0 && !failed
    {
      data := new Byte[0];
      size, cap, failed, requested := 0, 0, false, 0;
    }

    /** Makes room for `extra` bytes and a terminator, or marks the buffer as failed. */
    method Ensure(extra: nat, memory: bool)
      requires Valid()
      modifies this`data, this`cap, this`failed, this`requested
      ensures cap == data.Length && size <= cap && Contents() == old(Contents())
      ensures failed <==> old(failed) || (size + extra + 1 > old(cap) && !memory)
      ensures failed ==> Valid() && data == old(data)
      ensures !failed ==> size + extra + 1 <= cap && IsDoubled(cap) && requested <= 2 * cap
      ensures !failed ==> cap == old(cap) || cap == INITIAL || cap < 2 * (size + extra + 1)
      ensures data == old(data) || fresh(data)
      ensures !failed ==> exists k: nat :: cap == 64 * Pow2(k)
    {
      if failed {
        return;
      }
      if size + extra + 1 > cap {
        InitialIsDoubled();
        var newCap := if cap != 0 then cap else INITIAL;
        while newCap < size + extra + 1
          invariant IsDoubled(newCap) && newCap >= INITIAL
          invariant || newCap == (if cap != 0 then cap else INITIAL)
                    || (newCap >= 2 * cap && newCap < 2 * (size + extra + 1))
          modifies {}
          decreases size + extra + 1 - newCap
        {
          DoubledTwice(newCap);
          newCap := newCap * 2;
        }
        if !memory {
          failed := true;
          return;
        }
        var p := new Byte[newCap](_ => 0);
        forall i | 0 <= i < size { p[i] := data[i]; }
        assert p[..size] == data[..size];
        data := p;
        cap := newCap;
        requested := requested + newCap;
      }
    }

    /** Emits a piece: the buffer then holds everything emitted so far, in order. */
    method Bytes(s: seq<Byte>, memory: bool)
      requires Valid()
      modifies this, data
      ensures Valid() && (data == old(data) || fresh(data))
      ensures !failed ==> cap > 0
      ensures failed <==> old(failed) || (old(size) + |s| + 1 > old(cap) && !memory)
      ensures Contents() == if failed then old(Contents()) else old(Contents()) + s
    {
      Ensure(|s|, memory);
      if failed { return; }
      forall i | size <= i < size + |s| { data[i] := s[i - size]; }
      size := size + |s|;
      assert data[..size] == old(Contents()) + s;
    }

    method Char(c: Byte, memory: bool)
      requires Valid()
      modifies this, data
      ensures Valid() && (data == old(data) || fresh(data))
      ensures !failed ==> cap > 0
      ensures failed <==> old(failed) || (old(size) + 2 > old(cap) && !memory)
      ensures Contents() == if failed then old(Contents()) else old(Contents()) + [c]
    {
      Ensure(1, memory);
      if failed { return; }
      data[size] := c;
      size := size + 1;
      assert data[..size] == old(Contents()) + [c];
    }
  }

  function Concat(pieces: seq<seq<Byte>>): seq<Byte> {
    if pieces == [] then [] else Concat(pieces[..|pieces| - 1]) + pieces[|pieces| - 1]
  }

  lemma ConcatIs(pieces: seq<seq<Byte>>, p: seq<Byte>)
    ensures Concat([]) == [] && Concat(pieces + [p]) == Concat(pieces) + p
  {
    assert (pieces + [p])[..|pieces|] == pieces;
  }

  /** A whole run of emits: the concatenation of the pieces, within twice the room it needs. */
  method EmitAll(pieces: seq<seq<Byte>>) returns (b: FormatBuffer)
    ensures b.Valid() && !b.failed && b.Contents() == Concat(pieces)
    ensures pieces != [] ==> b.cap >= |Concat(pieces)| + 1 && (b.cap == INITIAL || b.cap < 2 * (|Concat(pieces)| + 1))
    ensures pieces != [] ==> b.cap == 64 || b.cap < 2 * (|Concat(pieces)| + 1)
    ensures b.requested <= 2 * b.cap
  {
    b := new FormatBuffer();
    for i := 0 to |pieces|
      invariant fresh(b) && fresh(b.data) && b.Valid() && !b.failed
      invariant b.Contents() == Concat(pieces[..i])
      invariant i > 0 ==> b.cap > 0
    {
      b.Bytes(pieces[i], true);
      assert pieces[..i + 1][..i] == pieces[..i];
    }
    assert pieces[..|pieces|] == pieces;
  }
}
