/**
  Cutting and joining UTF-8 text.

  UTF-8 synchronises itself: a byte that is not a trailing byte starts a character, so a cut in
  front of such a byte never tears one.
 */
module Boundaries {
  import opened Bits
  import opened Encodings

  lemma CharShape(c: seq<Byte>)
    requires IsChar(c)
    ensures 1 <= |c| <= 4 && !IsTail(c[0])
    ensures forall k :: 1 <= k < |c| ==> IsTail(c[k])
  {
  }

  lemma FirstIsNotTail(s: seq<Byte>)
    requires IsUtf8(s) && s != []
    ensures !IsTail(s[0])
  {
    CharShape(s[..CharLength(s)]);
  }

  lemma Associate(a: seq<Byte>, b: seq<Byte>, c: seq<Byte>)
    ensures (a + b) + c == a + (b + c)
  {
  }

  /** After valid text, the rest decides. */
  lemma {:induction false} JoinUtf8(a: seq<Byte>, b: seq<Byte>)
    requires IsUtf8(a)
    ensures IsUtf8(a + b) <==> IsUtf8(b)
    decreases |a|
  {
    hide IsChar, IsUtf8;
    if a == [] {
      assert a + b == b;
    } else {
      var c, rest := TakeChar(a);
      JoinUtf8(rest, b);
      Associate(c, rest, b);
      FrontChar(c, rest + b);
    }
  }

  predicate AtBoundary(s: seq<Byte>, k: int) {
    k == |s| || (0 <= k < |s| && !IsTail(s[k]))
  }

  lemma TakeChar(s: seq<Byte>) returns (c: seq<Byte>, rest: seq<Byte>)
    requires IsUtf8(s) && s != []
    ensures s == c + rest && 1 <= |c| && IsChar(c) && IsUtf8(rest)
    ensures forall k :: 1 <= k < |c| ==> IsTail(c[k])
  {
    c, rest := s[..CharLength(s)], s[CharLength(s)..];
    CharShape(c);
  }

  lemma EmptyIsUtf8()
    ensures IsUtf8([])
  {
  }

  /** A cut in front of a non-trailing byte, or at the end, leaves two valid texts. */
  lemma {:induction false} CutAtBoundary(s: seq<Byte>, k: nat)
    requires IsUtf8(s) && k <= |s| && AtBoundary(s, k)
    ensures IsUtf8(s[..k]) && IsUtf8(s[k..])
    decreases |s|
  {
    hide IsChar, IsUtf8;
    EmptyIsUtf8();
    if k == |s| {
      assert s[..k] == s && s[k..] == [];
    } else if k == 0 {
      assert s[..k] == [] && s[k..] == s;
    } else {
      var c, rest := TakeChar(s);
      forall i | 1 <= i < |c| ensures IsTail(s[i]) { assert c[i] == s[i]; }
      assert rest[k - |c|..] == s[k..] && s[..k] == c + rest[..k - |c|];
      assert k < |s| ==> s[k] == rest[k - |c|];
      CutAtBoundary(rest, k - |c|);
      FrontChar(c, rest[..k - |c|]);
    }
  }

  /** Before valid text, the rest decides as well. */
  lemma JoinUtf8Right(a: seq<Byte>, b: seq<Byte>)
    requires IsUtf8(b)
    ensures IsUtf8(a + b) <==> IsUtf8(a)
  {
    if IsUtf8(a) { JoinUtf8(a, b); }
    if IsUtf8(a + b) {
      if b != [] {
        FirstIsNotTail(b);
        assert (a + b)[|a|] == b[0];
      }
      CutAtBoundary(a + b, |a|);
      assert (a + b)[..|a|] == a;
    }
  }

  lemma {:induction false} AsciiIsUtf8(s: seq<Byte>)
    requires IsAscii(s)
    ensures IsUtf8(s)
  {
    if s == [] {
    } else {
      AsciiIsUtf8(s[1..]);
      assert IsChar(s[..1]);
      FrontChar(s[..1], s[1..]);
      assert s == s[..1] + s[1..];
    }
  }

  // ---- deleting a range ----

  /** The start of the character that a cut at `k` would tear; `k` itself at a boundary. */
  function FloorCut(s: seq<Byte>, k: nat): (j: nat)
    requires k <= |s|
    ensures j <= k
    ensures IsUtf8(s) ==> AtBoundary(s, j)
    ensures forall i :: j < i < k ==> IsTail(s[i])
    ensures j < k && k < |s| ==> IsTail(s[k])
    ensures k == |s| ==> j == k
  {
    if AtBoundary(s, k) || k == 0 then
      if IsUtf8(s) && k < |s| && k == 0 then FirstIsNotTail(s); k else k
    else FloorCut(s, k - 1)
  }

  /** The end of the character that a cut at `k` would tear; `k` itself at a boundary. */
  function CeilCut(s: seq<Byte>, k: nat): (j: nat)
    requires k <= |s|
    ensures k <= j <= |s| && AtBoundary(s, j)
    ensures forall i :: k <= i < j ==> IsTail(s[i])
    decreases |s| - k
  {
    if AtBoundary(s, k) then k else CeilCut(s, k + 1)
  }

  function DeleteBytes(s: seq<Byte>, from: nat, to: nat): seq<Byte>
    requires from <= to <= |s|
  {
    s[..from] + s[to..]
  }

  /** The torn halves of characters that deleting `from..to` brings together. */
  function TornHalves(s: seq<Byte>, from: nat, to: nat): seq<Byte>
    requires from <= to <= |s|
  {
    s[FloorCut(s, from)..from] + s[to..CeilCut(s, to)]
  }

  /** A valid text in which only the first byte may start a character is one character. */
  lemma TailsMakeOneChar(x: seq<Byte>)
    requires forall k :: 1 <= k < |x| ==> IsTail(x[k])
    ensures IsUtf8(x) <==> x == [] || IsChar(x)
  {
    if IsUtf8(x) && x != [] {
      var n := CharLength(x);
      if n < |x| {
        FirstIsNotTail(x[n..]);
        assert false;
      }
      assert x[..n] == x;
    }
    if IsChar(x) {
      FrontChar(x, []);
      assert x + [] == x;
    }
  }

  lemma TornAreTails(s: seq<Byte>, from: nat, to: nat, k: nat)
    requires from <= to <= |s| && 1 <= k < |TornHalves(s, from, to)|
    ensures IsTail(TornHalves(s, from, to)[k])
  {
    var j := FloorCut(s, from);
    if k >= from - j { assert TornHalves(s, from, to)[k] == s[to + (k - (from - j))]; }
  }

  lemma SlicesJoin(s: seq<Byte>, j: nat, from: nat, to: nat, e: nat)
    requires j <= from <= to <= e <= |s|
    ensures s[..from] + s[to..] == s[..j] + ((s[j..from] + s[to..e]) + s[e..])
  {
    assert s[..from] == s[..j] + s[j..from];
    assert s[to..] == s[to..e] + s[e..];
  }

  /**
    Deleting a range of valid text leaves valid text exactly when no character is torn, or the
    two torn halves happen to form a character.
   */
  lemma DeleteKeepsUtf8(s: seq<Byte>, from: nat, to: nat)
    requires IsUtf8(s) && from <= to <= |s|
    ensures var torn := TornHalves(s, from, to);
            IsUtf8(DeleteBytes(s, from, to)) <==> torn == [] || IsChar(torn)
  {
    hide IsChar, IsUtf8, AtBoundary;
    var j, e := FloorCut(s, from), CeilCut(s, to);
    var x := TornHalves(s, from, to);
    CutAtBoundary(s, j);
    CutAtBoundary(s, e);
    assert DeleteBytes(s, from, to) == s[..j] + (x + s[e..]) by { SlicesJoin(s, j, from, to, e); }
    JoinUtf8(s[..j], x + s[e..]);
    JoinUtf8Right(x, s[e..]);
    forall k | 1 <= k < |x| ensures IsTail(x[k]) { TornAreTails(s, from, to, k); }
    TailsMakeOneChar(x);
  }

  /** Deleting whole characters tears nothing. */
  lemma DeleteWholeChars(s: seq<Byte>, from: nat, to: nat)
    requires IsUtf8(s) && from <= to <= |s| && AtBoundary(s, from) && AtBoundary(s, to)
    ensures IsUtf8(DeleteBytes(s, from, to))
  {
    DeleteKeepsUtf8(s, from, to);
  }

  /** Half of a two-byte character is not text; the halves of two such characters may be. */
  lemma TornAndJoined()
    ensures IsUtf8([0xC3, 0xA9]) && !IsUtf8(DeleteBytes([0xC3, 0xA9], 0, 1))
    ensures IsUtf8([0xC3, 0xA9, 0xC3, 0xA8]) && IsUtf8(DeleteBytes([0xC3, 0xA9, 0xC3, 0xA8], 1, 3))
  {
    var e, f: seq<Byte> := [0xC3, 0xA9], [0xC3, 0xA8];
    TailsMakeOneChar(e);
    TailsMakeOneChar(f);
    TailsMakeOneChar([0xA9]);
    assert DeleteBytes(e, 0, 1) == [0xA9];
    JoinUtf8(e, f);
    assert e + f == [0xC3, 0xA9, 0xC3, 0xA8];
    assert DeleteBytes(e + f, 1, 3) == f;
  }
}
