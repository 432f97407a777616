/** Splitting a string into the non-empty pieces between occurrences of a separator. */
module Splitting {
  import opened Bits
  import opened Encodings
  import opened Options
  import opened Boundaries
  import opened Strings

  predicate MatchAt(s: seq<Byte>, sep: seq<Byte>, i: nat) {
    i + |sep| <= |s| && s[i..i + |sep|] == sep
  }

  lemma MatchMeans(s: seq<Byte>, sep: seq<Byte>, i: nat)
    ensures MatchAt(s, sep, i) <==> i + |sep| <= |s| && forall k :: 0 <= k < |sep| ==> s[i + k] == sep[k]
  {
    if i + |sep| <= |s| {
      var t := s[i..i + |sep|];
      assert forall k :: 0 <= k < |sep| ==> t[k] == s[i + k];
    }
  }

  /** The leftmost occurrence at or after `i`; the length of `s` when there is none. */
  function NextMatch(s: seq<Byte>, sep: seq<Byte>, i: nat): (m: nat)
    requires i <= |s| && sep != []
    ensures i <= m <= |s| && (m < |s| ==> MatchAt(s, sep, m))
    ensures forall k :: i <= k < m ==> !MatchAt(s, sep, k)
    decreases |s| - i
  {
    if i == |s| || MatchAt(s, sep, i) then i else NextMatch(s, sep, i + 1)
  }

  /** All pieces of `s[start..]` between leftmost non-overlapping occurrences, empty ones included. */
  function PiecesFrom(s: seq<Byte>, sep: seq<Byte>, start: nat): (ps: seq<seq<Byte>>)
    requires start <= |s| && sep != []
    ensures ps != []
    decreases |s| - start
  {
    var m := NextMatch(s, sep, start);
    if m == |s| then [s[start..]] else [s[start..m]] + PiecesFrom(s, sep, m + |sep|)
  }

  function Join(ps: seq<seq<Byte>>, sep: seq<Byte>): seq<Byte> {
    if ps == [] then [] else if |ps| == 1 then ps[0] else ps[0] + sep + Join(ps[1..], sep)
  }

  function NonEmpty(ps: seq<seq<Byte>>): seq<seq<Byte>> {
    if ps == [] then []
    else if ps[0] == [] then NonEmpty(ps[1..])
    else [ps[0]] + NonEmpty(ps[1..])
  }

  function SplitBytes(s: seq<Byte>, sep: seq<Byte>): seq<seq<Byte>>
    requires sep != []
  {
    NonEmpty(PiecesFrom(s, sep, 0))
  }

  function TextsOf(encoding: Encoding, ps: seq<seq<Byte>>): (ts: seq<Text>)
    ensures |ts| == |ps| && forall k :: 0 <= k < |ps| ==> ts[k] == Text(encoding, ps[k])
  {
    seq(|ps|, k requires 0 <= k < |ps| => Text(encoding, ps[k]))
  }

  /** Occurrences at every position, overlapping ones included: the counting pass. */
  function CountMatches(s: seq<Byte>, sep: seq<Byte>, i: nat): nat
    requires i <= |s|
    decreases |s| - i
  {
    if i == |s| then 0 else (if MatchAt(s, sep, i) then 1 else 0) + CountMatches(s, sep, i + 1)
  }

  // ---- what the pieces are ----

  lemma JoinCons(p: seq<Byte>, ps: seq<seq<Byte>>, sep: seq<Byte>)
    requires ps != []
    ensures Join([p] + ps, sep) == p + sep + Join(ps, sep)
  {
    assert ([p] + ps)[1..] == ps;
  }

  lemma PiecesStep(s: seq<Byte>, sep: seq<Byte>, start: nat)
    requires start <= |s| && sep != []
    ensures var m := NextMatch(s, sep, start);
            if m == |s| then PiecesFrom(s, sep, start) == [s[start..]]
            else m + |sep| <= |s| && PiecesFrom(s, sep, start) == [s[start..m]] + PiecesFrom(s, sep, m + |sep|)
  {
  }

  lemma AroundMatch(s: seq<Byte>, sep: seq<Byte>, start: nat, m: nat)
    requires start <= m && MatchAt(s, sep, m)
    ensures s[start..] == s[start..m] + sep + s[m + |sep|..]
  {
    assert s[m..] == s[m..m + |sep|] + s[m + |sep|..];
    assert s[start..] == s[start..m] + s[m..];
  }

  /** Pieces and separators interleave back to the string: nothing is lost. */
  lemma {:induction false} PiecesJoinBack(s: seq<Byte>, sep: seq<Byte>, start: nat)
    requires start <= |s| && sep != []
    ensures Join(PiecesFrom(s, sep, start), sep) == s[start..]
    decreases |s| - start
  {
    hide MatchAt, NextMatch, PiecesFrom;
    var m := NextMatch(s, sep, start);
    PiecesStep(s, sep, start);
    if m == |s| {
    } else {
      PiecesJoinBack(s, sep, m + |sep|);
      JoinCons(s[start..m], PiecesFrom(s, sep, m + |sep|), sep);
      AroundMatch(s, sep, start, m);
    }
  }

  /** No piece contains the separator. */
  lemma {:induction false} NoPieceContains(s: seq<Byte>, sep: seq<Byte>, start: nat, p: seq<Byte>, k: nat)
    requires start <= |s| && sep != [] && p in PiecesFrom(s, sep, start)
    ensures !MatchAt(p, sep, k)
    decreases |s| - start
  {
    var m := NextMatch(s, sep, start);
    if m < |s| && p in PiecesFrom(s, sep, m + |sep|) {
      NoPieceContains(s, sep, m + |sep|, p, k);
    } else {
      assert p == s[start..m];
      if MatchAt(p, sep, k) {
        assert s[start + k..start + k + |sep|] == p[k..k + |sep|];
        assert MatchAt(s, sep, start + k);
        assert false;
      }
    }
  }

  /** The number of pieces is bounded by the counting pass. */
  lemma {:induction false} PieceCount(s: seq<Byte>, sep: seq<Byte>, start: nat)
    requires start <= |s| && sep != []
    ensures |PiecesFrom(s, sep, start)| <= CountMatches(s, sep, start) + 1
    decreases |s| - start
  {
    hide MatchAt, NextMatch, PiecesFrom;
    var m := NextMatch(s, sep, start);
    PiecesStep(s, sep, start);
    CountMonotone(s, sep, start, m);
    if m == |s| {
    } else {
      PieceCount(s, sep, m + |sep|);
      CountMonotone(s, sep, m + 1, m + |sep|);
    }
  }

  lemma {:induction false} CountMonotone(s: seq<Byte>, sep: seq<Byte>, i: nat, j: nat)
    requires i <= j <= |s|
    ensures CountMatches(s, sep, j) <= CountMatches(s, sep, i)
    decreases j - i
  {
    if i == j {
    } else {
      CountMonotone(s, sep, i + 1, j);
    }
  }

  lemma {:induction false} NonEmptyKeeps(ps: seq<seq<Byte>>, p: seq<Byte>)
    ensures p in NonEmpty(ps) <==> p in ps && p != []
    ensures |NonEmpty(ps)| <= |ps|
  {
    if ps == [] {
    } else {
      NonEmptyKeeps(ps[1..], p);
      assert p in ps <==> p == ps[0] || p in ps[1..];
    }
  }

  /** Pieces of the result are non-empty and free of the separator. */
  lemma SplitPieces(s: seq<Byte>, sep: seq<Byte>, p: seq<Byte>, k: nat)
    requires sep != [] && p in SplitBytes(s, sep)
    ensures p != [] && !MatchAt(p, sep, k)
  {
    NonEmptyKeeps(PiecesFrom(s, sep, 0), p);
    NoPieceContains(s, sep, 0, p, k);
  }

  lemma SplitCount(s: seq<Byte>, sep: seq<Byte>)
    requires sep != []
    ensures |SplitBytes(s, sep)| <= CountMatches(s, sep, 0) + 1
  {
    PieceCount(s, sep, 0);
    NonEmptyKeeps(PiecesFrom(s, sep, 0), []);
  }

  // ---- the split, piece by piece ----

  lemma {:induction false} NextMatchShift(s: seq<Byte>, sep: seq<Byte>, start: nat, i: nat)
    requires start <= i <= |s| && sep != []
    ensures NextMatch(s, sep, i) == start + NextMatch(s[start..], sep, i - start)
    decreases |s| - i
  {
    if i == |s| {
    } else {
      if i + |sep| <= |s| { assert s[i..i + |sep|] == s[start..][i - start..i - start + |sep|]; }
      NextMatchShift(s, sep, start, i + 1);
    }
  }

  lemma {:induction false} PiecesShift(s: seq<Byte>, sep: seq<Byte>, start: nat)
    requires start <= |s| && sep != []
    ensures PiecesFrom(s, sep, start) == PiecesFrom(s[start..], sep, 0)
    decreases |s| - start
  {
    hide NextMatch, PiecesFrom, MatchAt;
    var rest := s[start..];
    NextMatchShift(s, sep, start, start);
    PiecesStep(s, sep, start);
    PiecesStep(rest, sep, 0);
    var m := NextMatch(s, sep, start);
    if m == |s| {
      assert rest[0..] == rest;
    } else {
      PiecesShift(s, sep, m + |sep|);
      PiecesShift(rest, sep, m - start + |sep|);
      assert rest[m - start + |sep|..] == s[m + |sep|..] && rest[0..m - start] == s[start..m];
    }
  }

  /**
    Without an occurrence of the separator the string is the one piece, unless it is empty; else
    there is the text up to the leftmost occurrence, unless it is empty, and the split of what
    follows the occurrence.
   */
  lemma SplitIs(s: seq<Byte>, sep: seq<Byte>, m: nat)
    requires sep != [] && m <= |s|
    requires forall k :: 0 <= k < m ==> !MatchAt(s, sep, k)
    ensures m == |s| ==> SplitBytes(s, sep) == if s == [] then [] else [s]
    ensures MatchAt(s, sep, m) ==>
              SplitBytes(s, sep) == (if m == 0 then [] else [s[..m]]) + SplitBytes(s[m + |sep|..], sep)
  {
    NextMatchSkips(s, sep, 0, m);
    PiecesStep(s, sep, 0);
    hide PiecesFrom;
    if m == |s| {
      assert PiecesFrom(s, sep, 0) == [s] + [] by { assert s[0..] == s; }
      FrontNonEmpty(s, []);
    } else if MatchAt(s, sep, m) {
      PiecesShift(s, sep, m + |sep|);
      assert s[0..m] == s[..m];
      FrontNonEmpty(s[..m], PiecesFrom(s, sep, m + |sep|));
    }
  }

  lemma FrontNonEmpty(p: seq<Byte>, ps: seq<seq<Byte>>)
    ensures NonEmpty([p] + ps) == (if p == [] then [] else [p]) + NonEmpty(ps)
    ensures NonEmpty([]) == []
  {
    assert ([p] + ps)[1..] == ps;
  }

  // ---- cuts at separators tear no character ----

  /** What follows `last` is the bytes up to the occurrence, the separator, and the rest. */
  lemma MatchSlices(s: seq<Byte>, sep: seq<Byte>, last: nat, i: nat)
    requires last <= i && MatchAt(s, sep, i)
    ensures s[last..] == s[last..i] + (sep + s[i + |sep|..])
  {
    assert s[last..] == s[last..i] + s[i..];
    assert s[i..] == s[i..i + |sep|] + s[i + |sep|..];
  }

  lemma CutAsciiBetween(a: seq<Byte>, sep: seq<Byte>, b: seq<Byte>)
    requires IsAscii(a + (sep + b))
    ensures IsAscii(a) && IsAscii(b)
  {
    var s := a + (sep + b);
    assert a == s[..|a|] && b == s[|a| + |sep|..];
  }

  lemma CutUtf8Between(a: seq<Byte>, sep: seq<Byte>, b: seq<Byte>)
    requires IsUtf8(a + (sep + b)) && IsUtf8(sep) && sep != []
    ensures IsUtf8(a) && IsUtf8(b)
  {
    hide IsUtf8;
    var s := a + (sep + b);
    FirstIsNotTail(sep);
    assert s[|a|] == sep[0];
    CutAtBoundary(s, |a|);
    assert s[..|a|] == a && s[|a|..] == sep + b;
    JoinUtf8(sep, b);
  }

  /** Valid text in front of and behind an occurrence of a valid separator is valid. */
  lemma CutAtMatch(encoding: Encoding, s: seq<Byte>, sep: seq<Byte>, last: nat, i: nat)
    requires last <= i && MatchAt(s, sep, i) && sep != []
    requires IsText(encoding, s[last..]) && IsText(encoding, sep)
    ensures IsText(encoding, s[last..i]) && IsText(encoding, s[i + |sep|..])
  {
    MatchSlices(s, sep, last, i);
    hide IsUtf8, IsAscii, MatchAt;
    match encoding
    case ASCII => CutAsciiBetween(s[last..i], sep, s[i + |sep|..]);
    case UTF8 => CutUtf8Between(s[last..i], sep, s[i + |sep|..]);
  }

  /** Every piece between occurrences of a valid separator is valid text. */
  lemma {:induction false} PiecesAreText(encoding: Encoding, s: seq<Byte>, sep: seq<Byte>, start: nat, p: seq<Byte>)
    requires start <= |s| && sep != [] && p in PiecesFrom(s, sep, start)
    requires IsText(encoding, s[start..]) && IsText(encoding, sep)
    ensures IsText(encoding, p)
    decreases |s| - start
  {
    hide IsText, NextMatch, PiecesFrom, MatchAt;
    var m := NextMatch(s, sep, start);
    PiecesStep(s, sep, start);
    if m == |s| {
    } else {
      CutAtMatch(encoding, s, sep, start, m);
      if p != s[start..m] { PiecesAreText(encoding, s, sep, m + |sep|, p); }
    }
  }

  /** A split of valid text by a valid separator consists of valid text. */
  lemma SplitIsText(t: Text, sep: seq<Byte>, p: seq<Byte>)
    requires ValidText(t) && sep != [] && IsText(t.encoding, sep) && p in SplitBytes(t.bytes, sep)
    ensures ValidText(Text(t.encoding, p))
  {
    hide IsText;
    NonEmptyKeeps(PiecesFrom(t.bytes, sep, 0), p);
    assert t.bytes[0..] == t.bytes;
    PiecesAreText(t.encoding, t.bytes, sep, 0, p);
    PiecesNulFree(t.bytes, sep, 0, p);
  }

  lemma {:induction false} PiecesNulFree(s: seq<Byte>, sep: seq<Byte>, start: nat, p: seq<Byte>)
    requires start <= |s| && sep != [] && p in PiecesFrom(s, sep, start) && NulFree(s)
    ensures NulFree(p)
    decreases |s| - start
  {
    hide NextMatch, PiecesFrom, MatchAt;
    var m := NextMatch(s, sep, start);
    PiecesStep(s, sep, start);
    if m < |s| && p != s[start..m] { PiecesNulFree(s, sep, m + |sep|, p); }
  }

  // ---- the splitter ----

  /**
    Bytewise comparison of a NUL-terminated string from `i` on with the separator. It never looks
    past the terminator, because a NUL is different from every byte of the separator.
   */
  method StartsWith(s: seq<Byte>, sep: seq<Byte>, i: nat) returns (same: bool)
    requires NulFree(sep) && i <= |s|
    ensures same <==> MatchAt(s, sep, i)
  {
    var k := 0;
    while k < |sep|
      invariant k <= |sep| && i + k <= |s|
      invariant s[i..i + k] == sep[..k]
    {
      var c := if i + k < |s| then s[i + k] else 0;
      if c != sep[k] {
        if i + |sep| <= |s| { assert s[i..i + |sep|][k] == c; }
        return false;
      }
      assert s[i..i + k + 1] == s[i..i + k] + [c];
      k := k + 1;
    }
    assert sep[..k] == sep;
    return true;
  }

  method CountPass(s: seq<Byte>, sep: seq<Byte>) returns (count: nat)
    requires NulFree(sep)
    ensures count == CountMatches(s, sep, 0)
  {
    count := 0;
    for i := 0 to |s|
      invariant count + CountMatches(s, sep, i) == CountMatches(s, sep, 0)
    {
      var same := StartsWith(s, sep, i);
      if same { count := count + 1; }
    }
  }

  lemma PieceStep(s: seq<Byte>, sep: seq<Byte>, last: nat, i: nat)
    requires last <= i < |s| && sep != [] && MatchAt(s, sep, i) && NextMatch(s, sep, last) == i
    ensures NonEmpty(PiecesFrom(s, sep, last)) ==
            (if i == last then [] else [s[last..i]]) + NonEmpty(PiecesFrom(s, sep, i + |sep|))
  {
    var rest := PiecesFrom(s, sep, i + |sep|);
    assert PiecesFrom(s, sep, last) == [s[last..i]] + rest;
    assert ([s[last..i]] + rest)[1..] == rest;
  }

  lemma LastPiece(s: seq<Byte>, sep: seq<Byte>, last: nat)
    requires last <= |s| && sep != [] && NextMatch(s, sep, last) == |s|
    ensures NonEmpty(PiecesFrom(s, sep, last)) == if last == |s| then [] else [s[last..]]
  {
    assert [s[last..]][1..] == [];
  }

  lemma NextMatchSkips(s: seq<Byte>, sep: seq<Byte>, last: nat, i: nat)
    requires last <= i <= |s| && sep != []
    requires forall k :: last <= k < i ==> !MatchAt(s, sep, k)
    ensures NextMatch(s, sep, last) == NextMatch(s, sep, i)
    decreases i - last
  {
    if last < i { NextMatchSkips(s, sep, last + 1, i); }
  }

  /** The loop invariant: what has been cut off plus what the rest will give is the whole split. */
  ghost predicate SplitState(t: Text, sep: seq<Byte>, components: seq<Text>, last: nat, i: nat)
    requires sep != []
  {
    && last <= i <= |t.bytes|
    && IsText(t.encoding, t.bytes[last..])
    && NextMatch(t.bytes, sep, last) == NextMatch(t.bytes, sep, i)
    && components + TextsOf(t.encoding, NonEmpty(PiecesFrom(t.bytes, sep, last))) ==
       TextsOf(t.encoding, SplitBytes(t.bytes, sep))
  }

  lemma SplitStart(t: Text, sep: seq<Byte>)
    requires ValidText(t) && sep != []
    ensures SplitState(t, sep, [], 0, 0)
  {
    hide IsText, PiecesFrom, NextMatch;
    assert t.bytes[0..] == t.bytes;
  }

  lemma SplitPass(t: Text, sep: seq<Byte>, components: seq<Text>, last: nat, i: nat)
    requires sep != [] && i < |t.bytes| && SplitState(t, sep, components, last, i) && !MatchAt(t.bytes, sep, i)
    ensures SplitState(t, sep, components, last, i + 1)
  {
    hide IsText, PiecesFrom, MatchAt;
  }

  lemma SplitCut(t: Text, sep: seq<Byte>, components: seq<Text>, last: nat, i: nat)
    requires sep != [] && i < |t.bytes| && SplitState(t, sep, components, last, i) && MatchAt(t.bytes, sep, i)
    requires IsText(t.encoding, sep)
    ensures IsText(t.encoding, t.bytes[last..i])
    ensures i + |sep| <= |t.bytes|
    ensures var more := if i == last then components else components + [Text(t.encoding, t.bytes[last..i])];
            SplitState(t, sep, more, i + |sep|, i + |sep|)
  {
    hide IsText, PiecesFrom, NextMatch, NonEmpty;
    var s, e := t.bytes, t.encoding;
    NextMatchHere(s, sep, i);
    PieceStep(s, sep, last, i);
    CutAtMatch(e, s, sep, last, i);
    var rest := NonEmpty(PiecesFrom(s, sep, i + |sep|));
    assert TextsOf(e, [s[last..i]] + rest) == [Text(e, s[last..i])] + TextsOf(e, rest);
  }

  lemma SplitEnd(t: Text, sep: seq<Byte>, components: seq<Text>, last: nat)
    requires sep != [] && SplitState(t, sep, components, last, |t.bytes|)
    ensures TextsOf(t.encoding, SplitBytes(t.bytes, sep)) ==
            if last == |t.bytes| then components else components + [Text(t.encoding, t.bytes[last..])]
  {
    hide IsText, PiecesFrom, MatchAt;
    NextMatchHere(t.bytes, sep, |t.bytes|);
    LastPiece(t.bytes, sep, last);
  }

  lemma NextMatchHere(s: seq<Byte>, sep: seq<Byte>, i: nat)
    requires i <= |s| && sep != [] && (i == |s| || MatchAt(s, sep, i))
    ensures NextMatch(s, sep, i) == i
  {
  }

  /** Every valid separator fits UTF-8, and those of bytes below 0x80 fit ASCII. */
  lemma SeparatorFits(encoding: Encoding, sep: Text)
    requires ValidText(sep)
    ensures encoding == UTF8 ==> IsText(encoding, sep.bytes)
    ensures encoding == ASCII ==>
              (IsText(encoding, sep.bytes) <==> forall i :: 0 <= i < |sep.bytes| ==> sep.bytes[i] < 0x80)
  {
    hide IsUtf8;
    if sep.encoding == ASCII { AsciiIsUtf8(sep.bytes); }
  }

  /**
    Splits `t`. With a separator that is shorter than the string and fits its encoding the split
    succeeds, because every slice is valid text again; otherwise it is refused.
   */
  method Split(t: Text, sep: Text) returns (r: Option<seq<Text>>)
    requires ValidText(t) && ValidText(sep) && sep.bytes != []
    ensures r.Some? <==> IsText(t.encoding, sep.bytes) && |sep.bytes| < |t.bytes|
    ensures r.Some? ==> r.value == TextsOf(t.encoding, SplitBytes(t.bytes, sep.bytes))
    ensures r.Some? ==> |r.value| <= CountMatches(t.bytes, sep.bytes, 0) + 1
  {
    hide IsText, SplitState, MatchAt, SplitBytes, CountMatches;
    if t.encoding != sep.encoding {
      var complies := ValidateEncoding(t.encoding, sep.bytes);
      if !complies { return None; }
    }
    if |sep.bytes| >= |t.bytes| { return None; }
    var s, m := t.bytes, |sep.bytes|;
    var capacity := CountPass(s, sep.bytes);
    SplitCount(s, sep.bytes);

    var components: seq<Text> := [];
    var last, i := 0, 0;
    SplitStart(t, sep.bytes);
    while i < |s|
      invariant 0 <= last <= i <= |s|
      invariant SplitState(t, sep.bytes, components, last, i)
      decreases |s| - i
    {
      var same := StartsWith(s, sep.bytes, i);
      if same {
        SplitCut(t, sep.bytes, components, last, i);
        if i - last > 0 {
          var component := CreateFromPart(s[last..i], t.encoding);
          if component.None? { return None; }
          components := components + [component.value];
        }
        last := i + m;
        i := i + (m - 1);
      } else {
        SplitPass(t, sep.bytes, components, last, i);
      }
      i := i + 1;
    }

    SplitEnd(t, sep.bytes, components, last);
    if |s| - last <= 0 { return Some(components); }
    assert IsText(t.encoding, s[last..]) by { SplitRest(t, sep.bytes, components, last, i); }
    var component := CreateFromPart(s[last..], t.encoding);
    components := components + [component.value];
    return Some(components);
  }

  lemma SplitRest(t: Text, sep: seq<Byte>, components: seq<Text>, last: nat, i: nat)
    requires sep != [] && SplitState(t, sep, components, last, i)
    ensures last <= |t.bytes| && IsText(t.encoding, t.bytes[last..])
  {
  }

  // ---- splitting what was joined ----

  predicate Free(ps: seq<seq<Byte>>, b: Byte) {
    forall k :: 0 <= k < |ps| ==> b !in ps[k]
  }

  lemma NoMatchInside(s: seq<Byte>, b: Byte, from: nat, to: nat)
    requires from <= to <= |s| && b !in s[from..to]
    ensures forall k :: from <= k < to ==> !MatchAt(s, [b], k)
  {
    forall k | from <= k < to ensures !MatchAt(s, [b], k) {
      assert s[k] == s[from..to][k - from];
      assert s[k..k + 1] == [s[k]];
    }
  }

  lemma MatchOfByte(s: seq<Byte>, b: Byte, k: nat)
    requires k < |s| && s[k] == b
    ensures MatchAt(s, [b], k)
  {
  }

  /** With a one-byte separator, pieces that do not contain it come back from their join. */
  lemma {:induction false} JoinThenPieces(ps: seq<seq<Byte>>, b: Byte, front: seq<Byte>)
    requires ps != [] && Free(ps, b)
    ensures PiecesFrom(front + Join(ps, [b]), [b], |front|) == ps
    decreases |ps|
  {
    hide MatchAt, NextMatch, PiecesFrom, Join;
    var s := front + Join(ps, [b]);
    var p, rest := ps[0], ps[1..];
    var at := |front| + |p|;
    if rest == [] {
      JoinOne(p, [b]);
      assert ps == [p] && s[|front|..] == p && s[|front|..at] == p;
    } else {
      JoinCons(p, rest, [b]);
      assert ps == [p] + rest;
      var front' := front + p + [b];
      assert s == front' + Join(rest, [b]);
      assert s[|front|..at] == p;
      MatchOfByte(s, b, at);
      JoinThenPieces(rest, b, front');
    }
    NoMatchInside(s, b, |front|, at);
    NextMatchSkips(s, [b], |front|, at);
    NextMatchHere(s, [b], at);
    PiecesStep(s, [b], |front|);
  }

  lemma JoinOne(p: seq<Byte>, sep: seq<Byte>)
    ensures Join([p], sep) == p
  {
  }

  lemma {:induction false} AllNonEmpty(ps: seq<seq<Byte>>)
    ensures NonEmpty(ps) == ps <==> forall k :: 0 <= k < |ps| ==> ps[k] != []
  {
    if ps == [] {
    } else {
      AllNonEmpty(ps[1..]);
      NonEmptyKeeps(ps[1..], []);
      assert NonEmpty(ps) == ps ==> NonEmpty(ps[1..]) == ps[1..];
      assert (forall k :: 0 <= k < |ps| ==> ps[k] != []) <==>
             ps[0] != [] && forall k :: 0 <= k < |ps[1..]| ==> ps[1..][k] != [];
    }
  }
}
