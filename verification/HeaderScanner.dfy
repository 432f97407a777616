/**
  The state machine that looks for the blank line after an HTTP header: CR LF CR LF.

  It forgets a CR that arrives where an LF was expected, so it is not a full search. The exact
  condition under which it finds the first blank line is proved below.
 */
module HeaderScanning {
  import opened Bits

  const CR: Byte := 0x0D
  const LF: Byte := 0x0A

  /** One byte; state 4 is the stop. */
  function Step(state: nat, c: Byte): nat {
    if state == 4 then 4
    else if c == CR && state == 0 then 1
    else if c == LF && state == 1 then 2
    else if c == CR && state == 2 then 3
    else if c == LF && state == 3 then 4
    else 0
  }

  function StateAfter(s: seq<Byte>, i: nat): (state: nat)
    requires i <= |s|
    ensures state <= 4
  {
    if i == 0 then 0 else Step(StateAfter(s, i - 1), s[i - 1])
  }

  predicate BlankLineAt(s: seq<Byte>, i: nat) {
    i + 4 <= |s| && s[i] == CR && s[i + 1] == LF && s[i + 2] == CR && s[i + 3] == LF
  }

  lemma BlankLineIs(s: seq<Byte>, i: nat)
    ensures BlankLineAt(s, i) <==>
            i + 4 <= |s| && s[i] == 0x0D && s[i + 1] == 0x0A && s[i + 2] == 0x0D && s[i + 3] == 0x0A
    ensures FirstBlankLine(s, i) <==> BlankLineAt(s, i) && forall k :: 0 <= k < i ==> !BlankLineAt(s, k)
    ensures ProperLines(s) <==> forall k :: 0 <= k < |s| && s[k] == 0x0D ==> k + 1 < |s| && s[k + 1] == 0x0A
  {
  }

  predicate FirstBlankLine(s: seq<Byte>, i: nat) {
    BlankLineAt(s, i) && forall k :: 0 <= k < i ==> !BlankLineAt(s, k)
  }

  /** Reads bytes until the machine stops or the stream ends. */
  method Scan(s: seq<Byte>) returns (consumed: nat, found: bool)
    ensures consumed <= |s| && (found <==> StateAfter(s, consumed) == 4) && (!found ==> consumed == |s|)
    ensures found ==> consumed > 0 && StateAfter(s, consumed - 1) != 4
  {
    consumed := 0;
    var state := 0;
    while consumed < |s|
      invariant consumed <= |s| && state == StateAfter(s, consumed) && state != 4
    {
      var c := s[consumed];
      consumed := consumed + 1;
      if c == CR && state == 0 {
        state := 1;
      } else if c == LF && state == 1 {
        state := 2;
      } else if c == CR && state == 2 {
        state := 3;
      } else if c == LF && state == 3 {
        return consumed, true;
      } else {
        state := 0;
      }
    }
    return consumed, false;
  }

  /** The states remember the bytes that led to them. */
  lemma {:induction false} StateMeans(s: seq<Byte>, i: nat)
    requires i <= |s|
    ensures StateAfter(s, i) == 1 ==> i >= 1 && s[i - 1] == CR
    ensures StateAfter(s, i) == 2 ==> i >= 2 && s[i - 2] == CR && s[i - 1] == LF
    ensures StateAfter(s, i) == 3 ==> i >= 3 && s[i - 3] == CR && s[i - 2] == LF && s[i - 1] == CR
  {
    if i == 0 {
    } else {
      StateMeans(s, i - 1);
    }
  }

  /** The machine stops only right after a blank line. */
  lemma StopsAfterBlankLine(s: seq<Byte>, i: nat)
    requires 0 < i <= |s| && StateAfter(s, i) == 4 && StateAfter(s, i - 1) != 4
    ensures i >= 4 && BlankLineAt(s, i - 4)
  {
    StateMeans(s, i - 1);
  }

  lemma {:induction false} NoStopBefore(s: seq<Byte>, i: nat)
    requires i <= |s| && forall k :: 0 <= k && k + 4 <= i ==> !BlankLineAt(s, k)
    ensures StateAfter(s, i) != 4
  {
    if i == 0 {
    } else {
      NoStopBefore(s, i - 1);
      if StateAfter(s, i) == 4 { StopsAfterBlankLine(s, i); }
    }
  }

  /** How many CRs in a row end at `p`. */
  function CrRun(s: seq<Byte>, p: nat): (n: nat)
    requires p < |s|
    ensures n <= p + 1 && forall k :: p + 1 - n <= k <= p ==> s[k] == CR
    ensures n <= p ==> s[p - n] != CR
    ensures (forall k :: p + 1 - n <= k <= p ==> s[k] == 0x0D) && (n <= p ==> s[p - n] != 0x0D)
  {
    if s[p] != CR then 0 else if p == 0 then 1 else 1 + CrRun(s, p - 1)
  }

  /** Over a run of CRs the machine alternates between remembering and forgetting. */
  lemma {:induction false} OverCrs(s: seq<Byte>, q: nat, n: nat)
    requires n >= 1 && q + n <= |s| && (forall k :: q <= k < q + n ==> s[k] == CR)
    requires StateAfter(s, q) == 0 || StateAfter(s, q) == 2
    ensures StateAfter(s, q + n) == if n == 1 && StateAfter(s, q) == 2 then 3 else n % 2
    decreases n
  {
    if n <= 1 {
    } else {
      OverCrs(s, q, n - 1);
    }
  }

  lemma StateAtRunStart(s: seq<Byte>, q: nat)
    requires q <= |s| && (q > 0 ==> s[q - 1] != CR) && StateAfter(s, q) != 4
    ensures StateAfter(s, q) == 0 || StateAfter(s, q) == 2
  {
    StateMeans(s, q);
  }

  /**
    The machine stops exactly after the first blank line if and only if the run of CRs that the
    blank line starts with has odd length.
   */
  lemma FindsFirstBlankLine(s: seq<Byte>, p: nat)
    requires FirstBlankLine(s, p)
    ensures StateAfter(s, p + 3) != 4
    ensures StateAfter(s, p + 4) == 4 <==> CrRun(s, p) % 2 == 1
  {
    NoStopBefore(s, p + 3);
    var n := CrRun(s, p);
    var q := p + 1 - n;
    NoStopBefore(s, q);
    StateAtRunStart(s, q);
    OverCrs(s, q, n);
    StateMeans(s, p);
    assert p >= 2 ==> !BlankLineAt(s, p - 2);
    assert StateAfter(s, p + 1) == n % 2;
    assert StateAfter(s, p + 2) == if n % 2 == 1 then 2 else 0;
    assert StateAfter(s, p + 3) == if n % 2 == 1 then 3 else 1;
  }

  /** Lines that end in CR LF, with no other CR: the form of section 2.2 of RFC 9112. */
  predicate ProperLines(s: seq<Byte>) {
    forall i :: 0 <= i < |s| && s[i] == CR ==> i + 1 < |s| && s[i + 1] == LF
  }

  /** On properly formed lines the scan ends exactly after the first blank line. */
  method ScanHeader(s: seq<Byte>) returns (consumed: nat, found: bool)
    ensures found ==> consumed >= 4 && BlankLineAt(s, consumed - 4)
    ensures found ==>
              && consumed >= 4 && s[consumed - 4] == 0x0D && s[consumed - 3] == 0x0A
              && s[consumed - 2] == 0x0D && s[consumed - 1] == 0x0A
    ensures ProperLines(s) && found ==> FirstBlankLine(s, consumed - 4)
    ensures ProperLines(s) && !found ==> consumed == |s| && forall k :: 0 <= k ==> !BlankLineAt(s, k)
    ensures forall p :: 0 <= p && FirstBlankLine(s, p) ==>
              (found && consumed == p + 4 <==> CrRun(s, p) % 2 == 1)
  {
    consumed, found := Scan(s);
    if found { StopsAfterBlankLine(s, consumed); }
    forall p: nat | FirstBlankLine(s, p)
      ensures found && consumed == p + 4 <==> CrRun(s, p) % 2 == 1
      ensures ProperLines(s) ==> CrRun(s, p) == 1
    {
      FindsFirstBlankLine(s, p);
      if StateAfter(s, p + 4) == 4 { StopIsUnique(s, consumed, found, p + 4); }
    }
    if exists k: nat :: BlankLineAt(s, k) {
      var k: nat :| BlankLineAt(s, k);
      var p := FirstOne(s, k);
    }
  }

  lemma {:induction false} Stays(s: seq<Byte>, i: nat, j: nat)
    requires i <= j <= |s| && StateAfter(s, i) == 4
    ensures StateAfter(s, j) == 4
    decreases j
  {
    if i == j {
    } else {
      Stays(s, i, j - 1);
    }
  }

  lemma StopIsUnique(s: seq<Byte>, consumed: nat, found: bool, stop: nat)
    requires consumed <= |s| && (found <==> StateAfter(s, consumed) == 4) && (!found ==> consumed == |s|)
    requires found ==> consumed > 0 && StateAfter(s, consumed - 1) != 4
    requires 0 < stop <= |s| && StateAfter(s, stop) == 4 && StateAfter(s, stop - 1) != 4
    ensures found && consumed == stop
  {
    if !found { Stays(s, stop, |s|); }
    if consumed < stop { Stays(s, consumed, stop - 1); }
    if stop < consumed { Stays(s, stop, consumed - 1); }
  }

  lemma {:induction false} FirstOne(s: seq<Byte>, k: nat) returns (p: nat)
    requires BlankLineAt(s, k)
    ensures FirstBlankLine(s, p)
  {
    if j: nat :| j < k && BlankLineAt(s, j) { p := FirstOne(s, j); } else { p := k; }
  }

  /** CR CR LF CR LF: the blank line is missed. */
  lemma DoubledCrMisses()
    ensures var s := [CR, CR, LF, CR, LF]; FirstBlankLine(s, 1) && StateAfter(s, 5) != 4
  {
    var s := [CR, CR, LF, CR, LF];
    assert CrRun(s, 0) == 1;
    FindsFirstBlankLine(s, 1);
  }
}
