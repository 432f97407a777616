/**
  Two walkers taking turns on one file.

  Handles made with `dup()` share an offset, and every access seeks first. `PerformAt` is an
  operation as the code runs it, offset included. `Perform` is a reference that has no offset at
  all: bytes of the file and one bit position per walker. The two agree exactly where the seek of
  the operation cannot fail, and every interleaving of such operations agrees with the reference,
  whether the handles share an open file or have one each.

  A width of eight is passed as a pinned parameter where the solver would unroll the literal.
 */
module SharedFiles {
  import opened Bits
  import opened Endian
  import opened Integers
  import opened FileHandles
  import opened BitWalkers
  import opened BitStreams

  datatype Op =
    | Write(value: UInt64, width: nat)
    | Read(width: nat)
    | Skip(bits: int)
    | Seek(bytePos: int, bitIndex: nat)
    | Align
    | Reset
    | WriteBuffer(bytes: seq<Byte>)
    | ReadBuffer(length: nat)

  datatype Outcome = Done | Wrote(ok: bool) | Got(value: nat) | Put(count: int) | Took(count: int, bytes: seq<Byte>)

  /** Bytes of the file, and where the walker stands after an operation. */
  datatype Effect = Effect(data: seq<Byte>, pos: int, outcome: Outcome)

  /** What the walker's open file allows, and its byte order. */
  datatype Mode = Mode(readable: bool, writable: bool, endian: Order)

  predicate ValidOp(op: Op) { op.Seek? ==> op.bitIndex < 8 }

  // ---- an operation, offset included ----

  function WriteAt(data: seq<Byte>, offset: nat, mode: Mode, pos: int, value: UInt64, n: nat): (Effect, nat) {
    var from := LandsAt(pos / 8, offset);
    var to := LandsAt(pos / 8, from + |Slice(data, from, 9)|);
    if !(1 <= n <= 64) then (Effect(data, pos, Wrote(false)), offset)
    else if !mode.readable then (Effect(data, pos, Wrote(false)), from)
    else if !mode.writable then (Effect(data, pos, Wrote(false)), to)
    else
      var after := WindowWrite(data, from, to, pos % 8, Encode(mode.endian, value, n));
      (Effect(after, pos + n, Wrote(true)), to + 9)
  }

  function ReadAt(data: seq<Byte>, offset: nat, mode: Mode, pos: int, n: nat): (Effect, nat) {
    var from := LandsAt(pos / 8, offset);
    if !(1 <= n <= 64) then (Effect(data, pos, Got(0)), offset)
    else if !mode.readable then (Effect(data, pos, Got(0)), from)
    else
      var value := Decode(mode.endian, FieldAt(data, 8 * from + pos % 8, n), n);
      (Effect(data, pos, Got(value)), from + |Slice(data, from, 9)|)
  }

  function WriteBufferAt(data: seq<Byte>, offset: nat, mode: Mode, pos: int, bytes: seq<Byte>): (Effect, nat) {
    var at := (pos + 7) / 8;
    var to := LandsAt(at, offset);
    if !mode.writable then (Effect(data, 8 * (at - 1), Put(-1)), to)
    else
      var after := if bytes == [] then data else Splice(data, to, bytes);
      (Effect(after, 8 * (at + |bytes|), Put(|bytes|)), to + |bytes|)
  }

  function ReadBufferAt(data: seq<Byte>, offset: nat, mode: Mode, pos: int, length: nat): (Effect, nat) {
    var at := (pos + 7) / 8;
    var from := LandsAt(at, offset);
    if !mode.readable then (Effect(data, 8 * (at - 1), Took(-1, [])), from)
    else
      var got := Slice(data, from, length);
      (Effect(data, 8 * (at + |got|), Took(|got|, got)), from + |got|)
  }

  function PerformAt(data: seq<Byte>, offset: nat, mode: Mode, pos: int, op: Op): (Effect, nat) {
    match op
    case Write(value, n) => WriteAt(data, offset, mode, pos, value, n)
    case Read(n) => ReadAt(data, offset, mode, pos, n)
    case Skip(bits) => (Effect(data, pos + bits, Done), offset)
    case Seek(bytePos, bitIndex) => (Effect(data, 8 * bytePos + bitIndex, Done), offset)
    case Align => (Effect(data, (pos + 7) / 8 * 8, Done), offset)
    case Reset => (Effect(data, 0, Done), offset)
    case WriteBuffer(bytes) => WriteBufferAt(data, offset, mode, pos, bytes)
    case ReadBuffer(length) => ReadBufferAt(data, offset, mode, pos, length)
  }

  function ModeOf(walker: BitWalker): Mode {
    Mode(walker.handle.file.readable, walker.handle.file.writable, walker.endian)
  }

  method CallWriteBuffer(walker: BitWalker, bytes: seq<Byte>) returns (outcome: Outcome)
    requires walker.Valid()
    modifies walker, walker.handle.file, walker.handle.file.inode
    ensures walker.Valid()
    ensures (Effect(walker.handle.file.inode.data, walker.Position(), outcome), walker.handle.file.offset) ==
            WriteBufferAt(old(walker.handle.file.inode.data), old(walker.handle.file.offset), ModeOf(walker),
                          old(walker.Position()), bytes)
  {
    hide Splice, Slice;
    var buffer := new Byte[|bytes|](i requires 0 <= i < |bytes| => bytes[i]);
    assert buffer[..|bytes|] == bytes;
    var count := walker.WriteBuffer(buffer, |bytes|);
    outcome := Put(count);
  }

  method CallReadBuffer(walker: BitWalker, length: nat) returns (outcome: Outcome)
    requires walker.Valid()
    modifies walker, walker.handle.file
    ensures walker.Valid()
    ensures (Effect(walker.handle.file.inode.data, walker.Position(), outcome), walker.handle.file.offset) ==
            ReadBufferAt(walker.handle.file.inode.data, old(walker.handle.file.offset), ModeOf(walker),
                         old(walker.Position()), length)
  {
    hide Slice;
    var buffer := new Byte[length](_ => 0);
    var count := walker.ReadBuffer(buffer, length);
    outcome := Took(count, if count < 0 then [] else buffer[..count]);
  }

  /** One call on a walker, on any file and from any position, does what `PerformAt` says. */
  method Call(walker: BitWalker, op: Op) returns (outcome: Outcome)
    requires walker.Valid() && ValidOp(op)
    modifies walker, walker.handle.file, walker.handle.file.inode
    ensures walker.Valid()
    ensures (Effect(walker.handle.file.inode.data, walker.Position(), outcome), walker.handle.file.offset) ==
            PerformAt(old(walker.handle.file.inode.data), old(walker.handle.file.offset), ModeOf(walker),
                      old(walker.Position()), op)
  {
    hide OrAt, FieldAt, Encode, Decode, Slice, Splice, WindowWrite, WriteBufferAt, ReadBufferAt;
    outcome := Done;
    match op {
      case Write(value, n) =>
        var ok := walker.Write(value, n);
        outcome := Wrote(ok);
      case Read(n) =>
        var value := walker.Read(n);
        outcome := Got(value);
      case Skip(bits) => walker.Skip(bits);
      case Seek(bytePos, bitIndex) => walker.Seek(bytePos, bitIndex);
      case Align => walker.AlignByte();
      case Reset => walker.Reset();
      case WriteBuffer(bytes) => outcome := CallWriteBuffer(walker, bytes);
      case ReadBuffer(length) => outcome := CallReadBuffer(walker, length);
    }
  }

  // ---- when the offset cannot show ----

  /** The operation moves bytes between the file and the caller. */
  predicate Transfers(mode: Mode, op: Op) {
    match op
    case Write(_, n) => 1 <= n <= 64 && mode.readable && mode.writable
    case Read(n) => 1 <= n <= 64 && mode.readable
    case WriteBuffer(bytes) => mode.writable && bytes != []
    case ReadBuffer(length) => mode.readable && length > 0
    case _ => false
  }

  /** The byte that the operation seeks to. */
  function SeekTarget(pos: int, op: Op): int {
    if op.WriteBuffer? || op.ReadBuffer? then (pos + 7) / 8 else pos / 8
  }

  /** The guard: an operation that moves bytes seeks to a place at or behind the start of the file. */
  predicate Safe(mode: Mode, pos: int, op: Op) {
    Transfers(mode, op) ==> SeekTarget(pos, op) >= 0
  }

  /** The offset-free reference. */
  function Perform(data: seq<Byte>, mode: Mode, pos: int, op: Op): Effect
    requires Safe(mode, pos, op)
  {
    var at := (pos + 7) / 8;
    match op
    case Write(value, n) =>
      if Transfers(mode, op) then Effect(OrAt(data, pos, Encode(mode.endian, value, n)), pos + n, Wrote(true))
      else Effect(data, pos, Wrote(false))
    case Read(n) =>
      Effect(data, pos, Got(if Transfers(mode, op) then Decode(mode.endian, FieldAt(data, pos, n), n) else 0))
    case Skip(bits) => Effect(data, pos + bits, Done)
    case Seek(bytePos, bitIndex) => Effect(data, 8 * bytePos + bitIndex, Done)
    case Align => Effect(data, at * 8, Done)
    case Reset => Effect(data, 0, Done)
    case WriteBuffer(bytes) =>
      if !mode.writable then Effect(data, 8 * (at - 1), Put(-1))
      else Effect(if bytes == [] then data else Splice(data, at, bytes), 8 * (at + |bytes|), Put(|bytes|))
    case ReadBuffer(length) =>
      if !mode.readable then Effect(data, 8 * (at - 1), Took(-1, []))
      else
        var got := if length == 0 then [] else Slice(data, at, length);
        Effect(data, 8 * (at + |got|), Took(|got|, got))
  }

  lemma NothingInNoBytes(data: seq<Byte>, from: nat)
    ensures Slice(data, from, 0) == []
  {
  }

  /** The reference, operation by operation, where the seek cannot fail. */
  lemma PerformIs(data: seq<Byte>, mode: Mode, pos: nat, op: Op)
    requires op.Skip? || op.Seek? || op.Align? || op.Reset? || Safe(mode, pos, op)
    ensures Safe(mode, pos, op)
    ensures var e := Perform(data, mode, pos, op);
            match op
            case Write(value, n) =>
              if 1 <= n <= 64 && mode.readable && mode.writable
              then e == Effect(OrAt(data, pos, Encode(mode.endian, value, n)), pos + n, Wrote(true))
              else e == Effect(data, pos, Wrote(false))
            case Read(n) =>
              if 1 <= n <= 64 && mode.readable
              then e == Effect(data, pos, Got(Decode(mode.endian, FieldAt(data, pos, n), n)))
              else e == Effect(data, pos, Got(0))
            case Skip(bits) => e == Effect(data, pos + bits, Done)
            case Seek(bytePos, bitIndex) => e == Effect(data, 8 * bytePos + bitIndex, Done)
            case Align => e == Effect(data, (pos + 7) / 8 * 8, Done)
            case Reset => e == Effect(data, 0, Done)
            case WriteBuffer(bytes) =>
              var at := (pos + 7) / 8;
              if !mode.writable then e == Effect(data, 8 * (at - 1), Put(-1))
              else if bytes == [] then e == Effect(data, 8 * at, Put(0))
              else e == Effect(Splice(data, at, bytes), 8 * (at + |bytes|), Put(|bytes|))
            case ReadBuffer(length) =>
              var at := (pos + 7) / 8;
              if !mode.readable then e == Effect(data, 8 * (at - 1), Took(-1, []))
              else
                var count := if at >= |data| then 0 else if |data| - at < length then |data| - at else length;
                && e.data == data && e.pos == 8 * (at + count) && e.outcome.Took? && e.outcome.count == count
                && |e.outcome.bytes| == count && forall i :: 0 <= i < count ==> e.outcome.bytes[i] == data[at + i]
  {
    hide OrAt, FieldAt, Encode, Decode, Splice;
    if op.ReadBuffer? { SliceBytes(data, (pos + 7) / 8, op.length); }
  }

  /** Under the guard the operation agrees with the reference, wherever the offset was. */
  lemma SafeAgrees(data: seq<Byte>, offset: nat, mode: Mode, pos: int, op: Op)
    requires Safe(mode, pos, op)
    ensures PerformAt(data, offset, mode, pos, op).0 == Perform(data, mode, pos, op)
  {
    hide OrAt, FieldAt, Encode, Decode, Splice, WindowWrite, Slice;
    match op
    case Write(value, n) =>
      if Transfers(mode, op) { WindowWriteIsOr(data, pos / 8, pos % 8, Encode(mode.endian, value, n)); }
    case ReadBuffer(length) => NothingInNoBytes(data, LandsAt(SeekTarget(pos, op), offset));
    case _ =>
  }

  /** Neither the bytes nor the position nor the outcome depend on the offset at entry. */
  ghost predicate OffsetInvisible(mode: Mode, pos: int, op: Op) {
    forall data: seq<Byte>, o1: nat, o2: nat ::
      PerformAt(data, o1, mode, pos, op).0 == PerformAt(data, o2, mode, pos, op).0
  }

  lemma DecodeTellsApart(endian: Order, x: nat, y: nat, n: nat)
    requires 1 <= n <= 64 && x < Pow2(n) && y < Pow2(n) && x != y
    ensures Decode(endian, x, n) != Decode(endian, y, n)
  {
    if n > 8 && endian.Big? {
      BytesForBound(n);
      Pow2Monotone(n, 8 * BytesFor(n));
      BSwapNInvolution(x, BytesFor(n));
      BSwapNInvolution(y, BytesFor(n));
    }
  }

  lemma AllBitsSet(b: nat)
    requires b < 8
    ensures Bit(255, b)
  {
    Pow2Widths();
    MaskBit(8, b);
  }

  /** A field of a one-byte file differs at the start and behind the end. */
  lemma FieldsDiffer(b: nat, n: nat)
    requires b < 8 && 1 <= n <= 64
    ensures FieldAt([255], b, n) != FieldAt([255], 8 + b, n)
    ensures FieldAt([255], b, n) < Pow2(n) && FieldAt([255], 8 + b, n) < Pow2(n)
  {
    hide Bit;
    AllBitsSet(b);
    FieldBit([255], b, n, 0);
    FieldBit([255], 8 + b, n, 0);
    ZeroBit(b);
    LowBound(Shr(LoadLE([255]), b), n);
    LowBound(Shr(LoadLE([255]), 8 + b), n);
  }

  /** Before the start of the file the offset shows: a file and two offsets that tell. */
  lemma UnsafeShows(mode: Mode, pos: int, op: Op) returns (data: seq<Byte>)
    requires !Safe(mode, pos, op)
    ensures PerformAt(data, 0, mode, pos, op).0 != PerformAt(data, 1, mode, pos, op).0
  {
    hide OrAt, FieldAt, Encode, Decode, WindowWrite;
    match op {
      case Write(value, n) =>
        data := [];
        assert |PerformAt(data, 0, mode, pos, op).0.data| == 9;
      case Read(n) =>
        data := [255];
        FieldsDiffer(pos % 8, n);
        DecodeTellsApart(mode.endian, FieldAt(data, pos % 8, n), FieldAt(data, 8 + pos % 8, n), n);
      case WriteBuffer(bytes) =>
        data := [];
        assert |PerformAt(data, 0, mode, pos, op).0.data| == |bytes|;
        assert |PerformAt(data, 1, mode, pos, op).0.data| == 1 + |bytes|;
      case ReadBuffer(length) =>
        data := [255];
        assert PerformAt(data, 0, mode, pos, op).0.outcome.count == 1;
    }
  }

  /** The offset is invisible exactly under the guard. */
  lemma OffsetInvisibleExactly(mode: Mode, pos: int, op: Op)
    ensures OffsetInvisible(mode, pos, op) <==> Safe(mode, pos, op)
  {
    hide PerformAt, Perform;
    if Safe(mode, pos, op) {
      forall data: seq<Byte>, o1: nat, o2: nat
        ensures PerformAt(data, o1, mode, pos, op).0 == PerformAt(data, o2, mode, pos, op).0
      {
        SafeAgrees(data, o1, mode, pos, op);
        SafeAgrees(data, o2, mode, pos, op);
      }
    } else {
      var data := UnsafeShows(mode, pos, op);
    }
  }

  /** A byte read through the bits of its field. */
  lemma FieldIsByte(data: seq<Byte>, k: nat, n: nat)
    requires k < |data| && n == 8
    ensures FieldAt(data, 8 * k, n) == data[k]
  {
    forall i: nat ensures Bit(FieldAt(data, 8 * k, n), i) <==> Bit(data[k], i) {
      FieldBit(data, 8 * k, n, i);
      if i < 8 { assert (8 * k + i) / 8 == k && (8 * k + i) % 8 == i; } else { NoBitAbove8(data[k], i); }
    }
    SameBits(FieldAt(data, 8 * k, n), data[k]);
  }

  lemma NoBitAbove8(v: Byte, i: nat)
    requires i >= 8
    ensures !Bit(v, i)
  {
    Pow2Widths();
    BitsBelow(v, 8, i);
  }

  /**
    Two walkers on a read-only file. A failed buffer write leaves the first one byte before the
    start. Its next read then gives the byte at the shared offset, which is where a read of the
    second walker left it; with an offset of its own it gives the first byte.
   */
  lemma FailedWriteShowsOffset(data: seq<Byte>, endian: Order, bytes: seq<Byte>, n: nat)
    requires |data| >= 2 && n == 8
    ensures var mode := Mode(true, false, endian);
            var (failed, offset) := PerformAt(data, 0, mode, 0, WriteBuffer(bytes));
            var shared := PerformAt(data, offset, mode, 0, ReadBuffer(1)).1;
            && failed.pos == -8 && !Safe(mode, failed.pos, Read(n))
            && PerformAt(data, offset, mode, failed.pos, Read(n)).0.outcome == Got(data[0])
            && PerformAt(data, shared, mode, failed.pos, Read(n)).0.outcome == Got(data[1])
  {
    hide FieldAt, Bit;
    FieldIsByte(data, 0, n);
    FieldIsByte(data, 1, n);
  }

  // ---- interleavings ----

  /** A turn of the first or of the second walker. */
  datatype Turn = Turn(first: bool, op: Op)

  datatype World = World(data: seq<Byte>, pos1: int, pos2: int)

  /** The guard, where the turn is taken. */
  predicate SafeTurn(w: World, mode1: Mode, mode2: Mode, t: Turn) {
    && ValidOp(t.op)
    && if t.first then Safe(mode1, w.pos1, t.op) else Safe(mode2, w.pos2, t.op)
  }

  function Step(w: World, mode1: Mode, mode2: Mode, t: Turn): World
    requires SafeTurn(w, mode1, mode2, t)
  {
    if t.first then
      var e := Perform(w.data, mode1, w.pos1, t.op);
      World(e.data, e.pos, w.pos2)
    else
      var e := Perform(w.data, mode2, w.pos2, t.op);
      World(e.data, w.pos1, e.pos)
  }

  function OutcomeOf(w: World, mode1: Mode, mode2: Mode, t: Turn): Outcome
    requires SafeTurn(w, mode1, mode2, t)
  {
    if t.first then Perform(w.data, mode1, w.pos1, t.op).outcome
    else Perform(w.data, mode2, w.pos2, t.op).outcome
  }

  /** Every turn meets the guard where it is taken. */
  predicate SafeRun(w: World, mode1: Mode, mode2: Mode, turns: seq<Turn>)
    decreases |turns|
  {
    turns == [] || (SafeTurn(w, mode1, mode2, turns[0]) &&
                    SafeRun(Step(w, mode1, mode2, turns[0]), mode1, mode2, turns[1..]))
  }

  function Run(w: World, mode1: Mode, mode2: Mode, turns: seq<Turn>): (World, seq<Outcome>)
    requires SafeRun(w, mode1, mode2, turns)
    decreases |turns|
  {
    if turns == [] then (w, [])
    else
      var (end, rest) := Run(Step(w, mode1, mode2, turns[0]), mode1, mode2, turns[1..]);
      (end, [OutcomeOf(w, mode1, mode2, turns[0])] + rest)
  }

  /** A run takes its turns one after the other, each with the walker that it names. */
  lemma RunIs(w: World, mode1: Mode, mode2: Mode, t: Turn, rest: seq<Turn>)
    requires SafeRun(w, mode1, mode2, [t] + rest)
    ensures Run(w, mode1, mode2, []) == (w, [])
    ensures var e := if t.first then Perform(w.data, mode1, w.pos1, t.op) else Perform(w.data, mode2, w.pos2, t.op);
            var next := if t.first then World(e.data, e.pos, w.pos2) else World(e.data, w.pos1, e.pos);
            && SafeRun(next, mode1, mode2, rest)
            && Run(w, mode1, mode2, [t] + rest) ==
               var (end, outcomes) := Run(next, mode1, mode2, rest); (end, [e.outcome] + outcomes)
  {
    hide Perform, Safe;
    assert ([t] + rest)[1..] == rest;
  }

  /** One turn through the walkers is one step of the reference. */
  method TakeTurn(a: BitWalker, b: BitWalker, t: Turn) returns (outcome: Outcome)
    requires a != b && a.Valid() && b.Valid()
    requires a.handle.file.inode == b.handle.file.inode
    requires SafeTurn(World(a.handle.file.inode.data, a.Position(), b.Position()), ModeOf(a), ModeOf(b), t)
    modifies a, b, a.handle.file, b.handle.file, a.handle.file.inode
    ensures a.Valid() && b.Valid()
    ensures var w := World(old(a.handle.file.inode.data), old(a.Position()), old(b.Position()));
            && World(a.handle.file.inode.data, a.Position(), b.Position()) == Step(w, ModeOf(a), ModeOf(b), t)
            && outcome == OutcomeOf(w, ModeOf(a), ModeOf(b), t)
  {
    hide Perform, PerformAt, Safe;
    var walker := if t.first then a else b;
    SafeAgrees(walker.handle.file.inode.data, walker.handle.file.offset, ModeOf(walker), walker.Position(), t.op);
    outcome := Call(walker, t.op);
  }

  /**
    Any interleaving of safe turns, on handles of the same inode that may be read-only, write-only
    or both: the file bytes, both positions and every outcome are those of the reference. Nothing
    relates or restricts the two open files, so the result is the same for one shared offset and
    for two private ones, wherever they stood.
   */
  method Interleave(a: BitWalker, b: BitWalker, turns: seq<Turn>) returns (outcomes: seq<Outcome>)
    requires a != b && a.Valid() && b.Valid()
    requires a.handle.file.inode == b.handle.file.inode
    requires SafeRun(World(a.handle.file.inode.data, a.Position(), b.Position()), ModeOf(a), ModeOf(b), turns)
    modifies a, b, a.handle.file, b.handle.file, a.handle.file.inode
    ensures a.Valid() && b.Valid()
    ensures (World(a.handle.file.inode.data, a.Position(), b.Position()), outcomes) ==
            Run(World(old(a.handle.file.inode.data), old(a.Position()), old(b.Position())), ModeOf(a), ModeOf(b), turns)
  {
    hide Perform, Safe;
    var inode := a.handle.file.inode;
    ghost var mode1, mode2 := ModeOf(a), ModeOf(b);
    ghost var w := World(inode.data, a.Position(), b.Position());
    ghost var all := Run(w, mode1, mode2, turns);
    outcomes := [];
    assert turns[0..] == turns && [] + all.1 == all.1;
    for i := 0 to |turns|
      invariant a.Valid() && b.Valid() && w == World(inode.data, a.Position(), b.Position())
      invariant SafeRun(w, mode1, mode2, turns[i..])
      invariant var (end, rest) := Run(w, mode1, mode2, turns[i..]);
                (end, outcomes + rest) == all
    {
      assert turns[i..][0] == turns[i] && turns[i..][1..] == turns[i + 1..];
      var outcome := TakeTurn(a, b, turns[i]);
      w := Step(w, mode1, mode2, turns[i]);
      ghost var rest := Run(w, mode1, mode2, turns[i + 1..]).1;
      assert outcomes + ([outcome] + rest) == outcomes + [outcome] + rest;
      outcomes := outcomes + [outcome];
    }
    assert turns[|turns|..] == [] && outcomes + [] == outcomes;
  }

  /** Moves that cannot go back: no backward skip or seek, and no buffer transfer that fails. */
  predicate Forward(mode: Mode, op: Op) {
    match op
    case Skip(bits) => bits >= 0
    case Seek(bytePos, bitIndex) => bytePos >= 0 && bitIndex < 8
    case WriteBuffer(_) => mode.writable
    case ReadBuffer(_) => mode.readable
    case _ => true
  }

  /** From positions in the file, runs of forward moves are safe whatever the files allow. */
  lemma {:induction false} ForwardIsSafe(w: World, mode1: Mode, mode2: Mode, turns: seq<Turn>)
    requires w.pos1 >= 0 && w.pos2 >= 0
    requires forall t :: t in turns ==> Forward(if t.first then mode1 else mode2, t.op)
    ensures SafeRun(w, mode1, mode2, turns)
    decreases |turns|
  {
    hide OrAt, FieldAt, Encode, Decode, Splice, Slice;
    if turns == [] {
    } else {
      ForwardIsSafe(Step(w, mode1, mode2, turns[0]), mode1, mode2, turns[1..]);
    }
  }

  /** Neighbouring writes of different walkers can change places anywhere in a run. */
  lemma WritesSwap(w: World, mode1: Mode, mode2: Mode, op1: Op, op2: Op)
    requires op1.Write? && op2.Write? && Safe(mode1, w.pos1, op1) && Safe(mode2, w.pos2, op2)
    ensures var t1, t2 := Turn(true, op1), Turn(false, op2);
            && SafeTurn(w, mode1, mode2, t1) && SafeTurn(Step(w, mode1, mode2, t1), mode1, mode2, t2)
            && SafeTurn(w, mode1, mode2, t2) && SafeTurn(Step(w, mode1, mode2, t2), mode1, mode2, t1)
            && Step(Step(w, mode1, mode2, t1), mode1, mode2, t2) ==
               Step(Step(w, mode1, mode2, t2), mode1, mode2, t1)
            && OutcomeOf(Step(w, mode1, mode2, t2), mode1, mode2, t1) == OutcomeOf(w, mode1, mode2, t1)
            && OutcomeOf(Step(w, mode1, mode2, t1), mode1, mode2, t2) == OutcomeOf(w, mode1, mode2, t2)
  {
    hide OrAt, Encode;
    if Transfers(mode1, op1) && Transfers(mode2, op2) {
      OrAtCommutes(w.data, w.pos1, Encode(mode1.endian, op1.value, op1.width),
                   w.pos2, Encode(mode2.endian, op2.value, op2.width));
    }
  }
}
