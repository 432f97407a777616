/**
  Files, open file descriptions and file handles.

  An `Inode` holds the bytes; an `OpenFile` is what a descriptor refers to, and it owns the
  offset; a `FileHandle` refers to an open file, and a copied handle refers to the same one, so
  that copies share the offset. Reading, writing and seeking follow `read()`, `write()` and
  `lseek()` of POSIX.1-2017 with full-length transfers.
 */
module FileHandles {
  import opened Bits
  import opened Integers
  import opened Options

  function Zeros(n: nat): (z: seq<Byte>)
    ensures |z| == n
  {
    seq(n, _ => 0)
  }

  /** The bytes a read of length `n` at `offset` finds: fewer at the end, none beyond it. */
  function Slice(data: seq<Byte>, offset: nat, n: nat): seq<Byte> {
    if offset >= |data| then [] else data[offset..Min(offset + n, |data|)]
  }

  /** `data` after writing `bytes` at `pos`; a gap before `pos` becomes a hole of zeros. */
  function Splice(data: seq<Byte>, pos: nat, bytes: seq<Byte>): seq<Byte> {
    (if pos <= |data| then data[..pos] else data + Zeros(pos - |data|)) + bytes +
    (if pos + |bytes| <= |data| then data[pos + |bytes|..] else [])
  }

  lemma SpliceBytes(data: seq<Byte>, pos: nat, bytes: seq<Byte>)
    ensures var r := Splice(data, pos, bytes);
            && |r| == (if |data| < pos + |bytes| then pos + |bytes| else |data|)
            && (forall i :: pos <= i < pos + |bytes| ==> r[i] == bytes[i - pos])
            && (forall i :: 0 <= i < |r| && !(pos <= i < pos + |bytes|) ==> r[i] == if i < |data| then data[i] else 0)
  {
  }

  lemma SliceBytes(data: seq<Byte>, from: nat, n: nat)
    ensures var r := Slice(data, from, n);
            && |r| == (if from >= |data| then 0 else if |data| - from < n then |data| - from else n)
            && forall i :: 0 <= i < |r| ==> r[i] == data[from + i]
  {
  }

  class Inode {
    var data: seq<Byte>

    constructor (data: seq<Byte>)
      ensures this.data == data
    {
      this.data := data;
    }
  }

  class OpenFile {
    const inode: Inode
    var offset: nat
    const readable: bool
    const writable: bool

    constructor (inode: Inode, readable: bool, writable: bool)
      ensures this.inode == inode && offset == 0
      ensures this.readable == readable && this.writable == writable
    {
      this.inode, offset, this.readable, this.writable := inode, 0, readable, writable;
    }
  }

  datatype SeekType = Set | Cur | End

  class FileHandle {
    const file: OpenFile

    constructor (file: OpenFile)
      ensures this.file == file
    {
      this.file := file;
    }

    /** A copy made with `dup()`: another handle on the same open file, hence the same offset. */
    method CreateCopy() returns (copy: FileHandle)
      ensures fresh(copy) && copy.file == file
    {
      copy := new FileHandle(file);
    }

    /** Moves the shared offset; a target before the start fails and moves nothing. */
    method Seek(offset: int, seekType: SeekType) returns (r: int)
      modifies file
      ensures var base := match seekType
                          case Set => 0
                          case Cur => old(file.offset)
                          case End => |file.inode.data|;
              if base + offset < 0 then r == -1 && file.offset == old(file.offset)
              else r == file.offset == base + offset
    {
      var base := match seekType
        case Set => 0
        case Cur => file.offset
        case End => |file.inode.data|;
      if base + offset < 0 { return -1; }
      file.offset := base + offset;
      return file.offset;
    }

    method Read(buffer: array<Byte>, length: nat) returns (r: int)
      requires length <= buffer.Length
      modifies file, buffer
      ensures !file.readable ==> r == -1 && file.offset == old(file.offset) && buffer[..] == old(buffer[..])
      ensures file.readable ==>
                var got := Slice(file.inode.data, old(file.offset), length);
                && r == |got| && file.offset == old(file.offset) + |got|
                && buffer[..] == got + old(buffer[..])[|got|..]
      ensures file.readable ==>
                var data, at := file.inode.data, old(file.offset);
                && r == (if at >= |data| then 0 else if |data| - at < length then |data| - at else length)
                && (forall i :: 0 <= i < r ==> buffer[i] == data[at + i])
                && (forall i :: r <= i < buffer.Length ==> buffer[i] == old(buffer[i]))
    {
      if !file.readable { return -1; }
      var data, start := file.inode.data, file.offset;
      var n := if start >= |data| then 0 else Min(length, |data| - start);
      forall i | 0 <= i < n { buffer[i] := data[start + i]; }
      file.offset := start + n;
      return n;
    }

    method Write(buffer: array<Byte>, length: nat) returns (r: int)
      requires length <= buffer.Length
      modifies file, file.inode
      ensures !file.writable ==>
                r == -1 && file.offset == old(file.offset) && file.inode.data == old(file.inode.data)
      ensures file.writable ==> r == length && file.offset == old(file.offset) + length
      ensures file.writable && length == 0 ==> file.inode.data == old(file.inode.data)
      ensures file.writable && length > 0 ==>
                file.inode.data == Splice(old(file.inode.data), old(file.offset), buffer[..length])
      ensures file.writable && length > 0 ==>
                var was, data, at := old(file.inode.data), file.inode.data, old(file.offset);
                && |data| == (if |was| < at + length then at + length else |was|)
                && (forall i :: at <= i < at + length ==> data[i] == buffer[i - at])
                && (forall i :: 0 <= i < |data| && !(at <= i < at + length) ==>
                      data[i] == if i < |was| then was[i] else 0)
    {
      if !file.writable { return -1; }
      SpliceBytes(file.inode.data, file.offset, buffer[..length]);
      if length > 0 { file.inode.data := Splice(file.inode.data, file.offset, buffer[..length]); }
      file.offset := file.offset + length;
      return length;
    }

    /**
      Reads one chunk of a text file: up to `n - 1` bytes, ending early after a newline or at the
      end of the file, with a NUL behind. Nothing is returned at the end of the file.
     */
    method Gets(s: array<Byte>, n: int) returns (length: Option<nat>)
      requires n <= s.Length
      modifies file, s
      ensures n <= 0 || (n >= 2 && (!file.readable || old(file.offset) >= |file.inode.data|)) ==>
                length == None && file.offset == old(file.offset)
      ensures n == 1 ==> length == Some(0) && s[0] == 0 && file.offset == old(file.offset)
      ensures n >= 2 && file.readable && old(file.offset) < |file.inode.data| ==>
                var k := ChunkLength(file.inode.data, old(file.offset), n - 1);
                && length == Some(k) && file.offset == old(file.offset) + k
                && s[..k] == file.inode.data[old(file.offset)..old(file.offset) + k] && s[k] == 0
      ensures n >= 2 && file.readable && old(file.offset) < |file.inode.data| ==>
                && length.Some? && 1 <= length.value < n && file.offset <= |file.inode.data|
                && (forall j :: 0 <= j < length.value - 1 ==> s[j] != 0x0A)
                && (length.value == n - 1 || file.offset == |file.inode.data| || s[length.value - 1] == 0x0A)
    {
      hide ChunkLength;
      if n >= 2 && file.offset < |file.inode.data| { ChunkShape(file.inode.data, file.offset, n - 1); }
      if n <= 0 { return None; }
      if n == 1 {
        s[0] := 0;
        return Some(0);
      }
      ghost var data, start := file.inode.data, file.offset;
      length := FillChunk(s, n);
      if length.Some? {
        ghost var chunk := s[..length.value];
        assert forall j :: 0 <= j < length.value ==> s[j] == chunk[j] == data[start + j];
        s[length.value] := 0;
        assert s[..length.value] == chunk;
      }
    }

    /** The reading loop; it gives up when there is nothing to read. */
    method FillChunk(s: array<Byte>, n: int) returns (length: Option<nat>)
      requires 2 <= n <= s.Length
      modifies file, s
      ensures !file.readable || old(file.offset) >= |file.inode.data| ==>
                length == None && file.offset == old(file.offset)
      ensures file.readable && old(file.offset) < |file.inode.data| ==>
                var k := ChunkLength(file.inode.data, old(file.offset), n - 1);
                && length == Some(k) && file.offset == old(file.offset) + k
                && s[..k] == file.inode.data[old(file.offset)..old(file.offset) + k]
    {
      hide ChunkLength;
      ghost var data, start := file.inode.data, file.offset;
      var i := 0;
      while i < n - 1
        invariant 0 <= i <= n - 1 && file.offset == start + i
        invariant i > 0 ==> file.readable && start + i <= |data|
        invariant forall j :: 0 <= j < i ==> s[j] == data[start + j]
        invariant ChunkLength(data, start, n - 1) == i + ChunkLength(data, start + i, n - 1 - i)
        decreases n - i
      {
        ChunkStep(data, start + i, n - 1 - i);
        var r, c := ReadByte();
        if r < 0 { return None; }
        if r == 0 {
          if i == 0 { return None; }
          break;
        }
        s[i] := c;
        i := i + 1;
        if c == NEWLINE { break; }
        ChunkStep(data, start + i, n - 1 - i);
      }
      assert ChunkLength(data, start, n - 1) == i by { ChunkStep(data, start + i, n - 1 - i); }
      assert s[..i] == data[start..start + i];
      return Some(i);
    }

    /** A read of length one into a character. */
    method ReadByte() returns (r: int, c: Byte)
      modifies file
      ensures !file.readable ==> r == -1 && file.offset == old(file.offset)
      ensures file.readable && old(file.offset) >= |file.inode.data| ==> r == 0 && file.offset == old(file.offset)
      ensures file.readable && old(file.offset) < |file.inode.data| ==>
                r == 1 && file.offset == old(file.offset) + 1 && c == file.inode.data[old(file.offset)]
    {
      var buffer := new Byte[1](_ => 0);
      r := Read(buffer, 1);
      c := buffer[0];
    }
  }

  // ---- reading a file chunk by chunk ----

  const NEWLINE: Byte := 0x0A

  /** Bytes of the chunk at `offset`: through the first newline, at most `limit`, at most to the end. */
  function ChunkLength(data: seq<Byte>, offset: nat, limit: nat): (k: nat)
    ensures k <= limit && (offset <= |data| ==> offset + k <= |data|)
    decreases limit
  {
    if limit == 0 || offset >= |data| then 0
    else if data[offset] == NEWLINE then 1
    else 1 + ChunkLength(data, offset + 1, limit - 1)
  }

  lemma ChunkStep(data: seq<Byte>, offset: nat, limit: nat)
    ensures ChunkLength(data, offset, limit) ==
            if limit == 0 || offset >= |data| then 0
            else if data[offset] == NEWLINE then 1
            else 1 + ChunkLength(data, offset + 1, limit - 1)
  {
  }

  lemma {:induction false} ChunkShape(data: seq<Byte>, offset: nat, limit: nat)
    requires offset < |data| && limit > 0
    ensures var k := ChunkLength(data, offset, limit);
            && 1 <= k <= limit && offset + k <= |data|
            && (forall j :: offset <= j < offset + k - 1 ==> data[j] != NEWLINE)
            && (k == limit || offset + k == |data| || data[offset + k - 1] == NEWLINE)
    decreases limit
  {
    if data[offset] != NEWLINE && limit > 1 && offset + 1 < |data| { ChunkShape(data, offset + 1, limit - 1); }
  }

  /** The chunks that repeated reading gives, until nothing is left. */
  function Chunks(data: seq<Byte>, offset: nat, limit: nat): seq<seq<Byte>>
    requires limit > 0
    decreases |data| - offset
  {
    if offset >= |data| then []
    else
      ChunkShape(data, offset, limit);
      var k := ChunkLength(data, offset, limit);
      [data[offset..offset + k]] + Chunks(data, offset + k, limit)
  }

  lemma ChunksStep(data: seq<Byte>, offset: nat, limit: nat)
    requires limit > 0
    ensures offset >= |data| ==> Chunks(data, offset, limit) == []
    ensures offset < |data| ==>
              var k := ChunkLength(data, offset, limit);
              k > 0 && Chunks(data, offset, limit) == [data[offset..offset + k]] + Chunks(data, offset + k, limit)
  {
    if offset < |data| { ChunkShape(data, offset, limit); }
  }

  function Flatten(chunks: seq<seq<Byte>>): seq<Byte> {
    if chunks == [] then [] else chunks[0] + Flatten(chunks[1..])
  }

  lemma FlattenIs(chunk: seq<Byte>, chunks: seq<seq<Byte>>)
    ensures Flatten([]) == [] && Flatten([chunk] + chunks) == chunk + Flatten(chunks)
  {
    assert ([chunk] + chunks)[1..] == chunks;
  }

  /** Nothing is lost or repeated between chunks. */
  lemma {:induction false} ChunksAreTheFile(data: seq<Byte>, offset: nat, limit: nat)
    requires limit > 0 && offset <= |data|
    ensures Flatten(Chunks(data, offset, limit)) == data[offset..]
    decreases |data| - offset
  {
    hide Chunks, ChunkLength;
    ChunksStep(data, offset, limit);
    if offset == |data| {
    } else {
      var k := ChunkLength(data, offset, limit);
      ChunksAreTheFile(data, offset + k, limit);
      assert Chunks(data, offset, limit)[1..] == Chunks(data, offset + k, limit);
      assert data[offset..] == data[offset..offset + k] + data[offset + k..];
    }
  }

  /** Chunks are non-empty and within the limit, and a newline is always the last byte of its chunk. */
  lemma {:induction false} ChunkForm(data: seq<Byte>, offset: nat, limit: nat, c: seq<Byte>)
    requires limit > 0 && c in Chunks(data, offset, limit)
    ensures 1 <= |c| <= limit && forall j :: 0 <= j < |c| - 1 ==> c[j] != NEWLINE
    decreases |data| - offset
  {
    ChunkShape(data, offset, limit);
    var k := ChunkLength(data, offset, limit);
    if c != data[offset..offset + k] { ChunkForm(data, offset + k, limit, c); }
  }

  /** Calls Gets until it has nothing to give. */
  method GetsAll(handle: FileHandle, n: nat) returns (chunks: seq<seq<Byte>>)
    requires n >= 2 && handle.file.readable
    modifies handle.file
    ensures chunks == Chunks(handle.file.inode.data, old(handle.file.offset), n - 1)
    ensures old(handle.file.offset) <= |handle.file.inode.data| ==>
              Flatten(chunks) == handle.file.inode.data[old(handle.file.offset)..]
    ensures forall c :: c in chunks ==> 1 <= |c| <= n - 1 && forall j :: 0 <= j < |c| - 1 ==> c[j] != NEWLINE
  {
    hide Chunks, ChunkLength;
    var inode := handle.file.inode;
    ghost var start := handle.file.offset;
    var s := new Byte[n](_ => 0);
    chunks := [];
    while true
      invariant chunks + Chunks(inode.data, handle.file.offset, n - 1) == Chunks(inode.data, start, n - 1)
      decreases |inode.data| - handle.file.offset
    {
      ghost var at := handle.file.offset;
      ChunksStep(inode.data, at, n - 1);
      var length := handle.Gets(s, n);
      if length == None { break; }
      chunks := chunks + [s[..length.value]];
    }
    assert chunks + [] == chunks;
    if start <= |inode.data| { ChunksAreTheFile(inode.data, start, n - 1); }
    forall c | c in chunks ensures 1 <= |c| <= n - 1 && forall j :: 0 <= j < |c| - 1 ==> c[j] != NEWLINE {
      ChunkForm(inode.data, start, n - 1, c);
    }
  }
}
