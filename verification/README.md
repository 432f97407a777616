# Verification of EmexFoundation's bit streams, strings and object runtime

EmexFoundation is a small foundation library in C: reference-counted objects, encoded strings,
URLs, arrays, file handles, and a walker that reads and writes bit fields in a file. This project
models its hardest parts in Dafny and proves what they promise. `dafny verify dfyconfig.toml`
checks all of it.

## How the model is laid out

- `Bits.dfy`, `Endian.dfy`: unsigned words as natural numbers, every operation characterised bit
  by bit; fixed widths are written out with `Low`. Byte windows and byte swapping.
- `FileHandle.dfy`: inodes, open files (which own the offset), handles and their copies, and the
  line reader. Transfers are full-length, as `read()`, `write()` and `lseek()` of POSIX.1-2017
  describe them; a handle that is not readable or not writable fails.
- `BitWalker.dfy`, `BitStream.dfy`, `SharedFile.dfy`: the walker, whole streams of fields, and
  walkers that share one file.
- `Encoding.dfy`, `Boundaries.dfy`: the ASCII and UTF-8 validators against RFC 3629; cutting and
  joining UTF-8.
- `Strings.dfy`, `Split.dfy`, `Url.dfy`, `Numbers.dfy`, `FormatBuffer.dfy`: strings and what is
  built on them. An immutable string is a value, a mutable one an object with a buffer.
- `RefCount.dfy`, `Cascade.dfy`, `Reachability.dfy`, `Runtime.dfy`, `Client.dfy`: the books of
  references, the cascade of a release, what it frees, the runtime's calls, and whole runs of a client.
- `AtomicCount.dfy`, `Threads.dfy`: the interleavings of several threads, first on one count and then on
  a heap whose teardowns are in progress in several threads at once.
- `Arrays.dfy`, `Equality.dfy`, `HeaderScanner.dfy`, `Options.dfy`, `Integers.dfy`, `Counting.dfy`.

Memory is a parameter (`memory`) where running out of it is a modelled outcome, and plentiful
elsewhere.

## Where a promise holds only under a condition

Each of these is proved as an equivalence; where a second member is named, it gives a concrete
failing input.

- A big-endian field wider than a byte whose width is not a whole number of bytes loses bits unless
  the value's lowest byte fits in the remaining bits (`BitStreams.RoundTrip`,
  `BitStreams.TwelveBitLoss`). Where it does not fit, the bits go to the neighbouring field
  (`BitStreams.FramedExactly`, `BitStreams.TwelveBitClobbers`).
- The shared file offset cannot be seen through a walker only if the byte that a transfer seeks to is
  not before the start of the file. A failed buffer transfer at position 0 or a backward skip leads
  there (`SharedFiles.OffsetInvisibleExactly`, `SharedFiles.FailedWriteShowsOffset`).
- A printed URL is accepted back only if it prints at least two bytes after the scheme
  (`Urls.ParseThenPrint`, `Urls.OneLetterHost`).
- Bulk append reserves enough only for certain combinations of free room and value count
  (`Arrays.ReservationFits`, `Arrays.FourThenFive`).
- The header scanner finds the first blank line only if an odd run of CRs starts it
  (`HeaderScanning.FindsFirstBlankLine`, `HeaderScanning.DoubledCrMisses`).
- Deleting a range of a UTF-8 string keeps it valid only if no character is torn or the torn halves
  form one (`Boundaries.DeleteKeepsUtf8`, `Boundaries.TornAndJoined`).
- The number test and the number conversion agree only on non-empty ASCII strings
  (`Numbers.TestAndConversionAgree`).
- Two arrays without object callbacks are equal as soon as their counts are, so equality is equality
  of contents only if no two such arrays have the same count and different items
  (`Equality.ContentEqualityExactly`, `Equality.SevenEqualsEight`).
- Taking an item out of an array aborts unless something supports the array while the item is released:
  a chain of live objects that ends at the array, does not use the item's slot, and starts at an owner or
  at an object that comes again in the chain. An array that an owner reaches is always supported
  (`Reachability.RemovalExactly`, `Reachability.BorrowedCycleAborts`).

## Model

| member | source | states |
|---|---|---|
| BitStreams.RoundTrip | src/EFBitWalker.c:96-178 | for every sequence of fields of widths 1 to 64, in either byte order, at any bit position over zero bits: reading back by the widths gives every value modulo 2^width if and only if each field is little-endian, at most a byte wide, a whole number of bytes wide, or has a lowest byte that fits the remaining bits |
| BitStreams.PutThenGet | src/EFBitWalker.c:96-236 | the same through a walker: Write each field, Seek back, then Read and Skip for each width; value by value |
| BitStreams.FieldsFollow | src/EFBitWalker.c:138-141 | fields follow each other without gaps, in order |
| BitStreams.WrittenBit | src/EFBitWalker.c:105-136 | which bit of the value a write puts at each bit behind the position, for every width from 1 to 64 and both byte orders |
| BitStreams.ReadBit | src/EFBitWalker.c:161-175 | which bit of the file each bit of a read value comes from |
| BitStreams.WriteIsOrOnNumber | src/EFBitWalker.c:121-136 | a write turns the number N that the zero-extended file denotes into N or (x shifted to the bit position), the length into max(old, bytePos + 9), and the 72-bit store drops no bit |
| BitStreams.WriteFramed | src/EFBitWalker.c:105-141 | under the guard no bit outside the written field changes, whatever the file holds |
| BitStreams.FramedBySpill | src/EFBitWalker.c:105-141 | on any file a write leaves every bit outside its field alone if and only if the bits it has above its width are set there already |
| BitStreams.FramedExactly | src/EFBitWalker.c:105-141 | where the bits up to the next whole byte behind the field are clear, it leaves them alone if and only if the guard holds |
| BitStreams.TwelveBitClobbers | src/EFBitWalker.c:112-136 | the value 255 in a twelve-bit big-endian field sets the first bit of its neighbour |
| BitStreams.EncodeFits | src/EFBitWalker.c:105-119 | masked and swapped bits stay inside the field exactly under the guard |
| BitStreams.DecodeEncode | src/EFBitWalker.c:164-177 | a field cut to its width decodes to its value exactly under the guard |
| BitStreams.SingleField | src/EFBitWalker.c:96-178 | one field over zero bits reads back exactly under the guard |
| BitStreams.TwelveBitLoss | src/EFBitWalker.c:112-119 | the value 255 in a twelve-bit big-endian field does not come back |
| BitStreams.OrAtCommutes | src/EFBitWalker.c:128-136 | writes at any two fixed positions commute |
| BitWalkers.BitWalker.Write | src/EFBitWalker.c:96-144 | from a position in the file: the file becomes the or of the whole zero-extended file with the encoded bits, wherever the shared offset was; from a position before it, both seeks fail, and the window is loaded at the shared offset and stored behind what was loaded; the cursor advances by the width; fails, changing nothing but the offset, exactly for a width outside 1 to 64 or an unreadable or unwritable file |
| BitWalkers.BitWalker.Read | src/EFBitWalker.c:146-178 | for widths 1 to 64 on a readable file the value is the decoded field of the zero-extended file at the cursor, or at the shared offset when the cursor is before the start, and zero otherwise; the cursor stays |
| BitWalkers.BitWalker.Skip | src/EFBitWalker.c:225-236 | the bit position moves by exactly the given number of bits, in either direction |
| BitWalkers.BitWalker.WriteBuffer | src/EFBitWalker.c:180-194 | byte by byte: the bytes go to the next byte boundary, or to the shared offset when that is before the start, a gap becomes zeros and everything else stays; a failed write moves the cursor back by one |
| BitWalkers.BitWalker.ReadBuffer | src/EFBitWalker.c:196-210 | byte by byte: all bytes up to the length or the end of the file come from the next byte boundary, or from the shared offset when that is before the start, and the rest of the buffer stays; a failed read moves the cursor back by one |
| BitWalkers.BitWalker.AlignByte | src/EFBitWalker.c:248-260 | the cursor moves up to the next byte boundary |
| BitWalkers.BitWalker.BytesUsed | src/EFBitWalker.c:238-246 | the bytes that the bits up to the cursor occupy |
| BitWalkers.WindowWriteIsOr | src/EFBitWalker.c:121-136 | read-modify-write of the nine-byte window is the or on the whole file |
| BitWalkers.WindowReadIsField | src/EFBitWalker.c:161-165 | shifting and masking the window is reading the field of the whole file |
| Endian.LoadWindowLE | include/EmexFoundation/EFRuntime/EFEndian.h:64-73 | the loop yields the little-endian number of the bytes |
| Endian.StoreWindowLE | include/EmexFoundation/EFRuntime/EFEndian.h:75-83 | the loop stores the low bytes of the word and nothing else |
| Endian.LoadStore | include/EmexFoundation/EFRuntime/EFEndian.h:64-83 | storing and loading a number that fits gives it back |
| Endian.StoreLoad | include/EmexFoundation/EFRuntime/EFEndian.h:64-83 | loading and storing bytes gives them back |
| Endian.BSwapNBit | include/EmexFoundation/EFRuntime/EFEndian.h:48-62 | every case of the byte swap reverses the low n bytes and drops the rest |
| Endian.BSwapNIs | include/EmexFoundation/EFRuntime/EFEndian.h:48-62 | the same with the place of each bit spelled out |
| Endian.BSwapNInvolution | include/EmexFoundation/EFRuntime/EFEndian.h:48-62 | on n-byte values the swap is its own inverse |
| SharedFiles.Interleave | src/EFBitWalker.c:121-236 | any interleaving of two walkers on one inode in which no transfer seeks before the start, with readable, writable or restricted open files and with shared or private offsets wherever they stand, gives the bytes, positions and results of a reference without offsets |
| SharedFiles.Call | src/EFBitWalker.c:85-260 | each walker operation, on any file and from any position, has the effect and leaves the offset that the operation on values gives |
| SharedFiles.OffsetInvisibleExactly | src/EFBitWalker.c:121-210 | over all files and all offsets at entry, bytes, position and result of an operation do not depend on the offset if and only if it moves no bytes or seeks to a byte that is not before the start |
| SharedFiles.SafeAgrees | src/EFBitWalker.c:121-210 | then it agrees with the reference without offsets |
| SharedFiles.PerformIs | src/EFBitWalker.c:85-260 | what the reference does for each operation, with the widths, the failures and the transferred bytes spelled out |
| SharedFiles.RunIs | src/EFBitWalker.c:85-260 | a run takes its turns one after the other, each with the walker that it names |
| SharedFiles.FieldIsByte | src/EFBitWalker.c:161-165 | a field of eight bits at a byte boundary is that byte of the file |
| SharedFiles.FailedWriteShowsOffset | src/EFBitWalker.c:146-194 | on a read-only file a failed buffer write at position 0 leads before the start, and the next read gives the byte where the other walker left the offset |
| SharedFiles.ForwardIsSafe | src/EFBitWalker.c:180-236 | runs without backward skips, backward seeks and failing buffer transfers never seek before the start |
| SharedFiles.WritesSwap | src/EFBitWalker.c:96-144 | neighbouring writes of two walkers can change places in a run: same world, same results |
| FileHandles.FileHandle.CreateCopy | src/EFFileHandle.c:342-367 | a copy refers to the same open file, hence the same offset |
| FileHandles.FileHandle.Read | src/EFFileHandle.c:414-424 | byte by byte: reads what is left at the offset, up to the whole length, leaves the rest of the buffer alone and moves the offset |
| FileHandles.FileHandle.Write | src/EFFileHandle.c:426-436 | byte by byte: writes the whole length at the offset, with a zero hole beyond the end, leaves everything else alone and moves the offset |
| FileHandles.FileHandle.Seek | src/EFFileHandle.c:449-475 | moves the offset from start, current place or end; a negative target fails |
| FileHandles.FileHandle.Gets | src/EFFileHandle.c:568-612 | one chunk: through the first newline and no further, else n - 1 bytes or up to the end, NUL-terminated; nothing at the end or on a read error |
| FileHandles.ChunksAreTheFile | src/EFFileHandle.c:583-608 | the chunks concatenate to the file from the starting offset |
| FileHandles.ChunkForm | src/EFFileHandle.c:583-608 | every chunk is non-empty and within the limit, with a newline only as its last byte |
| FileHandles.GetsAll | src/EFFileHandle.c:568-612 | repeated calls terminate and return exactly these chunks |
| HeaderScanning.Scan | src/EFFileHandle.c:237-261 | the loop stops at the first stop of the machine or at the end of the stream |
| HeaderScanning.BlankLineIs | src/EFFileHandle.c:237-261 | a blank line is CR LF CR LF, and proper lines have no CR without LF |
| HeaderScanning.StopsAfterBlankLine | src/EFFileHandle.c:237-261 | it stops only right after CR LF CR LF, on any stream |
| HeaderScanning.FindsFirstBlankLine | src/EFFileHandle.c:237-261 | it stops exactly after the first CR LF CR LF if and only if the CR run starting it is odd |
| HeaderScanning.ScanHeader | src/EFFileHandle.c:237-261 | on streams where every CR is followed by LF it stops exactly after the first blank line, or reads everything when there is none |
| HeaderScanning.DoubledCrMisses | src/EFFileHandle.c:237-261 | CR CR LF CR LF is missed |
| Encodings.Utf8MeansEncoded | src/EFString.c:121-183 | accepted text is what some sequence of scalar values encodes to, and that sequence is unique |
| Encodings.TextMeans | src/EFString.c:46-187 | what the encodings of a string accept: bytes below 0x80 for ASCII, what scalar values encode to for UTF-8 |
| Encodings.EncodingIs | src/EFString.c:129-179 | the bytes of each scalar value, with their digits taken directly |
| Encodings.ScalarsAre | src/EFString.c:158-179 | scalar values are the code points up to 0x10FFFF without the surrogates |
| Encodings.ValidateUtf8 | src/EFString.c:121-183 | the loop accepts exactly this text |
| Encodings.ScanChar | src/EFString.c:126-180 | one round: masks, tail bytes and range checks give the length of the grammar's character at the front, or reject |
| Encodings.EncodeIsChar | src/EFString.c:129-179 | the encoding of every scalar value is a character of the grammar in section 4 of RFC 3629 and decodes to it |
| Encodings.CharIsEncode | src/EFString.c:129-179 | every character of the grammar is the encoding of the scalar value it decodes to |
| Encodings.RangeChecksDecide | src/EFString.c:158-179 | tail checks, minimum, maximum and surrogate range decide membership in the grammar |
| Encodings.ValidateAscii | src/EFString.c:52-60 | accepts exactly bytes below 0x80 |
| Boundaries.CutAtBoundary | src/EFString.c:121-183 | a cut in front of a non-trailing byte leaves two valid texts |
| Boundaries.JoinUtf8 | src/EFString.c:121-183 | after valid text, the rest decides |
| Boundaries.DeleteKeepsUtf8 | src/EFString.c:1182-1201 | deleting a range keeps text valid if and only if the torn halves are empty or form a character |
| Boundaries.TornAndJoined | src/EFString.c:1182-1201 | half a character is refused, two halves of different characters may form one |
| Boundaries.DeleteWholeChars | src/EFString.c:1182-1201 | deleting between character boundaries keeps text valid |
| Strings.Create | src/EFString.c:250-303 | a string is created exactly when the bytes up to the first NUL are below 0x80 for ASCII, or are what some sequence of scalar values encodes to for UTF-8 |
| Strings.Equal | src/EFString.c:925-954 | strings of any encodings are equal exactly when their bytes are: the cross-encoding checks never change the answer |
| Strings.EqualRange | src/EFString.c:956-989 | the same for a range: it equals a string exactly when it has its length and its bytes; a longer range differs at the terminator whatever lies behind it |
| Strings.MutableString.AppendString | src/EFString.c:1125-1152 | appends exactly when memory is there and the bytes are below 0x80 for an ASCII string, or what some scalar values encode to for a UTF-8 string; the string stays valid |
| Strings.MutableString.AppendMutable | src/EFString.c:1125-1152 | the same from a mutable source, which may be the string itself: then it doubles |
| Strings.MutableString.TrimWhitespace | src/EFString.c:1087-1123 | leaves the value without its maximal whitespace ends |
| Strings.MutableString.DeleteRange | src/EFString.c:1182-1201 | removes exactly a range that lies in the string and keeps what is before and behind it; stays terminated and NUL-free, and valid exactly for a clean range |
| Strings.TrimIsTrimmed | src/EFString.c:1094-1113 | removing maximal whitespace ends has one result |
| Strings.TrimmedMeans | src/EFString.c:1094-1113 | what is left starts and ends with other characters than space and HT to CR, and only those were removed |
| Strings.TrimIdempotent | src/EFString.c:1087-1123 | trimming twice is trimming once |
| Strings.TrimKeepsText | src/EFString.c:1087-1123 | trimming tears no character |
| Strings.RunKeepsValid | src/EFString.c:1087-1201 | over any run of appends, self-appends, trims and clean deletes a string stays NUL-free and valid |
| Strings.EditedMeans | src/EFString.c:1087-1201 | the bytes after each edit and after a run |
| Strings.WithoutDeletesIsClean | src/EFString.c:1087-1152 | runs of appends of valid strings, self-appends and trims are always clean |
| Strings.ApplyEdits | src/EFString.c:1087-1201 | such a run on a mutable string has the value that the run on values gives |
| Splitting.Split | src/EFString.c:991-1080 | succeeds exactly when the separator fits the encoding and is shorter, and returns the non-empty pieces between leftmost matches; at most one more than the counting pass found |
| Splitting.SplitIs | src/EFString.c:1029-1070 | the split in full: the text up to the leftmost occurrence unless empty, then the split of what follows it; the whole string when there is none |
| Splitting.MatchMeans | src/EFString.c:1033-1033 | an occurrence holds the separator byte for byte |
| Splitting.SeparatorFits | src/EFString.c:999-1003 | every valid separator fits UTF-8, those of bytes below 0x80 fit ASCII |
| Splitting.StartsWith | src/EFString.c:1033-1033 | the bounded comparison of NUL-terminated bytes decides an occurrence without passing the terminator |
| Splitting.PiecesJoinBack | src/EFString.c:1029-1070 | pieces and separators interleave back to the string |
| Splitting.SplitPieces | src/EFString.c:1029-1070 | pieces are non-empty and contain no separator |
| Splitting.SplitCount | src/EFString.c:1011-1019 | the piece count is at most the pre-pass count plus one |
| Splitting.CutAtMatch | src/EFString.c:1033-1070 | text on both sides of a valid separator is valid: cuts fall on character boundaries |
| Splitting.SplitIsText | src/EFString.c:1043-1070 | every piece of valid text re-validates, so no piece can be refused |
| Splitting.JoinThenPieces | src/EFString.c:1029-1070 | pieces free of a one-byte separator come back from their join |
| Urls.CreateWithString | src/EFURL.c:97-107 | for the network schemes, parsing means: strip the prefix, accept "/" or split the rest |
| Urls.CreateFromPath | src/EFURL.c:160-174 | the path part is "/", rejected when shorter than two bytes, or split |
| Urls.CreateUrl | src/EFURL.c:75-174 | an accepted string gives a URL with valid components and an empty cache, a rejected one gives none, and exactly strings without a network scheme are left to the file system |
| Urls.ParseIs | src/EFURL.c:97-174 | what parsing answers for `http://` and `https://` and a path behind them, and which strings ask the file system |
| Urls.RootUrl | src/EFURL.c:161-165 | `http:///` gives a URL without components |
| Urls.PrintedIs | src/EFURL.c:256-296 | a POSIX URL prints as `/` and the join, the others as their scheme and the join |
| Urls.JoinedIs | src/EFURL.c:280-293 | the join puts one `/` between neighbouring components |
| Urls.Url.CopyPath | src/EFURL.c:256-296 | the append loop prints the prefix and the joined components as a valid string |
| Urls.Url.GetPath | src/EFURL.c:352-367 | the cache is filled on first use and always equals the recomputed join |
| Urls.Url.AppendingPathComponent | src/EFURL.c:176-201 | one more component; the printed path grows by "/" and it |
| Urls.Url.DeletingLastPathComponent | src/EFURL.c:203-228 | without the last component, if there is one |
| Urls.Url.ReplacingLastPathComponent | src/EFURL.c:230-236 | the last component is exchanged |
| Urls.PrintThenParse | src/EFURL.c:97-174 | parsing a printed URL gives back scheme and components if and only if the components are non-empty, free of "/" and join to at least two bytes |
| Urls.ParseThenPrint | src/EFURL.c:97-174 | on accepted input, printing and parsing again is stable if and only if at least two bytes are printed |
| Urls.PrintIdempotent | src/EFURL.c:256-296 | print after parse is idempotent on such input |
| Urls.OneLetterHost | src/EFURL.c:161-171 | `http://a/` is accepted but its printed form is rejected |
| Urls.ParsedIsValid | src/EFURL.c:167-173 | components of an accepted URL are valid strings |
| Numbers.Extract | src/EFString.c:1205-1352 | the scanners return the exact value of hexadecimal, binary, decimal or character text, or a range error exactly from 2^64 on |
| Numbers.AnyDecimalText | src/EFString.c:1278-1301 | decimal text, leading zeros included, denotes the sum of its digits in their places |
| Numbers.AnyHexText | src/EFString.c:1222-1249 | the same behind 0x or 0X with digits in either case |
| Numbers.AnyBinaryText | src/EFString.c:1251-1276 | the same behind 0b or 0B |
| Numbers.MarkedText | src/EFString.c:1205-1301 | numbers printed in base 16, 2 and 10, in either case of letters, are read back behind either marker |
| Numbers.QuotedText | src/EFString.c:1303-1352 | a character in quotes, and the seven escapes with their codes; no other escape |
| Numbers.LongQuotedText | src/EFString.c:1303-1352 | behind a backslash the next character decides, and else only one may stand between the quotes |
| Numbers.OnlyTheseDenote | src/EFString.c:1205-1352 | no other text denotes a number |
| Numbers.ExtractHexadecimal | src/EFString.c:1222-1249 | matches exactly 0x and hexadecimal digits, with their value |
| Numbers.ExtractBinary | src/EFString.c:1251-1276 | matches exactly 0b and binary digits, with their value |
| Numbers.ExtractDecimal | src/EFString.c:1278-1301 | matches exactly decimal digits, with their value |
| Numbers.CreateNumber | src/EFString.c:1384-1416 | SInt64 exactly below 2^63, UInt64 up to 2^64, the overflow marker from there on and for non-ASCII text, nothing for other text |
| Numbers.IsNumber | src/EFString.c:1354-1382 | holds exactly for ASCII text that denotes a number of any size |
| Numbers.TestAndConversionAgree | src/EFString.c:1354-1416 | test and conversion agree exactly on non-empty ASCII strings |
| Numbers.PrintThenParse | src/EFNumber.c:59-86 | parsing a printed number gives its value back if and only if it is not negative and not the marker, and the same number if and only if it has the type the parser chooses |
| Numbers.DecimalDigits | src/EFNumber.c:75-82 | decimal text of a number has that value |
| Numbers.DescriptionIs | src/EFNumber.c:59-86 | negative numbers print as `-` and the decimal text of their absolute value, others as decimal text, the marker as `overflown` |
| FormatBuffers.FormatBuffer.Ensure | src/EFString.c:375-397 | doubling makes room for the bytes and a terminator with a capacity of 64 times a power of two, below twice the need; all requests together stay within twice the capacity |
| FormatBuffers.FormatBuffer.Bytes | src/EFString.c:398-404 | a piece is appended to the contents, or the buffer fails for lack of memory |
| FormatBuffers.FormatBuffer.Char | src/EFString.c:406-410 | one character is appended, or the buffer fails for lack of memory |
| FormatBuffers.EmitAll | src/EFString.c:367-410 | after any sequence of emits the buffer holds their concatenation within these bounds |
| FormatBuffers.ConcatIs | src/EFString.c:398-404 | the concatenation is in the order of the emits |
| Runtimes.Runtime.Release | src/EFRuntime/EFObject.c:102-130 | one owned reference is given up while no slot is open: on any object graph, through the whole cascade, every count stays owners plus occurrences in live holders, no underflow, no freed object touched, it terminates because the number of references falls, and the heap is exactly what the cascade on values gives |
| Runtimes.Runtime.Cascade | src/EFRuntime/EFObject.c:102-130 | the code of a release does what the run on values does, on any heap on which it touches no freed object, and aborts exactly where that underflows |
| Runtimes.Runtime.Deinit | src/EFArray.c:83-94 | releases every item of the dying object in order while the object itself stays allocated; stops when one of the releases aborts |
| Runtimes.Runtime.Retain | src/EFRuntime/EFObject.c:90-100 | one more reference; static objects are not counted |
| Runtimes.Runtime.ArrayAppend | src/EFArray.c:349-367 | the array gets a reference of its own; an immutable array or one that cannot grow retains nothing |
| Runtimes.Runtime.ArrayRemoveAt | src/EFArray.c:391-406 | the item of an owned or borrowed array is released before its slot is closed; the call aborts exactly when that release underflows, and at rest exactly when nothing supports the array; otherwise the array is still there, without the item |
| Reachability.BorrowedCycleAborts | src/EFArray.c:391-406 | two arrays that hold each other, one of them only borrowed: removing its item ends in the underflow abort |
| Reachability.RemovalExactly | src/EFArray.c:391-406 | on any graph at rest, releasing an item while its slot is open ends well, with the array there and the books balanced, if and only if a chain of live objects supports the array; otherwise it ends in the underflow abort |
| Reachability.RemovalRuns | src/EFArray.c:391-406 | also while other objects are being torn down, the release either ends well or underflows, and a supporting chain makes it end well |
| Reachability.ReachableIsSupported | src/EFArray.c:391-406 | an array that an owner reaches is supported, on any graph |
| Reachability.AcyclicIsSupported | src/EFArray.c:391-406 | without cycles every array is supported |
| Reachability.RankedIsAcyclic | src/EFRuntime/EFObject.c:102-130 | a heap whose references lead from higher to lower ranks is acyclic |
| Reachability.HeldCycleIsSafe | src/EFArray.c:391-406 | a borrowed array in a cycle below an owned array is supported |
| Cascades.ReleaseRuns | src/EFRuntime/EFObject.c:102-130 | a release by an owner ends well with balanced books; while a slot is open it may instead underflow, and not if a rooted chain leads to the array |
| ReferenceCounting.AfterLast | src/EFRuntime/EFObject.c:112-122 | when the last reference goes, the references the object held become owned ones, and the books stay balanced |
| ReferenceCounting.CloseSlot | src/EFArray.c:399-405 | closing the slot of a released item leaves the books balanced |
| Reachability.ReleaseFreesTheUnreachable | src/EFRuntime/EFObject.c:102-130 | nothing that owners reach is freed on any graph; on acyclic graphs the survivors are exactly what owners reach |
| Runtimes.ReleaseAndAccount | src/EFRuntime/EFObject.c:102-130 | the same for one release through the runtime |
| Reachability.LeakIsHeldByLeak | src/EFRuntime/EFObject.c:102-130 | an unreachable object that survives is held by another one |
| Reachability.LeakComesFromCycle | src/EFRuntime/EFObject.c:102-130 | only cycles leak: holders of an unreachable survivor that are unreachable survivors themselves lead back to one that comes twice |
| Reachability.MutualHoldersLeak | src/EFRuntime/EFObject.c:102-130 | two arrays that hold each other do leak |
| Clients.RunClient | src/EFRuntime/EFObject.c:90-130 | over any run of creating, retaining, releasing, storing in and taking out of owned or borrowed arrays: it aborts if and only if some call takes an item out of an array that nothing supports; otherwise exact counts, no dangling reference, on an acyclic heap every counted object is still reached by the client, and nothing is left once the client holds nothing |
| Clients.RunIs | src/EFArray.c:349-406 | a run makes every usable call, one after the other, and is safe when each of them is |
| Clients.UsableIs | src/EFArray.c:349-406 | which calls are made |
| Clients.Perform | src/EFArray.c:349-406 | each call aborts exactly when it is not safe; otherwise it keeps the law and gives the heap and the holdings of the call on values, with the items stored and taken spelled out |
| Clients.StoringDownwardsIsSafe | src/EFArray.c:349-406 | a client that stores downwards in some ranking never aborts, whatever it borrows |
| Clients.TakingFromReachableIsSafe | src/EFArray.c:391-406 | taking out of an array that the client reaches is safe on any graph |
| Clients.StepKeepsLaw | src/EFArray.c:349-406 | each usable and safe call on values keeps the books balanced and the heap at rest |
| Clients.NothingLeft | src/EFRuntime/EFObject.c:102-130 | without owners and cycles no counted object is left |
| AtomicCounting.EveryRunIsSafe | src/EFRuntime/EFObject.c:98-129 | in every interleaving exactly one thread sees the last release, deinit and deallocation run at most once, in that order and only when nothing is owned, and the underflow abort is unreachable |
| AtomicCounting.RunCounts | src/EFRuntime/EFObject.c:90-130 | over any run the count rises by one for each retain and falls by one for each release, and deinits and deallocations are the steps that were taken |
| AtomicCounting.RunOwned | src/EFRuntime/EFObject.c:90-130 | over any run a thread owns its start, plus its retains and what was passed to it, minus its releases and what it passed on |
| AtomicCounting.OneThreadTearsDown | src/EFRuntime/EFObject.c:110-124 | while something is owned no thread is tearing down; afterwards exactly one is or has been |
| AtomicCounting.OwnersMayAct | src/EFRuntime/EFObject.c:90-110 | a thread that owns a reference may retain, release and pass it on |
| AtomicCounting.LastMayTearDown | src/EFRuntime/EFObject.c:110-124 | the thread whose release takes the count from one tears down and deallocates |
| AtomicCounting.StepKeepsInv | src/EFRuntime/EFObject.c:98-129 | the invariant behind it holds after every atomic step |
| AtomicCounting.NothingAfterDeallocation | src/EFRuntime/EFObject.c:102-124 | no thread takes a step on a deallocated object |
| AtomicCounting.TeardownIsNotLost | src/EFRuntime/EFObject.c:113-124 | once nothing is owned, some thread can carry the teardown on until it is complete |
| Threads.EveryRunIsSafe | src/EFRuntime/EFObject.c:90-130 | several threads on any heap, with each subtract, item release and deallocation a step of its own: in every interleaving no underflow, every count is what threads own, what teardowns have still to release and what live objects hold, and no object is torn down or deallocated twice |
| Threads.RunOwned | src/EFRuntime/EFObject.c:90-130 | over any run a thread has of each object its start, plus what it created, retained and was passed, minus what it put into arrays, passed on and released |
| Threads.RunItems | src/EFArray.c:349-367 | over any run an object that is still there holds its start followed by the items put into it |
| Threads.RunObjects | src/EFRuntime/EFObject.c:90-130 | over any run each object of the start and each created one is there or freed, and frees are the deallocations that were taken |
| Threads.OwnersMayAct | src/EFRuntime/EFObject.c:90-130 | a thread between calls may use what it owns and what its arrays hold |
| Threads.StepKeepsInv | src/EFRuntime/EFObject.c:90-130 | the invariant behind it holds after every step, also that each object at zero is in exactly one teardown, which has still to release the rest of its items |
| Threads.NothingFreedIsTouched | src/EFRuntime/EFObject.c:90-130 | no step of any interleaving reads or writes a freed object |
| Threads.QuietHeapIsEmpty | src/EFRuntime/EFObject.c:102-130 | once all threads are done and own nothing, an acyclic heap has no counted object left, in any interleaving |
| Threads.TeardownGoesOn | src/EFRuntime/EFObject.c:113-124 | a teardown can always take its next step, and each step leaves fewer references or fewer objects, so it ends |
| Arrays.ReservationFits | src/EFArray.c:416-427 | the reservation makes room for n values if and only if the guard `RoomSuffices` holds |
| Arrays.ClosedForm | src/EFArray.c:416-427 | m rounds of the loop started with room s leave room max(s, 5(m - 1) + r), where r is s modulo five counted from one to five |
| Arrays.EFArray.Reserve | src/EFArray.c:416-427 | the loop ends with the room that the rounds give, or fails exactly at the first round that must grow and gets no memory, keeping what earlier rounds grew; count and contents stay |
| Arrays.EFArray.AppendValuesOfArray | src/EFArray.c:408-443 | whenever what is copied fits the reservation, the result is the concatenation; when the callback refuses a value, the values before it stay appended and the call fails; a failing reservation or other callbacks append nothing; every appended value is retained once |
| Arrays.GuardMakesRoom | src/EFArray.c:416-442 | under the guard what is copied fits, whatever the callback refuses |
| Arrays.RoundsWithMemory | src/EFArray.c:416-427 | with memory in every round the reservation succeeds, without any exactly when nothing had to grow |
| Arrays.NoRoomForFive | src/EFArray.c:416-427 | with room for one value nothing is reserved for five |
| Arrays.FourThenFive | src/EFArray.c:321-427 | an array created empty and given four values has room for one, and reserving for five succeeds and leaves it so |
| Arrays.EFArray.ResizeIfNeededForOneMoreIndex | src/EFArray.c:321-347 | grows by five exactly when needed and keeps the items |
| Arrays.EFArray.AppendValue | src/EFArray.c:349-367 | appends to a mutable array that has room or gets memory, if an object callback retains the value; growth stays when it refuses; with object callbacks the value is retained once, with default ones nothing is |
| Arrays.EFArray.InsertValueAtIndex | src/EFArray.c:369-389 | inserts at an index from zero to the count under the same conditions, with the same retain |
| Arrays.EFArray.RemoveValueAtIndex | src/EFArray.c:391-406 | removes one item and, with object callbacks, releases exactly it; an index outside does nothing |
| Arrays.EFArray.RemoveValuesInRange | src/EFArray.c:452-461 | removes the part of the range that lies in the array and, with object callbacks, releases exactly those items |
| Arrays.EFArray.HeldBalances | src/EFArray.c:40-82 | object arrays hold one reference for each of their items, others none |
| Equality.EqualObjects | src/EFRuntime/EFObject.c:60-88 | terminates on acyclic nesting and answers whether both objects are there and mean the same |
| Equality.EqualArrays | src/EFArray.c:96-123 | same callbacks, same count, and equal items where items can be compared; without object callbacks the count decides; contents are the same exactly when the answer is yes and no raw items are in conflict |
| Equality.EqualsIsSameMeaning | src/EFRuntime/EFObject.c:60-88 | the relation of the handlers, pointer shortcuts included, is equality of meanings |
| Equality.MeaningIs | src/EFRuntime/EFObject.c:60-88 | when two objects mean the same: strings by bytes, numbers by type and value, object arrays item by item, raw arrays by count, all else only with itself |
| Equality.ContentIs | src/EFArray.c:96-123 | contents of raw arrays are their items, of object arrays item by item |
| Equality.EqualsIsEquivalence | src/EFRuntime/EFObject.c:60-88 | equality is reflexive, symmetric and transitive |
| Equality.SameContent | src/EFArray.c:96-123 | at any nesting depth, contents are the same if and only if the objects are equal and no two arrays without object callbacks at the same place have equal counts and different items |
| Equality.DefaultArraysExactly | src/EFArray.c:96-123 | for two arrays without object callbacks, equality is equality of contents if and only if the counts differ or the items are the same |
| Equality.ContentEqualityExactly | src/EFArray.c:96-123 | on a whole heap, equality is equality of contents if and only if no two such arrays have the same count and different items |
| Equality.SevenEqualsEight | src/EFArray.c:96-123 | the arrays of the raw items 7 and 8 are equal |

## Left out

- UTF-7: the decoding table in the validator is empty, so the code does not settle what it accepts.
- NULL arguments, and immutable strings passed to the editing functions: the types of the model exclude them.
- BitWalkers.BitWalker.Write: does not model the width of the index type, so positions do not wrap around.
- Arrays.EFArray.AppendValuesOfArray: does not model a bulk append that copies more than the reservation holds, or of a non-empty array to itself, because the copying loop then leaves the buffer.
- Splitting.Split: does not model an empty separator, because the loop does not end on one.
- Numbers.ExtractCharacter: does not model the byte after the terminator that the code looks at for a lone quote; it cannot change the answer.
- Failing allocations outside the members with a `memory` parameter, and size arithmetic that wraps around.
- Urls.CreateUrl: does not model the POSIX branch of parsing, which asks the file system for real paths and the working directory; it says which strings get there.
- Memory ordering of the atomic operations: steps interleave one at a time. Taking items out of arrays is not a step of a thread, because the source does not lock arrays.
- Runtimes.Runtime.ArrayAppend: does not decide whether an array is mutable and has room; that is a parameter here and modelled in `Arrays`. Array copies are not modelled.
- The printf-style conversion parser, writing numbers through typed pointers, hashing, prefixes and suffixes.
- Equality of classes beyond strings, numbers and arrays with the built-in callbacks.
- Sockets, pipes, mappings, processes, dictionaries, data objects, UUIDs, file management and class registration.
