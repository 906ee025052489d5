# snappy-java in Dafny

A model of the Java part of snappy-java: everything around the native compressor. It covers

- the framed streams (`SnappyFramedOutputStream`, `SnappyFramedInputStream`, `SnappyFramed`), which implement the
  x-snappy-framed format;
- the CRC-32C checksum with slicing-by-8 (`PureJavaCrc32C`), against the bit-at-a-time definition with the polynomial
  of section 12.1 of RFC 3720;
- the block streams (`SnappyOutputStream`, `SnappyInputStream`, `SnappyCodec`);
- the caching buffer pool (`CachingBufferPool`) and the cached per-size allocators (`CachedBufferAllocator`).

## How it is built

The native kernel is a record of four functions with laws (`Native.dfy`): decompressing what was compressed gives it
back, output is never empty and within a monotone bound, and decompression of anything else may fail but never writes
more than the declared length, which is at most the largest int. Every theorem holds for every kernel that obeys the
laws; one kernel is shown to.

Each stream format has a pure meaning (`FrameFormat.Decode`, `BlockFormat.Decode`) and a canonical encoding
(`FrameFormat.Stream`, `BlockFormat.Stream`), and the lemmas between the two are the round trips. Statements on literal
bytes and numbers hold both to the format itself (`FramedBytes.dfy`, `BlockBytes.dfy`, `Crc32c.KnownChecksums`,
`SizeClasses.KnownClasses`): what is written, what every chunk header means, and each error. The stream classes are
imperative, with the fields, arrays and byte buffers of the originals. Their contracts tie each call to the pure
functions: `Ready()` says that a writer's output so far is the canonical encoding of all but the buffered bytes, and
`Pending()` is everything a reader has still to deliver. Sources deliver an arbitrary number of bytes per read, so what
is proved holds for every schedule of short reads. The methods of `FramedRoundTrip` and `BlockRoundTrip` run arbitrary
scripts of calls through the classes.

| file | contents |
|---|---|
| `Base.dfy`, `ByteIo.dfy`, `Chunking.dfy`, `Scripts.dfy` | bytes, channels and byte buffers, cutting data into blocks, scripts of calls |
| `Native.dfy` | the kernel and its laws |
| `Crc32c.dfy` | the checksum, its linearity, the fast loop, masking, burst detection, the literal tables |
| `SizeClasses.dfy` | the size classes of the caching pool |
| `FrameFormat.dfy`, `FramedBytes.dfy`, `ChunkSequences.dfy`, `FramedWriter.dfy`, `FramedReader.dfy`, `FramedRoundTrip.dfy` | the framed streams |
| `BlockFormat.dfy`, `BlockBytes.dfy`, `BlockWriter.dfy`, `BlockReader.dfy`, `BlockRoundTrip.dfy` | the block streams |
| `CachingPool.dfy` | the caching pool as an interleaved transition system with a collector |
| `PoolRuns.dfy` | what a lone thread does with the pool, and that the pool loses nothing |
| `CachedAllocators.dfy` | the allocator cache and the block streams that use it |

Check everything with `dafny verify dfyconfig.toml`.

## Where the code does not do what one might expect

Each of these is proved, most of them as exact conditions.

- A data chunk that decodes to nothing makes the framed `read()` deliver a stale byte; the other reads return 0 if and
  only if they meet such a chunk or ask for nothing (`Read`, `ReadArray`, `ReadBuffer`). Reading byte by byte is right
  if and only if there is no such chunk (`FramedRoundTrip.ReadAllBytes`, `EmptyChunkExample`); this library's writer is
  proved to write none (`SegmentsAreTame`).
- A block whose checksum is rejected stays buffered. A caller who goes on after the exception gets it (`ReadOn`,
  `DamageIsKept`); reading on is safe exactly after other exceptions (`ReadingOnIsSafe`). What remains after an
  exception is part of the contract of every read.
- A framed stream that is cut inside the body of a skippable chunk ends without an error; every other cut that is not
  where a chunk ends is reported (`ChunkSequences.CutChunks`). Streams of this library's writer have no such chunks
  (`TruncationIsReported`).
- The range check of the framed `read(byte[], int, int)` adds with wrap-around (`RangeCheck`); when the sum wraps, the
  call goes on and throws if and only if the next block reaches beyond the array (`ReadArray`).
- `write(ByteBuffer)` adds with wrap-around, too, and throws half-way if and only if the sum wraps behind the last
  whole block (`Wraps`, `LargeBufferWraps`, `SmallBufferDoesNotWrap`).
- `transferTo(WritableByteChannel)` wraps the buffer once. It throws if and only if it meets a block longer than that
  array (`TransferToChannel`, `LongChunkExample`), and the block then comes next. Otherwise it sends what the wrapped
  array shows at the place of each block, which is right if and only if that is the block (`PumpView`, `SentIsRight`).
  That is so as long as the reader keeps the array: if every chunk still to come fits the buffers, hence for every
  stream of this library's writer (`RoundTrip`). A chunk that does not fit makes the reader give the array back; the
  pool may hand out the same one again, as the caching pool does to a lone client when the size class is the same
  (`LastInFirstOut`), and then the data is right, or another one, and then the caller gets what the old array held,
  without an exception (`SendRawChunk`, `SendOnNewStream`).
- A framed reader whose constructor throws never returns its three buffers to the pool (`ReadScript`).
- A block output stream with a requested size below 1024 overruns its input buffer in every write that is longer than
  the room left, and in no other (`OverrunsExactly`, `Write`). With a requested size of zero, `write(int)` throws with
  its cursor already moved (`WriteByte`), and the next flush emits a byte that nobody wrote (`StrayByte`).
- A caller of the block reader who goes on after an exception gets what `BlockFormat.Resumed` says; behind a block that
  is too large this is its compressed bytes, taken for chunks (`ReadingOnAfterTooLarge`).
- Block streams read back if and only if every compressed block is within the reader's `maxChunkSize`
  (`StreamsRoundTrip`).
- The version in the first header of a block stream is never looked at, only those of later ones
  (`FirstVersionIsIgnored`, `LaterHeader`). A cut goes unreported if and only if it leaves at most three bytes of a
  block or of a later header (`TruncatedStream`, `JoinedStreamsCut`), and up to three bytes of anything are ignored
  (`TailIsIgnored`). After a header with a wrong magic the reader reports the end, and a later call goes on behind that
  header (`LaterHeader`); `available()` takes such a header away without a report (`LookLosesEnd`).
- Raw data of 1 GiB or more cannot be read: the buffer's doubled length is no int (`Slurp`, `RawRoundTrip`).

## Model

| member | source | states |
|---|---|---|
| `Crc32c.CrcConcat` | src/main/java/org/xerial/snappy/PureJavaCrc32C.java:61-90 | feeding two pieces one after the other is feeding their concatenation, for every starting register |
| `Crc32c.CrcLinear` | src/main/java/org/xerial/snappy/PureJavaCrc32C.java:61-84 | the register's old contents and the new data contribute independently: the checksum is linear over GF(2) |
| `Crc32c.SliceBy8` | src/main/java/org/xerial/snappy/PureJavaCrc32C.java:64-73 | eight table look-ups, with the register shifted down before the second to fourth, equal eight bytes fed bit by bit |
| `Crc32c.TableFeed` | src/main/java/org/xerial/snappy/PureJavaCrc32C.java:77-89 | one look-up in the first table equals one byte fed bit by bit |
| `Crc32c.PureJavaCrc32C.Update` | src/main/java/org/xerial/snappy/PureJavaCrc32C.java:61-84 | the whole loop nest equals the bit-at-a-time CRC-32C of the range, for every register, array, offset and length; a non-positive length is a no-op |
| `Crc32c.PureJavaCrc32C.UpdateByte` | src/main/java/org/xerial/snappy/PureJavaCrc32C.java:87-90 | the low eight bits of the argument are fed; the other bits do not matter |
| `Crc32c.PureJavaCrc32C.Stride` | src/main/java/org/xerial/snappy/PureJavaCrc32C.java:65-73 | the body of the main loop, with sign-extended bytes, feeds eight bytes |
| `Crc32c.PureJavaCrc32C.Step` | src/main/java/org/xerial/snappy/PureJavaCrc32C.java:78-79 | the body of the second loop feeds one byte |
| `Crc32c.Checksum` | src/main/java/org/xerial/snappy/PureJavaCrc32C.java:49-90 | any mix of bulk updates, single-byte updates and resets yields the complemented bit-at-a-time checksum of the bytes fed since the last reset |
| `Crc32c.KnownChecksums` | src/main/java/org/xerial/snappy/PureJavaCrc32C.java:45-58 | known answers as numbers: the checksum of no byte, of a zero byte, and the check value of CRC-32C, 0xE3069283 for the digits 1 to 9 |
| `Crc32c.T8OnColumn` | src/main/java/org/xerial/snappy/PureJavaCrc32C.java:96-623 | at the eight power-of-two indices of each of the eight tables, the literal in the program is what the generator yields |
| `Crc32c.T8FromLiterals` | src/main/java/org/xerial/snappy/PureJavaCrc32C.java:96-623 | every generated entry of every table is the exclusive-or of the program's own power-of-two literals for the bits of its index |
| `Crc32c.CrcInjective` | src/main/java/org/xerial/snappy/PureJavaCrc32C.java:61-84 | two different registers stay different whatever is fed to both |
| `Crc32c.BurstChangesCrc` | src/main/java/org/xerial/snappy/PureJavaCrc32C.java:61-84 | replacing at most four consecutive bytes by different ones always changes the checksum, wherever they are |
| `Crc32c.UnmaskInverts` | src/main/java/org/xerial/snappy/SnappyFramed.java:106-110 | masking is a bijection with an explicit inverse |
| `Crc32c.MaskedCrc32c` | src/main/java/org/xerial/snappy/SnappyFramed.java:86-91 | whatever the checksum object held before, the result is the masked checksum of the range |
| `Crc32c.KnownMaskedChecksums` | src/main/java/org/xerial/snappy/SnappyFramed.java:86-112 | the same as frames store them, and 0x9274CDA8 for the data of the framed streams' own test (SnappyFramedStreamTest.java:84-88) |
| `Crc32c.BurstChangesMaskedCrc` | src/main/java/org/xerial/snappy/SnappyFramed.java:86-110 | the stored, masked checksum changes under every burst of at most four bytes |
| `SizeClasses.RoundToPowersIsRoundUp` | src/main/java/org/xerial/snappy/pool/CachingBufferPool.java:173-177 | the bit-mask computation yields the least multiple of the power of two that is at least the number, for every non-negative int |
| `SizeClasses.AdjustSizeClass` | src/main/java/org/xerial/snappy/pool/CachingBufferPool.java:131-171 | the switch over leading zeros computes exactly the class documented at lines 16-25, for every positive int |
| `SizeClasses.KnownClasses` | src/main/java/org/xerial/snappy/pool/CachingBufferPool.java:133-170 | known answers, all that the tests of the pool have (CachingBufferPoolTest.java:26-53): both sides of every class boundary |
| `SizeClasses.AdjustSizeBounds` | src/main/java/org/xerial/snappy/pool/CachingBufferPool.java:131-171 | a class is never smaller than the request, never overflows an int, and from 4096 on wastes less than half of the request |
| `SizeClasses.AdjustSizeMonotone` | src/main/java/org/xerial/snappy/pool/CachingBufferPool.java:131-171 | a larger request never gets a smaller class, across all class boundaries |
| `SizeClasses.AdjustSizeIdempotent` | src/main/java/org/xerial/snappy/pool/CachingBufferPool.java:131-171 | a buffer that is given back goes to the class it came from |
| `Chunking.EncodeSegmentSnoc` | src/main/java/org/xerial/snappy/SnappyFramedOutputStream.java:480-489 | appending one block to whole blocks appends that block's output: why eager and lazy flushing agree |
| `Chunking.SegmentsAsBlocks` | src/main/java/org/xerial/snappy/SnappyFramedOutputStream.java:480-489 | the canonical output is what the blocks emit one after the other, none of them empty or larger than the block size, and the blocks join to the data |
| `Chunking.BlockAt` | src/main/java/org/xerial/snappy/SnappyFramedOutputStream.java:321-335 | the blocks of a segment are cut at every multiple of the block size and nowhere else: all but the last are full |
| `FrameFormat.GetPutLength` | src/main/java/org/xerial/snappy/SnappyFramedOutputStream.java:553-558 | the three-byte little-endian length field reads back (reader: SnappyFramedInputStream.java lines 619-621) |
| `FrameFormat.NextBlockOfChunk` | src/main/java/org/xerial/snappy/SnappyFramedInputStream.java:534-585 | an intact data chunk decodes to its payload, or to the kernel's error, or to a checksum error, in this order |
| `FramedBytes.StreamIdentifier` | src/main/java/org/xerial/snappy/SnappyFramed.java:77-80 | every stream begins with these ten bytes, and one without data has no others |
| `FramedBytes.ChunkBytes` | src/main/java/org/xerial/snappy/SnappyFramedOutputStream.java:546-570 | a chunk byte by byte: flag, length and checksum low byte first, body |
| `FramedBytes.FrameBytes` | src/main/java/org/xerial/snappy/SnappyFramedOutputStream.java:500-529 | on the emitted bytes: flag 0x00 and the compressed data if and only if compressed size <= ratio * plain size, otherwise flag 0x01 and the data |
| `FramedBytes.AsAndBsFrame` | src/main/java/org/xerial/snappy/SnappyFramedOutputStream.java:500-570 | the frame of the framed streams' own test data, byte by byte, whatever the kernel makes of it (SnappyFramedStreamTest.java:60-89) |
| `FramedBytes.NoHeader` | src/main/java/org/xerial/snappy/SnappyFramedInputStream.java:588-601 | one to three bytes where a chunk should be are an error, none are the end |
| `FramedBytes.RejectedHeaders` | src/main/java/org/xerial/snappy/SnappyFramedInputStream.java:613-665 | flags 0x02 to 0x7F, identifiers of another length than six and data chunks shorter than five are rejected, each with its error, whatever follows; only the four bytes are consumed |
| `FramedBytes.SkippedChunks` | src/main/java/org/xerial/snappy/SnappyFramedInputStream.java:526-532 | flags 0x80 to 0xFE and identifiers of length six are skipped by the stated length, or up to the end |
| `FramedBytes.DataChunks` | src/main/java/org/xerial/snappy/SnappyFramedInputStream.java:534-585 | flags 0x00 and 0x01: cut short, unparsable, undecodable, wrong checksum, or the data, in that order, in terms of the bytes |
| `FramedBytes.RejectedChunkIsReported` | src/main/java/org/xerial/snappy/SnappyFramedInputStream.java:640-665 | in a whole input: all data in front of a rejected chunk is delivered, and then its error is reported |
| `FramedBytes.WrongBeginning` | src/main/java/org/xerial/snappy/SnappyFramedInputStream.java:225-238 | an input that does not begin with the ten bytes is an error, and nothing is delivered |
| `FrameFormat.FrameSize` | src/main/java/org/xerial/snappy/SnappyFramedOutputStream.java:517-558 | for a ratio of at most one no emitted length field is below 5 or above 65540, and a compressed body is never longer than the data |
| `FrameFormat.FrameRoundTrip` | src/main/java/org/xerial/snappy/SnappyFramedOutputStream.java:500-569 | the frame written for a block decodes to that block, compressed or not, checksum verified or not |
| `FrameFormat.SegmentsRoundTrip` | src/main/java/org/xerial/snappy/SnappyFramedOutputStream.java:480-569 | the canonical frames of any segments decode to the joined segments, followed by whatever follows |
| `FrameFormat.SkippableIsTransparent` | src/main/java/org/xerial/snappy/SnappyFramedInputStream.java:526-532 | a reserved skippable chunk or a repeated stream identifier leaves the meaning of the rest unchanged |
| `FrameFormat.StreamRoundTrip` | src/main/java/org/xerial/snappy/SnappyFramedInputStream.java:206-238 | a closed stream decodes to exactly its data, and streams may be concatenated |
| `FrameFormat.BurstIsRejected` | src/main/java/org/xerial/snappy/SnappyFramedInputStream.java:569-583 | if an uncompressed chunk is accepted, the same chunk with up to four consecutive payload bytes changed is rejected |
| `FrameFormat.DamagedStreamIsRejected` | src/main/java/org/xerial/snappy/SnappyFramedInputStream.java:569-583 | in a whole stream, everything in front of the damaged chunk is delivered and then the checksum error is reported |
| `FrameFormat.ReadingOnIsSafe` | src/main/java/org/xerial/snappy/SnappyFramedInputStream.java:577-583 | a caller who reads on after an exception gets only accepted data if and only if the exception was not about the checksum of a block with data |
| `FrameFormat.DamageIsKept` | src/main/java/org/xerial/snappy/SnappyFramedInputStream.java:577-583 | the failing case: a chunk with a wrong checksum is rejected, and what remains after that begins with its data |
| `ChunkSequences.MixedChunks` | src/main/java/org/xerial/snappy/SnappyFramedInputStream.java:510-663 | compressed, uncompressed, skippable and identifier chunks in any order decode to the joined payloads |
| `ChunkSequences.CutChunks` | src/main/java/org/xerial/snappy/SnappyFramedInputStream.java:526-544 | any such sequence cut anywhere: the chunks before the cut are delivered, and the cut is reported unless it falls where a chunk ends or inside the body of a skipped chunk |
| `ChunkSequences.TruncationIsReported` | src/main/java/org/xerial/snappy/SnappyFramedInputStream.java:225-238 | a stream of this library's writer cut anywhere: no error if and only if the cut is where a frame ends, at or behind the identifier; the whole blocks before it are delivered |
| `FramedWriter.FramedOutputStream.constructor` | src/main/java/org/xerial/snappy/SnappyFramedOutputStream.java:222-254 | the three pooled buffers are large enough for one block, its copy and its compressed form, and the stream identifier follows whatever was on the channel |
| `FramedWriter.FramedOutputStream.WriteBlock` | src/main/java/org/xerial/snappy/SnappyFramedOutputStream.java:542-569 | exactly one chunk is appended: flag, length, checksum, body |
| `FramedWriter.FramedOutputStream.WriteCompressed` | src/main/java/org/xerial/snappy/SnappyFramedOutputStream.java:500-529 | the flipped buffer becomes exactly one frame, compressed if and only if the ratio is reached |
| `FramedWriter.FramedOutputStream.FlushBuffer` | src/main/java/org/xerial/snappy/SnappyFramedOutputStream.java:480-489 | the buffered block is emitted, or nothing if there is none, and the buffer is empty |
| `FramedWriter.FramedOutputStream.WriteByte` | src/main/java/org/xerial/snappy/SnappyFramedOutputStream.java:279-289 | a closed stream refuses; an open one gains this byte and stays canonical |
| `FramedWriter.FramedOutputStream.Write` | src/main/java/org/xerial/snappy/SnappyFramedOutputStream.java:292-318 | out-of-range arguments throw and change nothing; otherwise exactly the range is appended, in canonical form |
| `FramedWriter.FramedOutputStream.WriteBuffer` | src/main/java/org/xerial/snappy/SnappyFramedOutputStream.java:324-360 | consumes exactly the remaining range, in canonical form, if and only if a 32-bit sum does not wrap; when it does wrap, the whole blocks are written, the call throws and the buffer's limit stays at the last block boundary |
| `FramedWriter.FramedOutputStream.LargeBufferWraps` | src/main/java/org/xerial/snappy/SnappyFramedOutputStream.java:343-351 | an example: for 64 KiB blocks, every buffer that ends at the largest int makes the sum wrap |
| `FramedWriter.FramedOutputStream.SmallBufferDoesNotWrap` | src/main/java/org/xerial/snappy/SnappyFramedOutputStream.java:343-351 | a buffer that ends at least a block below the largest int never does |
| `FramedWriter.FramedOutputStream.TransferFrom` | src/main/java/org/xerial/snappy/SnappyFramedOutputStream.java:372-443 | the source is drained, byte for byte, over any schedule of short reads, in canonical form |
| `FramedWriter.FramedOutputStream.Flush` | src/main/java/org/xerial/snappy/SnappyFramedOutputStream.java:446-453 | ends the current segment; a closed stream refuses |
| `FramedWriter.FramedOutputStream.Close` | src/main/java/org/xerial/snappy/SnappyFramedOutputStream.java:456-472 | the emitted bytes are what was on the channel, then the canonical stream of all segments; each of the three buffers goes back once, and a second call changes nothing |
| `FramedRoundTrip.WriteScript` | src/main/java/org/xerial/snappy/SnappyFramedOutputStream.java:279-472 | canonical framing: after close the bytes depend only on the data between flushes, for any mix of the five ways to write; only a buffer that ends within 64 KiB of the largest int can make a call throw |
| `FramedReader.ReadBytes` | src/main/java/org/xerial/snappy/SnappyFramed.java:112-146 | fills the buffer or reaches the end over any short reads; position, limit and result are exact, including -1 and a buffer that is full already |
| `FramedReader.SkipBytes` | src/main/java/org/xerial/snappy/SnappyFramed.java:148-171 | drops exactly the requested number of bytes, or all there are |
| `FramedReader.FramedInputStream.constructor` | src/main/java/org/xerial/snappy/SnappyFramedInputStream.java:206-223 | buffers for a block of 65541 bytes, taken from the pool, within the capacity invariant |
| `FramedReader.FramedInputStream.ReadStreamHeader` | src/main/java/org/xerial/snappy/SnappyFramedInputStream.java:225-238 | a short or a wrong stream identifier is the decoder's error; otherwise what is to come is the decoded input |
| `FramedReader.FramedInputStream.AllocateBuffers` | src/main/java/org/xerial/snappy/SnappyFramedInputStream.java:257-260 | the array is as large as the output buffer and no smaller than the input buffer, because the size classes are monotone |
| `FramedReader.FramedInputStream.Reallocate` | src/main/java/org/xerial/snappy/SnappyFramedInputStream.java:243-261 | each of the three buffers goes back once and the new ones, which may be some of those just given back, are held; the capacity invariant holds again, and the array has the size that belongs to the chunk |
| `FramedReader.FramedInputStream.GrowOutput` | src/main/java/org/xerial/snappy/SnappyFramedInputStream.java:555-560 | the second reallocation path keeps the same invariant, releases what it replaces once, and always brings another array, since that must be larger |
| `FramedReader.FramedInputStream.UncompressFrame` | src/main/java/org/xerial/snappy/SnappyFramedInputStream.java:549-568 | the payload ends up at the start of the array, in bounds, or the kernel's error is reported; buffers change if and only if the declared length does not fit |
| `FramedReader.FramedInputStream.CopyFrame` | src/main/java/org/xerial/snappy/SnappyFramedInputStream.java:569-575 | a raw payload is copied in bounds |
| `FramedReader.FramedInputStream.LoadFrame` | src/main/java/org/xerial/snappy/SnappyFramedInputStream.java:534-585 | one data chunk: cut short, corrupt, or buffered whole; nothing is buffered after a failure other than a rejected checksum; no buffer changes if the chunk fits them, and otherwise the array is the old one handed back by the pool or the old one is left as it was; the size of the array afterwards is exact |
| `FramedReader.FramedInputStream.EnsureBuffer` | src/main/java/org/xerial/snappy/SnappyFramedInputStream.java:510-586 | the block found is the pure decoder's next block, whatever the short reads and skippable chunks; it terminates; after a failure the source and the buffer hold exactly what the format module says, the rejected block included; no buffer changes if the chunk fits, and if it does not, the array is the old one or the old one is left as it was; the size of the array is exact, through both ways to reallocate |
| `FramedReader.FramedInputStream.Read` | src/main/java/org/xerial/snappy/SnappyFramedInputStream.java:264-274 | the next byte of the decoded stream, or -1 at its end; on a chunk that decodes to nothing, a stale byte; after an exception, exactly what remains |
| `FramedReader.FramedInputStream.ReadArray` | src/main/java/org/xerial/snappy/SnappyFramedInputStream.java:277-305 | exactly as much as the next block has, up to the request, goes to the requested place and nowhere else; each exception with its exact condition, and what remains after it |
| `FramedReader.RangeCheck` | src/main/java/org/xerial/snappy/SnappyFramedInputStream.java:285-288 | the check accepts exactly the ranges within the array and those whose end is no int |
| `FramedReader.FramedInputStream.ReadBuffer` | src/main/java/org/xerial/snappy/SnappyFramedInputStream.java:330-353 | exactly as much as the next block has, up to the room, is appended; nothing else changes; what remains after an exception |
| `FramedReader.FramedInputStream.TransferTo` | src/main/java/org/xerial/snappy/SnappyFramedInputStream.java:371-392 | everything still to come is written in one call, up to the end or the error, and what remains after an error |
| `FramedReader.FramedInputStream.TransferToChannel` | src/main/java/org/xerial/snappy/SnappyFramedInputStream.java:411-440 | what is sent, block by block, beside the blocks there were; it throws if and only if it meets a block longer than the array wrapped at the call, and that block is then what comes next; every block is sent as it is if all chunks still to come fit the buffers in place; for a first chunk that does not fit, either the same array came back or the old contents of the wrapped array are sent, the latter for certain if the chunk calls for an array of another size |
| `FramedReader.FramedInputStream.PumpView` | src/main/java/org/xerial/snappy/SnappyFramedInputStream.java:426-437 | one turn of the loop, for any block, skippable chunks in front of it included: what is sent is what the wrapped array shows at the place of the block, so it is the block if and only if the array shows it there, as it does whenever it is still the reader's array |
| `FramedReader.SentIsRight` | src/main/java/org/xerial/snappy/SnappyFramedInputStream.java:422-439 | over a whole call: the data arrives if and only if every block was what the wrapped array showed; the number of bytes is always right |
| `FramedReader.LongChunk` | src/main/java/org/xerial/snappy/SnappyFramedInputStream.java:422-429 | a chunk longer than the wrapped array makes the call throw before anything is sent |
| `FramedReader.LongChunkExample` | src/main/java/org/xerial/snappy/SnappyFramedInputStream.java:422-429 | the same with numbers: 81921 bytes in one chunk, a stream that decodes without error |
| `FramedRoundTrip.SendRawChunk` | src/main/java/org/xerial/snappy/SnappyFramedInputStream.java:411-440 | an intact stream of one raw chunk, every case: sent as it is if it fits the buffers, IllegalArgumentException if it is longer than the array, and otherwise the old contents of the array, with no exception and the right count, unless the pool hands the same array back, which it cannot if the size classes differ |
| `FramedRoundTrip.SendOnNewStream` | src/main/java/org/xerial/snappy/SnappyFramedInputStream.java:411-440 | the failing inputs with numbers: on a new stream 81917 to 81920 bytes in one raw chunk; what is sent is what the array happens to hold |
| `FramedReader.FramedInputStream.Close` | src/main/java/org/xerial/snappy/SnappyFramedInputStream.java:443-469 | the channel is closed on every call; each buffer goes back once, no field names one afterwards, and a second call changes nothing else |
| `FramedReader.FitsAllMonotone` | src/main/java/org/xerial/snappy/SnappyFramedInputStream.java:534-560 | larger buffers never make a reallocation necessary |
| `FramedRoundTrip.Serve` | src/main/java/org/xerial/snappy/SnappyFramedInputStream.java:264-392 | any one reading call, both forms of transferTo included, takes the next bytes of the decoded stream, or its end or error, and hands over exactly those, but for one byte that read() makes of an empty chunk and for the bytes that transferTo(WritableByteChannel) sends of chunks that do not fit |
| `FramedRoundTrip.ReadScript` | src/main/java/org/xerial/snappy/SnappyFramedInputStream.java:264-586 | refinement: any calls, under any short reads, take a prefix of the decoded stream, all of it when the end or the error is reported; the caller gets exactly that if read() is used only without empty chunks and the channel form only where chunks fit, and at most one byte more for each empty chunk otherwise; progress but for empty chunks; after two closes the stream keeps no pooled buffer, and it keeps them if and only if the constructor threw |
| `FramedRoundTrip.ReadOn` | src/main/java/org/xerial/snappy/SnappyFramedInputStream.java:577-583 | reading on after a rejected checksum, on a real stream: the next call delivers the rejected bytes, and then the stream goes on behind them |
| `FramedRoundTrip.SegmentsAreTame` | src/main/java/org/xerial/snappy/SnappyFramedOutputStream.java:517-558 | a stream of this writer has no empty chunk and every chunk fits buffers of 65540 and 65536 bytes |
| `FramedRoundTrip.RoundTrip` | src/main/java/org/xerial/snappy/SnappyFramedInputStream.java:264-604 | whatever calls wrote the data, whatever calls read it, both forms of transferTo included, checksums verified or not: the bytes read are the bytes written, enough calls reach the end, and no buffer is ever reallocated |
| `FramedRoundTrip.ReadAllBytes` | src/main/java/org/xerial/snappy/SnappyFramedInputStream.java:264-274 | byte-by-byte reading yields the decoded stream if and only if it has no empty chunk; each empty chunk adds exactly one byte |
| `FramedRoundTrip.EmptyChunkExample` | src/main/java/org/xerial/snappy/SnappyFramedInputStream.java:549-585 | an intact chunk of no data, accepted by the decoder, on which that happens |
| `BlockFormat.ReadWriteInt` | src/main/java/org/xerial/snappy/SnappyOutputStream.java:343-358 | a big-endian int reads back, negative ones included |
| `BlockFormat.MagicHeadIsNegative` | src/main/java/org/xerial/snappy/SnappyCodec.java:51-58 | the head of the magic, read as an int, is negative |
| `BlockFormat.HeaderParts` | src/main/java/org/xerial/snappy/SnappyCodec.java:69-87 | the header is the magic followed by version and compatible version, sixteen bytes in all |
| `BlockBytes.HeaderBytes` | src/main/java/org/xerial/snappy/SnappyCodec.java:45-87 | every block stream begins with these sixteen bytes, and one without data has no others |
| `BlockBytes.BlockBytes` | src/main/java/org/xerial/snappy/SnappyOutputStream.java:383-400 | a block byte by byte: the compressed size, high byte first, and the compressed data |
| `BlockFormat.CodecRoundTrip` | src/main/java/org/xerial/snappy/SnappyCodec.java:69-87 | reading the fields of a header that was built from them gives them back (reader: lines 135-144), and rebuilding a header that was read gives back its bytes |
| `BlockFormat.FirstVersionIsIgnored` | src/main/java/org/xerial/snappy/SnappyInputStream.java:97-120 | whatever the versions in the first header, the input decodes the same |
| `BlockFormat.LaterHeader` | src/main/java/org/xerial/snappy/SnappyInputStream.java:422-436 | a header between blocks: the stream goes on if and only if its version is not too old; with a wrong magic it ends behind that header |
| `BlockBytes.NegativeSizes` | src/main/java/org/xerial/snappy/SnappyInputStream.java:438-443 | a head from 0x80 on that is not the head of the magic is an error, whatever follows; only four bytes are consumed |
| `BlockBytes.LaterHeads` | src/main/java/org/xerial/snappy/SnappyInputStream.java:420-436 | behind the head of the magic: cut short, a wrong magic, too old a version, or a header to go on behind, in terms of the bytes |
| `BlockBytes.SizedChunks` | src/main/java/org/xerial/snappy/SnappyInputStream.java:444-474 | any other head is a size: too large, cut short, unparsable, undecodable, of another length than stated, or the data, in that order |
| `BlockBytes.Beginnings` | src/main/java/org/xerial/snappy/SnappyInputStream.java:97-168 | nothing at all is an error, the magic and eight more bytes begin a stream, and anything else is raw data, with its errors and zeros up to the stated length |
| `BlockFormat.BlockRoundTrip` | src/main/java/org/xerial/snappy/SnappyInputStream.java:421-474 | a written block decodes to itself if and only if its compressed size is within the reader's limit; no block is mistaken for a header |
| `BlockFormat.HeaderIsTransparent` | src/main/java/org/xerial/snappy/SnappyInputStream.java:422-432 | a header between blocks is skipped |
| `BlockFormat.StreamsRoundTrip` | src/main/java/org/xerial/snappy/SnappyInputStream.java:406-475 | concatenated streams decode to the joined data, followed by whatever follows them, if every block is within the limit, and otherwise to strictly less data and an error |
| `BlockFormat.JoinedStreamsDecode` | src/main/java/org/xerial/snappy/SnappyInputStream.java:97-120 | the same through the constructor's header check, as an equivalence |
| `BlockFormat.CutBlocks` | src/main/java/org/xerial/snappy/SnappyInputStream.java:416-463 | blocks cut anywhere: the whole ones are delivered, and the cut is reported if and only if more than three bytes follow them |
| `BlockFormat.TruncatedStream` | src/main/java/org/xerial/snappy/SnappyInputStream.java:406-475 | the same for a stream of this library's writer, cut anywhere behind its header |
| `BlockBytes.JoinedStreamsCut` | src/main/java/org/xerial/snappy/SnappyInputStream.java:406-475 | joined streams, the last cut anywhere: what is whole is delivered; inside a later header the cut is reported if and only if more than three bytes are left of it, behind it if and only if more than three bytes follow the whole blocks |
| `BlockBytes.NegativeSizeIsReported` | src/main/java/org/xerial/snappy/SnappyInputStream.java:438-443 | in a whole input: a size below zero is reported behind the data of all streams in front of it |
| `BlockFormat.TailIsIgnored` | src/main/java/org/xerial/snappy/SnappyInputStream.java:416-419 | up to three bytes of anything after the last block change nothing |
| `BlockFormat.RawRoundTrip` | src/main/java/org/xerial/snappy/SnappyInputStream.java:114-168 | data compressed in one piece without a header reads back if and only if it is shorter than 1 GiB, unless it begins like a header |
| `BlockWriter.PutIntAt` | src/main/java/org/xerial/snappy/SnappyOutputStream.java:343-349 | four bytes are replaced and no others |
| `BlockWriter.BlockOutputStream.constructor` | src/main/java/org/xerial/snappy/SnappyOutputStream.java:95-110 | the buffers have the sizes of the requested, not the clamped, block size; the block size is at least 1024; nothing is written yet |
| `BlockWriter.BlockOutputStream.WriteHeader` | src/main/java/org/xerial/snappy/SnappyOutputStream.java:391-393 | the header is at the start of the output buffer |
| `BlockWriter.BlockOutputStream.DumpOutput` | src/main/java/org/xerial/snappy/SnappyOutputStream.java:360-367 | the emitted bytes are the same before and after |
| `BlockWriter.BlockOutputStream.CompressInput` | src/main/java/org/xerial/snappy/SnappyOutputStream.java:369-389 | one header on first use, then the block behind its size; in bounds in every reachable state |
| `BlockWriter.BlockOutputStream.EmitBlock` | src/main/java/org/xerial/snappy/SnappyOutputStream.java:383-388 | when compression starts, the worst compressed size is free behind the size slot |
| `BlockWriter.BlockOutputStream.Write` | src/main/java/org/xerial/snappy/SnappyOutputStream.java:116-137 | exactly the range is appended, in canonical form, if and only if the range is within the array and the clamped block does not overrun the unclamped buffer; otherwise the call throws after whole blocks, whose number is exact |
| `BlockWriter.BlockOutputStream.OverrunsExactly` | src/main/java/org/xerial/snappy/SnappyOutputStream.java:98-109 | a write overruns the input buffer if and only if the requested size is below 1024 and the write is longer than the room left |
| `BlockWriter.BlockOutputStream.WriteByte` | src/main/java/org/xerial/snappy/SnappyOutputStream.java:316-326 | exactly this byte is appended, in canonical form; for a requested size of zero the call throws after the cursor has moved, so that a byte from behind the empty array counts as written instead |
| `BlockWriter.BlockOutputStream.Flush` | src/main/java/org/xerial/snappy/SnappyOutputStream.java:332-341 | ends the current segment; everything so far is out |
| `BlockWriter.BlockOutputStream.Close` | src/main/java/org/xerial/snappy/SnappyOutputStream.java:416-433 | the emitted bytes are what was there before and the canonical stream; both buffers go back once and no field names them; a second call changes nothing |
| `BlockRoundTrip.WriteScript` | src/main/java/org/xerial/snappy/SnappyOutputStream.java:116-433 | batching independence: after close the bytes are one header and the canonical blocks of the data between flushes, for any calls; from 1024 on no call throws |
| `BlockRoundTrip.StrayByte` | src/main/java/org/xerial/snappy/SnappyOutputStream.java:316-326 | what follows from the moved cursor: the next flush emits a block of one byte that nobody wrote |
| `BlockReader.ReadUpTo` | src/main/java/org/xerial/snappy/SnappyInputStream.java:391-404 | reads the requested bytes or all there are, over any short reads |
| `BlockReader.BlockInputStream.ReadHeader` | src/main/java/org/xerial/snappy/SnappyInputStream.java:97-120 | after construction what is to come is exactly the decoded input: a stream with a header, or raw data |
| `BlockReader.HasMagicHeaderPrefix` | src/main/java/org/xerial/snappy/SnappyCodec.java:123-133 | the loop decides whether the array begins with the magic, or, if it is shorter, is a prefix of it |
| `BlockReader.BlockInputStream.ReadFully` | src/main/java/org/xerial/snappy/SnappyInputStream.java:140-168 | raw data: what is buffered is what the kernel makes of the whole source, if that is shorter than 1 GiB; an empty fragment reads nothing |
| `BlockReader.BlockInputStream.Slurp` | src/main/java/org/xerial/snappy/SnappyInputStream.java:148-158 | the doubling loop ends, never asks for zero bytes, and holds the whole source, if and only if that is shorter than 1 GiB; otherwise the doubled length is no int |
| `BlockReader.BlockInputStream.HasNextChunk` | src/main/java/org/xerial/snappy/SnappyInputStream.java:406-475 | the pure decoder's next step, through any number of headers; it terminates; after an exception, exactly what a caller who reads on will get |
| `BlockReader.BlockInputStream.LoadChunk` | src/main/java/org/xerial/snappy/SnappyInputStream.java:448-474 | one compressed chunk: cut short, corrupt, or buffered whole |
| `BlockReader.BlockInputStream.Read` | src/main/java/org/xerial/snappy/SnappyInputStream.java:488-502 | the next byte through empty chunks, -1, or the decoder's error, and what remains after an error |
| `BlockReader.BlockInputStream.Available` | src/main/java/org/xerial/snappy/SnappyInputStream.java:508-522 | a look ahead that loses no data; after an exception, what remains |
| `BlockReader.BlockInputStream.ReadArray` | src/main/java/org/xerial/snappy/SnappyInputStream.java:178-199 | fills the request completely unless the stream ends or fails first, and then delivers all there is; what remains after a failure; a range that leaves the array throws if and only if there is data for its part outside, after the copies that fit |
| `BlockFormat.ReadingOnAfterTooLarge` | src/main/java/org/xerial/snappy/SnappyInputStream.java:444-463 | a caller who reads on after a block that is too large: its compressed bytes are taken for chunks |
| `BlockRoundTrip.ReadScript` | src/main/java/org/xerial/snappy/SnappyInputStream.java:178-522 | any reading calls with interleaved available() deliver exactly as many bytes of the decoded data as were asked for, or all of it and then the end or the decoder's error; no look at a stream that ends at a wrong header |
| `BlockRoundTrip.LookLosesEnd` | src/main/java/org/xerial/snappy/SnappyInputStream.java:507-522 | why not: available() in front of a wrong header takes it away, and what follows is read as part of the stream |
| `BlockRoundTrip.RoundTrip` | src/main/java/org/xerial/snappy/SnappyInputStream.java:97-522 | any number of streams written by any calls, concatenated, and read by any calls: exactly the joined data, if every block is within the reader's limit |
| `CachingPool.InvStep` | src/main/java/org/xerial/snappy/pool/CachingBufferPool.java:113-206 | every atomic step of every thread, and the collector clearing any reference at any time, keeps the invariant and forgets no binding |
| `CachingPool.PoolExclusivity` | src/main/java/org/xerial/snappy/pool/CachingBufferPool.java:113-206 | in every reachable state of every interleaving no buffer is held twice, or held and available from a deque, or available twice; every entry under a key is of that size |
| `CachingPool.BindingsAreForever` | src/main/java/org/xerial/snappy/pool/CachingBufferPool.java:179-186 | every thread sees one deque per key, forever, in spite of racing putIfAbsent calls |
| `CachingPool.HandOut` | src/main/java/org/xerial/snappy/pool/CachingBufferPool.java:113-126 | what an allocation hands out was held by nobody and has exactly the size that the thread is looking for |
| `CachingPool.RequestIsServed` | src/main/java/org/xerial/snappy/pool/CachingBufferPool.java:113-126 | whatever happens between a request and its answer, the buffer is of the class of that request, hence at least as large, and was held by nobody |
| `CachingPool.FirstRequest` | src/main/java/org/xerial/snappy/pool/CachingBufferPool.java:113-126 | such runs exist: alone with an empty pool, a thread is handed a new buffer after four steps |
| `CachingPool.LastInFirstOut` | src/main/java/org/xerial/snappy/pool/CachingBufferPool.java:118-193 | reuse, from the release on: a thread that polls right after another has released a buffer is handed that buffer |
| `CachingPool.PurgeSafety` | src/main/java/org/xerial/snappy/pool/CachingBufferPool.java:195-204 | apart from an allocating thread's poll, no step removes an uncleared entry from a deque: the trailing purge removes only cleared ones |
| `PoolRuns.Released` | src/main/java/org/xerial/snappy/pool/CachingBufferPool.java:188-206 | a release left alone, from start to end: the buffer is the first entry of the deque of its size, whose far end is trimmed, and nothing else changes |
| `PoolRuns.ReleasedForGood` | src/main/java/org/xerial/snappy/pool/CachingBufferPool.java:188-192 | a buffer of a size that has no deque is dropped |
| `PoolRuns.Purge` | src/main/java/org/xerial/snappy/pool/CachingBufferPool.java:195-205 | the purge ends with an empty deque or a last entry that is not cleared, and takes only cleared entries from the far end |
| `PoolRuns.Poll` | src/main/java/org/xerial/snappy/pool/CachingBufferPool.java:113-126 | polling left alone: the first entry that is not cleared, with the cleared ones in front of it gone, or a new buffer if there is none |
| `PoolRuns.Requested` | src/main/java/org/xerial/snappy/pool/CachingBufferPool.java:113-126 | a request left alone, from start to end, for a class that has a deque |
| `PoolRuns.RequestedFirst` | src/main/java/org/xerial/snappy/pool/CachingBufferPool.java:179-186 | a request for a class that has none: the pool gets one, and the buffer is new |
| `PoolRuns.SameBufferAgain` | src/main/java/org/xerial/snappy/pool/CachingBufferPool.java:113-206 | a thread that releases a buffer and asks for its class again holds the same buffer, and the pool has created none |
| `PoolRuns.NothingIsLost` | src/main/java/org/xerial/snappy/pool/CachingBufferPool.java:113-206 | conservation over every run, with any number of threads and references cleared at any moment: every buffer the pool created is held, on its way back, in the pool, or has had a reference cleared |
| `PoolRuns.OwnedUntilCollected` | src/main/java/org/xerial/snappy/pool/CachingBufferPool.java:113-206 | the same as an equivalence when only references in the pool are cleared, as soft references promise: each buffer the pool created has exactly one owner, or the collector has taken it, never both |
| `CachingPool.RemoveLastElements` | src/main/java/org/xerial/snappy/pool/CachingBufferPool.java:199-200 | removing the last occurrence removes that entry and keeps all others, each once |
| `CachedAllocators.AllocatorCache.GetAllocator` | src/main/java/org/xerial/snappy/buffer/CachedBufferAllocator.java:46-58 | the cached allocator while its soft reference lives, and otherwise a new, empty one for the requested size, which is then the cached one |
| `CachedAllocators.AllocatorCache.Allocate` | src/main/java/org/xerial/snappy/buffer/CachedBufferAllocator.java:61-71 | the oldest queued buffer, or a new one; it has the requested length and nobody else has it |
| `CachedAllocators.AllocatorCache.Release` | src/main/java/org/xerial/snappy/buffer/CachedBufferAllocator.java:74-79 | the returned buffer is no longer lent and is queued last |
| `CachedAllocators.AllocatorCache.MoveStream` | src/main/java/org/xerial/snappy/buffer/CachedBufferAllocator.java:46-79 | each step of a stream's constructor or close, interleaved with others, takes the cached allocator or a new one, takes the buffer queued first or a new one, or queues the buffer last, and keeps all streams' buffers apart |
| `CachedAllocators.AllocatorCache.CloseStream` | src/main/java/org/xerial/snappy/SnappyOutputStream.java:416-433 | the input buffer is queued at its allocator, once; closing again changes nothing |
| `CachedAllocators.OpenAgain` | src/main/java/org/xerial/snappy/buffer/CachedBufferAllocator.java:46-79 | reuse: a stream opened after another of the same sizes was closed has the same two buffers |
| `CachedAllocators.Run` | src/main/java/org/xerial/snappy/buffer/CachedBufferAllocator.java:46-79 | in every run, with closes repeated and references lost, the streams are exactly those that were started, each as far as its own events took it; a finished constructor has two different buffers of exactly the requested sizes; no two streams share one |
| `CachedAllocators.FollowedFromFirstStart` | src/main/java/org/xerial/snappy/buffer/CachedBufferAllocator.java:46-58 | what a run is compared with: a stream is followed from its first start, with the sizes given there |
| `Native.TagKernelIsLawful` | src/main/java/org/xerial/snappy/Snappy.java:404-407 | the assumed laws of the native kernel are consistent: a concrete kernel obeys them |

## Left out

- FramedReader.FramedInputStream.UncompressFrame: the kernel is assumed to accept no declared length above the largest int; the native code hands such a length over as a negative int, which is not modelled (the same goes for the block reader).
- FramedReader.FramedInputStream.PumpView: an array that was given back keeps its contents here; another client of the pool that gets it and writes to it while the call still sends from it is not modelled.
- BlockRoundTrip.ReadScript: `available()` is in a script only for streams that do not end at a wrong header; what it does at one is `LookLosesEnd`.
- CachedAllocators.AllocatorCache.Allocate: is stated for requests of the allocator's own size, which is how the block streams use it; any other request may be answered with a queued buffer of the wrong length.
- FramedWriter.FramedOutputStream.TransferFrom: one method stands for both forms, which differ only in how they advance the buffer's position.
- FramedWriter.FramedOutputStream.constructor: arguments that the original rejects with an exception are excluded.
- BlockWriter.BlockOutputStream.constructor: negative sizes, whose allocation throws, and sizes above the maximum, which are rejected, are excluded.
- Crc32c.T8FromLiterals: of each literal table the eight power-of-two entries are compared; the other 248 are tied to them by linearity of the generator, not read one by one.
- The native kernel, its JNI glue and its loading: laws only. They include that the bound leaves room for the headers and is at most 16 bytes larger for one byte than for none. Error codes it may raise are two failures, unparsable length and undecodable body.
- The exact double arithmetic of the compression ratio: the quotient is a real number here.
- The streams see the pool as a source of buffers that are new or were given back, the allocators as a source of new ones; that nobody else holds what is handed out is proved on their own models, with buffers, threads and references as numbers.
- The pool's entry checks for sizes of zero or less and for null, and the streams' null checks: preconditions.
- Exceptions raised by the underlying channels, and allocations that fail for want of memory.
- Reading from a closed block input stream, and the closing of the underlying streams by it.
- Overloads for arrays of other element types, `rawRead` and `rawWrite`: the same loops over a native copy.
- `SnappyHadoopCompatibleOutputStream`, which has no reader in the repository.
- The reflective choice of a checksum class: the checksum is the one modelled here.
- `QuiescentBufferPool`, `DefaultPoolFactory`, `DirectByteBuffers`, `SnappyLoader`, `OSInfo`, `Snappy` and `BitShuffle`: trivial, reflective or thin wrappers.
