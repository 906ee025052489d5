/** The block output stream: batching, an output buffer, and a header written on first use. */
module BlockWriter {
  import opened Base
  import opened Native
  import opened Chunking
  import opened BlockFormat
  import opened ByteIo

  const MIN_BLOCK_SIZE := 1024

  /** What a call reports: success, or the exception it throws. */
  datatype Status = Ok | StreamClosed | IndexOutOfBounds

  /** `n` bytes of `s`; nothing, wherever that is, if there are none. */
  function Part(s: Bytes, offset: int, n: int): Bytes
    requires 0 < n ==> 0 <= offset && offset + n <= |s|
  {
    if 0 < n then s[offset..offset + n] else []
  }

  lemma PartOfNothing(s: Bytes, offset: int, n: int)
    requires n <= 0
    ensures Part(s, offset, n) == []
  {}

  lemma ExtendPart(a: Bytes, s: Bytes, offset: int, n: nat, m: nat)
    requires 0 < n ==> 0 <= offset && offset + n <= |s|
    requires 0 < m ==> 0 <= offset + n && offset + n + m <= |s|
    requires 0 < n + m ==> 0 <= offset
    ensures (a + Part(s, offset, n)) + Part(s, offset + n, m) == a + Part(s, offset, n + m)
  {
    if 0 < n && 0 < m {
      ExtendSlice(a, s, offset, offset + n, offset + n + m);
    }
  }

  /** `writeInt`: four bytes, big-endian, in place. */
  method PutIntAt(dst: array<byte>, offset: nat, v: int)
    requires offset + 4 <= dst.Length && -0x8000_0000 <= v <= MAX_INT
    modifies dst
    ensures dst[..] == old(dst[..offset]) + WriteInt(v) + old(dst[offset + 4..])
  {
    hide WriteInt;
    var s := WriteInt(v);
    dst[offset], dst[offset + 1], dst[offset + 2], dst[offset + 3] := s[0], s[1], s[2], s[3];
  }

  class BlockOutputStream {
    const k: Snappy
    const out: Sink
    const blockSize: nat
    const inputAllocator: BufferAllocator
    const outputAllocator: BufferAllocator
    var inputBuffer: array?<byte>
    var outputBuffer: array?<byte>
    var inputCursor: nat
    var outputCursor: nat
    var headerWritten: bool
    var closed: bool

    /** Whatever is in memory behind an input buffer of no bytes: the kernel reads it when the cursor is there. */
    var outside: byte

    /** The requested block size, which sizes the buffers; the field `blockSize` is clamped from below. */
    ghost const requested: nat

    /** What was in the stream below already. */
    ghost const base: Bytes

    /** What has been written: the segments ended by a flush, and the part of the current one already compressed. */
    ghost var segments: seq<Bytes>
    ghost var packed: Bytes

    /** The buffers exist and have the sizes the capacity test relies on. */
    ghost predicate Shape()
      reads this
    {
      && !closed && inputBuffer != null && outputBuffer != null && inputBuffer != outputBuffer
      && requested <= MAX_BLOCK_SIZE && blockSize == Max(MIN_BLOCK_SIZE, requested)
      && inputBuffer.Length == requested
      && outputBuffer.Length == HEADER_SIZE + 4 + k.maxCompressedLength(requested)
      && inputCursor <= Unit() && outputCursor <= outputBuffer.Length
      && (!headerWritten ==> outputCursor == 0)
    }

    /** The size of the blocks; without an input buffer there are none, and any positive size will do. */
    ghost function Unit(): (n: nat)
      ensures 0 < n
    {
      Max(1, requested)
    }

    /** The objects that writing may change. */
    ghost function Footprint(): set<object>
      requires Shape()
      reads this
    {
      {this, out, inputBuffer, outputBuffer}
    }

    /** What the kernel would compress next: the stored bytes, or the byte behind a buffer that has none. */
    ghost function Buffered(): Bytes
      requires Shape()
      reads this, inputBuffer
    {
      if inputCursor <= requested then inputBuffer[..inputCursor] else [outside]
    }

    /** The data written since the last flush. */
    ghost function Current(): Bytes
      requires Shape()
      reads this, inputBuffer
    {
      packed + Buffered()
    }

    /** What has left the input buffer, dumped or not. */
    ghost function Emitted(): Bytes
      requires Shape()
      reads this, out, outputBuffer
    {
      out.bytes + outputBuffer[..outputCursor]
    }

    /** Whatever mix of calls led here, and whenever the output was dumped, the emitted bytes are the header and
        the canonical blocks of all but the buffered bytes. */
    ghost predicate Ready()
      reads this, out, inputBuffer, outputBuffer
      ensures Ready() ==> Shape()
    {
      && Shape()
      && WholeBlocks(Unit(), packed)
      && if headerWritten
         then Emitted() == base + Stream(k, Unit(), segments) + EncodeSegment(Blocker(k), Unit(), packed)
         else Emitted() == base && segments == [] && packed == []
    }

    ghost predicate Valid()
      reads this, out, inputBuffer, outputBuffer
    {
      if closed then out.bytes == base + Stream(k, Unit(), segments) else Ready()
    }

    /** The effect of every successful write. */
    twostate predicate Wrote(new d: Bytes)
      requires old(Ready())
      reads this, out, inputBuffer, outputBuffer
    {
      Ready() && segments == old(segments) && Current() == old(Current()) + d
      && inputBuffer == old(inputBuffer) && outputBuffer == old(outputBuffer)
    }

    constructor (k: Snappy, out: Sink, blockSize: int, inputAllocator: BufferAllocator,
        outputAllocator: BufferAllocator)
      requires 0 <= blockSize <= 0x2000_0000
      modifies inputAllocator, outputAllocator
      ensures Ready() && segments == [] && Current() == [] && requested == blockSize && base == out.bytes
      ensures this.k == k && this.out == out && this.blockSize == Max(1024, blockSize)
      ensures inputBuffer.Length == blockSize && outputBuffer.Length == 20 + k.maxCompressedLength(blockSize)
      ensures this.inputAllocator == inputAllocator && this.outputAllocator == outputAllocator
      ensures fresh(inputBuffer) && fresh(outputBuffer)
      ensures inputBuffer in inputAllocator.held && outputBuffer in outputAllocator.held
    {
      this.k, this.out, this.requested, this.base := k, out, blockSize, out.bytes;
      this.blockSize := Max(MIN_BLOCK_SIZE, blockSize);
      this.inputAllocator, this.outputAllocator := inputAllocator, outputAllocator;
      var inputSize := blockSize;
      var outputSize := HEADER_SIZE + 4 + k.maxCompressedLength(blockSize);
      var i := inputAllocator.Allocate(inputSize);
      var o := outputAllocator.Allocate(outputSize);
      inputBuffer, outputBuffer := i, o;
      inputCursor, outputCursor, headerWritten, closed, outside := 0, 0, false, false, 0;
      segments, packed := [], [];
    }

    // -------------------------------------------------------------- the output buffer

    /** Room for the size slot and the worst compressed size of `inputSize` bytes. */
    predicate HasSufficientOutputBufferFor(inputSize: nat)
      requires outputBuffer != null
      reads this
    {
      k.maxCompressedLength(inputSize) < outputBuffer.Length - outputCursor - 4
    }

    method DumpOutput()
      requires Shape()
      modifies this`outputCursor, out`bytes
      ensures Shape() && outputCursor == 0 && out.bytes == Emitted() == old(Emitted())
    {
      if outputCursor > 0 {
        out.Write(outputBuffer, 0, outputCursor);
        outputCursor := 0;
      }
    }

    /** The first block, or the first flush, starts the output buffer with the header. */
    method WriteHeader()
      requires Shape() && !headerWritten
      modifies this`outputCursor, this`headerWritten, outputBuffer
      ensures Shape() && headerWritten && Emitted() == old(Emitted()) + BlockFormat.HEADER
      ensures Buffered() == old(Buffered())
    {
      hide WriteInt;
      var header := BlockFormat.HEADER;
      forall i | 0 <= i < HEADER_SIZE { outputBuffer[i] := header[i]; }
      outputCursor := HEADER_SIZE;
      headerWritten := true;
      assert outputBuffer[..HEADER_SIZE] == header;
    }

    /** Compresses the buffered block, dumping earlier output first if the room might not suffice. */
    method CompressBlock()
      requires Shape() && headerWritten && 0 < inputCursor
      modifies this`inputCursor, this`outputCursor, out`bytes, outputBuffer
      ensures Shape() && inputCursor == 0
      ensures Emitted() == old(Emitted()) + EncodeBlock(k, old(Buffered()))
    {
      hide EncodeBlock, Lawful;
      BoundOfOne(k);
      if inputCursor <= requested {
        BoundMonotone(k, inputCursor, requested);
      }
      if !HasSufficientOutputBufferFor(inputCursor) {
        DumpOutput();
      }
      EmitBlock();
    }

    /** Output buffer safety: compression starts only with the worst compressed size free after the size slot. */
    method EmitBlock()
      requires Shape() && headerWritten && 0 < inputCursor
      requires outputCursor + 4 + k.maxCompressedLength(inputCursor) <= outputBuffer.Length
      modifies this`inputCursor, this`outputCursor, outputBuffer
      ensures Shape() && inputCursor == 0
      ensures Emitted() == old(Emitted()) + EncodeBlock(k, old(Buffered()))
    {
      hide WriteInt, EncodeBlock, Lawful;
      ghost var block, head := Buffered(), outputBuffer[..outputCursor];
      BlockSizes(k, block);
      var at := outputCursor;
      var size := CompressHeld(at + 4);
      assert outputBuffer[..at] == head by { assert outputBuffer[..at + 4][..at] == outputBuffer[..at]; }
      ghost var tail := outputBuffer[at + 4..];
      PutIntAt(outputBuffer, at, size);
      outputCursor := at + 4 + size;
      inputCursor := 0;
      assert outputBuffer[..at] == head && outputBuffer[at..at + 4] == WriteInt(size);
      assert outputBuffer[at + 4..] == tail && tail[..size] == k.compress(block);
      assert outputBuffer[..outputCursor] == head + EncodeBlock(k, block);
    }

    /** The kernel's work on what the input buffer holds up to the cursor. */
    method CompressHeld(at: nat) returns (size: nat)
      requires Shape() && at + k.maxCompressedLength(inputCursor) <= outputBuffer.Length
      modifies outputBuffer
      ensures size == |k.compress(old(Buffered()))| <= k.maxCompressedLength(inputCursor)
      ensures outputBuffer[..at] == old(outputBuffer[..at])
      ensures outputBuffer[at..at + size] == k.compress(old(Buffered()))
    {
      hide Lawful;
      var input, n := inputBuffer, inputCursor;
      if inputBuffer.Length < inputCursor {
        input, n := new byte[] [outside], 1;
        assert input[..1] == [outside];
      }
      BlockBound(k, Buffered());
      size := ArrayCompress(k, input, n, outputBuffer, at);
    }

    /** `compressInput`. */
    method CompressInput()
      requires Shape()
      modifies this`inputCursor, this`outputCursor, this`headerWritten, out`bytes, outputBuffer
      ensures Shape() && headerWritten && Buffered() == []
      ensures Emitted() == old(Emitted()) + (if old(headerWritten) then [] else BlockFormat.HEADER)
                           + (if old(Buffered()) == [] then [] else EncodeBlock(k, old(Buffered())))
    {
      hide WriteInt, EncodeBlock, Lawful;
      if !headerWritten {
        WriteHeader();
      }
      if inputCursor <= 0 {
        return;
      }
      CompressBlock();
    }

    /** A full input buffer becomes a block of the current segment. */
    method CompressFull()
      requires Ready() && (inputCursor == requested || inputCursor == Unit())
      modifies this`inputCursor, this`outputCursor, this`headerWritten, this`packed, out`bytes, outputBuffer
      ensures Wrote([]) && inputCursor == 0
    {
      hide EncodeBlock, EncodeSegment, EncodeSegments, Lawful, WriteInt, Blocker;
      ghost var before, block, written := Emitted(), Buffered(), headerWritten;
      CompressInput();
      EmittedNow(k, Unit(), base, written, segments, packed, block, before, Emitted());
      packed := packed + block;
      assert packed + Buffered() == packed;
    }

    // -------------------------------------------------------------- the public operations

    /** The next `n` bytes do not fit the input buffer: the block, which is clamped, is longer than that buffer. */
    ghost predicate Overruns(n: int)
      reads this
    {
      requested < inputCursor + Min(n, blockSize - inputCursor)
    }

    /** The clamped field and the unclamped buffer: with a request below 1024 bytes, exactly the writes of more bytes
        than the buffer has room for overrun it; with a larger one, none do. */
    lemma OverrunsExactly(n: int)
      requires Shape() && 0 < n
      ensures Overruns(n) <==> requested < 1024 && requested - inputCursor < n
    {}

    /** `write(byte[], int, int)`: eager, a block is compressed as soon as it is complete.  Nothing is checked
        beforehand: the copy that leaves `b` or the input buffer throws, after `taken` bytes in whole blocks. */
    method Write(b: array<byte>, byteOffset: int, byteLength: int) returns (s: Status, ghost taken: nat)
      requires Valid() && (!closed ==> b !in Footprint())
      modifies if closed then {} else Footprint()
      ensures Valid() && closed == old(closed) && out.closed == old(out.closed)
      ensures s == StreamClosed <==> old(closed)
      ensures s == IndexOutOfBounds <==>
                && !old(closed) && 0 < byteLength
                && (byteOffset < 0 || b.Length < byteOffset + byteLength || old(Overruns(byteLength)))
      ensures s == Ok ==> Wrote(Part(b[..], byteOffset, byteLength))
      ensures s == IndexOutOfBounds ==> Stuck(b, byteOffset, byteLength, taken) && Wrote(Part(b[..], byteOffset, taken))
    {
      if closed {
        return StreamClosed, 0;
      }
      s, taken := WriteOpen(b, byteOffset, byteLength);
    }

    /** After `taken` bytes, which end with a block, the next piece cannot be copied. */
    twostate predicate Stuck(b: array<byte>, byteOffset: int, byteLength: int, taken: nat)
      reads this
    {
      && taken < byteLength && (0 < taken ==> 0 <= byteOffset && byteOffset + taken <= b.Length)
      && (inputCursor == 0 || (taken == 0 && inputCursor == old(inputCursor)))
      && (byteOffset < 0 || b.Length < byteOffset + taken + Min(byteLength - taken, blockSize - inputCursor)
          || Overruns(byteLength - taken))
    }

    /** The loop. */
    method WriteOpen(b: array<byte>, byteOffset: int, byteLength: int) returns (s: Status, ghost taken: nat)
      requires Ready() && b !in Footprint()
      modifies Footprint()
      ensures Ready() && out.closed == old(out.closed) && s != StreamClosed
      ensures s == IndexOutOfBounds <==>
                0 < byteLength && (byteOffset < 0 || b.Length < byteOffset + byteLength || old(Overruns(byteLength)))
      ensures s == Ok ==> Wrote(Part(b[..], byteOffset, byteLength))
      ensures s == IndexOutOfBounds ==> Stuck(b, byteOffset, byteLength, taken) && Wrote(Part(b[..], byteOffset, taken))
    {
      hide Ready, Part;
      var cursor := 0;
      ghost var current, all := Current(), b[..];
      taken := 0;
      PartOfNothing(all, byteOffset, 0);
      while cursor < byteLength
        invariant 0 <= cursor && (cursor == 0 || cursor <= byteLength) && out.closed == old(out.closed) && b[..] == all
        invariant 0 < cursor ==> 0 <= byteOffset && byteOffset + cursor <= b.Length
        invariant inputCursor == 0 || (cursor == 0 && inputCursor == old(inputCursor))
        invariant blockSize == requested || (cursor == 0 && inputCursor == old(inputCursor))
        invariant Wrote(Part(all, byteOffset, cursor))
        decreases byteLength - cursor, inputCursor
      {
        var readLen := Min(byteLength - cursor, blockSize - inputCursor);
        var from := byteOffset + cursor;
        if readLen > 0 && (from < 0 || from + readLen > b.Length || inputCursor + readLen > inputBuffer.Length) {
          return IndexOutOfBounds, cursor;
        }
        var full := Fill(b, from, readLen);
        ExtendPart(current, all, byteOffset, cursor, readLen);
        if !full {
          return Ok, byteLength;
        }
        cursor := cursor + readLen;
      }
      if byteLength <= 0 {
        PartOfNothing(all, byteOffset, byteLength);
      }
      return Ok, cursor;
    }

    /** The loop body: stores `n` bytes and, if that completes the block, compresses it. */
    method Fill(b: array<byte>, offset: int, n: nat) returns (full: bool)
      requires Ready() && b !in Footprint() && (0 < n ==> 0 <= offset && offset + n <= b.Length)
      requires inputCursor + n <= requested && n <= blockSize - inputCursor
      modifies Footprint()
      ensures Wrote(Part(b[..], offset, n)) && out.closed == old(out.closed)
      ensures full == (old(inputCursor) + n == blockSize)
      ensures inputCursor == if full then 0 else old(inputCursor) + n
    {
      hide EncodeBlock, EncodeSegment, Stream, Lawful, WholeBlocks, Blocker;
      ghost var part := Part(b[..], offset, n);
      Append(b, offset, n);
      if inputCursor < blockSize {
        return false;
      }
      CompressFull();
      assert old(Current()) + part + [] == old(Current()) + part;
      return true;
    }

    /** Bytes that fit the input buffer are only stored. */
    method Append(b: array<byte>, offset: int, n: nat)
      requires Ready() && b != inputBuffer && inputCursor + n <= requested
      requires 0 < n ==> 0 <= offset && offset + n <= b.Length
      modifies this`inputCursor, inputBuffer
      ensures Wrote(Part(b[..], offset, n)) && inputCursor == old(inputCursor) + n
    {
      hide EncodeBlock, EncodeSegment, Stream, Lawful, WholeBlocks, Blocker;
      ghost var before := Buffered();
      var c := inputCursor;
      forall i | 0 <= i < n { inputBuffer[c + i] := b[offset + i]; }
      inputCursor := c + n;
      ghost var part := Part(b[..], offset, n);
      assert Buffered() == before + part;
      assert packed + (before + part) == (packed + before) + part;
    }

    /** `write(int)`: lazy, a complete block is compressed when the next byte arrives.  Without an input buffer there is
        no place for the byte: the call throws, but not before the cursor has moved, so that the stream goes on as if
        the byte behind the buffer had been written. */
    method WriteByte(b: byte) returns (s: Status)
      requires Valid()
      modifies if closed then {} else Footprint()
      ensures Valid() && closed == old(closed) && out.closed == old(out.closed)
      ensures s == if old(closed) then StreamClosed else if requested == 0 then IndexOutOfBounds else Ok
      ensures s == Ok ==> Wrote([b])
      ensures s == IndexOutOfBounds ==> Wrote([outside]) && inputCursor == 1
    {
      hide EncodeBlock, EncodeSegment, Stream, Lawful, WholeBlocks, Blocker;
      if closed {
        return StreamClosed;
      }
      if inputCursor >= inputBuffer.Length {
        CompressFull();
      }
      var stored := Store(b);
      assert old(Current()) + [] == old(Current());
      s := if stored then Ok else IndexOutOfBounds;
    }

    /** `inputBuffer[inputCursor++] = b`: the cursor moves before the index is checked. */
    method Store(b: byte) returns (stored: bool)
      requires Ready() && inputCursor < Unit()
      modifies this`inputCursor, this`outside, inputBuffer
      ensures stored == (0 < requested) && inputCursor == old(inputCursor) + 1
      ensures Wrote([if stored then b else outside])
    {
      hide EncodeBlock, EncodeSegment, Stream, Lawful, WholeBlocks, Blocker;
      ghost var before := Buffered();
      inputCursor := inputCursor + 1;
      if inputBuffer.Length < inputCursor {
        outside := *;
        assert Buffered() == before + [outside];
        assert packed + (before + [outside]) == (packed + before) + [outside];
        return false;
      }
      inputBuffer[inputCursor - 1] := b;
      assert Buffered() == before + [b];
      assert packed + (before + [b]) == (packed + before) + [b];
      return true;
    }

    /** `flush`: ends the current segment and dumps everything. */
    method Flush() returns (s: Status)
      requires Valid()
      modifies if closed then {} else Footprint()
      ensures Valid() && closed == old(closed) && out.closed == old(out.closed)
      ensures s == if old(closed) then StreamClosed else Ok
      ensures s == Ok ==>
                && segments == old(segments) + [old(Current())] && Current() == []
                  && out.bytes == base + Stream(k, Unit(), segments)
                && inputBuffer == old(inputBuffer) && outputBuffer == old(outputBuffer)
    {
      if closed {
        return StreamClosed;
      }
      EndSegment();
      s := Ok;
    }

    method EndSegment()
      requires Ready()
      modifies Footprint()
      ensures Ready() && out.closed == old(out.closed)
      ensures segments == old(segments) + [old(Current())] && Current() == []
                && out.bytes == base + Stream(k, Unit(), segments)
      ensures inputBuffer == old(inputBuffer) && outputBuffer == old(outputBuffer)
    {
      hide EncodeBlock, EncodeSegment, Lawful, Blocker, Stream;
      ghost var before, b, current, written := Emitted(), Buffered(), Current(), headerWritten;
      CompressInput();
      DumpOutput();
      EmittedNow(k, Unit(), base, written, segments, packed, b, before, out.bytes);
      StreamSnoc(k, Unit(), base, segments, current);
      NothingEmitted(k, Unit());
      segments, packed := segments + [current], [];
    }

    /** `close`: flushes, closes the stream below, gives both buffers back once and forgets them. */
    method Close()
      requires Valid()
      requires !closed ==> inputBuffer in inputAllocator.held && outputBuffer in outputAllocator.held
      requires !closed ==> inputAllocator != outputAllocator
      modifies if closed then {} else Footprint() + {inputAllocator, outputAllocator}
      ensures Valid() && closed
      ensures old(closed) ==> unchanged(this)
      ensures !old(closed) ==>
                && segments == old(segments + [Current()]) && out.closed
                && inputBuffer == null && outputBuffer == null
                && inputAllocator.held == old(inputAllocator.held - {inputBuffer})
                && outputAllocator.held == old(outputAllocator.held - {outputBuffer})
    {
      hide Stream;
      if closed {
        return;
      }
      var _ := Flush();
      out.Close();
      closed := true;
      inputAllocator.Release(inputBuffer);
      outputAllocator.Release(outputBuffer);
      inputBuffer := null;
      outputBuffer := null;
    }
  }

  lemma BlockBound(k: Snappy, b: Bytes)
    requires |b| <= MAX_BLOCK_SIZE
    ensures |k.compress(b)| <= k.maxCompressedLength(|b|)
  {
    CompressLawHolds(k, b);
  }

  lemma BlockerEmits(k: Snappy, b: Bytes)
    ensures Blocker(k)(b) == EncodeBlock(k, b)
  {}

  /** Before anything is emitted there is nothing but the header to come. */
  lemma NothingEmitted(k: Snappy, blockSize: nat)
    requires 0 < blockSize
    ensures EncodeSegment(Blocker(k), blockSize, []) == []
    ensures EncodeSegments(Blocker(k), blockSize, []) == []
    ensures Stream(k, blockSize, []) == BlockFormat.HEADER
  {}

  /** The bytes after `CompressInput`, in canonical form. */
  lemma EmittedNow(k: Snappy, blockSize: nat, base: Bytes, headerWritten: bool, segments: seq<Bytes>, packed: Bytes,
                   b: Bytes, before: Bytes, after: Bytes)
    requires 0 < blockSize && WholeBlocks(blockSize, packed) && |b| <= blockSize
    requires if headerWritten
             then before == base + Stream(k, blockSize, segments) + EncodeSegment(Blocker(k), blockSize, packed)
             else before == base && segments == [] && packed == []
    requires after == before + (if headerWritten then [] else BlockFormat.HEADER)
                      + (if b == [] then [] else EncodeBlock(k, b))
    ensures after == base + Stream(k, blockSize, segments) + EncodeSegment(Blocker(k), blockSize, packed + b)
    ensures |b| == blockSize || b == [] ==> WholeBlocks(blockSize, packed + b)
  {
    hide EncodeBlock, EncodeSegment, Lawful, Blocker, Stream, WriteInt;
    BlockerEmits(k, b);
    EncodeSegmentSnoc(Blocker(k), blockSize, packed, b);
    NothingEmitted(k, blockSize);
    assert b == [] ==> packed + b == packed;
  }

  lemma StreamSnoc(k: Snappy, blockSize: nat, base: Bytes, segments: seq<Bytes>, last: Bytes)
    requires 0 < blockSize
    ensures base + Stream(k, blockSize, segments + [last])
         == base + Stream(k, blockSize, segments) + EncodeSegment(Blocker(k), blockSize, last)
  {
    hide EncodeSegment, Blocker, HeaderOf;
    var all := segments + [last];
    assert all[..|all| - 1] == segments;
  }
}
