/** The framed output stream: five ways to write, one canonical result. */
module FramedWriter {
  import opened Base
  import opened Native
  import opened Crc32c
  import opened Chunking
  import opened FrameFormat
  import opened SizeClasses
  import opened ByteIo

  /** What a call reports: success, or the exception it throws. */
  datatype Status = Ok | StreamClosed | OutOfBounds | IllegalArgument

  /** Where the last whole block ends, when blocks of `size` bytes are taken from `p..end` after a first of `room`. */
  function LastBoundary(p: nat, room: nat, size: nat, end: nat): int
    requires 0 < size
  {
    end - (end - p - room) % size
  }

  lemma BoundaryStep(p: nat, room: nat, size: nat, end: nat)
    requires 0 < size && p + room <= end
    ensures LastBoundary(p + room, size, size, end) == LastBoundary(p, room, size, end)
  {
    RemainderIsUnique(end - p - room - size, size, (end - p - room) / size - 1, (end - p - room) % size);
  }

  lemma BoundaryReached(p: nat, size: nat, end: nat)
    requires p <= end < p + size
    ensures LastBoundary(p, size, size, end) == p
  {
    RemainderIsUnique(end - p - size, size, -1, end - p);
  }

  lemma BoundaryWithin(p: nat, room: nat, size: nat, end: nat)
    requires 0 < size
    ensures LastBoundary(p, room, size, end) <= end
  {}

  lemma StreamSnoc(k: Snappy, ratio: real, blockSize: nat, base: Bytes, segments: seq<Bytes>, last: Bytes)
    requires 0 < blockSize
    ensures base + Stream(k, ratio, blockSize, segments + [last])
         == base + Stream(k, ratio, blockSize, segments) + EncodeSegment(Framer(k, ratio), blockSize, last)
  {
    hide EncodeSegment, Framer;
    var all := segments + [last];
    assert all[..|all| - 1] == segments;
  }

  class FramedOutputStream {
    const k: Snappy
    const ratio: real
    const blockSize: nat
    const out: Sink
    const pool: BufferPool
    const buffer: ByteBuffer
    const directInput: ByteBuffer
    const output: ByteBuffer
    const crc32: PureJavaCrc32C
    var closed: bool

    /** What was on the channel already. */
    ghost const base: Bytes

    /** What has been written: the segments ended by a flush, and the part of the current one already framed. */
    ghost var segments: seq<Bytes>
    ghost var framed: Bytes

    /** The objects that writing may change. */
    ghost function Footprint(): set<object> {
      {this, out, buffer, buffer.data, directInput, directInput.data, output, output.data, crc32}
    }

    /** Buffer geometry: enough room for one block, its copy and its compressed form. */
    ghost predicate Shape()
      reads this, buffer
    {
      && 0.0 < ratio <= 1.0 && 1 <= blockSize <= MAX_BLOCK_SIZE
      && buffer != directInput && buffer != output && directInput != output
      && buffer.data != directInput.data && buffer.data != output.data && directInput.data != output.data
      && blockSize <= buffer.data.Length && blockSize <= directInput.data.Length
      && k.maxCompressedLength(blockSize) <= output.data.Length
      && buffer.position <= buffer.limit == blockSize
    }

    ghost function Buffered(): Bytes
      requires Shape()
      reads this, buffer, buffer.data
    {
      buffer.data[..buffer.position]
    }

    /** The data written since the last flush. */
    ghost function Current(): Bytes
      requires Shape()
      reads this, buffer, buffer.data
    {
      framed + Buffered()
    }

    /** Whatever mix of calls led here, the output is the canonical framing of all but the buffered bytes. */
    ghost predicate Ready()
      reads this, buffer, buffer.data, out
    {
      && !closed && Shape()
      && WholeBlocks(blockSize, framed)
      && out.bytes
         == base + Stream(k, ratio, blockSize, segments) + EncodeSegment(Framer(k, ratio), blockSize, framed)
    }

    /** A closed stream has emitted exactly the canonical stream of its segments. */
    ghost predicate Valid()
      reads this, buffer, buffer.data, out
    {
      0 < blockSize && if closed then out.bytes == base + Stream(k, ratio, blockSize, segments) else Ready()
    }

    /** The effect of every write: a closed stream refuses, an open one gains `d`. */
    twostate predicate Wrote(s: Status, d: Bytes)
      requires old(Valid())
      reads this, buffer, buffer.data, out
    {
      && segments == old(segments) && closed == old(closed)
      && if old(closed) then s == StreamClosed && out.bytes == old(out.bytes)
         else s == Ok && Ready() && Current() == old(Current()) + d
    }

    /** What `write(ByteBuffer)` can take before it completes a block. */
    ghost function Room(): nat
      requires Shape()
      reads this, buffer
    {
      if buffer.position == blockSize then blockSize else blockSize - buffer.position
    }

    /** The sum that `write(ByteBuffer)` compares with the end of `src` exceeds an int after the last whole block. */
    ghost predicate Wraps(src: ByteBuffer)
      requires Shape() && src.Valid()
      reads this, buffer, src
    {
      && Room() < src.limit - src.position
      && MAX_INT < LastBoundary(src.position, Room(), blockSize, src.limit) + blockSize
    }

    /** An example: the last whole block of a buffer that ends at the largest int. */
    lemma LargeBufferWraps(src: ByteBuffer)
      requires Shape() && blockSize == MAX_BLOCK_SIZE && buffer.position == 0
      requires src.Valid() && src.position == 0 && src.limit == MAX_INT
      ensures Wraps(src)
    {}

    /** Buffers that end at least a block below the largest int are safe. */
    lemma SmallBufferDoesNotWrap(src: ByteBuffer)
      requires Shape() && src.Valid() && src.limit <= MAX_INT - blockSize
      ensures !Wraps(src)
    {
      hide LastBoundary;
      BoundaryWithin(src.position, Room(), blockSize, src.limit);
    }

    constructor (k: Snappy, out: Sink, blockSize: nat, ratio: real, pool: BufferPool)
      requires 0.0 < ratio <= 1.0 && 1 <= blockSize <= MAX_BLOCK_SIZE && pool.Valid()
      modifies out, pool
      ensures Ready() && segments == [] && Current() == [] && base == old(out.bytes)
      ensures this.k == k && this.ratio == ratio && this.blockSize == blockSize && this.out == out && this.pool == pool
      ensures fresh(Footprint() - {out} - old(pool.Idle())) && out.closed == old(out.closed)
      ensures Holds() && pool.held == old(pool.held) + {buffer.data, directInput, output}
    {
      hide Lawful, BufferPool.Valid;
      this.k, this.ratio, this.blockSize, this.out, this.pool := k, ratio, blockSize, out, pool;
      var b, d, o := AllocateBuffers(k, blockSize, pool);
      buffer, directInput, output := b, d, o;
      var c := new PureJavaCrc32C();
      crc32 := c;
      closed := false;
      base := out.bytes;
      segments, framed := [], [];
      new;
      WriteHeader(out);
      assert HEADER + [] == HEADER && base + HEADER + [] == base + HEADER;
    }

    /** The three pooled buffers are this stream's to give back. */
    ghost predicate Holds()
      reads pool
    {
      pool.Valid() && pool.HoldsArray(buffer.data) && pool.HoldsDirect(directInput) && pool.HoldsDirect(output)
      && directInput != output
    }

    static method AllocateBuffers(k: Snappy, blockSize: nat, pool: BufferPool)
      returns (b: ByteBuffer, d: ByteBuffer, o: ByteBuffer)
      requires 1 <= blockSize <= MAX_BLOCK_SIZE && pool.Valid()
      modifies pool
      ensures pool.Valid() && pool.HoldsArray(b.data) && pool.HoldsDirect(d) && pool.HoldsDirect(o)
      ensures fresh(b) && fresh({b.data, d, d.data, o, o.data} - old(pool.Idle()))
      ensures b != d && b != o && d != o && b.data != d.data && b.data != o.data && d.data != o.data
      ensures b.position == 0 && b.limit == blockSize <= b.data.Length && blockSize <= d.data.Length
      ensures k.maxCompressedLength(blockSize) <= o.data.Length
      ensures pool.held == old(pool.held) + {b.data, d, o}
    {
      hide AdjustSize, BufferPool.Valid;
      AdjustSizeBounds(blockSize);
      var bytes := pool.AllocateArray(blockSize);
      b := new ByteBuffer(bytes, blockSize);
      d := pool.AllocateDirect(blockSize);
      assert BoundLaw(k);
      AdjustSizeBounds(k.maxCompressedLength(blockSize));
      o := pool.AllocateDirect(k.maxCompressedLength(blockSize));
    }

    static method WriteHeader(out: Sink)
      modifies out`bytes
      ensures out.bytes == old(out.bytes) + HEADER
    {
      var header := new byte[|HEADER|](i requires 0 <= i < |HEADER| => HEADER[i]);
      assert header[0..header.Length] == HEADER;
      out.Write(header, 0, header.Length);
    }

    // -------------------------------------------------------------- emitting frames

    /** `writeBlock`: header, checksum and body of one chunk. */
    method WriteBlock(data: ByteBuffer, compressed: bool, crc: bv32)
      requires data.Valid() && data.limit - data.position + 4 < 0x100_0000
      modifies out`bytes
      ensures out.bytes == old(out.bytes) +
              Chunk(if compressed then COMPRESSED_DATA_FLAG else UNCOMPRESSED_DATA_FLAG, crc, data.Remaining())
    {
      hide PutLength, PutInt;
      var flag := if compressed then COMPRESSED_DATA_FLAG else UNCOMPRESSED_DATA_FLAG;
      var headerLength := data.limit - data.position + 4;
      var head := [flag] + PutLength(headerLength) + PutInt(crc);
      var headerBuffer := new byte[8](i requires 0 <= i < 8 => head[i]);
      assert headerBuffer[0..8] == head;
      out.Write(headerBuffer, 0, 8);
      out.Write(data.data, data.position, headerLength - 4);
      assert out.bytes == old(out.bytes) + (head + data.Remaining());
    }

    /** `writeCompressed`: the flipped buffer becomes one frame. */
    method WriteCompressed()
      requires Shape() && 0 < buffer.position
      modifies buffer, directInput, directInput.data, output, output.data, crc32, out`bytes
      ensures out.bytes == old(out.bytes) + Frame(k, ratio, old(Buffered()))
    {
      hide MaskedCrc, Chunk, Lawful;
      ghost var block := Buffered();
      buffer.Flip();
      var length := buffer.limit;
      assert buffer.data[0..length] == block;
      var crc := MaskedCrc32c(crc32, buffer.data, 0, length);
      directInput.Clear();
      directInput.PutBuffer(buffer);
      directInput.Flip();
      assert directInput.Remaining() == block;
      output.Clear();
      BoundMonotone(k, length, blockSize);
      DirectCompress(k, directInput, output);
      var compressedLength := output.limit - output.position;
      assert output.Remaining() == k.compress(block) && compressedLength == |k.compress(block)|;
      FrameSize(k, ratio, block);
      if WorthCompressing(compressedLength, length, ratio) {
        WriteBlock(output, true, crc);
      } else {
        buffer.Flip();
        assert buffer.Remaining() == block;
        WriteBlock(buffer, false, crc);
      }
    }

    /** `flushBuffer`: emits whatever is buffered and leaves the buffer empty. */
    method FlushBuffer()
      requires Shape()
      modifies Footprint() - {this, buffer.data}
      ensures Shape() && Buffered() == []
      ensures out.bytes == old(out.bytes) + FrameOrNothing(k, ratio, old(Buffered()))
      ensures out.closed == old(out.closed)
    {
      hide Frame;
      if buffer.position > 0 {
        WriteCompressed();
        buffer.Clear();
        buffer.limit := blockSize;
      } else {
        assert out.bytes == old(out.bytes) + [];
      }
    }

    /** A full buffer is emitted before anything is appended to it. */
    method FlushFull()
      requires Ready() && buffer.position == blockSize
      modifies Footprint() - {buffer.data}
      ensures Ready() && segments == old(segments) && out.closed == old(out.closed)
      ensures Buffered() == [] && Current() == old(Current())
    {
      hide FrameOrNothing, EncodeSegment, Stream, Framer, Lawful;
      ghost var block := Buffered();
      FramerEmits(k, ratio, block);
      EncodeSegmentSnoc(Framer(k, ratio), blockSize, framed, block);
      FlushBuffer();
      framed := framed + block;
      assert framed + Buffered() == framed;
    }

    // -------------------------------------------------------------- the public operations

    /** `write(int)`: flushes lazily, only when the buffer is found full. */
    method WriteByte(b: byte) returns (s: Status)
      requires Valid()
      modifies Footprint()
      ensures Valid() && Wrote(s, [b])
      ensures out.closed == old(out.closed)
    {
      hide EncodeSegment, Stream, WholeBlocks, Lawful, Framer;
      if closed {
        return StreamClosed;
      }
      if buffer.limit - buffer.position <= 0 {
        FlushFull();
      }
      ghost var before := Buffered();
      buffer.data[buffer.position] := b;
      buffer.position := buffer.position + 1;
      assert Buffered() == before + [b];
      assert framed + (before + [b]) == (framed + before) + [b];
      s := Ok;
    }

    /** `write(byte[], int, int)`: fills the buffer, flushing whenever it is found full. */
    method Write(input: array<byte>, offset: int, length: int) returns (s: Status)
      requires Valid() && input !in Footprint()
      modifies Footprint()
      ensures Valid() && out.closed == old(out.closed)
      ensures s == OutOfBounds <==> !old(closed) && !(0 <= offset && 0 <= length && offset + length <= input.Length)
      ensures s == OutOfBounds ==> unchanged(this, out, buffer, buffer.data)
      ensures s != OutOfBounds ==>
                Wrote(s, if old(closed) then [] else input[offset..offset + length])
    {
      hide EncodeSegment, Stream, WholeBlocks, Lawful, Framer;
      if closed {
        return StreamClosed;
      }
      if offset < 0 || length < 0 || offset + length > input.Length {
        return OutOfBounds;
      }
      var o, n := offset, length;
      ghost var all := input[..];
      while n > 0
        invariant 0 <= n && offset <= o && o + n == offset + length
        invariant Ready() && segments == old(segments) && out.closed == old(out.closed)
        invariant Current() == old(Current()) + all[offset..o] && input[..] == all
      {
        if buffer.limit - buffer.position <= 0 {
          FlushFull();
        }
        var toPut := Min(n, buffer.limit - buffer.position);
        Append(input, o, toPut);
        assert input[o..o + toPut] == all[o..o + toPut];
        ExtendSlice(old(Current()), all, offset, o, o + toPut);
        o, n := o + toPut, n - toPut;
      }
      assert input[offset..o] == all[offset..o];
      s := Ok;
    }

    /** Room permitting, bytes go to the buffer unframed. */
    method Append(input: array<byte>, o: nat, n: nat)
      requires Ready() && input != buffer.data && o + n <= input.Length && buffer.position + n <= blockSize
      modifies buffer`position, buffer.data
      ensures Ready() && buffer.position == old(buffer.position) + n
      ensures Current() == old(Current()) + input[o..o + n]
    {
      hide EncodeSegment, Stream, WholeBlocks, Lawful, Framer;
      ghost var before := Buffered();
      buffer.Put(input, o, n);
      assert Buffered() == before + input[o..o + n];
      assert framed + (before + input[o..o + n]) == (framed + before) + input[o..o + n];
    }

    /** `write(ByteBuffer)`: eager about full blocks, and consumes exactly what remained in `src`, unless the end of
        `src` is so close to the largest int that a sum wraps around; then it throws behind the last whole block. */
    method WriteBuffer(src: ByteBuffer) returns (s: Status, written: nat)
      requires Valid() && src.Valid() && src !in Footprint() && src.data !in Footprint() && src.data.Length <= MAX_INT
      modifies Footprint(), src
      ensures Valid() && out.closed == old(out.closed)
      ensures s == IllegalArgument <==> !old(closed) && old(Wraps(src))
      ensures s == IllegalArgument ==>
                && src.position == src.limit == old(LastBoundary(src.position, Room(), blockSize, src.limit))
                && old(src.position) <= src.position
                && Wrote(Ok, src.data[old(src.position)..src.position])
      ensures s != IllegalArgument ==>
                && Wrote(s, old(src.Remaining())) && src.limit == old(src.limit)
                && src.position == (if s == Ok then src.limit else old(src.position))
      ensures s == Ok ==> written == |old(src.Remaining())|
    {
      hide EncodeSegment, Stream, WholeBlocks, Lawful, Framer;
      if closed {
        return StreamClosed, 0;
      }
      if buffer.limit - buffer.position <= 0 {
        FlushFull();
      }
      var srcLength := src.limit - src.position;
      if buffer.limit - buffer.position >= srcLength {
        AppendBuffer(src);
        s := Ok;
      } else {
        s := WriteLarge(src);
      }
      written := srcLength;
    }

    /** More than the buffer can take: whole blocks first, then the remainder. */
    method WriteLarge(src: ByteBuffer) returns (s: Status)
      requires Ready() && src.Valid() && src !in Footprint() && src.data !in Footprint() && src.data.Length <= MAX_INT
      requires 0 < blockSize - buffer.position < src.limit - src.position
      modifies Footprint(), src
      ensures Ready() && segments == old(segments) && out.closed == old(out.closed)
      ensures
        var last := old(LastBoundary(src.position, blockSize - buffer.position, blockSize, src.limit));
        && s == (if MAX_INT < last + blockSize then IllegalArgument else Ok)
        && src.position == src.limit == (if s == Ok then old(src.limit) else last)
        && old(src.position) <= src.position
      ensures Current() == old(Current()) + src.data[old(src.position)..src.position]
      ensures src.data[..] == old(src.data[..])
    {
      hide EncodeSegment, Stream, WholeBlocks, Lawful, Framer, LastBoundary;
      ghost var start, all := src.position, src.data[..];
      var srcEnd := src.position + (src.limit - src.position);
      ghost var last := LastBoundary(start, blockSize - buffer.position, blockSize, srcEnd);
      while AddInts(src.position, buffer.limit - buffer.position) <= srcEnd
        invariant start <= src.position <= srcEnd == old(src.limit)
        invariant Ready() && segments == old(segments) && out.closed == old(out.closed)
        invariant buffer.position < blockSize && src.data[..] == all
        invariant if src.position == start then src.position + (blockSize - buffer.position) <= srcEnd
                  else buffer.position == 0 && src.limit == src.position
        invariant LastBoundary(src.position, blockSize - buffer.position, blockSize, srcEnd) == last
        invariant Current() == old(Current()) + all[start..src.position]
        decreases srcEnd - src.position
      {
        ghost var p := src.position;
        if AddInts(src.position, buffer.limit - buffer.position) < 0 {
          BoundaryReached(p, blockSize, srcEnd);
          assert src.data[start..p] == all[start..p];
          return IllegalArgument;
        }
        BoundaryStep(p, blockSize - buffer.position, blockSize, srcEnd);
        FillBlock(src, srcEnd);
        assert src.data[p..src.position] == all[p..src.position];
        ExtendSlice(old(Current()), all, start, p, src.position);
      }
      ghost var p := src.position;
      BoundaryReached(p, blockSize, srcEnd);
      AppendRest(src, srcEnd);
      assert src.data[p..srcEnd] == all[p..srcEnd];
      ExtendSlice(old(Current()), all, start, p, srcEnd);
      assert src.data[start..srcEnd] == all[start..srcEnd];
      s := Ok;
    }

    /** What is left after the last whole block. */
    method AppendRest(src: ByteBuffer, srcEnd: nat)
      requires Ready() && src !in Footprint() && src.data !in Footprint()
      requires src.position <= srcEnd <= src.data.Length && srcEnd - src.position <= blockSize - buffer.position
      modifies buffer`position, buffer.data, src
      ensures Ready() && src.position == src.limit == srcEnd && src.data[..] == old(src.data[..])
      ensures Current() == old(Current()) + src.data[old(src.position)..srcEnd]
    {
      hide EncodeSegment, Stream, WholeBlocks, Lawful, Framer;
      src.limit := srcEnd;
      AppendBuffer(src);
    }

    /** The loop body: completes the block from `src` and emits it. */
    method FillBlock(src: ByteBuffer, srcEnd: nat)
      requires Ready() && src !in Footprint() && src.data !in Footprint()
      requires src.position + (blockSize - buffer.position) <= srcEnd <= src.data.Length
      modifies Footprint(), src
      ensures Ready() && segments == old(segments) && out.closed == old(out.closed)
      ensures src.position == src.limit == old(src.position) + (blockSize - old(buffer.position))
      ensures buffer.position == 0
      ensures Current() == old(Current()) + src.data[old(src.position)..src.position]
      ensures src.data[..] == old(src.data[..])
    {
      hide EncodeSegment, Stream, WholeBlocks, Lawful, Framer;
      src.limit := src.position + (buffer.limit - buffer.position);
      AppendBuffer(src);
      FlushFull();
    }

    method AppendBuffer(src: ByteBuffer)
      requires Ready() && src.Valid() && src !in Footprint() && src.data !in Footprint()
      requires src.limit - src.position <= blockSize - buffer.position
      modifies buffer`position, buffer.data, src`position
      ensures Ready() && buffer.position == old(buffer.position) + (src.limit - old(src.position))
      ensures src.position == src.limit
      ensures Current() == old(Current()) + old(src.Remaining())
    {
      Append(src.data, src.position, src.limit - src.position);
      src.position := src.limit;
    }

    /** `transferFrom`, in both its forms: drains the source, flushing eagerly so that a read never asks for
        zero bytes. */
    method TransferFrom(source: Source) returns (s: Status, total: nat)
      requires Valid() && source !in Footprint()
      modifies Footprint(), source
      ensures Valid() && out.closed == old(out.closed)
      ensures Wrote(s, old(source.rest))
      ensures s == Ok ==> source.rest == [] && total == |old(source.rest)|
      ensures s != Ok ==> source.rest == old(source.rest)
    {
      hide EncodeSegment, Stream, WholeBlocks, Lawful, Framer;
      if closed {
        return StreamClosed, 0;
      }
      if buffer.limit - buffer.position == 0 {
        FlushFull();
      }
      total := 0;
      var read := 0;
      ghost var all, current := source.rest, Current();
      while read != -1
        invariant Ready() && segments == old(segments) && out.closed == old(out.closed)
        invariant buffer.position < blockSize
        invariant total <= |all| && source.rest == all[total..]
        invariant Current() == current + all[0..total]
        invariant read == -1 ==> source.rest == []
        decreases |source.rest|, read != -1
      {
        read := ReadInto(source);
        if read != -1 {
          assert all[total..][..read] == all[total..total + read];
          ExtendSlice(current, all, 0, total, total + read);
          total := total + read;
        }
      }
      assert all[0..total] == all;
      s := Ok;
    }

    /** The loop body: one read straight into the free part of the buffer, and a flush if that filled it. */
    method ReadInto(source: Source) returns (read: int)
      requires Ready() && source !in Footprint() && buffer.position < blockSize
      modifies Footprint(), source
      ensures Ready() && segments == old(segments) && out.closed == old(out.closed) && buffer.position < blockSize
      ensures read == -1 ==> source.rest == old(source.rest) == [] && Current() == old(Current())
      ensures read != -1 ==> 1 <= read <= |old(source.rest)| && source.rest == old(source.rest)[read..]
                             && Current() == old(Current()) + old(source.rest)[..read]
    {
      hide EncodeSegment, Stream, WholeBlocks, Lawful, Framer;
      ghost var before := Buffered();
      read := source.Read(buffer.data, buffer.position, buffer.limit - buffer.position);
      if read != -1 {
        buffer.position := buffer.position + read;
        assert Buffered() == before + old(source.rest)[..read];
        assert framed + (before + old(source.rest)[..read]) == (framed + before) + old(source.rest)[..read];
        if buffer.limit - buffer.position == 0 {
          FlushFull();
        }
      } else {
        assert Buffered() == before;
      }
    }

    /** `flush`: ends the current segment. */
    method Flush() returns (s: Status)
      requires Valid()
      modifies Footprint()
      ensures Valid() && closed == old(closed) && out.closed == old(out.closed)
      ensures old(closed) ==> s == StreamClosed && segments == old(segments) && out.bytes == old(out.bytes)
      ensures !old(closed) ==> s == Ok && segments == old(segments) + [old(Current())] && Current() == []
    {
      hide FrameOrNothing, EncodeSegment, Flatten, Framer, Lawful, Stream;
      if closed {
        return StreamClosed;
      }
      FramerEmits(k, ratio, Buffered());
      EncodeSegmentSnoc(Framer(k, ratio), blockSize, framed, Buffered());
      ghost var current := Current();
      StreamSnoc(k, ratio, blockSize, base, segments, current);
      FlushBuffer();
      segments, framed := segments + [current], [];
      assert EncodeSegment(Framer(k, ratio), blockSize, []) == [] by { EncodeNothing(Framer(k, ratio), blockSize); }
      s := Ok;
    }

    /** `close`: flushes, closes the channel and gives the three buffers back, once. */
    method Close()
      requires Valid()
      requires !closed ==> Holds()
      modifies Footprint(), pool
      ensures Valid() && closed
      ensures old(closed) ==> segments == old(segments) && pool.held == old(pool.held) && out.bytes == old(out.bytes)
      ensures !old(closed) ==> segments == old(segments) + [old(Current())] && out.closed
                               && pool.held == old(pool.held) - {buffer.data, directInput, output}
    {
      hide EncodeSegments, EncodeSegment, BufferPool.Valid;
      if closed {
        return;
      }
      var _ := Flush();
      assert EncodeSegment(Framer(k, ratio), blockSize, []) == [] by { EncodeNothing(Framer(k, ratio), blockSize); }
      assert framed == [];
      out.Close();
      closed := true;
      pool.ReleaseArray(buffer.data);
      pool.ReleaseDirect(directInput);
      pool.ReleaseDirect(output);
    }
  }
}
