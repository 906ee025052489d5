/** The framed input stream: a state machine over short reads, skippable chunks, reallocation and checksums. */
module FramedReader {
  import opened Base
  import opened Native
  import opened Crc32c
  import opened FrameFormat
  import opened SizeClasses
  import opened ByteIo

  // ---------------------------------------------------------------- reading from a channel

  /** One channel read into what remains of `dest`. */
  method ReadChannel(source: Source, dest: ByteBuffer) returns (n: int)
    requires dest.Valid()
    modifies source, dest`position, dest.data
    ensures dest.Valid()
    ensures n == -1 <==> old(dest.position) < dest.limit && old(source.rest) == []
    ensures n == -1 ==> source.rest == [] && dest.position == old(dest.position)
    ensures n != -1 ==> 0 <= n <= |old(source.rest)| && source.rest == old(source.rest)[n..]
                        && dest.position == old(dest.position) + n
                        && (old(dest.position) < dest.limit ==> 0 < n)
    ensures dest.data[..old(dest.position)] == old(dest.data[..dest.position])
    ensures n != -1 ==> dest.data[old(dest.position)..dest.position] == old(source.rest)[..n]
  {
    n := source.Read(dest.data, dest.position, dest.limit - dest.position);
    if n != -1 {
      dest.position := dest.position + n;
    }
  }

  /** Since `start`, `data` has been filled up to `q` from `all`, of which `rest` is left. */
  ghost predicate Filled(data: Bytes, start: nat, q: nat, all: Bytes, rest: Bytes)
    ensures Filled(data, start, q, all, rest) ==> start <= q && |rest| == |all| - (q - start)
  {
    start <= q <= |data| && q - start <= |all| && data[start..q] == all[..q - start] && rest == all[q - start..]
  }

  lemma FilledFurther(before: Bytes, after: Bytes, start: nat, p: nat, q: nat, all: Bytes, rest: Bytes)
    requires Filled(before, start, p, all, rest)
    requires p <= q <= |before| == |after| && q - p <= |rest|
    requires after[..p] == before[..p] && after[p..q] == rest[..q - p]
    ensures Filled(after, start, q, all, rest[q - p..])
  {
    assert after[start..p] == after[..p][start..] == before[..p][start..] == before[start..p];
    assert after[start..q] == after[start..p] + after[p..q];
    assert all[..q - start] == all[..p - start] + all[p - start..][..q - p];
  }

  /** One more read from the channel. */
  method ReadMore(source: Source, dest: ByteBuffer, ghost start: nat, ghost all: Bytes) returns (n: int)
    requires dest.Valid() && Filled(dest.data[..], start, dest.position, all, source.rest)
    modifies source, dest`position, dest.data
    ensures dest.Valid() && Filled(dest.data[..], start, dest.position, all, source.rest)
    ensures n == -1 <==> old(dest.position) < dest.limit && old(source.rest) == []
    ensures n == -1 ==> source.rest == [] && dest.position == old(dest.position)
    ensures n != -1 ==> 0 <= n && dest.position == old(dest.position) + n && (old(dest.position) < dest.limit ==> 0 < n)
  {
    hide Filled;
    ghost var p, was, rest := dest.position, dest.data[..], source.rest;
    n := ReadChannel(source, dest);
    if n != -1 {
      FilledFurther(was, dest.data[..], start, p, dest.position, all, rest);
    } else {
      assert dest.data[..][..p] == was[..p];
      FilledFurther(was, dest.data[..], start, p, p, all, rest);
    }
  }

  /** The loop: reads until `dest` is full or the source ends. */
  method FillUp(source: Source, dest: ByteBuffer) returns (totalRead: int)
    requires dest.Valid()
    modifies source, dest`position, dest.data
    ensures dest.Valid()
    ensures Filled(dest.data[..], old(dest.position), dest.position, old(source.rest), source.rest)
    ensures dest.position == dest.limit || source.rest == []
    ensures totalRead == if dest.position == old(dest.position) < dest.limit then -1
                         else dest.position - old(dest.position)
  {
    hide Filled;
    ghost var start, all := dest.position, source.rest;
    NothingFilled(dest.data[..], start, all);
    var expectedLength := dest.limit - dest.position;
    var lastRead := ReadMore(source, dest, start, all);
    totalRead := lastRead;
    if lastRead < expectedLength {
      while dest.limit - dest.position != 0 && lastRead != -1
        invariant dest.Valid() && start < dest.limit
        invariant Filled(dest.data[..], start, dest.position, all, source.rest)
        invariant totalRead == if dest.position == start then -1 else dest.position - start
        invariant lastRead == -1 ==> source.rest == []
        decreases |source.rest|, lastRead != -1
      {
        lastRead := ReadMore(source, dest, start, all);
        if lastRead != -1 {
          totalRead := totalRead + lastRead;
        }
      }
    }
  }

  /** `readBytes`, over any number of short reads. */
  method ReadBytes(source: Source, dest: ByteBuffer) returns (totalRead: int)
    requires dest.Valid()
    modifies source, dest, dest.data
    ensures
      var start, got := old(dest.position), Min(old(dest.limit - dest.position), |old(source.rest)|);
      && source.rest == old(source.rest)[got..]
      && totalRead == (if got == 0 && start < old(dest.limit) then -1 else got)
      && dest.limit == (if got == 0 then old(dest.limit) else start + got)
      && dest.position == dest.limit && dest.Valid()
      && dest.data[start..start + got] == old(source.rest)[..got]
  {
    hide Filled;
    ghost var start, all := dest.position, source.rest;
    ghost var got := Min(dest.limit - start, |all|);
    totalRead := FillUp(source, dest);
    assert dest.position == start + got;
    Finish(dest, totalRead);
    FilledIs(dest.data[..], start, start + got, all, source.rest);
  }

  /** The part of the buffer that has been filled; if there is none, all of it. */
  method Finish(dest: ByteBuffer, totalRead: int)
    requires dest.Valid()
    modifies dest
    ensures dest.position == dest.limit == if totalRead > 0 then old(dest.position) else old(dest.limit)
  {
    if totalRead > 0 {
      dest.limit := dest.position;
    } else {
      dest.position := dest.limit;
    }
  }

  lemma NothingFilled(data: Bytes, start: nat, all: Bytes)
    requires start <= |data|
    ensures Filled(data, start, start, all, all)
  {}

  lemma FilledIs(data: Bytes, start: nat, q: nat, all: Bytes, rest: Bytes)
    requires Filled(data, start, q, all, rest)
    ensures start <= q <= |data| && q - start <= |all|
    ensures data[start..q] == all[..q - start] && rest == all[q - start..]
  {}

  /** `skip`: drops `n` bytes, or all there are, by reading them into a scratch buffer. */
  method SkipBytes(source: Source, n: nat, buffer: ByteBuffer) returns (skipped: nat)
    requires 0 < buffer.data.Length
    modifies source, buffer, buffer.data
    ensures skipped == Min(n, |old(source.rest)|) && source.rest == old(source.rest)[skipped..]
  {
    ghost var all := source.rest;
    if n <= 0 {
      return 0;
    }
    var toSkip, last := n, 0;
    while toSkip > 0 && last != -1
      invariant 0 <= toSkip <= n && n - toSkip <= |all| && source.rest == all[n - toSkip..]
      invariant last == -1 ==> source.rest == []
      decreases |source.rest|, last != -1
    {
      buffer.Clear();
      if toSkip < buffer.data.Length {
        buffer.limit := toSkip;
      }
      last := ReadChannel(source, buffer);
      if last > 0 {
        toSkip := toSkip - last;
      }
    }
    buffer.Clear();
    skipped := n - toSkip;
  }

  // ---------------------------------------------------------------- the stream

  /** What `ensureBuffer` comes to: data is buffered, the stream has ended, or an exception. */
  datatype Supply = Supplied | Ended | Failed(error: FrameError)

  /** The exceptions of the public operations. */
  datatype Thrown = Nothing | IllegalArgument | ChannelClosed | IndexOutOfBounds | Corrupted(error: FrameError)

  /** The check of `read(byte[], int, int)` accepts the ranges within an array of `size` bytes, and those whose end is
      no int. */
  lemma RangeCheck(offset: nat, length: nat, size: nat)
    requires offset <= MAX_INT && length <= MAX_INT && size <= MAX_INT
    ensures AddInts(offset, length) <= size <==> offset + length <= size || MAX_INT < offset + length
  {}

  /** `n` bytes have been delivered out of `before`. */
  ghost predicate Delivered(before: Outcome, n: int, after: Outcome) {
    0 <= n <= |before.data| && after == Outcome(before.data[n..], before.error)
  }

  /** A stream's buffers are held; the pool will hand out none of them, nor the stream's header buffer. */
  ghost predicate Pooled(pool: BufferPool, header: ByteBuffer, input: ByteBuffer, direct: ByteBuffer,
                         buffer: array<byte>)
    reads pool
  {
    && pool.Valid() && pool.HoldsDirect(input) && pool.HoldsDirect(direct) && pool.HoldsArray(buffer)
    && HeaderApart(pool, header)
  }

  /** The pool has nothing to do with the stream's header buffer. */
  ghost predicate HeaderApart(pool: BufferPool, header: ByteBuffer)
    reads pool
  {
    && header !in pool.knownDirects && header.data !in pool.knownArrays && header.data !in pool.memory
    && (forall b :: b in pool.knownDirects ==> b.data != header.data)
  }

  lemma PooledApart(pool: BufferPool, header: ByteBuffer, input: ByteBuffer, direct: ByteBuffer, buffer: array<byte>)
    requires Pooled(pool, header, input, direct, buffer)
    ensures buffer in pool.knownArrays && input.data !in pool.knownArrays && direct.data !in pool.knownArrays
    ensures header.data !in pool.knownArrays && header.data !in pool.memory
    ensures buffer !in pool.arrays && buffer !in pool.memory
    ensures input !in pool.directs && input.data !in pool.memory
    ensures direct !in pool.directs && direct.data !in pool.memory
    ensures input.data !in pool.arrays && direct.data !in pool.arrays
  {}

  /** The objects that a stream's calls may change, those included that the pool may hand out. */
  ghost function Objects(stream: object, rbc: Source, pool: BufferPool, crc32: PureJavaCrc32C, header: ByteBuffer,
                         input: ByteBuffer, direct: ByteBuffer, buffer: array<byte>): (s: set<object>)
    reads pool
    ensures {stream, rbc, pool, crc32, header, header.data, input, input.data, direct, direct.data, buffer} <= s
    ensures pool.arrays <= s && pool.directs <= s && pool.memory <= s && pool.Idle() <= s
  {
    {stream, rbc, pool, crc32, header, header.data, input, input.data, direct, direct.data, buffer} + pool.Idle()
  }

  lemma ObjectsOnly(stream: object, rbc: Source, pool: BufferPool, crc32: PureJavaCrc32C, header: ByteBuffer,
                    input: ByteBuffer, direct: ByteBuffer, buffer: array<byte>)
    ensures forall o :: o in Objects(stream, rbc, pool, crc32, header, input, direct, buffer) ==>
              || o in {stream, rbc, pool, crc32, header, header.data}
              || o in {input, input.data, direct, direct.data, buffer} || o in pool.Idle()
  {}

  class FramedInputStream {
    const k: Snappy
    const verify: bool
    const rbc: Source
    const pool: BufferPool
    const crc32: PureJavaCrc32C
    const frameHeader: ByteBuffer
    var input: ByteBuffer?
    var direct: ByteBuffer?
    var buffer: array?<byte>
    var closed: bool
    var eof: bool
    var valid: nat
    var position: nat

    /** The three pooled buffers exist, are distinct, are held, and are large enough for each other:
        whatever fits `input` or `direct` fits `buffer`. */
    ghost predicate Buffers()
      reads this`input, this`direct, this`buffer, pool
    {
      && input != null && direct != null && buffer != null
      && input != direct && input != frameHeader && direct != frameHeader
      && input.data != direct.data && input.data != buffer && direct.data != buffer
      && frameHeader.data !in {input.data, direct.data, buffer} && frameHeader.data.Length == 4
      && 0 < input.data.Length <= buffer.Length == direct.data.Length
      && Pooled(pool, frameHeader, input, direct, buffer)
    }

    ghost predicate Open()
      reads this, pool, rbc
    {
      && !closed && Buffers()
      && (position < valid ==> valid <= buffer.Length)
      && (position <= valid || (valid == 0 && position == 1))
      && (eof ==> rbc.rest == [])
    }

    /** The objects a call may change, those included that the pool may hand out. */
    ghost function Footprint(): (s: set<object>)
      requires Buffers()
      reads this`input, this`direct, this`buffer, pool
      ensures {this, rbc, pool, crc32, frameHeader, frameHeader.data} <= s
      ensures {input, input.data, direct, direct.data, buffer} <= s
    {
      Objects(this, rbc, pool, crc32, frameHeader, input, direct, buffer)
    }

    /** Buffers may be exchanged, never lost: the new ones are held, the old ones given back. */
    twostate predicate Rebuffered()
      requires old(Buffers()) && Buffers()
      reads this`input, this`direct, this`buffer, this`closed, pool
    {
      && closed == old(closed)
      && (forall o :: o in Footprint() ==> o in old(Footprint()) || fresh(o))
      && pool.held - {input, direct, buffer} == old(pool.held - {input, direct, buffer})
    }

    /** Decoded bytes not yet delivered. */
    ghost function Buffered(): Bytes
      requires Open()
      reads this, pool, rbc, buffer
    {
      if position < valid then buffer[position..valid] else []
    }

    /** Everything still to come. */
    ghost function Pending(): Outcome
      requires Open()
      reads this, pool, rbc, buffer
    {
      Prepend(Buffered(), DecodeFrames(k, verify, rbc.rest))
    }

    // -------------------------------------------------------------- construction

    /** The first half of the Java constructor: buffers for the largest block this library writes. */
    constructor (k: Snappy, rbc: Source, verify: bool, pool: BufferPool)
      requires pool.Valid()
      modifies pool
      ensures Open() && Buffered() == [] && !eof
      ensures this.k == k && this.rbc == rbc && this.verify == verify && this.pool == pool
      ensures forall o :: o in Footprint() ==> fresh(o) || o == rbc || o == pool || o in old(pool.Idle())
      ensures pool.held == old(pool.held) + {input, direct, buffer}
      ensures 65541 <= input.data.Length == AdjustSize(65541) && buffer.Length == OutputSize(k, 65541)
    {
      hide OutputSize, AdjustSize, Lawful, Pooled, Objects, BufferPool.Valid, BufferPool.Idle;
      this.k, this.rbc, this.verify, this.pool := k, rbc, verify, pool;
      var header := new byte[4];
      var h := new ByteBuffer(header, 4);
      frameHeader := h;
      assert HeaderApart(pool, h);
      var i, d, b := AllocateBuffers(k, MAX_BLOCK_SIZE + 5, pool, h);
      input, direct, buffer := i, d, b;
      var c := new PureJavaCrc32C();
      crc32 := c;
      closed, eof, valid, position := false, false, 0, 0;
      new;
      ObjectsOnly(this, rbc, pool, crc32, frameHeader, input, direct, buffer);
    }

    /** The second half: the stream must begin with the stream identifier. */
    method ReadStreamHeader() returns (e: Option<FrameError>)
      requires Open() && Buffered() == []
      modifies rbc
      ensures Open() && Buffered() == []
      ensures
        var s := old(rbc.rest);
        e == if |s| < |HEADER| then Some(StreamHeaderEof)
             else if s[..|HEADER|] != HEADER then Some(BadStreamHeader) else None
      ensures e == None ==> HEADER <= old(rbc.rest) && rbc.rest == old(rbc.rest)[|HEADER|..]
      ensures if e == None then Pending() == Decode(k, verify, old(rbc.rest))
              else Decode(k, verify, old(rbc.rest)) == Outcome([], e)
    {
      hide Decode, DecodeFrames, Lawful;
      DecodeHead(k, verify, rbc.rest);
      var actualHeader := new byte[|HEADER|];
      var actualBuffer := new ByteBuffer(actualHeader, |HEADER|);
      var read := ReadBytes(rbc, actualBuffer);
      if read < |HEADER| {
        return Some(StreamHeaderEof);
      }
      assert actualBuffer.data[0..0 + |HEADER|] == actualHeader[..];
      if actualHeader[..] != HEADER {
        return Some(BadStreamHeader);
      }
      PrependNothing(DecodeFrames(k, verify, rbc.rest));
      return None;
    }

    // -------------------------------------------------------------- buffers

    /** `allocateBuffersBasedOnSize`, when buffers are already held: each is given back exactly once, and may be the
        one that comes back. */
    method Reallocate(size: nat)
      requires Buffers() && 0 < size < 0x100_0000
      modifies this`input, this`direct, this`buffer, pool, input, direct
      ensures Buffers() && Rebuffered()
      ensures fresh(input) || input in old({input, direct} + pool.directs)
      ensures fresh(input.data) || input.data in old({input.data, direct.data} + pool.memory)
      ensures size <= input.data.Length && buffer.Length == OutputSize(k, size)
      ensures old(pool.knownArrays) <= pool.knownArrays
    {
      hide AdjustSize, Pooled, HeaderApart, OutputSize, Objects, BufferPool.Idle;
      ReleaseBuffers();
      input, direct, buffer := AllocateBuffers(k, size, pool, frameHeader);
      ObjectsOnly(this, rbc, pool, crc32, frameHeader, input, direct, buffer);
    }

    method ReleaseBuffers()
      requires Buffers()
      modifies pool, input, direct
      ensures pool.Valid() && HeaderApart(pool, frameHeader)
      ensures pool.held == old(pool.held) - {input, direct, buffer} && pool.arrays == old(pool.arrays) + {buffer}
      ensures pool.directs == old(pool.directs) + {input, direct}
      ensures pool.memory == old(pool.memory) + {input.data, direct.data}
      ensures pool.knownArrays == old(pool.knownArrays) && pool.knownDirects == old(pool.knownDirects)
      ensures pool.Idle() == old(pool.Idle()) + {input, input.data, direct, direct.data, buffer}
    {
      hide BufferPool.Valid;
      PooledApart(pool, frameHeader, input, direct, buffer);
      pool.ReleaseDirect(input);
      pool.ReleaseDirect(direct);
      pool.ReleaseArray(buffer);
    }

    static method AllocateBuffers(k: Snappy, size: nat, pool: BufferPool, ghost header: ByteBuffer)
      returns (input: ByteBuffer, direct: ByteBuffer, buffer: array<byte>)
      requires 0 < size < 0x100_0000 && pool.Valid() && HeaderApart(pool, header)
      modifies pool
      ensures Pooled(pool, header, input, direct, buffer)
      ensures header !in {input, direct} && header.data !in {input.data, direct.data, buffer}
      ensures input != direct && input.data != direct.data && input.data != buffer && direct.data != buffer
      ensures pool.arrays <= old(pool.arrays) && pool.directs <= old(pool.directs) && pool.memory <= old(pool.memory)
      ensures (fresh(input) && fresh(input.data)) || (input in old(pool.directs) && input.data in old(pool.memory))
      ensures (fresh(direct) && fresh(direct.data)) || (direct in old(pool.directs) && direct.data in old(pool.memory))
      ensures fresh(buffer) || buffer in old(pool.arrays)
      ensures pool.Idle() <= old(pool.Idle())
      ensures fresh({input, input.data, direct, direct.data, buffer} - old(pool.Idle()))
      ensures size <= input.data.Length == AdjustSize(size) <= buffer.Length
      ensures buffer.Length == direct.data.Length == OutputSize(k, size)
      ensures pool.held == old(pool.held) + {input, direct, buffer}
      ensures old(pool.knownArrays) <= pool.knownArrays
    {
      hide AdjustSize, BufferPool.Valid;
      assert BoundLaw(k);
      var maxCompressedLength := k.maxCompressedLength(size);
      AdjustSizeMonotone(size, maxCompressedLength);
      AdjustSizeBounds(size);
      input := pool.AllocateDirect(size);
      direct := pool.AllocateDirect(maxCompressedLength);
      buffer := pool.AllocateArray(maxCompressedLength);
    }

    /** The second reallocation path, for a chunk that announces more data than `direct` can hold. */
    method GrowOutput(length: nat)
      requires Buffers() && direct.data.Length < length <= MAX_INT
      modifies this`direct, this`buffer, pool, direct
      ensures Buffers() && Rebuffered() && length <= direct.data.Length
      ensures buffer != old(buffer) && buffer.Length == AdjustSize(length)
      ensures old(pool.knownArrays) <= pool.knownArrays
      ensures fresh(direct) || direct in old({direct} + pool.directs)
      ensures fresh(direct.data) || direct.data in old({direct.data} + pool.memory)
      ensures fresh(buffer) || buffer in old(pool.arrays)
    {
      hide AdjustSize, Pooled, HeaderApart, Objects, BufferPool.Idle;
      direct, buffer := ExchangeOutput(k, length, pool, frameHeader, input, direct, buffer);
      ObjectsOnly(this, rbc, pool, crc32, frameHeader, input, direct, buffer);
    }

    static method ExchangeOutput(k: Snappy, length: nat, pool: BufferPool, ghost header: ByteBuffer,
                                 ghost input: ByteBuffer, direct: ByteBuffer, buffer: array<byte>)
      returns (direct': ByteBuffer, buffer': array<byte>)
      requires Pooled(pool, header, input, direct, buffer) && input != direct
      requires buffer.Length == direct.data.Length < length <= MAX_INT
      modifies pool, direct
      ensures Pooled(pool, header, input, direct', buffer')
      ensures length <= direct'.data.Length == buffer'.Length == AdjustSize(length)
      ensures input != direct' && header != direct' && buffer' != buffer && direct'.data != buffer'
      ensures input.data !in {direct'.data, buffer'} && header.data !in {direct'.data, buffer'}
      ensures old(pool.knownArrays) <= pool.knownArrays
      ensures pool.held == old(pool.held) - {direct, buffer} + {direct', buffer'}
      ensures {direct', buffer'} !! (old(pool.held) - {direct, buffer})
      ensures (fresh(direct') && fresh(direct'.data))
              || (direct' in old(pool.directs) + {direct} && direct'.data in old(pool.memory) + {direct.data})
      ensures fresh(buffer') || buffer' in old(pool.arrays)
      ensures pool.Idle() <= old(pool.Idle()) + {direct, direct.data, buffer}
      ensures fresh({direct', direct'.data, buffer'} - old(pool.Idle()) - {direct, direct.data, buffer})
    {
      hide AdjustSize, BufferPool.Valid;
      PooledApart(pool, header, input, direct, buffer);
      pool.ReleaseDirect(direct);
      pool.ReleaseArray(buffer);
      AdjustSizeBounds(length);
      direct' := pool.AllocateDirect(length);
      buffer' := pool.AllocateArray(length);
    }

    // -------------------------------------------------------------- one data chunk

    /** The uncompress branch: the body that remains in `input` ends up at the start of `buffer`. */
    method UncompressFrame(ghost other: array<byte>) returns (e: Option<FrameError>)
      requires Open() && input.Valid() && other in pool.knownArrays
      modifies this`direct, this`buffer, this`valid, this`position, pool, direct, direct.data, buffer
      modifies pool.arrays, pool.directs, pool.memory
      ensures Open() && input.data[..] == old(input.data[..])
      ensures Rebuffered()
      ensures
        var c := Payload(k, Uncompress, old(input.Remaining()));
        match c
        case Corrupt(x) => e == Some(x) && position == old(position) && valid == old(valid)
        case Data(d) => e == None && position == 0 && valid <= buffer.Length && buffer[..valid] == d
      ensures if FitsOutput(k, old(input.Remaining()), old(direct.data.Length))
              then direct == old(direct) && buffer == old(buffer)
              else buffer != old(buffer)
      ensures buffer.Length == Grown(k, old(input.Remaining()), old(direct.data.Length))
      ensures other == buffer || other[..] == old(other[..])
    {
      hide Lawful, Pooled, Objects;
      PooledApart(pool, frameHeader, input, direct, buffer);
      ghost var body := input.Remaining();
      var declared := k.uncompressedLength(input.data[input.position..input.limit]);
      if declared.None? {
        return Some(Unparsable);
      }
      UncompressLawHolds(k, body);
      if declared.value > direct.data.Length {
        GrowOutput(declared.value);
      }
      PooledApart(pool, frameHeader, input, direct, buffer);
      var ok := Inflate();
      return if ok then None else Some(Undecodable);
    }

    /** Decompresses into `direct` and copies the result to `buffer`. */
    method Inflate() returns (ok: bool)
      requires Open() && input.Valid()
      requires k.uncompressedLength(input.Remaining()).Some?
      requires k.uncompressedLength(input.Remaining()).value <= direct.data.Length
      modifies this`valid, this`position, direct, direct.data, buffer
      ensures Open()
      ensures ok == k.uncompress(old(input.Remaining())).Some?
      ensures if ok then position == 0 && valid <= buffer.Length
                && buffer[..valid] == k.uncompress(old(input.Remaining())).value
              else position == old(position) && valid == old(valid)
    {
      hide Lawful;
      direct.Clear();
      var n := DirectUncompress(k, input, direct);
      if n.None? {
        return false;
      }
      valid := n.value;
      direct.Get(buffer, valid);
      position := 0;
      return true;
    }

    /** The raw branch: the body is copied as it is. */
    method CopyFrame()
      requires Open() && input.Valid()
      modifies this`valid, this`position, input`position, buffer
      ensures Open() && position == 0 && valid <= buffer.Length && buffer[..valid] == old(input.Remaining())
    {
      position := 0;
      valid := input.limit - input.position;
      input.Get(buffer, valid);
    }

    /** Reads a whole chunk into `input`, reallocating first if it is too small. */
    method FetchFrame(length: nat) returns (ok: bool)
      requires Open() && Buffered() == [] && 5 <= length < 0x100_0000
      modifies this`input, this`direct, this`buffer, rbc, pool, input, input.data, direct, direct.data
      modifies pool.directs, pool.memory
      ensures Open() && Buffered() == [] && Rebuffered()
      ensures ok == (length <= |old(rbc.rest)|)
      ensures rbc.rest == old(rbc.rest)[Min(length, |old(rbc.rest)|)..]
      ensures ok ==> input.Valid() && input.position == 0 && input.Remaining() == old(rbc.rest)[..length]
      ensures if length <= old(input.data.Length)
              then input == old(input) && direct == old(direct) && buffer == old(buffer)
              else buffer.Length == OutputSize(k, length)
      ensures old(buffer)[..] == old(buffer[..]) && old(buffer) in pool.knownArrays
    {
      hide Lawful, Pooled, OutputSize, Objects;
      PooledApart(pool, frameHeader, input, direct, buffer);
      if length > input.data.Length {
        Reallocate(length);
      }
      input.Clear();
      input.limit := length;
      var actualRead := ReadBytes(rbc, input);
      if actualRead != length {
        return false;
      }
      input.Flip();
      assert input.Remaining() == input.data[0..0 + length];
      return true;
    }

    /** The rest of `ensureBuffer` once the header promised a data chunk of `length` bytes. */
    method LoadFrame(action: Action, length: nat) returns (e: Option<FrameError>)
      requires Open() && Buffered() == [] && action != Skip && 5 <= length < 0x100_0000
      modifies Footprint()
      ensures Open() && Rebuffered()
      ensures
        var s := old(rbc.rest);
        && rbc.rest == s[Min(length, |s|)..]
        && if |s| < length then e == Some(FrameEof)
           else match FrameContent(k, verify, action, s[..length])
             case Corrupt(x) => e == Some(x)
             case Data(d) => e == None && position == 0 && Buffered() == d
      ensures e == Some(BadChecksum) ==>
                length <= |old(rbc.rest)| && FrameContent(k, false, action, old(rbc.rest)[..length]) == Data(Buffered())
      ensures e.Some? && e != Some(BadChecksum) ==> Buffered() == []
      ensures if FitsChunk(k, action, length, old(rbc.rest), old(input.data.Length), old(direct.data.Length))
              then input == old(input) && direct == old(direct) && buffer == old(buffer)
              else buffer == old(buffer) || old(buffer)[..] == old(buffer[..])
      ensures length <= |old(rbc.rest)| ==>
                buffer.Length
                == ChunkOutput(k, action, length, old(rbc.rest), old(input.data.Length), old(direct.data.Length))
    {
      hide MaskedCrc, GetInt, Payload, Lawful, Pooled, Objects, OutputSize, Grown, FrameContent;
      ghost var present := buffer;
      var ok := FetchFrame(length);
      if !ok {
        return Some(FrameEof);
      }
      e := DecodeFrame(action, present);
    }

    /** The chunk in `input`, decoded into `buffer` and checked. */
    method DecodeFrame(action: Action, ghost other: array<byte>) returns (e: Option<FrameError>)
      requires Open() && Buffered() == [] && action != Skip && other in pool.knownArrays
      requires input.Valid() && input.position == 0 && 5 <= input.limit
      modifies this`direct, this`buffer, this`valid, this`position, pool, input`position, direct, direct.data,
        buffer, crc32, pool.arrays, pool.directs, pool.memory
      ensures Open() && Rebuffered()
      ensures
        match FrameContent(k, verify, action, old(input.Remaining()))
        case Corrupt(x) => e == Some(x)
        case Data(d) => e == None && position == 0 && Buffered() == d
      ensures e == Some(BadChecksum) ==> FrameContent(k, false, action, old(input.Remaining())) == Data(Buffered())
      ensures e.Some? && e != Some(BadChecksum) ==> Buffered() == []
      ensures if action == Uncompress && !FitsOutput(k, old(input.Remaining())[4..], old(direct.data.Length))
              then buffer != old(buffer) else direct == old(direct) && buffer == old(buffer)
      ensures
        var capacity := old(direct.data.Length);
        buffer.Length == if action == Uncompress then Grown(k, old(input.Remaining())[4..], capacity) else capacity
      ensures other == buffer || other[..] == old(other[..])
      ensures input == old(input)
    {
      hide MaskedCrc, GetInt, Payload, Lawful, Pooled, Objects, FitsOutput, Grown;
      ghost var frame := input.Remaining();
      var checkSum := GetInt(input.data[0..4]);
      assert input.data[0..4] == frame[..4];
      input.position := 4;
      assert input.Remaining() == frame[4..];
      e := DecodeBody(action, other);
      if e == None {
        e := CheckFrame(checkSum);
      }
    }

    /** The body that remains in `input`, decoded into `buffer`. */
    method DecodeBody(action: Action, ghost other: array<byte>) returns (e: Option<FrameError>)
      requires Open() && Buffered() == [] && action != Skip && other in pool.knownArrays && input.Valid()
      modifies this`direct, this`buffer, this`valid, this`position, pool, input`position, direct, direct.data,
        buffer, pool.arrays, pool.directs, pool.memory
      ensures Open() && Rebuffered() && input == old(input)
      ensures
        match Payload(k, action, old(input.Remaining()))
        case Corrupt(x) => e == Some(x) && x != BadChecksum && Buffered() == []
        case Data(d) => e == None && position == 0 && valid <= buffer.Length && buffer[..valid] == d
      ensures if action == Uncompress && !FitsOutput(k, old(input.Remaining()), old(direct.data.Length))
              then buffer != old(buffer) else direct == old(direct) && buffer == old(buffer)
      ensures
        var capacity := old(direct.data.Length);
        buffer.Length == if action == Uncompress then Grown(k, old(input.Remaining()), capacity) else capacity
      ensures other == buffer || other[..] == old(other[..])
    {
      hide Lawful, Pooled, Objects, FitsOutput, Grown;
      PooledApart(pool, frameHeader, input, direct, buffer);
      if action == Uncompress {
        e := UncompressFrame(other);
      } else {
        RawPayload(k, input.Remaining());
        CopyFrame();
        e := None;
      }
    }

    /** The checksum of what has just been decoded. */
    method CheckFrame(checkSum: bv32) returns (e: Option<FrameError>)
      requires Open() && position == 0 && valid <= buffer.Length
      modifies crc32
      ensures Open() && e == if verify && checkSum != MaskedCrc(buffer[..valid]) then Some(BadChecksum) else None
    {
      hide MaskedCrc, Lawful, Pooled, Objects;
      assert buffer[position..position + (valid - position)] == buffer[..valid];
      if verify {
        var actual := MaskedCrc32c(crc32, buffer, position, valid - position);
        if checkSum != actual {
          return Some(BadChecksum);
        }
      }
      return None;
    }

    // -------------------------------------------------------------- the state machine

    /** `readBlockHeader`. */
    method ReadBlockHeader() returns (r: bool, e: Option<FrameError>)
      requires Open() && Buffered() == []
      modifies rbc, frameHeader, frameHeader.data
      ensures Open() && Buffered() == []
      ensures
        var s := old(rbc.rest);
        if s == [] then !r && e == None && rbc.rest == []
        else if |s| < 4 then e == Some(BlockHeaderEof) && rbc.rest == []
        else r && e == None && rbc.rest == s[4..] && frameHeader.data[..] == s[..4]
    {
      frameHeader.Clear();
      var read := ReadBytes(rbc, frameHeader);
      if read == -1 {
        return false, None;
      }
      if read < frameHeader.data.Length {
        return false, Some(BlockHeaderEof);
      }
      frameHeader.Flip();
      assert frameHeader.data[0..0 + 4] == frameHeader.data[..];
      return true, None;
    }

    /** Drops the body of a skippable chunk, using `buffer` as scratch space. */
    method SkipChunk(length: nat)
      requires Open() && Buffered() == []
      modifies rbc, buffer
      ensures Open() && Buffered() == []
      ensures rbc.rest == old(rbc.rest)[Min(length, |old(rbc.rest)|)..]
    {
      var scratch := new ByteBuffer(buffer, buffer.Length);
      var _ := SkipBytes(rbc, length, scratch);
    }

    /** `ensureBuffer`: after it, unread data is buffered, or the stream has ended, or an exception is thrown.
        The block it finds is the next one of the pure decoder, whatever the short reads. */
    method EnsureBuffer() returns (r: Supply)
      requires Open()
      modifies Footprint()
      ensures Open() && Rebuffered()
      ensures old(Buffered()) != [] ==>
                r == Supplied && Buffered() == old(Buffered()) && rbc.rest == old(rbc.rest)
                && position == old(position) && valid == old(valid)
                && input == old(input) && direct == old(direct) && buffer == old(buffer)
      ensures old(Buffered()) == [] ==>
                match NextBlock(k, verify, old(rbc.rest))
                case AtEnd => r == Ended && Buffered() == [] && rbc.rest == []
                case Bad(x) => r == Failed(x)
                case Block(d, rest) => r == Supplied && Buffered() == d && position == 0 && rbc.rest == rest
      ensures old(Buffered()) == [] ==> rbc.rest == RestAfter(old(rbc.rest))
      // a block whose checksum is rejected stays buffered all the same
      ensures r.Failed? ==> Buffered() == Kept(k, r.error, old(rbc.rest))
      ensures FitsNext(k, old(rbc.rest), old(input.data.Length), old(direct.data.Length)) ==>
                input == old(input) && direct == old(direct) && buffer == old(buffer)
      ensures old(Buffered()) == [] && !r.Ended?
              && Misfit(k, old(rbc.rest), old(input.data.Length), old(direct.data.Length)) ==>
                buffer == old(buffer) || old(buffer)[..] == old(buffer[..])
      ensures old(Buffered()) == [] && r == Supplied ==>
                buffer.Length == NextOutput(k, old(rbc.rest), old(input.data.Length), old(direct.data.Length))
      decreases |rbc.rest|
    {
      hide FrameContent, FrameMeta, Lawful, FitsChunk, NextBlock, FitsNext, RestAfter, Kept, Misfit, NextOutput,
        ChunkOutput;
      hide Pooled, Objects;
      ghost var src := rbc.rest;
      UnfoldNext(k, verify, src, input.data.Length, direct.data.Length);
      UnfoldAfter(k, src, input.data.Length, direct.data.Length);
      if valid - position > 0 {
        return Supplied;
      }
      if eof {
        return Ended;
      }
      var got, e := ReadBlockHeader();
      if e.Some? {
        KeptAfter(k, e.value, src);
        return Failed(e.value);
      }
      if !got {
        eof := true;
        return Ended;
      }
      match FrameMeta(frameHeader.data[..])
      case BadMeta(x) =>
        KeptAfter(k, x, src);
        return Failed(x);
      case Meta(action, length) =>
        if action == Skip {
          SkipChunk(length);
          assert rbc.rest == src[Min(4 + length, |src|)..];
          UnfoldOutput(k, src, input.data.Length, direct.data.Length);
          r := EnsureBuffer();
          if r.Failed? {
            KeptAfter(k, r.error, src);
          }
        } else {
          r := LoadNext(action, length, src);
        }
    }

    /** The same for a data chunk at the start of `src`, whose header has been read. */
    method LoadNext(action: Action, length: nat, ghost src: Bytes) returns (r: Supply)
      requires Open() && Buffered() == [] && 4 <= |src| && rbc.rest == src[4..]
      requires FrameMeta(src[..4]) == Meta(action, length) && action != Skip
      modifies Footprint()
      ensures Open() && Rebuffered() && rbc.rest == RestAfter(src)
      ensures match NextBlock(k, verify, src)
              case AtEnd => false
              case Bad(x) => r == Failed(x) && Buffered() == Kept(k, x, src)
              case Block(d, _) => r == Supplied && Buffered() == d && position == 0
      ensures NextBlock(k, verify, src).Block? ==> rbc.rest == NextBlock(k, verify, src).rest
      ensures if FitsNext(k, src, old(input.data.Length), old(direct.data.Length))
              then input == old(input) && direct == old(direct) && buffer == old(buffer)
              else buffer == old(buffer) || old(buffer)[..] == old(buffer[..])
      ensures r == Supplied ==>
                buffer.Length == NextOutput(k, src, old(input.data.Length), old(direct.data.Length))
    {
      hide FrameContent, FrameMeta, Lawful, FitsChunk, NextBlock, FitsNext, RestAfter, Kept, Misfit, NextOutput,
        ChunkOutput;
      hide Pooled, Objects;
      UnfoldNext(k, verify, src, input.data.Length, direct.data.Length);
      UnfoldAfter(k, src, input.data.Length, direct.data.Length);
      UnfoldOutput(k, src, input.data.Length, direct.data.Length);
      var e := LoadFrame(action, length);
      assert 4 + length <= |src| ==> src[4..][..length] == src[4..4 + length];
      if e.Some? {
        KeptAfter(k, e.value, src);
      }
      return if e.Some? then Failed(e.value) else Supplied;
    }

    // -------------------------------------------------------------- the public operations

    /** What the next call finds: the bytes it can deliver, the end, or an exception. */
    ghost function Ahead(): Block
      requires Open()
      reads this, pool, rbc, buffer
    {
      if Buffered() != [] then Block(Buffered(), rbc.rest) else NextBlock(k, verify, rbc.rest)
    }

    /** The next data chunk decodes to nothing. */
    ghost predicate EmptyAhead()
      requires Open()
      reads this, pool, rbc, buffer
    {
      Ahead().Block? && Ahead().data == []
    }

    /** What is to come for a caller who reads on after the exception that lies ahead. */
    ghost function Salvage(): Remains
      requires Open()
      reads this, pool, rbc
    {
      Resumed(k, verify, rbc.rest)
    }

    ghost function Remaining(): Remains
      requires Open()
      reads this, pool, rbc, buffer
    {
      Remains(Buffered(), Pending())
    }

    /** A block has just been found: there are bytes to deliver unless it was empty. */
    ghost predicate Loaded()
      reads this
    {
      position < valid || position == valid == 0
    }

    /** Every data chunk still to come fits the present buffers. */
    ghost predicate Fits()
      requires Open()
      reads this, pool, rbc
    {
      FitsAll(k, verify, rbc.rest, input.data.Length, direct.data.Length)
    }

    /** The next chunk is a data chunk for which the buffers must be exchanged. */
    ghost predicate MisfitAhead()
      requires Open()
      reads this, pool, rbc
    {
      Misfit(k, rbc.rest, input.data.Length, direct.data.Length)
    }

    /** Reading the next data chunk brings an array of another size. */
    ghost predicate ForcedOut()
      requires Open()
      reads this, pool, rbc
    {
      NextOutput(k, rbc.rest, input.data.Length, direct.data.Length) != buffer.Length
    }

    /** When everything still to come fits, no buffer is exchanged, and that stays so unless an exception ended it. */
    twostate predicate Settled(ok: bool)
      requires old(Open()) && Open()
      reads this, pool, rbc
    {
      old(Fits()) ==> input == old(input) && direct == old(direct) && buffer == old(buffer) && (ok ==> Fits())
    }

    /** How many data chunks still to come decode to nothing. */
    ghost function Empties(): nat
      requires Open()
      reads this, pool, rbc
    {
      EmptyChunks(k, verify, rbc.rest)
    }

    /** `EnsureBuffer`, in terms of everything still to come. */
    method Ensure() returns (r: Supply)
      requires Open()
      modifies Footprint()
      ensures Open() && Rebuffered()
      ensures r == Ended ==> old(Pending()) == Pending() == Outcome([], None) && rbc.rest == [] && Buffered() == []
      ensures r.Failed? ==> old(Pending()) == Outcome([], Some(r.error)) && Remaining() == old(Salvage())
      ensures r == Supplied ==> Salvage() == old(Salvage())
      ensures match old(Ahead())
              case AtEnd => r == Ended
              case Bad(x) => r == Failed(x)
              case Block(d, rest) => r == Supplied && Buffered() == d && rbc.rest == rest
      ensures r == Supplied && old(Buffered()) == [] ==> position == 0
      ensures old(Buffered()) != [] ==> buffer == old(buffer) && valid == old(valid)
      ensures old(Buffered()) == [] && r == Supplied && old(MisfitAhead()) ==>
                buffer == old(buffer) || old(buffer)[..] == old(buffer[..])
      ensures old(Buffered()) == [] && r == Supplied && old(ForcedOut()) ==> buffer != old(buffer)
      ensures r != Supplied ==> !old(EmptyAhead())
      ensures r == Supplied ==> Pending() == old(Pending())
      ensures r == Supplied ==> Loaded() && (Buffered() == [] <==> old(EmptyAhead()))
      ensures r == Supplied ==>
                |rbc.rest| < |old(rbc.rest)| || (rbc.rest == old(rbc.rest) && Buffered() == old(Buffered()) != [])
      ensures r != Supplied ==> old(Empties()) == 0
      ensures !r.Failed? ==> old(Empties()) == Empties() + if old(EmptyAhead()) then 1 else 0
      ensures Settled(!r.Failed?)
    {
      hide NextBlock, FitsNext, Lawful, RestAfter, Kept, Misfit, NextOutput, Pooled, Objects;
      assert EmptyChunks(k, verify, []) == 0 by { NoEmptyChunks(k, verify); }
      FitsNothing(k, verify, input.data.Length, direct.data.Length);
      PrependNothing(DecodeFrames(k, verify, rbc.rest));
      DecodeNothing(k, verify);
      r := EnsureBuffer();
      PrependNothing(DecodeFrames(k, verify, rbc.rest));
    }

    /** `available`. */
    function Available(): int
      reads this
    {
      if closed then 0 else valid - position
    }

    /** `read()`: the next byte, or -1 at the end.  On a chunk that decodes to nothing it delivers a byte left
        over in the buffer. */
    method Read() returns (b: int, e: Option<FrameError>)
      requires closed || Open()
      modifies if closed then {} else Footprint()
      ensures -1 <= b < 256
      ensures old(closed) ==> b == -1 && e == None
      ensures !old(closed) ==> Open() && Rebuffered()
      ensures !old(closed) && !old(EmptyAhead()) ==>
                var p := old(Pending());
                if p.data != [] then e == None && b == IntOf(p.data[0]) && Pending() == Outcome(p.data[1..], p.error)
                else
                  && e == p.error && (e == None ==> b == -1)
                  && (if e == None then Pending() == p else Remaining() == old(Salvage()))
      ensures !old(closed) && old(EmptyAhead()) ==> e == None && b == IntOf(buffer[0]) && Pending() == old(Pending())
      ensures !old(closed) && e == None ==> old(Empties()) == Empties() + if old(EmptyAhead()) then 1 else 0
      ensures !old(closed) && (e != None || b == -1) ==> old(Empties()) == 0
      ensures !old(closed) ==> Settled(e == None)
    {
      hide NextBlock, FitsNext, Lawful, FitsAll, DecodeFrames, IntOf, EmptyChunks, Resumed;
      if closed {
        return -1, None;
      }
      var r := Ensure();
      match r
      case Ended => return -1, None;
      case Failed(x) => return -1, Some(x);
      case Supplied =>
        b := TakeByte();
        return b, None;
    }

    /** `buffer[position++]`. */
    method TakeByte() returns (b: int)
      requires Open() && Loaded()
      modifies this`position
      ensures Open()
      ensures if old(Buffered()) == [] then b == IntOf(buffer[0]) && Pending() == old(Pending())
              else
                var p := old(Pending());
                p.data != [] && b == IntOf(p.data[0]) && Pending() == Outcome(p.data[1..], p.error)
    {
      hide Lawful, DecodeFrames, IntOf;
      b := IntOf(buffer[position]);
      ghost var before, later := Buffered(), DecodeFrames(k, verify, rbc.rest);
      position := position + 1;
      if before != [] {
        assert Buffered() == before[1..];
        SplitConcat(before, later.data, 1);
      }
    }

    /** `read(byte[], int, int)`: as much as is buffered, up to the request; the check of the requested range
        is made on a sum that may wrap around. */
    method ReadArray(output: array<byte>, offset: int, length: int) returns (n: int, e: Thrown)
      requires closed || Open()
      requires !closed ==> output !in Footprint()
      requires output.Length <= MAX_INT && -MAX_INT <= offset <= MAX_INT && -MAX_INT <= length <= MAX_INT
      modifies if closed then {} else Footprint(), output
      ensures !old(closed) ==> Open() && Rebuffered()
      ensures e == IllegalArgument <==> offset < 0 || length < 0 || output.Length < AddInts(offset, length)
      ensures e == ChannelClosed <==> e != IllegalArgument && old(closed)
      ensures (e == ChannelClosed || e == IllegalArgument || length == 0) ==> unchanged(this, output)
      ensures (e == IllegalArgument || length == 0) && !old(closed) ==> Pending() == old(Pending())
      ensures e == Nothing && length == 0 ==> n == 0
      ensures e != IllegalArgument && !old(closed) && 0 < length ==>
                match old(Ahead())
                case AtEnd => e == Nothing && n == -1
                case Bad(x) => e == Corrupted(x)
                case Block(d, _) =>
                  if output.Length < offset + Min(length, |d|) then e == IndexOutOfBounds
                  else e == Nothing && n == Min(length, |d|)
      ensures e == Nothing && length == 0 ==> Empties() == old(Empties())
      ensures e == IndexOutOfBounds ==>
                output.Length < offset + length && Pending() == old(Pending()) && output[..] == old(output[..])
      ensures e.Corrupted? ==> old(Pending()) == Outcome([], Some(e.error)) && Remaining() == old(Salvage())
      ensures e == Nothing && n == -1 ==> old(Pending()) == Pending() == Outcome([], None)
      ensures e == Nothing && n != -1 ==>
                && Delivered(old(Pending()), n, Pending()) && n <= length && offset + n <= output.Length
                && output[..] == old(output[..offset]) + old(Pending()).data[..n] + old(output[offset + n..])
      ensures e == Nothing && 0 < length ==> old(Empties()) == Empties() + if old(EmptyAhead()) then 1 else 0
      ensures !old(closed) ==> Settled(!e.Corrupted?)
    {
      hide Pooled, Objects, Lawful, DecodeFrames, NextBlock, FitsAll, EmptyChunks, Resumed, Remaining, Salvage;
      if offset < 0 || length < 0 || AddInts(offset, length) > output.Length {
        return 0, IllegalArgument;
      }
      if closed {
        return 0, ChannelClosed;
      }
      if length == 0 {
        assert old(Pending()).data[0..] == old(Pending()).data;
        assert output[..] == old(output[..offset]) + [] + old(output[offset..]);
        return 0, Nothing;
      }
      n, e := ReadRange(output, offset, length);
    }

    /** The same when something is asked for and the stream is open. */
    method ReadRange(output: array<byte>, offset: nat, length: nat) returns (n: int, e: Thrown)
      requires Open() && output !in Footprint() && 0 < length
      modifies Footprint(), output
      ensures Open() && Rebuffered() && (e == Nothing || e == IndexOutOfBounds || e.Corrupted?)
      ensures match old(Ahead())
              case AtEnd => e == Nothing && n == -1
              case Bad(x) => e == Corrupted(x)
              case Block(d, _) =>
                if output.Length < offset + Min(length, |d|) then e == IndexOutOfBounds
                else e == Nothing && n == Min(length, |d|)
      ensures e == IndexOutOfBounds ==>
                output.Length < offset + length && Pending() == old(Pending()) && output[..] == old(output[..])
      ensures e.Corrupted? ==> old(Pending()) == Outcome([], Some(e.error)) && Remaining() == old(Salvage())
      ensures e == Nothing && n == -1 ==> old(Pending()) == Pending() == Outcome([], None)
      ensures e == Nothing && n != -1 ==>
                && Delivered(old(Pending()), n, Pending()) && n <= length && offset + n <= output.Length
                && output[..] == old(output[..offset]) + old(Pending()).data[..n] + old(output[offset + n..])
      ensures e == Nothing ==> old(Empties()) == Empties() + if old(EmptyAhead()) then 1 else 0
      ensures Settled(!e.Corrupted?)
    {
      hide Pooled, Objects, Lawful, DecodeFrames, NextBlock, FitsAll, EmptyChunks, Resumed, Salvage, Remaining,
        MisfitAhead, Pending, Ahead, EmptyAhead, Footprint, Buffers;
      ghost var o := output[..];
      var r := Ensure();
      match r
      case Ended => return -1, Nothing;
      case Failed(x) => return 0, Corrupted(x);
      case Supplied =>
        var size := Min(length, Available());
        if offset + size > output.Length {
          return 0, IndexOutOfBounds;
        }
        assert output[..] == o;
        CopyOut(output, offset, size);
        assert output[..] == old(output[..offset]) + old(Pending()).data[..size] + old(output[offset + size..]) by {
          assert o[..offset] == old(output[..offset]) && o[offset + size..] == old(output[offset + size..]);
        }
        return size, Nothing;
    }

    /** Delivers `size` buffered bytes. */
    method CopyOut(output: array<byte>, offset: nat, size: nat)
      requires Open() && output !in Footprint() && offset + size <= output.Length
      requires Loaded() && size <= |Buffered()|
      modifies this`position, output
      ensures Open() && Delivered(old(Pending()), size, Pending()) && Buffered() == old(Buffered())[size..]
      ensures output[..] == old(output[..])[..offset] + old(Pending()).data[..size] + old(output[..])[offset + size..]
    {
      hide Lawful, DecodeFrames;
      ghost var before, later := Buffered(), DecodeFrames(k, verify, rbc.rest);
      var p := position;
      ghost var o := output[..];
      forall i | 0 <= i < size { output[offset + i] := buffer[p + i]; }
      assert forall i :: 0 <= i < size ==> output[offset + i] == before[i];
      assert output[..] == o[..offset] + before[..size] + o[offset + size..];
      position := p + size;
      assert Buffered() == before[size..];
      SplitConcat(before, later.data, size);
    }

    /** `read(ByteBuffer)`: the same, into what remains of `dst`. */
    method ReadBuffer(dst: ByteBuffer) returns (n: int, e: Thrown)
      requires closed || Open()
      requires dst.Valid() && (!closed ==> dst !in Footprint() && dst.data !in Footprint())
      modifies if closed then {} else Footprint(), dst`position, dst.data
      ensures !old(closed) ==> Open() && Rebuffered()
      ensures dst.Valid()
      ensures e == ChannelClosed <==> old(closed)
      ensures e == Nothing && old(dst.position) == dst.limit ==> n == 0 && Pending() == old(Pending())
      ensures e.Corrupted? ==> old(Pending()) == Outcome([], Some(e.error)) && Remaining() == old(Salvage())
      ensures e == Nothing && n == -1 ==> old(Pending()) == Pending() == Outcome([], None)
      ensures e == Nothing && n != -1 ==>
                && Delivered(old(Pending()), n, Pending()) && old(dst.position) + n == dst.position
                && dst.data[..] == old(dst.data[..dst.position]) + old(Pending()).data[..n]
                  + old(dst.data[dst.position + n..])
      ensures !old(closed) && old(dst.position) < dst.limit ==>
                match old(Ahead())
                case AtEnd => e == Nothing && n == -1
                case Bad(x) => e == Corrupted(x)
                case Block(d, _) => e == Nothing && n == Min(dst.limit - old(dst.position), |d|)
      ensures e == Nothing && old(dst.position) == dst.limit ==> Empties() == old(Empties())
      ensures e == Nothing && old(dst.position) < dst.limit ==>
                old(Empties()) == Empties() + if old(EmptyAhead()) then 1 else 0
      ensures !old(closed) ==> Settled(!e.Corrupted?)
      ensures e == Nothing || e == ChannelClosed || e.Corrupted?
    {
      hide Pooled, Objects, Lawful, DecodeFrames, NextBlock, FitsAll, EmptyChunks, Resumed, Remaining, Salvage;
      if closed {
        return 0, ChannelClosed;
      }
      if dst.limit - dst.position == 0 {
        assert old(Pending()).data[0..] == old(Pending()).data;
        assert dst.data[..] == old(dst.data[..dst.position]) + [] + old(dst.data[dst.position..]);
        return 0, Nothing;
      }
      n, e := ReadSome(dst);
    }

    /** The same when there is room and the stream is open. */
    method ReadSome(dst: ByteBuffer) returns (n: int, e: Thrown)
      requires Open() && dst.Valid() && dst.position < dst.limit && dst !in Footprint() && dst.data !in Footprint()
      modifies Footprint(), dst`position, dst.data
      ensures Open() && Rebuffered() && dst.Valid() && (e == Nothing || e.Corrupted?)
      ensures e.Corrupted? ==> old(Pending()) == Outcome([], Some(e.error)) && Remaining() == old(Salvage())
      ensures e == Nothing && n == -1 ==> old(Pending()) == Pending() == Outcome([], None)
      ensures e == Nothing && n != -1 ==>
                && Delivered(old(Pending()), n, Pending()) && old(dst.position) + n == dst.position
                && dst.data[..] == old(dst.data[..dst.position]) + old(Pending()).data[..n]
                  + old(dst.data[dst.position + n..])
      ensures match old(Ahead())
              case AtEnd => e == Nothing && n == -1
              case Bad(x) => e == Corrupted(x)
              case Block(d, _) => e == Nothing && n == Min(dst.limit - old(dst.position), |d|)
      ensures e == Nothing ==> old(Empties()) == Empties() + if old(EmptyAhead()) then 1 else 0
      ensures Settled(e == Nothing)
    {
      hide Pooled, Objects, Lawful, DecodeFrames, NextBlock, FitsAll, EmptyChunks, Resumed, Salvage, Remaining,
        MisfitAhead, Pending, Ahead, EmptyAhead, Delivered, Buffered;
      var r := Ensure();
      match r
      case Ended => return -1, Nothing;
      case Failed(x) => return 0, Corrupted(x);
      case Supplied =>
        n := PutOut(dst);
        return n, Nothing;
    }

    /** `dst.put(buffer, position, size)` with the largest size that both sides allow. */
    method PutOut(dst: ByteBuffer) returns (size: nat)
      requires Open() && Loaded() && dst.Valid() && dst !in Footprint() && dst.data !in Footprint()
      modifies this`position, dst`position, dst.data
      ensures Open() && dst.Valid() && dst.position == old(dst.position) + size
      ensures size == Min(dst.limit - old(dst.position), |old(Buffered())|)
      ensures Delivered(old(Pending()), size, Pending())
      ensures dst.data[..]
                == old(dst.data[..dst.position]) + old(Pending()).data[..size] + old(dst.data[dst.position + size..])
    {
      hide Lawful, DecodeFrames, Prepend, Delivered, Pooled, Objects, Footprint;
      size := Min(dst.limit - dst.position, Available());
      CopyOut(dst.data, dst.position, size);
      dst.position := dst.position + size;
    }

    /** `transferTo(OutputStream)`: everything still to come, in one call. */
    method TransferTo(os: Sink) returns (total: nat, e: Thrown)
      requires closed || Open()
      requires !closed ==> os !in Footprint()
      modifies if closed then {} else Footprint(), os`bytes
      ensures e == ChannelClosed <==> old(closed)
      ensures old(closed) ==> os.bytes == old(os.bytes)
      ensures !old(closed) ==>
                Open() && Rebuffered() && os.bytes == old(os.bytes) + old(Pending()).data
                  && total == |old(Pending()).data|
      ensures e == Nothing ==> old(Pending()).error == None && Pending() == Outcome([], None) && rbc.rest == []
      ensures !old(closed) ==> Settled(e == Nothing)
      ensures e == Nothing || e == ChannelClosed || (e.Corrupted? && old(Pending()).error == Some(e.error))
      ensures e.Corrupted? ==> Remaining() == old(Salvage())
    {
      hide Pooled, Objects, Lawful, DecodeFrames, NextBlock, FitsAll, EmptyChunks, Resumed, Prepend, Salvage, Remaining;
      if closed {
        return 0, ChannelClosed;
      }
      ghost var all := Pending();
      var r;
      total, r := PumpAll(os);
      assert all.data == Outcome(all.data, all.error).data;
      e := if r.Failed? then Corrupted(r.error) else Nothing;
    }

    /** The loop. */
    method PumpAll(os: Sink) returns (total: nat, r: Supply)
      requires Open() && os !in Footprint()
      modifies Footprint(), os`bytes
      ensures Open() && Rebuffered() && r != Supplied
      ensures os.bytes == old(os.bytes) + old(Pending()).data && total == |old(Pending()).data|
      ensures old(Pending()).error == if r.Failed? then Some(r.error) else None
      ensures r == Ended ==> Pending() == Outcome([], None) && rbc.rest == []
      ensures r.Failed? ==> Remaining() == old(Salvage())
      ensures Settled(r == Ended)
    {
      hide Pooled, Objects, Lawful, DecodeFrames, NextBlock, FitsAll, EmptyChunks, Resumed, Prepend, Salvage,
        Remaining, Pending, Buffered;
      total, r := 0, Supplied;
      ghost var all, rest, done, written := Pending(), Pending(), [], os.bytes;
      PrependNothing(all);
      while r == Supplied
        invariant Open() && Rebuffered() && os !in Footprint() && Settled(!r.Failed?)
        invariant all == Prepend(done, rest)
        invariant rest == if r.Failed? then Outcome([], Some(r.error)) else Pending()
        invariant r == Ended ==> rest == Outcome([], None) && rbc.rest == []
        invariant if r.Failed? then Remaining() == old(Salvage()) else r == Supplied ==> Salvage() == old(Salvage())
        invariant total == |done| && os.bytes == written + done
        decreases r == Supplied, |rbc.rest|, |Buffered()|
      {
        var available;
        ghost var b;
        r, available, b, rest := Pump(os);
        PrependTwice(done, b, rest);
        assert written + done + b == written + (done + b);
        done, total := done + b, total + available;
      }
      PrependToEnd(done, rest.error);
    }

    /** The loop condition and body: finds a block and writes it. */
    method Pump(os: Sink) returns (r: Supply, available: nat, ghost b: Bytes, ghost rest: Outcome)
      requires Open() && os !in Footprint()
      modifies Footprint(), os`bytes
      ensures Open() && Rebuffered() && Settled(!r.Failed?) && available == |b| && os.bytes == old(os.bytes) + b
      ensures old(Pending()) == Prepend(b, rest)
      ensures rest == if r.Failed? then Outcome([], Some(r.error)) else Pending()
      ensures r == Ended ==> rest == Outcome([], None) && rbc.rest == [] && Buffered() == []
      ensures if r.Failed? then Remaining() == old(Salvage()) else r == Supplied ==> Salvage() == old(Salvage())
      ensures r == Supplied ==>
                |rbc.rest| < |old(rbc.rest)| || (rbc.rest == old(rbc.rest) && Buffered() == [] != old(Buffered()))
    {
      hide Pooled, Objects, Lawful, DecodeFrames, NextBlock, FitsAll, EmptyChunks, Resumed, Salvage, Remaining,
        MisfitAhead;
      r := Ensure();
      available, b := 0, [];
      rest := if r.Failed? then Outcome([], Some(r.error)) else Pending();
      assert os.bytes == old(os.bytes) + [];
      PrependNothing(rest);
      if r == Supplied {
        b := Buffered();
        available := WriteOut(os);
        rest := Pending();
      }
    }

    /** Writes what is buffered. */
    method WriteOut(os: Sink) returns (available: nat)
      requires Open() && Loaded() && os !in Footprint()
      modifies this`position, os`bytes
      ensures Open() && Buffered() == [] && old(Pending()) == Prepend(old(Buffered()), Pending())
      ensures os.bytes == old(os.bytes) + old(Buffered()) && available == |old(Buffered())|
      ensures Salvage() == old(Salvage())
    {
      hide Lawful, DecodeFrames;
      available := Available();
      os.Write(buffer, position, available);
      assert buffer[position..position + available] == Buffered();
      position := position + available;
      PrependNothing(DecodeFrames(k, verify, rbc.rest));
    }

    /** What `transferTo(WritableByteChannel)` comes to through a view of `capacity` bytes. */
    ghost function ViewedAhead(capacity: nat): View
      requires Open()
      reads this, pool, rbc, buffer
    {
      var v := Viewed(k, verify, rbc.rest, capacity);
      View(|Buffered()| + v.sent, v.thrown)
    }

    /** `transferTo(WritableByteChannel)`: wraps `buffer` once, before the loop.  The call throws exactly when it
        meets a block longer than that array, and that block then comes next.  Otherwise the wrapper sends what it
        shows at the place of the block, which is the block itself as long as `buffer` is the array that was wrapped. */
    method TransferToChannel(wbc: Sink) returns (total: nat, e: Thrown, ghost turns: seq<Turn>)
      requires closed || Open()
      requires !closed ==> wbc !in Footprint()
      modifies if closed then {} else Footprint(), wbc`bytes
      ensures e == ChannelClosed <==> old(closed)
      ensures e in {Nothing, IllegalArgument, ChannelClosed} || e.Corrupted?
      ensures old(closed) ==> wbc.bytes == old(wbc.bytes)
      ensures !old(closed) ==> Open() && Rebuffered() && View(total, e) == old(ViewedAhead(buffer.Length))
      // what is sent, and what there was
      ensures !old(closed) ==>
                && wbc.bytes == old(wbc.bytes) + SentBy(turns) && total == |SentBy(turns)| && Plausible(turns)
                && old(Pending())
                   == Prepend(BlocksOf(turns), if e.Corrupted? then Outcome([], Some(e.error)) else Pending())
      ensures !old(closed) && turns != [] ==> old(FirstTurn(turns[0]))
      ensures !old(closed) && old(Fits()) ==> AllInPlace(turns) && e != IllegalArgument
      // what is left
      ensures e == Nothing ==> Pending() == Outcome([], None) && rbc.rest == []
      ensures e == IllegalArgument ==> old(buffer.Length) < |Buffered()|
      ensures e.Corrupted? ==> Remaining() == old(Salvage())
      ensures !old(closed) && !e.Corrupted? ==> Empties() <= old(Empties())
      ensures !old(closed) ==> Settled(e == Nothing)
    {
      hide Pooled, Lawful, DecodeFrames, NextBlock, FitsAll, EmptyChunks, Resumed, Prepend, Remaining, Salvage, Viewed;
      hide Plausible, AllInPlace, SentBy, BlocksOf, FirstTurn;
      if closed {
        return 0, ChannelClosed, [];
      }
      var bb := new ByteBuffer(buffer, buffer.Length);
      total, e, turns := PumpAllThrough(bb, wbc);
    }

    /** What is sent for the block just read is what the view shows at its place, and that is the block if the view is
        of the buffer. */
    ghost predicate Shows(bb: ByteBuffer, t: Turn)
      reads this, bb.data
      ensures Shows(bb, t) ==>
                |t.block| == |t.sent| && t.inPlace == (bb.data == buffer) && (t.inPlace ==> t.sent == t.block)
    {
      && |t.block| == |t.sent| <= valid <= bb.data.Length && t.sent == bb.data[valid - |t.block|..valid]
      && t.inPlace == (bb.data == buffer) && (t.inPlace ==> t.sent == t.block)
    }

    /** The block that a call sends first.  When it brought an array of another size with it, the old array is still
        what is wrapped, and it shows what it did. */
    ghost predicate FirstTurn(t: Turn)
      requires Open()
      reads this, pool, rbc, buffer
    {
      && Ahead().Block? && t.block == Ahead().data
      && (Buffered() == [] && MisfitAhead() ==>
            || t.inPlace
            || (|t.sent| <= buffer.Length && t.sent == buffer[..][..|t.sent|]))
      && (Buffered() == [] && ForcedOut() ==> !t.inPlace)
    }

    /** The loop. */
    method PumpAllThrough(bb: ByteBuffer, wbc: Sink) returns (total: nat, e: Thrown, ghost turns: seq<Turn>)
      requires Open() && wbc !in Footprint() && bb !in Footprint() && bb.data == buffer
      modifies Footprint(), wbc`bytes, bb
      ensures Open() && Rebuffered() && (e in {Nothing, IllegalArgument} || e.Corrupted?)
      ensures View(total, e) == old(ViewedAhead(bb.data.Length))
      ensures wbc.bytes == old(wbc.bytes) + SentBy(turns) && total == |SentBy(turns)| && Plausible(turns)
      ensures old(Pending()) == Prepend(BlocksOf(turns), if e.Corrupted? then Outcome([], Some(e.error)) else Pending())
      ensures turns != [] ==> old(FirstTurn(turns[0]))
      ensures old(Fits()) ==> AllInPlace(turns) && e != IllegalArgument
      ensures e == Nothing ==> Pending() == Outcome([], None) && rbc.rest == []
      ensures e == IllegalArgument ==> bb.data.Length < |Buffered()|
      ensures e.Corrupted? ==> Remaining() == old(Salvage())
      ensures !e.Corrupted? ==> Empties() <= old(Empties())
      ensures Settled(e == Nothing)
    {
      hide Pooled, Objects, Lawful, DecodeFrames, NextBlock, FitsAll, EmptyChunks, Resumed, Prepend, Pending, Viewed,
        Remaining;
      hide After, ViewedAhead, Salvage, Fits, Buffered, FirstTurn, Plausible, AllInPlace, SentBy, BlocksOf, Shows;
      BufferedFits();
      total, turns := 0, [];
      ghost var all, rest, written, fits, view := Pending(), Pending(), wbc.bytes, Fits(), ViewedAhead(bb.data.Length);
      PrependNothing(all);
      NoTurns();
      AfterTwice(Supplied, 0, 0, view);
      var r := Supplied;
      while r == Supplied
        invariant Open() && Rebuffered() && wbc !in Footprint() && bb !in Footprint() && Settled(!r.Failed?)
        invariant r == Supplied && Buffered() != [] ==> valid <= bb.data.Length
        invariant fits ==> bb.data == buffer && AllInPlace(turns)
        invariant all == Prepend(BlocksOf(turns), rest) && Plausible(turns)
        invariant rest == if r.Failed? then Outcome([], Some(r.error)) else Pending()
        invariant r == Ended ==> rest == Outcome([], None) && rbc.rest == []
        invariant if r.Failed? then Remaining() == old(Salvage()) else r == Supplied ==> Salvage() == old(Salvage())
        invariant !r.Failed? ==> Empties() <= old(Empties())
        invariant view == After(r, total, ViewedAhead(bb.data.Length))
        invariant total == |SentBy(turns)| && wbc.bytes == written + SentBy(turns)
        invariant if turns != [] then old(FirstTurn(turns[0]))
                  else r == Supplied ==> bb.data == buffer && forall t :: FirstTurn(t) <==> old(FirstTurn(t))
        decreases r == Supplied, |rbc.rest|, |Buffered()|
      {
        var sent: Option<nat>;
        ghost var t;
        ghost var ahead := Ahead();
        ViewedIs(bb.data.Length, ahead);
        r, sent, t := PumpView(bb, wbc);
        if r == Supplied && sent.Some? {
          ViewedNow(bb.data.Length);
        }
        AfterTwice(r, total, if sent.Some? then sent.value else 0, ViewedAhead(bb.data.Length));
        if sent == None {
          BufferedFits();
          return total, IllegalArgument, turns;
        }
        if r == Supplied {
          MoreTurns(turns, t, written, all, Pending());
          turns, total := turns + [t], total + sent.value;
        }
        rest := if r.Failed? then Outcome([], Some(r.error)) else Pending();
      }
      AfterTwice(r, total, 0, ViewedAhead(bb.data.Length));
      e := if r.Failed? then Corrupted(r.error) else Nothing;
    }

    lemma ViewedIs(capacity: nat, ahead: Block)
      requires Open() && (Buffered() != [] ==> valid <= capacity) && ahead == Ahead()
      ensures ViewedAhead(capacity) == ViewOf(k, verify, ahead, capacity)
    {
      hide NextBlock, Lawful, Viewed;
      UnfoldViewed(k, verify, Buffered(), rbc.rest, ahead, capacity);
    }

    lemma ViewedNow(capacity: nat)
      requires Open() && Buffered() == []
      ensures ViewedAhead(capacity) == Viewed(k, verify, rbc.rest, capacity)
    {
      hide Viewed, Lawful;
    }

    lemma BufferedFits()
      requires Open()
      ensures Buffered() != [] ==> valid <= buffer.Length
      ensures |Buffered()| <= valid && |Buffered()| <= buffer.Length
    {}

    /** The loop condition and body, writing through the view `bb`; `None` is the exception of a limit beyond
        the view's capacity.  The view need not be `buffer` any more: it sends the block exactly if it shows the block
        at that place. */
    method PumpView(bb: ByteBuffer, wbc: Sink) returns (r: Supply, sent: Option<nat>, ghost t: Turn)
      requires Open() && wbc !in Footprint() && bb !in Footprint()
      requires Buffered() != [] ==> valid <= bb.data.Length
      modifies Footprint(), wbc`bytes, bb
      ensures Open() && Rebuffered()
      ensures match old(Ahead())
              case AtEnd => r == Ended && sent == Some(0)
              case Bad(x) => r == Failed(x) && sent == Some(0)
              case Block(d, rest) =>
                && r == Supplied && rbc.rest == rest && sent == (if bb.data.Length < |d| then None else Some(|d|))
                && if sent == None then Buffered() == d && Pending() == old(Pending())
                   else
                     && Buffered() == [] && old(Pending()) == Prepend(d, Pending())
                     && t.block == d && Shows(bb, t)
      ensures wbc.bytes == old(wbc.bytes) + if r == Supplied && sent.Some? then t.sent else []
      ensures r == Supplied && sent.Some? && bb.data == old(buffer) ==> old(FirstTurn(t))
      ensures r.Failed? ==> old(Pending()) == Outcome([], Some(r.error)) && Remaining() == old(Salvage())
      ensures r == Ended ==> old(Pending()) == Pending() == Outcome([], None) && rbc.rest == []
      ensures r == Supplied ==> Salvage() == old(Salvage())
      ensures r == Supplied && sent.Some? ==>
                |rbc.rest| < |old(rbc.rest)| || (rbc.rest == old(rbc.rest) && Buffered() == [] != old(Buffered()))
      ensures !r.Failed? ==> Empties() <= old(Empties())
      ensures Settled(!r.Failed?)
    {
      hide Pooled, Objects, Lawful, DecodeFrames, NextBlock, FitsAll, EmptyChunks, Resumed, Misfit, Remaining, Salvage;
      hide Footprint, Pending, Prepend, NextOutput, Buffers, Viewed, Shows;
      BufferedFits();
      r := Ensure();
      sent, t := Some(0), Turn([], [], false);
      assert wbc.bytes == old(wbc.bytes) + [];
      PrependNothing(Pending());
      if r == Supplied {
        sent, t := WriteView(bb, wbc);
      }
    }

    method WriteView(bb: ByteBuffer, wbc: Sink) returns (sent: Option<nat>, ghost t: Turn)
      requires Open() && Loaded() && wbc !in Footprint() && bb !in Footprint()
      modifies this`position, wbc`bytes, bb
      ensures Open()
      ensures sent == None <==> bb.data.Length < valid
      ensures sent == None ==>
                wbc.bytes == old(wbc.bytes) && Buffered() == old(Buffered()) && Pending() == old(Pending())
      ensures sent.Some? ==>
                && Buffered() == [] && old(Pending()) == Prepend(old(Buffered()), Pending())
                && sent.value == |t.sent| && wbc.bytes == old(wbc.bytes) + t.sent
                && t.block == old(Buffered()) && Shows(bb, t)
                && (old(position) == 0 ==> |t.sent| <= bb.data.Length && t.sent == bb.data[..][..|t.sent|])
      ensures Salvage() == old(Salvage())
    {
      hide Lawful, DecodeFrames, Pooled, Objects;
      ghost var before, later := Buffered(), DecodeFrames(k, verify, rbc.rest);
      PrependNothing(later);
      bb.Clear();
      var available := Available();
      if position + available > bb.data.Length {
        return None, Turn([], [], false);
      }
      bb.position, bb.limit := position, position + available;
      t := Turn(before, bb.data[position..position + available], bb.data == buffer);
      wbc.Write(bb.data, bb.position, available);
      bb.position := bb.limit;
      var written := bb.position - position;
      position := position + written;
      assert Buffered() == [];
      return Some(written), t;
    }

    /** `close`: the buffers go back once, and no field names them afterwards. */
    method Close()
      requires closed || Open()
      modifies if closed then {this} else Footprint(), rbc`closed
      ensures closed && rbc.closed && rbc.rest == old(rbc.rest)
      ensures old(closed) ==> unchanged(this)
      ensures !old(closed) ==>
                && input == null && direct == null && buffer == null
                && pool.held == old(pool.held - {input, direct, buffer})
    {
      hide BufferPool.Valid;
      rbc.Close();
      if !closed {
        closed := true;
        pool.ReleaseDirect(input);
        input := null;
        pool.ReleaseDirect(direct);
        direct := null;
        pool.ReleaseArray(buffer);
        buffer := null;
      }
    }
  }

  /** How many bytes `transferTo(WritableByteChannel)` sends, and how it ends. */
  datatype View = View(sent: nat, thrown: Thrown)

  /** Both, for the blocks of `src` through a view of `capacity` bytes. */
  ghost function Viewed(k: Snappy, verify: bool, src: Bytes, capacity: nat): View
    decreases |src|
  {
    match NextBlock(k, verify, src)
    case AtEnd => View(0, Nothing)
    case Bad(x) => View(0, Corrupted(x))
    case Block(d, rest) =>
      if capacity < |d| then View(0, IllegalArgument)
      else
        var v := Viewed(k, verify, rest, capacity);
        View(|d| + v.sent, v.thrown)
  }

  ghost function ViewOf(k: Snappy, verify: bool, ahead: Block, capacity: nat): View {
    match ahead
    case AtEnd => View(0, Nothing)
    case Bad(x) => View(0, Corrupted(x))
    case Block(d, rest) =>
      if capacity < |d| then View(0, IllegalArgument) else After(Supplied, |d|, Viewed(k, verify, rest, capacity))
  }

  lemma UnfoldViewed(k: Snappy, verify: bool, buffered: Bytes, src: Bytes, ahead: Block, capacity: nat)
    requires |buffered| <= capacity
    requires ahead == if buffered != [] then Block(buffered, src) else NextBlock(k, verify, src)
    ensures After(Supplied, |buffered|, Viewed(k, verify, src, capacity)) == ViewOf(k, verify, ahead, capacity)
  {
    hide NextBlock;
  }

  /** The same once `total` bytes are sent, with `ahead` still to come unless that was all. */
  function After(r: Supply, total: nat, ahead: View): View {
    match r
    case Supplied => View(total + ahead.sent, ahead.thrown)
    case Ended => View(total, Nothing)
    case Failed(x) => View(total, Corrupted(x))
  }

  /** An example: a chunk longer than the array that is wrapped at the call. */
  lemma LongChunk(k: Snappy, verify: bool, data: Bytes, rest: Bytes, capacity: nat)
    requires capacity < |data| && |data| + 4 < 0x100_0000
    ensures Viewed(k, verify, Chunk(UNCOMPRESSED_DATA_FLAG, MaskedCrc(data), data) + rest, capacity)
              == View(0, IllegalArgument)
  {
    hide NextBlock, Chunk, MaskedCrc;
    NextBlockOfChunk(k, verify, false, MaskedCrc(data), data, rest);
  }

  /** The same with numbers: for the example kernel, a new reader's array has 81920 bytes. */
  lemma LongChunkExample(verify: bool)
    ensures Lawful(TagKernel)
    ensures
      var data: Bytes := seq(81921, _ => 7);
      var s := Chunk(UNCOMPRESSED_DATA_FLAG, MaskedCrc(data), data);
      && Decode(TagKernel, verify, HEADER + s) == Outcome(data, None)
      && AdjustSize(TagKernel.maxCompressedLength(MAX_BLOCK_SIZE + 5)) == 81920
      && Viewed(TagKernel, verify, s, 81920) == View(0, IllegalArgument)
  {
    hide NextBlock, Chunk, MaskedCrc, AdjustSize;
    TagKernelIsLawful();
    var data: Bytes := seq(81921, _ => 7);
    var s := Chunk(UNCOMPRESSED_DATA_FLAG, MaskedCrc(data), data);
    assert s + [] == s && (HEADER + s)[|HEADER|..] == s && data + [] == data;
    LongChunk(TagKernel, verify, data, [], 81920);
    NextBlockOfChunk(TagKernel, verify, false, MaskedCrc(data), data, []);
    DecodeNothing(TagKernel, verify);
    AdjustSizeClass(65542);
  }

  lemma AfterTwice(r: Supply, total: nat, sent: nat, ahead: View)
    ensures After(Supplied, 0, ahead) == ahead
    ensures After(Supplied, total, After(r, sent, ahead)) == After(r, total + sent, ahead)
    ensures After(Supplied, total, View(0, IllegalArgument)) == View(total, IllegalArgument)
    ensures After(Ended, total, ahead) == After(Supplied, total, View(0, Nothing)) == View(total, Nothing)
    ensures r.Failed? ==>
              After(r, total, ahead) == After(Supplied, total, View(0, Corrupted(r.error)))
                == View(total, Corrupted(r.error))
  {}

  /** One block that `transferTo(WritableByteChannel)` sends: the block, what the wrapped array showed in its place, and
      whether the wrapped array is the one that holds the block. */
  datatype Turn = Turn(block: Bytes, sent: Bytes, inPlace: bool)

  ghost predicate Plausible(turns: seq<Turn>) {
    forall t :: t in turns ==> |t.sent| == |t.block| && (t.inPlace ==> t.sent == t.block)
  }

  ghost predicate AllInPlace(turns: seq<Turn>) { forall t :: t in turns ==> t.inPlace }

  ghost function BlocksOf(turns: seq<Turn>): Bytes {
    if turns == [] then [] else BlocksOf(turns[..|turns| - 1]) + turns[|turns| - 1].block
  }

  ghost function SentBy(turns: seq<Turn>): Bytes {
    if turns == [] then [] else SentBy(turns[..|turns| - 1]) + turns[|turns| - 1].sent
  }

  /** The data arrives exactly if every block was what the wrapped array showed. */
  lemma {:induction false} SentIsRight(turns: seq<Turn>)
    requires Plausible(turns)
    ensures |SentBy(turns)| == |BlocksOf(turns)|
    ensures SentBy(turns) == BlocksOf(turns) <==> forall t :: t in turns ==> t.sent == t.block
    ensures AllInPlace(turns) ==> SentBy(turns) == BlocksOf(turns)
  {
    if turns != [] {
      var init, last := turns[..|turns| - 1], turns[|turns| - 1];
      SentIsRight(init);
      assert turns == init + [last];
      assert SentBy(turns)[..|SentBy(init)|] == SentBy(init) && SentBy(turns)[|SentBy(init)|..] == last.sent;
      assert BlocksOf(turns)[..|SentBy(init)|] == BlocksOf(init) && BlocksOf(turns)[|SentBy(init)|..] == last.block;
    }
  }

  lemma {:induction false} FirstSent(turns: seq<Turn>)
    ensures turns != [] ==> turns[0].sent <= SentBy(turns) && turns[0].block <= BlocksOf(turns)
  {
    if 1 < |turns| {
      FirstSent(turns[..|turns| - 1]);
    }
  }

  lemma NoTurns()
    ensures Plausible([]) && AllInPlace([]) && BlocksOf([]) == SentBy([]) == []
  {}

  /** One more block is sent. */
  lemma MoreTurns(turns: seq<Turn>, t: Turn, written: Bytes, all: Outcome, after: Outcome)
    requires Plausible(turns) && |t.sent| == |t.block| && (t.inPlace ==> t.sent == t.block)
    requires all == Prepend(BlocksOf(turns), Prepend(t.block, after))
    ensures Plausible(turns + [t]) && all == Prepend(BlocksOf(turns + [t]), after)
    ensures AllInPlace(turns + [t]) <==> AllInPlace(turns) && t.inPlace
    ensures |SentBy(turns + [t])| == |SentBy(turns)| + |t.sent|
    ensures written + SentBy(turns + [t]) == written + SentBy(turns) + t.sent
    ensures (turns + [t])[0] == if turns == [] then t else turns[0]
  {
    hide Prepend;
    assert (turns + [t])[..|turns|] == turns;
    PrependTwice(BlocksOf(turns), t.block, after);
  }

  /** The declared length of a compressed body fits an output buffer of the given capacity. */
  ghost predicate FitsOutput(k: Snappy, body: Bytes, capacity: nat) {
    k.uncompressedLength(body).Some? ==> k.uncompressedLength(body).value <= capacity
  }

  /** A data chunk that fits the present buffers, so that reading it reallocates nothing. */
  ghost predicate FitsChunk(k: Snappy, action: Action, length: nat, src: Bytes, inputCapacity: nat, outputCapacity: nat)
    requires 5 <= length
  {
    && length <= inputCapacity
    && (action == Uncompress && length <= |src| ==> FitsOutput(k, src[4..length], outputCapacity))
  }

  lemma RawPayload(k: Snappy, body: Bytes)
    ensures Payload(k, Raw, body) == Data(body)
  {}

  /** The next data chunk of the stream, if there is one, fits the present buffers. */
  ghost predicate FitsNext(k: Snappy, src: Bytes, inputCapacity: nat, outputCapacity: nat)
    decreases |src|
  {
    |src| < 4 ||
    match FrameMeta(src[..4])
    case BadMeta(_) => true
    case Meta(action, length) =>
      if action == Skip then FitsNext(k, src[Min(4 + length, |src|)..], inputCapacity, outputCapacity)
      else FitsChunk(k, action, length, src[4..], inputCapacity, outputCapacity)
  }

  ghost predicate FitsAll(k: Snappy, verify: bool, src: Bytes, inputCapacity: nat, outputCapacity: nat)
    decreases |src|
  {
    && FitsNext(k, src, inputCapacity, outputCapacity)
    && match NextBlock(k, verify, src)
       case Block(_, rest) => FitsAll(k, verify, rest, inputCapacity, outputCapacity)
       case _ => true
  }

  lemma FitsNothing(k: Snappy, verify: bool, inputCapacity: nat, outputCapacity: nat)
    ensures FitsAll(k, verify, [], inputCapacity, outputCapacity)
  {}

  /** One step of the pure decoder and of `FitsNext`. */
  lemma UnfoldNext(k: Snappy, verify: bool, src: Bytes, inputCapacity: nat, outputCapacity: nat)
    ensures src == [] ==> NextBlock(k, verify, src) == AtEnd
    ensures 0 < |src| < 4 ==> NextBlock(k, verify, src) == Bad(BlockHeaderEof)
    ensures 4 <= |src| ==>
              match FrameMeta(src[..4])
              case BadMeta(x) => NextBlock(k, verify, src) == Bad(x)
              case Meta(action, length) =>
                if action == Skip then
                  var after := src[Min(4 + length, |src|)..];
                  && NextBlock(k, verify, src) == NextBlock(k, verify, after)
                  && NextBlock(k, false, src) == NextBlock(k, false, after)
                  && FitsNext(k, src, inputCapacity, outputCapacity)
                    == FitsNext(k, after, inputCapacity, outputCapacity)
                else
                  && NextBlock(k, verify, src) == BlockOf(k, verify, action, length, src)
                  && NextBlock(k, false, src) == BlockOf(k, false, action, length, src)
                  && FitsNext(k, src, inputCapacity, outputCapacity)
                    == FitsChunk(k, action, length, src[4..], inputCapacity, outputCapacity)
  {}

  /** The next chunk is a data chunk that does not fit the present buffers. */
  ghost predicate Misfit(k: Snappy, src: Bytes, inputCapacity: nat, outputCapacity: nat) {
    && 4 <= |src| && FrameMeta(src[..4]).Meta? && FrameMeta(src[..4]).action != Skip
    && !FitsChunk(k, FrameMeta(src[..4]).action, FrameMeta(src[..4]).length, src[4..], inputCapacity, outputCapacity)
  }

  /** The size of the output buffers that come with an input buffer for `size` bytes. */
  function OutputSize(k: Snappy, size: nat): nat
    requires 0 < size < 0x100_0000
  {
    assert BoundLaw(k);
    AdjustSize(k.maxCompressedLength(size))
  }

  /** The output capacity once `body` is decompressed. */
  ghost function Grown(k: Snappy, body: Bytes, capacity: nat): nat {
    if FitsOutput(k, body, capacity) then capacity
    else
      UncompressLawHolds(k, body);
      AdjustSize(k.uncompressedLength(body).value)
  }

  /** The same once a whole data chunk is read. */
  ghost function ChunkOutput(k: Snappy, action: Action, length: nat, src: Bytes, inputCapacity: nat,
                             outputCapacity: nat): nat
    requires 5 <= length < 0x100_0000 && length <= |src|
  {
    var capacity := if length <= inputCapacity then outputCapacity else OutputSize(k, length);
    if action == Uncompress then Grown(k, src[4..length], capacity) else capacity
  }

  /** The same for the next data chunk of a stream. */
  ghost function NextOutput(k: Snappy, src: Bytes, inputCapacity: nat, outputCapacity: nat): nat
    decreases |src|
  {
    if |src| < 4 then outputCapacity
    else match FrameMeta(src[..4])
      case BadMeta(_) => outputCapacity
      case Meta(action, length) =>
        if action == Skip then NextOutput(k, src[Min(4 + length, |src|)..], inputCapacity, outputCapacity)
        else if |src| < 4 + length then outputCapacity
        else ChunkOutput(k, action, length, src[4..], inputCapacity, outputCapacity)
  }

  lemma UnfoldOutput(k: Snappy, src: Bytes, inputCapacity: nat, outputCapacity: nat)
    requires 4 <= |src| && FrameMeta(src[..4]).Meta?
    ensures
      var m := FrameMeta(src[..4]);
      if m.action == Skip then
        NextOutput(k, src, inputCapacity, outputCapacity)
          == NextOutput(k, src[Min(4 + m.length, |src|)..], inputCapacity, outputCapacity)
      else
        4 + m.length <= |src| ==>
          NextOutput(k, src, inputCapacity, outputCapacity)
          == ChunkOutput(k, m.action, m.length, src[4..], inputCapacity, outputCapacity)
  {
    hide ChunkOutput, FrameMeta, Lawful;
  }

  /** One step of what is left and what is kept after a look for a block. */
  lemma UnfoldAfter(k: Snappy, src: Bytes, inputCapacity: nat, outputCapacity: nat)
    ensures RestAfter([]) == []
    ensures |src| < 4 ==> RestAfter(src) == [] && !Misfit(k, src, inputCapacity, outputCapacity)
    ensures 4 <= |src| ==>
              match FrameMeta(src[..4])
              case BadMeta(_) =>
                RestAfter(src) == src[4..] && !Misfit(k, src, inputCapacity, outputCapacity)
              case Meta(action, length) =>
                var after := src[Min(4 + length, |src|)..];
                if action == Skip then
                  && RestAfter(src) == RestAfter(after) && !Misfit(k, src, inputCapacity, outputCapacity)
                else
                  && RestAfter(src) == after
                  && Misfit(k, src, inputCapacity, outputCapacity)
                     == !FitsChunk(k, action, length, src[4..], inputCapacity, outputCapacity)
  {
    hide FitsChunk, FrameContent, Lawful;
  }

  lemma KeptAfter(k: Snappy, x: FrameError, src: Bytes)
    ensures x != BadChecksum ==> Kept(k, x, src) == []
    ensures x == BadChecksum && NextBlock(k, false, src).Block? ==> Kept(k, x, src) == NextBlock(k, false, src).data
    ensures 4 <= |src| && FrameMeta(src[..4]).Meta? && FrameMeta(src[..4]).action == Skip ==>
              Kept(k, x, src) == Kept(k, x, src[Min(4 + FrameMeta(src[..4]).length, |src|)..])
  {
    hide FrameContent, Lawful;
  }

  ghost function BlockOf(k: Snappy, verify: bool, action: Action, length: nat, src: Bytes): Block
    requires 4 <= |src| && 4 <= length
  {
    if |src| < 4 + length then Bad(FrameEof)
    else match FrameContent(k, verify, action, src[4..4 + length])
      case Corrupt(e) => Bad(e)
      case Data(d) => Block(d, src[4 + length..])
  }

  /** The number of data chunks in a stream that decode to nothing. */
  ghost function EmptyChunks(k: Snappy, verify: bool, src: Bytes): nat
    decreases |src|
  {
    match NextBlock(k, verify, src)
    case Block(d, rest) => (if d == [] then 1 else 0) + EmptyChunks(k, verify, rest)
    case _ => 0
  }

  lemma NoEmptyChunks(k: Snappy, verify: bool)
    ensures EmptyChunks(k, verify, []) == 0
  {}

  lemma {:induction false} FitsNextMonotone(k: Snappy, src: Bytes, i0: nat, o0: nat, i1: nat, o1: nat)
    requires i0 <= i1 && o0 <= o1 && FitsNext(k, src, i0, o0)
    ensures FitsNext(k, src, i1, o1)
    decreases |src|
  {
    hide Lawful, FrameMeta;
    if 4 <= |src| && FrameMeta(src[..4]).Meta? && FrameMeta(src[..4]).action == Skip {
      FitsNextMonotone(k, src[Min(4 + FrameMeta(src[..4]).length, |src|)..], i0, o0, i1, o1);
    }
  }

  /** Larger buffers do no harm. */
  lemma {:induction false} FitsAllMonotone(k: Snappy, verify: bool, src: Bytes, i0: nat, o0: nat, i1: nat, o1: nat)
    requires i0 <= i1 && o0 <= o1 && FitsAll(k, verify, src, i0, o0)
    ensures FitsAll(k, verify, src, i1, o1)
    decreases |src|
  {
    hide Lawful, NextBlock, FitsNext;
    FitsNextMonotone(k, src, i0, o0, i1, o1);
    if NextBlock(k, verify, src).Block? {
      FitsAllMonotone(k, verify, NextBlock(k, verify, src).rest, i0, o0, i1, o1);
    }
  }
}
