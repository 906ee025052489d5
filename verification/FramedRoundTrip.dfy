/** Whole runs of the framed streams: any script of writes, read back by any script of reads. */
module FramedRoundTrip {
  import opened Base
  import opened Native
  import opened Crc32c
  import opened Chunking
  import opened FrameFormat
  import opened ByteIo
  import opened FramedWriter
  import opened FramedReader
  import opened Scripts
  import opened SizeClasses

  // ---------------------------------------------------------------- writing

  /** One call of a script; `ok` is false if the stream threw, which it does only on a buffer that is not small. */
  method Perform(w: FramedOutputStream, op: WriteOp) returns (ok: bool)
    requires w.Ready() && op.InRange()
    modifies w.Footprint()
    ensures w.Ready() && (op.Small() ==> ok)
    ensures ok && op.FlushNow? ==> w.segments == old(w.segments) + [old(w.Current())] && w.Current() == []
    ensures ok && !op.FlushNow? ==> w.segments == old(w.segments) && w.Current() == old(w.Current()) + op.Data()
  {
    hide EncodeSegments, EncodeSegment, WholeBlocks, Lawful, Stream;
    ok := true;
    match op
    case PutByte(b) =>
      var _ := w.WriteByte(b);
    case PutArray(whole, offset, length) =>
      var a := ToArray(whole);
      var _ := w.Write(a, offset, length);
    case PutBuffer(data) =>
      ok := PerformBuffer(w, data);
    case Transfer(data) =>
      PerformTransfer(w, data);
    case FlushNow =>
      var _ := w.Flush();
  }

  method PerformBuffer(w: FramedOutputStream, data: Bytes) returns (ok: bool)
    requires w.Ready() && |data| <= MAX_INT
    modifies w.Footprint()
    ensures w.Ready() && (|data| <= MAX_INT - 0x1_0000 ==> ok)
    ensures ok ==> w.segments == old(w.segments) && w.Current() == old(w.Current()) + data
  {
    hide EncodeSegments, EncodeSegment, WholeBlocks, Lawful, Stream, LastBoundary;
    var a := ToArray(data);
    var src := new ByteBuffer(a, a.Length);
    assert src.Remaining() == data;
    BoundaryWithin(0, w.Room(), w.blockSize, |data|);
    var s, _ := w.WriteBuffer(src);
    ok := s == Ok;
  }

  method PerformTransfer(w: FramedOutputStream, data: Bytes)
    requires w.Ready()
    modifies w.Footprint()
    ensures w.Ready() && w.segments == old(w.segments) && w.Current() == old(w.Current()) + data
  {
    hide EncodeSegments, EncodeSegment, WholeBlocks, Lawful, Stream;
    var source := new Source(data);
    var _, _ := w.TransferFrom(source);
  }

  /** A new output stream on an empty channel, with a pool of its own. */
  method NewWriter(k: Snappy, blockSize: nat, ratio: real) returns (w: FramedOutputStream)
    requires 0.0 < ratio <= 1.0 && 1 <= blockSize <= MAX_BLOCK_SIZE
    ensures w.Ready() && w.Holds() && fresh(w.Footprint()) && fresh(w.pool) && w.pool !in w.Footprint()
    ensures w.segments == [] && w.Current() == [] && w.base == []
    ensures w.k == k && w.ratio == ratio && w.blockSize == blockSize
  {
    hide Stream, EncodeSegments, EncodeSegment, WholeBlocks, Lawful, BufferPool.Valid, BufferPool.Idle,
      FramedOutputStream.Ready, FramedOutputStream.Current;
    var out := new Sink();
    var pool := new BufferPool();
    w := new FramedOutputStream(k, out, blockSize, ratio, pool);
  }

  /** Canonical framing: the bytes of a closed stream depend only on the data between flushes, not on the calls
      that wrote them. */
  method WriteScript(k: Snappy, blockSize: nat, ratio: real, ops: seq<WriteOp>) returns (bytes: Bytes, ok: bool)
    requires 0.0 < ratio <= 1.0 && 1 <= blockSize <= MAX_BLOCK_SIZE && InRange(ops)
    ensures ok ==> bytes == Stream(k, ratio, blockSize, SegmentsOf(ops))
    ensures AllSmall(ops) ==> ok
  {
    hide Stream, EncodeSegments, EncodeSegment, WholeBlocks, Lawful, FramedOutputStream.Holds,
      FramedOutputStream.Current;
    var w := NewWriter(k, blockSize, ratio);
    var out := w.out;
    for i := 0 to |ops|
      invariant w.Ready() && fresh(w.Footprint()) && w.pool !in w.Footprint() && w.Holds()
      invariant w.segments + [w.Current()] == SegmentsOf(ops[..i])
    {
      ghost var before := w.segments + [w.Current()];
      assert ops[..i + 1][..i] == ops[..i];
      ok := Perform(w, ops[i]);
      if !ok {
        return out.bytes, false;
      }
    }
    assert ops[..|ops|] == ops;
    w.Close();
    bytes, ok := out.bytes, true;
    assert bytes == [] + Stream(k, ratio, blockSize, SegmentsOf(ops));
  }

  // ---------------------------------------------------------------- reading

  /** One call on the input stream, asking for up to `length` bytes; `Drain` is `transferTo(OutputStream)`, and
      `DrainToChannel` is `transferTo(WritableByteChannel)`. */
  datatype ReadOp = GetByte | GetArray(length: nat) | GetBuffer(length: nat) | Drain | DrainToChannel
  {
    predicate Asks() { GetArray? || GetBuffer? ==> 0 < length }
  }

  /** The number of calls that ask for at least one byte. */
  function Asking(ops: seq<ReadOp>): nat {
    if ops == [] then 0 else Asking(ops[..|ops| - 1]) + if ops[|ops| - 1].Asks() then 1 else 0
  }

  lemma DeliveredIsPrepended(before: Outcome, n: nat, after: Outcome)
    requires Delivered(before, n, after)
    ensures before == Prepend(before.data[..n], after)
  {
    assert before.data == before.data[..n] + before.data[n..];
  }

  /** What one call may do to the stream `before`, with `empties` chunks of no data ahead: take the next bytes, or
      report the end, or throw what the decoder finds after all the data.  A call that asks for bytes and gets none has
      met an empty chunk, or one too long for `transferTo(WritableByteChannel)`. */
  ghost predicate Served(op: ReadOp, taken: Bytes, ended: bool, e: Option<FrameError>,
                         before: Outcome, empties: nat, after: Outcome, left: nat, fits: bool) {
    if e.Some? then before == Outcome(taken, e) && !ended
    else
      && before == Prepend(taken, after) && left <= empties && (ended ==> after == Outcome([], None))
      && (op.Asks() && (op.DrainToChannel? ==> fits) && !ended ==> taken != [] || left < empties)
  }

  /** What the caller gets for the bytes `taken` from the stream: those bytes, except that `read()` yields a byte for an
      empty chunk too, and `transferTo(WritableByteChannel)` may send others where a chunk does not fit the buffers. */
  ghost predicate Handed(op: ReadOp, got: Bytes, taken: Bytes, empties: nat, left: nat, fits: bool) {
    match op
    case GetByte => got == taken || (|got| == 1 && taken == [] && empties == left + 1)
    case DrainToChannel => |got| == |taken| && (fits ==> got == taken)
    case _ => got == taken
  }

  /** One call of a script. */
  method Serve(r: FramedInputStream, op: ReadOp)
    returns (got: Bytes, ended: bool, e: Option<FrameError>, ghost taken: Bytes)
    requires r.Open() && (op.GetArray? ==> op.length <= MAX_INT)
    modifies r.Footprint()
    ensures r.Open() && r.Rebuffered() && r.Settled(e == None)
    ensures Served(op, taken, ended, e, old(r.Pending()), old(r.Empties()), r.Pending(),
                   if e == None then r.Empties() else 0, old(r.Fits()))
    ensures Handed(op, got, taken, old(r.Empties()), if e == None then r.Empties() else 0, old(r.Fits()))
  {
    hide EmptyChunks, NextBlock, DecodeFrames, Lawful, FitsAll, FramedInputStream.Salvage;
    match op
    case GetByte =>
      got, ended, e, taken := ServeByte(r);
    case GetArray(length) =>
      got, ended, e := ServeArray(r, length);
      taken := got;
    case GetBuffer(length) =>
      got, ended, e := ServeBuffer(r, length);
      taken := got;
    case Drain =>
      got, ended, e := ServeAll(r);
      taken := got;
    case DrainToChannel =>
      got, ended, e, taken := ServeChannel(r);
  }

  method ServeByte(r: FramedInputStream)
    returns (got: Bytes, ended: bool, e: Option<FrameError>, ghost taken: Bytes)
    requires r.Open()
    modifies r.Footprint()
    ensures r.Open() && r.Rebuffered() && r.Settled(e == None)
    ensures Served(GetByte, taken, ended, e, old(r.Pending()), old(r.Empties()), r.Pending(),
                   if e == None then r.Empties() else 0, old(r.Fits()))
    ensures Handed(GetByte, got, taken, old(r.Empties()), if e == None then r.Empties() else 0, old(r.Fits()))
  {
    hide NextBlock, DecodeFrames, Lawful, FitsAll, EmptyChunks, FramedInputStream.Salvage, Pooled;
    PrependNothing(r.Pending());
    var b;
    ghost var phantom;
    b, e, phantom := ReadOne(r);
    ended := e == None && b == -1;
    got := if e == None && b != -1 then [b as byte] else [];
    taken := if phantom then [] else got;
    PrependNothing(r.Pending());
    NoEmptyChunks(r.k, r.verify);
  }

  method ServeArray(r: FramedInputStream, length: nat) returns (got: Bytes, ended: bool, e: Option<FrameError>)
    requires r.Open() && length <= MAX_INT
    modifies r.Footprint()
    ensures r.Open() && r.Rebuffered() && r.Settled(e == None)
    ensures Served(GetArray(length), got, ended, e, old(r.Pending()), old(r.Empties()), r.Pending(),
                   if e == None then r.Empties() else 0, old(r.Fits()))
  {
    hide EmptyChunks, NextBlock, DecodeFrames, Lawful, FitsAll, FramedInputStream.Salvage, Pooled;
    PrependNothing(r.Pending());
    ghost var before := r.Pending();
    var a := new byte[length];
    var n, x := r.ReadArray(a, 0, length);
    if x.Corrupted? {
      return [], false, Some(x.error);
    }
    if n == -1 {
      return [], true, None;
    }
    DeliveredIsPrepended(before, n, r.Pending());
    assert a[..] == [] + before.data[..n] + a[n..];
    assert a[..][..n] == before.data[..n];
    return a[..n], false, None;
  }

  method ServeBuffer(r: FramedInputStream, length: nat) returns (got: Bytes, ended: bool, e: Option<FrameError>)
    requires r.Open()
    modifies r.Footprint()
    ensures r.Open() && r.Rebuffered() && r.Settled(e == None)
    ensures Served(GetBuffer(length), got, ended, e, old(r.Pending()), old(r.Empties()), r.Pending(),
                   if e == None then r.Empties() else 0, old(r.Fits()))
  {
    hide EmptyChunks, NextBlock, DecodeFrames, Lawful, FitsAll, FramedInputStream.Salvage, Pooled;
    PrependNothing(r.Pending());
    ghost var before := r.Pending();
    var a := new byte[length];
    var dst := new ByteBuffer(a, length);
    var n, x := r.ReadBuffer(dst);
    if x.Corrupted? {
      return [], false, Some(x.error);
    }
    if n == -1 {
      return [], true, None;
    }
    DeliveredIsPrepended(before, n, r.Pending());
    assert a[..] == [] + before.data[..n] + a[n..];
    assert a[..][..n] == before.data[..n];
    return a[..n], false, None;
  }

  method ServeAll(r: FramedInputStream) returns (got: Bytes, ended: bool, e: Option<FrameError>)
    requires r.Open()
    modifies r.Footprint()
    ensures r.Open() && r.Rebuffered() && r.Settled(e == None)
    ensures Served(Drain, got, ended, e, old(r.Pending()), old(r.Empties()), r.Pending(),
                   if e == None then r.Empties() else 0, old(r.Fits()))
  {
    hide NextBlock, DecodeFrames, Lawful, FitsAll, EmptyChunks, FramedInputStream.Salvage;
    var os := new Sink();
    var _, x := r.TransferTo(os);
    got := os.bytes;
    assert [] + old(r.Pending()).data == old(r.Pending()).data;
    if x.Corrupted? {
      return got, false, Some(x.error);
    }
    NoEmptyChunks(r.k, r.verify);
    PrependToEnd(got, None);
    return got, true, None;
  }

  method ServeChannel(r: FramedInputStream)
    returns (got: Bytes, ended: bool, e: Option<FrameError>, ghost taken: Bytes)
    requires r.Open()
    modifies r.Footprint()
    ensures r.Open() && r.Rebuffered() && r.Settled(e == None)
    ensures Served(DrainToChannel, taken, ended, e, old(r.Pending()), old(r.Empties()), r.Pending(),
                   if e == None then r.Empties() else 0, old(r.Fits()))
    ensures Handed(DrainToChannel, got, taken, old(r.Empties()), if e == None then r.Empties() else 0, old(r.Fits()))
  {
    hide NextBlock, DecodeFrames, Lawful, FitsAll, EmptyChunks, Viewed, FramedInputStream.Salvage, Pooled;
    hide AllInPlace, Plausible;
    var wbc := new Sink();
    var _, x, turns := r.TransferToChannel(wbc);
    got, taken := wbc.bytes, BlocksOf(turns);
    SentIsRight(turns);
    assert got == [] + SentBy(turns);
    if x.Corrupted? {
      PrependToEnd(taken, Some(x.error));
      return got, false, Some(x.error), taken;
    }
    NoEmptyChunks(r.k, r.verify);
    return got, x == Nothing, None, taken;
  }

  /** The stream behind the stream identifier. */
  function Body(bytes: Bytes): Bytes { if |HEADER| <= |bytes| then bytes[|HEADER|..] else [] }

  /** A new input stream on `bytes`, with a pool of its own. */
  method NewStream(k: Snappy, verify: bool, bytes: Bytes) returns (r: FramedInputStream)
    ensures r.Open() && fresh(r.Footprint()) && r.k == k && r.verify == verify
    ensures r.rbc.rest == bytes && r.Buffered() == []
    ensures r.pool.held == {r.input, r.direct, r.buffer}
    ensures 65541 <= r.input.data.Length == AdjustSize(65541) <= r.direct.data.Length
    ensures r.buffer.Length == OutputSize(k, 65541)
  {
    hide Lawful, AdjustSize, OutputSize, BufferPool.Valid, BufferPool.Idle, Pooled, Objects, FramedInputStream.Buffered;
    var source := new Source(bytes);
    var pool := new BufferPool();
    r := new FramedInputStream(k, source, verify, pool);
  }

  /** A new input stream on `bytes`, positioned behind the stream identifier if that was found. */
  method OpenStream(k: Snappy, verify: bool, bytes: Bytes) returns (r: FramedInputStream, e: Option<FrameError>)
    ensures r.pool.held == {r.input, r.direct, r.buffer}
    ensures e == None ==> HEADER <= bytes
    ensures r.Open() && fresh(r.Footprint()) && r.k == k && r.verify == verify
    ensures 65541 <= r.input.data.Length <= r.direct.data.Length
    ensures r.input.data.Length == AdjustSize(65541) && r.buffer.Length == OutputSize(k, 65541)
    ensures HEADER <= bytes ==> e == None
    ensures e.Some? ==> Decode(k, verify, bytes) == Outcome([], e)
    ensures e == None ==> r.Pending() == Decode(k, verify, bytes) && r.rbc.rest == Body(bytes) && r.Buffered() == []
  {
    hide Decode, DecodeFrames, Lawful, Prepend, AdjustSize, FramedInputStream.Pending, FramedInputStream.Buffered;
    hide OutputSize, BufferPool.Idle, Pooled, Objects, FramedInputStream.Open;
    r := NewStream(k, verify, bytes);
    e := r.ReadStreamHeader();
  }

  /** `read()` is only asked for where no chunk is empty, and `transferTo(WritableByteChannel)` where all chunks fit. */
  predicate Suits(ops: seq<ReadOp>, noEmptyChunks: bool, allFit: bool) {
    forall i :: 0 <= i < |ops| ==> (ops[i].GetByte? ==> noEmptyChunks) && (ops[i].DrainToChannel? ==> allFit)
  }

  lemma SuitsWithout(ops: seq<ReadOp>, noEmptyChunks: bool, allFit: bool)
    ensures Suits(ops, noEmptyChunks, allFit) ==> Suits(ops, true, allFit)
  {}

  predicate InArrays(ops: seq<ReadOp>) {
    forall i :: 0 <= i < |ops| && ops[i].GetArray? ==> ops[i].length <= MAX_INT
  }

  /** A script of reads; `taken` is what it takes from the stream, and `delivered` what the caller gets. */
  method ServeScript(r: FramedInputStream, ops: seq<ReadOp>)
    returns (delivered: Bytes, ended: bool, e: Option<FrameError>, moved: bool, ghost taken: Bytes)
    requires r.Open() && InArrays(ops)
    modifies r.Footprint()
    ensures r.Open() && r.Rebuffered()
    ensures taken <= old(r.Pending()).data
    ensures e.Some? ==> old(r.Pending()) == Outcome(taken, e)
    ensures ended ==> old(r.Pending()) == Outcome(taken, None)
    ensures e == None && !ended && Suits(ops, true, old(r.Fits())) ==> Asking(ops) <= |taken| + old(r.Empties())
    ensures |taken| <= |delivered| <= |taken| + old(r.Empties())
    ensures Suits(ops, old(r.Empties()) == 0, old(r.Fits())) ==> delivered == taken
    ensures old(r.Fits()) ==> !moved
  {
    hide EmptyChunks, NextBlock, DecodeFrames, Lawful, FitsAll, Prepend, Served, Handed;
    ghost var outcome, fits, empties := r.Pending(), r.Fits(), r.Empties();
    var input, direct, buffer := r.input, r.direct, r.buffer;
    delivered, ended, e, moved, taken := [], false, None, false, [];
    PrependNothing(outcome);
    for i := 0 to |ops|
      invariant r.Open() && r.Rebuffered() && e == None && r.Empties() <= empties
      invariant outcome == Prepend(taken, r.Pending())
      invariant ended ==> r.Pending() == Outcome([], None)
      invariant !ended && Suits(ops, true, fits) ==> Asking(ops[..i]) + r.Empties() <= |taken| + empties
      invariant |taken| <= |delivered| && |delivered| + r.Empties() <= |taken| + empties
      invariant Suits(ops, empties == 0, fits) ==> delivered == taken
      invariant fits ==> r.Fits() && r.input == input && r.direct == direct && r.buffer == buffer && !moved
    {
      assert ops[..i + 1][..i] == ops[..i];
      ghost var before, left, now := r.Pending(), r.Empties(), r.Fits();
      var got, last;
      ghost var some;
      got, last, e, some := Serve(r, ops[i]);
      moved := r.input != input || r.direct != direct || r.buffer != buffer;
      ghost var left' := if e == None then r.Empties() else 0;
      ServedNext(ops[i], some, last, e, before, left, r.Pending(), left', now, outcome, taken);
      HandedNext(ops[i], got, some, left, left', now);
      if e.Some? {
        return delivered + got, ended, e, moved, taken + some;
      }
      if ended { EndStays(some, before, r.Pending()); }
      delivered, ended, taken := delivered + got, ended || last, taken + some;
    }
    assert ops[..|ops|] == ops;
    PrependToEnd(taken, None);
    PrefixOfPrepend(taken, r.Pending());
  }

  lemma ServedNext(op: ReadOp, some: Bytes, ended: bool, e: Option<FrameError>, before: Outcome, empties: nat,
                   after: Outcome, left: nat, fits: bool, outcome: Outcome, taken: Bytes)
    requires Served(op, some, ended, e, before, empties, after, left, fits) && outcome == Prepend(taken, before)
    ensures if e.Some? then outcome == Outcome(taken + some, e) && before.error == e
            else
              && outcome == Prepend(taken + some, after) && before == Prepend(some, after) && left <= empties
              && (ended ==> after == Outcome([], None))
              && (op.Asks() && (op.DrainToChannel? ==> fits) && !ended ==> 1 + left <= |some| + empties)
  {
    PrependTwice(taken, some, if e.Some? then Outcome([], e) else after);
    if e.Some? {
      PrependToEnd(some, e);
      PrependToEnd(taken + some, e);
    }
  }

  lemma HandedNext(op: ReadOp, got: Bytes, some: Bytes, empties: nat, left: nat, fits: bool)
    requires Handed(op, got, some, empties, left, fits) && left <= empties
    ensures |some| <= |got| && |got| + left <= |some| + empties
    ensures (op.GetByte? ==> empties == 0) && (op.DrainToChannel? ==> fits) ==> got == some
  {}

  lemma PrefixOfPrepend(a: Bytes, o: Outcome)
    ensures a <= Prepend(a, o).data
  {}

  lemma EndStays(got: Bytes, before: Outcome, after: Outcome)
    requires before == Prepend(got, after) == Outcome([], None)
    ensures after == Outcome([], None)
  {}

  /** Refinement: any script of reads under any schedule of short reads takes a prefix of the decoded stream: all of it
      once the end is reported, and all there is before the error that the decoder finds; short of either, every call
      that asks for bytes takes some or has met an empty chunk.  The caller gets exactly what is taken unless `read()`
      meets an empty chunk or `transferTo(WritableByteChannel)` one that does not fit.  `moved` tells whether a buffer
      was exchanged on the way.  Closing, even twice, leaves nothing with the stream that it took from the pool; a
      constructor that throws does not get that far. */
  method ReadScript(k: Snappy, verify: bool, bytes: Bytes, ops: seq<ReadOp>)
    returns (delivered: Bytes, ended: bool, e: Option<FrameError>, moved: bool, ghost taken: Bytes,
             ghost kept: set<object>)
    requires InArrays(ops)
    ensures kept == {} <==> HEADER <= bytes
    ensures taken <= Decode(k, verify, bytes).data
    ensures e.Some? ==> Decode(k, verify, bytes) == Outcome(taken, e)
    ensures ended ==> Decode(k, verify, bytes) == Outcome(taken, None)
    ensures |taken| <= |delivered| <= |taken| + EmptyChunks(k, verify, Body(bytes))
    ensures
      var empties, fits := EmptyChunks(k, verify, Body(bytes)), FitsAll(k, verify, Body(bytes), 65541, 65541);
      && (Suits(ops, empties == 0, fits) ==> delivered == taken)
      && (e == None && !ended && Suits(ops, true, fits) ==> Asking(ops) <= |taken| + empties)
    ensures
      var empties, fits := EmptyChunks(k, verify, Body(bytes)), FitsAll(k, verify, Body(bytes), 65541, 65541);
      && (fits ==> !moved)
      && (Suits(ops, empties == 0, fits) ==>
            && delivered <= Decode(k, verify, bytes).data
            && (e.Some? ==> Decode(k, verify, bytes) == Outcome(delivered, e))
            && (ended ==> Decode(k, verify, bytes) == Outcome(delivered, None))
            && (e == None && !ended ==> Asking(ops) <= |delivered| + empties))
  {
    hide EmptyChunks, NextBlock, DecodeFrames, Lawful, FitsAll, Pooled;
    var r;
    r, e := OpenStream(k, verify, bytes);
    if e.Some? {
      assert r.input in r.pool.held;
      return [], false, e, false, [], r.pool.held;
    }
    if FitsAll(k, verify, r.rbc.rest, 65541, 65541) {
      FitsAllMonotone(k, verify, r.rbc.rest, 65541, 65541, r.input.data.Length, r.direct.data.Length);
    }
    delivered, ended, e, moved, taken := ServeScript(r, ops);
    SuitsWithout(ops, EmptyChunks(k, verify, Body(bytes)) == 0, FitsAll(k, verify, Body(bytes), 65541, 65541));
    kept := CloseTwice(r);
  }

  method CloseTwice(r: FramedInputStream) returns (ghost kept: set<object>)
    requires r.Open()
    modifies r.Footprint()
    ensures r.closed && kept == old(r.pool.held - {r.input, r.direct, r.buffer})
  {
    ghost var pool := r.pool;
    r.Close();
    r.Close();
    kept := pool.held;
  }

  /** A caller who reads on after a rejected checksum gets the rejected data, and then what follows it. */
  method ReadOn(r: FramedInputStream, crc: bv32, data: Bytes, rest: Bytes, a: array<byte>)
    returns (first: Thrown, second: Thrown, n: int)
    requires r.Open() && r.verify && r.Buffered() == [] && a !in r.Footprint()
    requires 1 <= |data| <= a.Length <= MAX_INT && |data| + 4 < 0x100_0000 && crc != MaskedCrc(data)
    requires r.rbc.rest == Chunk(UNCOMPRESSED_DATA_FLAG, crc, data) + rest
    modifies r.Footprint(), a
    ensures r.Open() && first == Corrupted(BadChecksum)
    ensures second == Nothing && n == |data| && a[..n] == data
    ensures r.Pending() == DecodeFrames(r.k, true, rest)
  {
    hide NextBlock, DecodeFrames, Lawful, FitsAll, EmptyChunks, Resumed, Chunk, MaskedCrc;
    DamageIsKept(r.k, crc, data, rest);
    var m;
    m, first := r.ReadArray(a, 0, a.Length);
    ghost var before := r.Pending();
    n, second := r.ReadArray(a, 0, a.Length);
    assert before.data[..n] == data;
    assert before.data[n..] == DecodeFrames(r.k, true, rest).data;
  }

  /** One raw chunk and nothing behind it. */
  lemma RawChunk(k: Snappy, verify: bool, data: Bytes, inputCapacity: nat, outputCapacity: nat)
    requires 1 <= |data| && |data| + 4 < 0x100_0000
    ensures
      var s := Chunk(UNCOMPRESSED_DATA_FLAG, MaskedCrc(data), data);
      && 4 <= |s| && FrameMeta(s[..4]) == Meta(Raw, |data| + 4)
      && NextBlock(k, verify, s) == Block(data, []) && DecodeFrames(k, verify, s) == Outcome(data, None)
      && (FitsAll(k, verify, s, inputCapacity, outputCapacity) <==> |data| + 4 <= inputCapacity)
      && (Misfit(k, s, inputCapacity, outputCapacity) <==> inputCapacity < |data| + 4)
      && NextOutput(k, s, inputCapacity, outputCapacity)
         == (if |data| + 4 <= inputCapacity then outputCapacity else OutputSize(k, |data| + 4))
      && forall capacity: nat :: Viewed(k, verify, s, capacity) ==
                                 if capacity < |data| then View(0, Thrown.IllegalArgument) else View(|data|, Nothing)
  {
    hide MaskedCrc, Chunk, PutInt, GetInt, PutLength, GetLength, Lawful, NextBlock;
    var s := Chunk(UNCOMPRESSED_DATA_FLAG, MaskedCrc(data), data);
    assert s + [] == s && data + [] == data;
    ChunkParts(UNCOMPRESSED_DATA_FLAG, MaskedCrc(data), data, []);
    NextBlockOfChunk(k, verify, false, MaskedCrc(data), data, []);
    RawPayload(k, data);
    DecodeNothing(k, verify);
    FitsNothing(k, verify, inputCapacity, outputCapacity);
  }

  /** `transferTo(WritableByteChannel)` on an intact stream that consists of one raw chunk.  Without an exception, and
      with `total` as announced, it sends what the array held before the call unless the chunk fits the buffers or the
      pool hands the same array back; it cannot hand it back if the longer `input` comes with an array of another
      size. */
  method SendRawChunk(r: FramedInputStream, data: Bytes, wbc: Sink) returns (total: nat, e: Thrown, ghost same: bool)
    requires r.Open() && r.Buffered() == [] && wbc !in r.Footprint() && 1 <= |data| && |data| + 4 < 0x100_0000
    requires r.rbc.rest == Chunk(UNCOMPRESSED_DATA_FLAG, MaskedCrc(data), data)
    modifies r.Footprint(), wbc`bytes
    ensures r.Open() && old(r.Pending()) == Outcome(data, None)
    ensures e == (if |data| <= old(r.buffer.Length) then Nothing else Thrown.IllegalArgument)
    ensures e == Thrown.IllegalArgument ==> wbc.bytes == old(wbc.bytes) && r.Pending() == Outcome(data, None)
    ensures e == Nothing ==> total == |data| && r.Pending() == Outcome([], None)
    ensures e == Nothing ==> wbc.bytes == old(wbc.bytes) + if same then data else old(r.buffer[..|data|])
    ensures e == Nothing && |data| + 4 <= old(r.input.data.Length) ==> same
    ensures e == Nothing && old(r.ForcedOut()) ==> !same
  {
    hide NextBlock, DecodeFrames, Lawful, FitsAll, EmptyChunks, Resumed, Chunk, MaskedCrc, Prepend, OutputSize;
    hide FramedInputStream.Salvage, Pooled, Objects, Viewed, Misfit, NextOutput;
    hide SentBy, BlocksOf;
    RawChunk(r.k, r.verify, data, r.input.data.Length, r.direct.data.Length);
    PrependNothing(Outcome(data, None));
    ghost var turns;
    total, e, turns := r.TransferToChannel(wbc);
    same := turns == [] || turns[0].inPlace;
    SentIsRight(turns);
    FirstSent(turns);
    PrependToEnd(BlocksOf(turns), None);
    NoTurns();
    if e == Nothing {
      assert BlocksOf(turns) == data && SentBy(turns) == turns[0].sent;
    } else {
      assert SentBy(turns) == BlocksOf(turns) == [];
      PrependNothing(r.Pending());
    }
  }

  lemma NewStreamSizes(size: nat)
    requires 81921 <= size <= 81924
    ensures Lawful(TagKernel)
    ensures AdjustSize(65541) == OutputSize(TagKernel, 65541) == 81920 < OutputSize(TagKernel, size)
  {
    hide AdjustSize;
    TagKernelIsLawful();
    AdjustSizeClass(65541);
    AdjustSizeClass(65542);
    AdjustSizeClass(size + 1);
  }

  /** An example: on a new stream whose kernel has the bound of `TagKernel`, a raw chunk of 81917 to 81920 bytes is
      not what is sent, unless the array of the new stream happens to hold it. */
  method SendOnNewStream(verify: bool, data: Bytes, wbc: Sink) returns (total: nat, e: Thrown, before: Bytes)
    requires 81917 <= |data| <= 81920
    modifies wbc`bytes
    ensures
      var stream := HEADER + Chunk(UNCOMPRESSED_DATA_FLAG, MaskedCrc(data), data);
      Lawful(TagKernel) && Decode(TagKernel, verify, stream) == Outcome(data, None)
    ensures e == Nothing && total == |data| <= |before|
    ensures wbc.bytes == old(wbc.bytes) + before[..|data|]
  {
    hide Chunk, MaskedCrc, NextBlock, DecodeFrames, Decode, AdjustSize, FitsAll, EmptyChunks, OutputSize, Pooled,
      Objects;
    hide Viewed, Lawful, FitsNext, Misfit;
    TagKernelIsLawful();
    var s := Chunk(UNCOMPRESSED_DATA_FLAG, MaskedCrc(data), data);
    assert (HEADER + s)[|HEADER|..] == s;
    NewStreamSizes(|data| + 4);
    var r, _ := OpenStream(TagKernel, verify, HEADER + s);
    RawChunk(TagKernel, verify, data, r.input.data.Length, r.direct.data.Length);
    before := r.buffer[..];
    ghost var same;
    total, e, same := SendRawChunk(r, data, wbc);
  }

  // ---------------------------------------------------------------- streams this library wrote

  /** A frame of the writer fits buffers of 65540 and 65536 bytes and is not empty. */
  lemma FrameIsTame(k: Snappy, verify: bool, ratio: real, data: Bytes, rest: Bytes, inputCapacity: nat,
      outputCapacity: nat)
    requires 0.0 < ratio <= 1.0 && 1 <= |data| <= MAX_BLOCK_SIZE
    requires 65540 <= inputCapacity && MAX_BLOCK_SIZE <= outputCapacity
    requires FitsAll(k, verify, rest, inputCapacity, outputCapacity) && EmptyChunks(k, verify, rest) == 0
    ensures FitsAll(k, verify, Frame(k, ratio, data) + rest, inputCapacity, outputCapacity)
    ensures EmptyChunks(k, verify, Frame(k, ratio, data) + rest) == 0
  {
    hide NextBlock, MaskedCrc, Lawful;
    FrameRoundTrip(k, verify, ratio, data, rest);
    FrameSize(k, ratio, data);
    FrameFits(k, ratio, data, rest, inputCapacity, outputCapacity);
  }

  lemma FrameFits(k: Snappy, ratio: real, data: Bytes, rest: Bytes, inputCapacity: nat, outputCapacity: nat)
    requires 0.0 < ratio <= 1.0 && 1 <= |data| <= MAX_BLOCK_SIZE
    requires 65540 <= inputCapacity && MAX_BLOCK_SIZE <= outputCapacity
    ensures FitsNext(k, Frame(k, ratio, data) + rest, inputCapacity, outputCapacity)
  {
    hide MaskedCrc, PutInt, GetInt, PutLength, GetLength, Chunk, Lawful;
    FrameSize(k, ratio, data);
    CompressLawHolds(k, data);
    var c := k.compress(data);
    var compressed := WorthCompressing(|c|, |data|, ratio);
    var flag := if compressed then COMPRESSED_DATA_FLAG else UNCOMPRESSED_DATA_FLAG;
    var body := if compressed then c else data;
    ChunkParts(flag, MaskedCrc(data), body, rest);
    var s := Frame(k, ratio, data) + rest;
    assert FrameMeta(s[..4]) == Meta(if compressed then Uncompress else Raw, |body| + 4);
    assert s[4..][4..|body| + 4] == s[4..8 + |body|][4..];
  }

  lemma {:induction false} SegmentIsTame(k: Snappy, verify: bool, ratio: real, blockSize: nat, data: Bytes, rest: Bytes,
                                         inputCapacity: nat, outputCapacity: nat)
    requires 0.0 < ratio <= 1.0 && 1 <= blockSize <= MAX_BLOCK_SIZE
    requires 65540 <= inputCapacity && MAX_BLOCK_SIZE <= outputCapacity
    requires FitsAll(k, verify, rest, inputCapacity, outputCapacity) && EmptyChunks(k, verify, rest) == 0
    ensures FitsAll(k, verify, EncodeSegment(Framer(k, ratio), blockSize, data) + rest, inputCapacity, outputCapacity)
    ensures EmptyChunks(k, verify, EncodeSegment(Framer(k, ratio), blockSize, data) + rest) == 0
    decreases |data|
  {
    hide Frame, FitsAll, EmptyChunks, Lawful;
    if data == [] {
      assert EncodeSegment(Framer(k, ratio), blockSize, data) + rest == rest;
    } else if |data| <= blockSize {
      FrameIsTame(k, verify, ratio, data, rest, inputCapacity, outputCapacity);
    } else {
      var a, b := data[..blockSize], data[blockSize..];
      var tail := EncodeSegment(Framer(k, ratio), blockSize, b) + rest;
      assert EncodeSegment(Framer(k, ratio), blockSize, data) + rest == Frame(k, ratio, a) + tail;
      SegmentIsTame(k, verify, ratio, blockSize, b, rest, inputCapacity, outputCapacity);
      FrameIsTame(k, verify, ratio, a, tail, inputCapacity, outputCapacity);
    }
  }

  /** The reader never reallocates on a stream of this writer, and never meets an empty chunk in it. */
  lemma {:induction false} SegmentsAreTame(k: Snappy, verify: bool, ratio: real, blockSize: nat, segments: seq<Bytes>,
                                           rest: Bytes, inputCapacity: nat, outputCapacity: nat)
    requires 0.0 < ratio <= 1.0 && 1 <= blockSize <= MAX_BLOCK_SIZE
    requires 65540 <= inputCapacity && MAX_BLOCK_SIZE <= outputCapacity
    requires FitsAll(k, verify, rest, inputCapacity, outputCapacity) && EmptyChunks(k, verify, rest) == 0
    ensures FitsAll(k, verify, EncodeSegments(Framer(k, ratio), blockSize, segments) + rest, inputCapacity,
              outputCapacity)
    ensures EmptyChunks(k, verify, EncodeSegments(Framer(k, ratio), blockSize, segments) + rest) == 0
    decreases |segments|
  {
    hide EncodeSegment, FitsAll, EmptyChunks, Lawful;
    if segments == [] {
      assert EncodeSegments(Framer(k, ratio), blockSize, segments) + rest == rest;
    } else {
      var init, last := segments[..|segments| - 1], segments[|segments| - 1];
      var tail := EncodeSegment(Framer(k, ratio), blockSize, last) + rest;
      assert EncodeSegments(Framer(k, ratio), blockSize, segments) + rest
        == EncodeSegments(Framer(k, ratio), blockSize, init) + tail;
      SegmentIsTame(k, verify, ratio, blockSize, last, rest, inputCapacity, outputCapacity);
      SegmentsAreTame(k, verify, ratio, blockSize, init, tail, inputCapacity, outputCapacity);
    }
  }

  /** Framed round trip, end to end: whatever was written, in whatever calls, is what is read, in whatever calls,
      with checksums verified or not, and without a single reallocation; one more call than there are bytes
      always reaches the end.  Writing throws only on a buffer that ends within 64 KiB of the largest int. */
  method RoundTrip(k: Snappy, blockSize: nat, ratio: real, writes: seq<WriteOp>, verify: bool, reading: seq<ReadOp>)
    returns (written: bool, delivered: Bytes, ended: bool, moved: bool)
    requires 0.0 < ratio <= 1.0 && 1 <= blockSize <= MAX_BLOCK_SIZE && InRange(writes)
    requires InArrays(reading)
    ensures AllSmall(writes) ==> written
    ensures written ==>
              && delivered <= DataOf(writes) && (ended ==> delivered == DataOf(writes))
              && (|DataOf(writes)| < Asking(reading) ==> ended) && !moved
  {
    hide EncodeSegments, EmptyChunks, DecodeFrames, FitsAll, Lawful;
    var bytes;
    bytes, written := WriteScript(k, blockSize, ratio, writes);
    if !written {
      return false, [], false, false;
    }
    ghost var body := EncodeSegments(Framer(k, ratio), blockSize, SegmentsOf(writes));
    NoEmptyChunks(k, verify);
    FitsNothing(k, verify, 65541, 65541);
    SegmentsAreTame(k, verify, ratio, blockSize, SegmentsOf(writes), [], 65541, 65541);
    assert Body(bytes) == body == body + [];
    StreamRoundTrip(k, verify, ratio, blockSize, SegmentsOf(writes), []);
    SegmentsHoldTheData(writes);
    var e;
    ghost var taken, kept;
    delivered, ended, e, moved, taken, kept := ReadScript(k, verify, bytes, reading);
  }

  // ---------------------------------------------------------------- empty chunks

  /** One `read()`: the next byte of the outcome, or a byte that is not in it. */
  method ReadOne(r: FramedInputStream) returns (b: int, e: Option<FrameError>, ghost phantom: bool)
    requires r.Open()
    modifies r.Footprint()
    ensures r.Open() && r.Rebuffered() && -1 <= b < 256
    ensures e != None ==> old(r.Pending()) == Outcome([], e) && old(r.Empties()) == 0
    ensures e == None && b == -1 ==>
              r.Pending() == old(r.Pending()) == Outcome([], None) && r.Empties() == old(r.Empties()) == 0
    ensures r.Settled(e == None)
    ensures e == None && b != -1 ==>
              if phantom then r.Pending() == old(r.Pending()) && old(r.Empties()) == r.Empties() + 1
              else old(r.Pending()) == Prepend([b as byte], r.Pending()) && r.Empties() == old(r.Empties())
  {
    hide EmptyChunks, NextBlock, DecodeFrames, Lawful, FitsAll;
    ghost var p := r.Pending();
    phantom := r.EmptyAhead();
    b, e := r.Read();
    if e == None && b != -1 && !phantom {
      ByteOfInt(p.data[0]);
      DeliveredIsPrepended(p, 1, r.Pending());
      assert p.data[..1] == [b as byte];
    }
  }

  lemma PrependLength(a: Bytes, o: Outcome)
    ensures |Prepend(a, o).data| == |a| + |o.data| && Prepend(a, o).error == o.error
  {}

  /** Reading byte by byte to the end delivers the decoded stream exactly when it has no empty chunk; each empty
      chunk adds one byte that is not in the stream. */
  method ReadAllBytes(k: Snappy, verify: bool, bytes: Bytes) returns (delivered: Bytes, e: Option<FrameError>)
    requires HEADER <= bytes
    ensures e == Decode(k, verify, bytes).error
    ensures |delivered| == |Decode(k, verify, bytes).data| + EmptyChunks(k, verify, Body(bytes))
    ensures delivered == Decode(k, verify, bytes).data <==> EmptyChunks(k, verify, Body(bytes)) == 0
  {
    hide EmptyChunks, NextBlock, DecodeFrames, Decode, Lawful, FitsAll, Prepend;
    var r;
    r, e := OpenStream(k, verify, bytes);
    delivered := [];
    ghost var outcome, empties, rest := r.Pending(), r.Empties(), r.Pending();
    PrependNothing(outcome);
    var b := 0;
    while b != -1 && e == None
      invariant r.Open() && fresh(r.Footprint())
      invariant e == None && b != -1 ==> rest == r.Pending()
      invariant outcome.error == rest.error
      invariant |outcome.data| + empties == |delivered| + |rest.data| + if b != -1 && e == None then r.Empties() else 0
      invariant b != -1 && e == None ==> r.Empties() <= empties
      invariant empties == 0 ==> outcome == Prepend(delivered, rest)
      invariant b == -1 || e != None ==> rest == Outcome([], e)
      decreases e == None, b != -1, |rest.data| + r.Empties()
    {
      ghost var phantom;
      b, e, phantom := ReadOne(r);
      if e == None && b != -1 {
        if !phantom {
          PrependLength([b as byte], r.Pending());
          PrependTwice(delivered, [b as byte], r.Pending());
        }
        delivered := delivered + [b as byte];
        rest := r.Pending();
      }
    }
    PrependToEnd(delivered, e);
  }

  /** Such streams exist: one compressed chunk of no data, intact, decodes to nothing, and reading it byte by byte
      yields one byte too many. */
  lemma EmptyChunkExample(k: Snappy, verify: bool)
    requires |k.compress([])| + 4 < 0x100_0000
    ensures
      var stream := HEADER + Chunk(COMPRESSED_DATA_FLAG, MaskedCrc([]), k.compress([]));
      Decode(k, verify, stream) == Outcome([], None) && EmptyChunks(k, verify, Body(stream)) == 1
  {
    hide MaskedCrc, Chunk, Lawful, NextBlock;
    var c := k.compress([]);
    CompressLawHolds(k, []);
    var chunk := Chunk(COMPRESSED_DATA_FLAG, MaskedCrc([]), c);
    NextBlockOfChunk(k, verify, true, MaskedCrc([]), c, []);
    assert chunk + [] == chunk == (HEADER + chunk)[|HEADER|..];
    DecodeNothing(k, verify);
    NoEmptyChunks(k, verify);
    PrependNothing(Outcome([], None));
  }
}
