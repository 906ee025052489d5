/** Whole runs of the block streams: any number of written streams, read back by any script of reads. */
module BlockRoundTrip {
  import opened Base
  import opened Native
  import opened Chunking
  import opened BlockFormat
  import opened ByteIo
  import opened BlockWriter
  import opened BlockReader
  import opened Scripts

  // ---------------------------------------------------------------- writing

  /** The calls that the block output stream has. */
  type BlockWriteOp = op: WriteOp | op.PutByte? || op.PutArray? || op.FlushNow? witness FlushNow

  /** One call of a script; `ok` is false if the stream threw. */
  method Perform(w: BlockOutputStream, op: BlockWriteOp) returns (ok: bool)
    requires w.Ready() && op.InRange()
    modifies w.Footprint()
    ensures w.Ready() && w.inputBuffer == old(w.inputBuffer) && w.outputBuffer == old(w.outputBuffer)
    ensures MIN_BLOCK_SIZE <= w.requested ==> ok
    ensures ok && op.FlushNow? ==> w.segments == old(w.segments) + [old(w.Current())] && w.Current() == []
    ensures ok && !op.FlushNow? ==> w.segments == old(w.segments) && w.Current() == old(w.Current()) + op.Data()
  {
    hide Stream, EncodeSegment, EncodeSegments, WholeBlocks, Lawful, Blocker;
    match op
    case PutByte(b) =>
      var s := w.WriteByte(b);
      return s == Ok;
    case PutArray(whole, offset, length) =>
      var a := ToArray(whole);
      var s;
      ghost var taken;
      s, taken := w.Write(a, offset, length);
      return s == Ok;
    case FlushNow =>
      var _ := w.Flush();
      return true;
  }

  /** A script of calls. */
  method PerformAll(w: BlockOutputStream, ops: seq<BlockWriteOp>) returns (ok: bool)
    requires w.Ready() && w.segments == [] && w.Current() == [] && InRange(ops)
    modifies w.Footprint()
    ensures w.Ready() && w.inputBuffer == old(w.inputBuffer) && w.outputBuffer == old(w.outputBuffer)
    ensures MIN_BLOCK_SIZE <= w.requested ==> ok
    ensures ok ==> w.segments + [w.Current()] == SegmentsOf(ops)
  {
    hide BlockOutputStream.Ready;
    for i := 0 to |ops|
      invariant w.Ready() && w.inputBuffer == old(w.inputBuffer) && w.outputBuffer == old(w.outputBuffer)
      invariant w.segments + [w.Current()] == SegmentsOf(ops[..i])
    {
      assert ops[..i + 1][..i] == ops[..i];
      ok := Perform(w, ops[i]);
      if !ok {
        return;
      }
    }
    assert ops[..|ops|] == ops;
    return true;
  }

  /** Batching independence: the bytes of a closed stream are one header and the canonical blocks of the data
      between flushes, whatever the calls and whenever the output buffer was dumped. */
  method WriteScript(k: Snappy, blockSize: nat, ops: seq<BlockWriteOp>) returns (bytes: Bytes, ok: bool)
    requires 0 <= blockSize <= MAX_BLOCK_SIZE && InRange(ops)
    ensures ok ==> bytes == Stream(k, Max(1, blockSize), SegmentsOf(ops))
    ensures MIN_BLOCK_SIZE <= blockSize ==> ok
  {
    hide Stream, BlockOutputStream.Ready;
    var out := new Sink();
    var inputAllocator := new BufferAllocator();
    var outputAllocator := new BufferAllocator();
    var w := new BlockOutputStream(k, out, blockSize, inputAllocator, outputAllocator);
    ok := PerformAll(w, ops);
    if ok {
      w.Close();
    }
    bytes := out.bytes;
    assert ok ==> bytes == [] + Stream(k, Max(1, blockSize), SegmentsOf(ops));
  }

  /** A stream with a requested size of zero: the write throws, and the next flush emits a block of one byte that
      nobody wrote. */
  method StrayByte(w: BlockOutputStream, b: byte)
    returns (first: BlockWriter.Status, second: BlockWriter.Status, ghost x: byte)
    requires w.Ready() && w.requested == 0 && w.segments == [] && w.Current() == []
    modifies w.Footprint()
    ensures w.Ready() && first == Status.IndexOutOfBounds && second == Ok
    ensures w.segments == [[x]] && w.out.bytes == w.base + Stream(w.k, 1, [[x]])
  {
    hide Stream, EncodeSegment, EncodeSegments, WholeBlocks, Lawful, Blocker;
    first := w.WriteByte(b);
    x := w.outside;
    assert w.Current() == [x];
    second := w.Flush();
    assert [] + [[x]] == [[x]];
  }

  // ---------------------------------------------------------------- reading

  /** One call on the input stream; `Look` is `available()`. */
  datatype ReadOp = GetByte | GetArray(length: nat) | Look
  {
    function Request(): nat { match this case GetByte => 1 case GetArray(length) => length case Look => 0 }
  }

  /** The number of bytes that a script asks for. */
  function Requested(ops: seq<ReadOp>): nat {
    if ops == [] then 0 else Requested(ops[..|ops| - 1]) + ops[|ops| - 1].Request()
  }

  /** No header with a wrong magic ends the stream. */
  predicate EndsForGood(o: BlockFormat.Outcome) { o.end.Stop? ==> o.end.rest == [] }

  /** What a call that asks for `request` bytes may do to what is to come. */
  ghost predicate Served(request: nat, got: Bytes, ended: bool, e: Option<BlockError>,
                         before: BlockFormat.Outcome, after: BlockFormat.Outcome) {
    && got <= before.data
    && (!ended && e == None ==> |got| == request && after == Outcome(before.data[|got|..], before.end))
    && (ended ==> e == None && before.end.Stop? && got == before.data && |got| < request)
    && (e.Some? ==> before.end == Fails(e.value) && |before.data| <= request)
  }

  /** One call of a script: it delivers as many bytes as were asked for, or reports the end, or throws what the decoder
      finds behind the data.  A look at the end of a stream that goes on behind a wrong header would lose that end. */
  method Serve(r: BlockInputStream, op: ReadOp) returns (got: Bytes, ended: bool, e: Option<BlockError>)
    requires r.Valid() && (op.Look? ==> EndsForGood(r.Pending()))
    modifies r.Footprint()
    ensures r.Valid() && r.Rebuffered()
    ensures Served(op.Request(), got, ended, e, old(r.Pending()), r.Pending())
  {
    hide DecodeChunks, NextChunk, Lawful;
    NothingDecodes(r.k, r.maxChunkSize);
    ghost var p := r.Pending();
    got, ended, e := [], false, None;
    match op
    case GetByte =>
      var b;
      b, e := r.Read();
      if e == None && b == -1 {
        ended := true;
      } else if e == None {
        got := [b as byte];
        ByteOfInt(p.data[0]);
      }
    case GetArray(length) =>
      got, ended, e := ServeArray(r, length);
    case Look =>
      var n;
      n, e := r.Available();
  }

  method ServeArray(r: BlockInputStream, length: nat) returns (got: Bytes, ended: bool, e: Option<BlockError>)
    requires r.Valid()
    modifies r.Footprint()
    ensures r.Valid() && r.Rebuffered()
    ensures Served(length, got, ended, e, old(r.Pending()), r.Pending())
  {
    hide DecodeChunks, NextChunk, Lawful, BlockInputStream.Valid;
    ghost var p := r.Pending().data;
    var a := new byte[length];
    var n, x;
    ghost var taken;
    n, x, taken := r.ReadArray(a, 0, length);
    if x.Corrupted? {
      return [], false, Some(x.error);
    }
    ghost var c := Min(length, |p|);
    assert 0 < c ==> a[0..0 + c] == a[..c] == p[..c];
    return if n == -1 then [] else a[..n], n < length, None;
  }

  /** Why a look is not for every stream: in front of a header with a wrong magic, where the stream ends, `available()`
      takes that header away, and what follows it is read as if it belonged to the stream. */
  method LookLosesEnd(r: BlockInputStream, c: Codec, rest: Bytes) returns (n: nat, e: Option<BlockError>)
    requires r.Valid() && r.Buffered() == [] && r.source.rest == HeaderOf(c) + rest
    requires c.magic[..4] == MAGIC[..4] && c.magic != MAGIC
    modifies r.Footprint()
    ensures old(r.Pending()) == Outcome([], Stop(rest))
    ensures r.Valid() && n == 0 && e == None && r.Pending() == DecodeChunks(r.k, r.maxChunkSize, rest)
  {
    hide NextChunk, HeaderOf, Lawful;
    LaterHeader(r.k, r.maxChunkSize, c, rest);
    PrependNothing(DecodeChunks(r.k, r.maxChunkSize, r.source.rest));
    n, e := r.Available();
    PrependNothing(DecodeChunks(r.k, r.maxChunkSize, r.source.rest));
  }

  /** A new input stream on `bytes`. */
  method OpenStream(k: Snappy, maxChunkSize: int, bytes: Bytes) returns (r: BlockInputStream, e: Option<BlockError>)
    ensures r.Valid() && fresh(r.Footprint())
    ensures e == None ==> r.Pending() == Decode(k, maxChunkSize, bytes)
    ensures e.Some? ==> Decode(k, maxChunkSize, bytes) == BlockFormat.Outcome([], Fails(e.value))
  {
    hide DecodeChunks, NextChunk, Lawful;
    var source := new Source(bytes);
    r := new BlockInputStream(k, source, maxChunkSize);
    e := r.ReadHeader();
  }

  lemma {:induction false} RequestedGrows(ops: seq<ReadOp>, i: nat)
    requires i <= |ops|
    ensures Requested(ops[..i]) <= Requested(ops)
  {
    if i < |ops| {
      RequestedGrows(ops[..|ops| - 1], i);
      assert ops[..|ops| - 1][..i] == ops[..i];
    } else {
      assert ops[..i] == ops;
    }
  }

  /** Refinement: any script of reads delivers as many bytes as it asks for of what the decoder finds, until the end
      is reported or the decoder's error is thrown, which happens if there are not that many; asking whether bytes are
      available loses none. */
  method ReadScript(k: Snappy, maxChunkSize: int, bytes: Bytes, ops: seq<ReadOp>)
    returns (delivered: Bytes, ended: bool, e: Option<BlockError>)
    requires EndsForGood(Decode(k, maxChunkSize, bytes)) || forall i :: 0 <= i < |ops| ==> !ops[i].Look?
    ensures
      var o := Decode(k, maxChunkSize, bytes);
      && delivered <= o.data
      && (!ended && e == None ==> |delivered| == Requested(ops))
      && (ended ==> o.end.Stop? && delivered == o.data && |o.data| < Requested(ops))
      && (e.Some? ==> o.end == Fails(e.value) && |o.data| <= Requested(ops))
  {
    hide DecodeChunks, NextChunk, Lawful, Decode, Prepend, Served, BlockInputStream.Valid;
    var r;
    r, e := OpenStream(k, maxChunkSize, bytes);
    ghost var o := Decode(k, maxChunkSize, bytes);
    delivered, ended := [], false;
    if e.Some? {
      return;
    }
    PrependNothing(o);
    for i := 0 to |ops|
      invariant r.Valid() && fresh(r.Footprint()) && !ended && e == None
      invariant o == Prepend(delivered, r.Pending()) && |delivered| == Requested(ops[..i])
    {
      assert ops[..i + 1][..i] == ops[..i];
      assert EndsForGood(r.Pending()) || !ops[i].Look? by { PrependKeepsEnd(delivered, r.Pending()); }
      RequestedGrows(ops, i + 1);
      ghost var before := r.Pending();
      var got;
      got, ended, e := Serve(r, ops[i]);
      ServedNext(ops[i].Request(), got, ended, e, before, r.Pending(), o, delivered);
      if e.Some? {
        return;
      }
      delivered := delivered + got;
      if ended {
        return;
      }
    }
    assert ops[..|ops|] == ops;
    PrependKeepsEnd(delivered, r.Pending());
  }

  lemma PrependKeepsEnd(d: Bytes, o: BlockFormat.Outcome)
    ensures Prepend(d, o).end == o.end && d <= Prepend(d, o).data
  {}

  lemma ServedNext(request: nat, got: Bytes, ended: bool, e: Option<BlockError>, before: BlockFormat.Outcome,
                   after: BlockFormat.Outcome, o: BlockFormat.Outcome, delivered: Bytes)
    requires Served(request, got, ended, e, before, after) && o == Prepend(delivered, before)
    ensures delivered + got <= o.data && delivered <= o.data
    ensures !ended && e == None ==> |got| == request && o == Prepend(delivered + got, after)
    ensures ended ==> e == None && o.end.Stop? && o.data == delivered + got && |got| < request
    ensures e.Some? ==> o.end == Fails(e.value) && |o.data| <= |delivered| + request
  {
    assert before.data == got + before.data[|got|..];
    assert delivered + before.data == (delivered + got) + before.data[|got|..];
  }

  // ---------------------------------------------------------------- end to end

  /** One output stream: its block size and the calls made on it. */
  datatype SessionRecord = Session(blockSize: nat, ops: seq<BlockWriteOp>)

  type Session = s: SessionRecord | MIN_BLOCK_SIZE <= s.blockSize <= MAX_BLOCK_SIZE && InRange(s.ops)
    witness Session(MIN_BLOCK_SIZE, [])

  function WrittenIn(s: Session): Written { Written(s.blockSize, SegmentsOf(s.ops)) }

  function AllWritten(sessions: seq<Session>): seq<Written> {
    if sessions == [] then [] else [WrittenIn(sessions[0])] + AllWritten(sessions[1..])
  }

  function AllData(sessions: seq<Session>): Bytes {
    if sessions == [] then [] else DataOf(sessions[0].ops) + AllData(sessions[1..])
  }

  lemma {:induction false} JoinIsAllData(sessions: seq<Session>)
    ensures Join(AllWritten(sessions)) == AllData(sessions)
  {
    if sessions != [] {
      SegmentsHoldTheData(sessions[0].ops);
      JoinIsAllData(sessions[1..]);
    }
  }

  /** The output streams, one after the other, on one channel. */
  method WriteSessions(k: Snappy, sessions: seq<Session>) returns (bytes: Bytes)
    ensures bytes == JoinStreams(k, AllWritten(sessions))
  {
    hide Stream, Lawful;
    bytes := [];
    for i := |sessions| downto 0
      invariant bytes == JoinStreams(k, AllWritten(sessions[i..]))
    {
      var one, ok := WriteScript(k, sessions[i].blockSize, sessions[i].ops);
      assert sessions[i..][0] == sessions[i] && sessions[i..][1..] == sessions[i + 1..];
      bytes := one + bytes;
    }
    assert sessions[0..] == sessions;
  }

  /** Block round trip with concatenation: whatever was written, in whatever calls on however many streams, is what
      is read, in whatever calls, to the last byte asked for, when the reader's limit admits every block. */
  method RoundTrip(k: Snappy, sessions: seq<Session>, maxChunkSize: int, reading: seq<ReadOp>)
    returns (delivered: Bytes, ended: bool)
    requires sessions != [] && AllStreamsFit(k, maxChunkSize, AllWritten(sessions))
    ensures var data := AllData(sessions);
            delivered == data[..Min(Requested(reading), |data|)] && ended == (|data| < Requested(reading))
  {
    hide JoinStreams, Decode, Lawful, AllStreamsFit;
    var bytes := WriteSessions(k, sessions);
    JoinedStreamsDecode(k, maxChunkSize, AllWritten(sessions));
    JoinIsAllData(sessions);
    var e;
    delivered, ended, e := ReadScript(k, maxChunkSize, bytes, reading);
  }
}
