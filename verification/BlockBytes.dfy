/** The block stream format byte by byte: what this library's writer emits, what its reader makes of every four-byte
head, and what becomes of joined streams that are cut or followed by something else. */
module BlockBytes {
  import opened Base
  import opened Native
  import opened Chunking
  import opened BlockFormat

  // ---------------------------------------------------------------- what is written

  /** The header: 0x82, "SNAPPY", 0, version 1, compatible version 1. */
  lemma HeaderBytes(k: Snappy, blockSize: nat, segments: seq<Bytes>)
    requires 0 < blockSize
    ensures 16 <= |Stream(k, blockSize, segments)|
    ensures Stream(k, blockSize, segments)[..16]
         == [0x82, 0x53, 0x4E, 0x41, 0x50, 0x50, 0x59, 0x00, 0x00, 0x00, 0x00, 0x01, 0x00, 0x00, 0x00, 0x01]
    ensures |Stream(k, blockSize, [])| == |Stream(k, blockSize, [[]])| == 16
  {
    hide EncodeSegment, Blocker, WriteInt;
    var none: seq<Bytes> := [[]];
    OneInBytes();
    EncodeNothing(Blocker(k), blockSize);
    assert none[..0] == [];
  }

  lemma OneInBytes()
    ensures WriteInt(1) == [0x00, 0x00, 0x00, 0x01]
  {}

  /** The head of a chunk or of a header, as a Java int: high bytes first. */
  function StatedInt(s: Bytes): int
    requires 4 <= |s|
  {
    (if s[0] < 0x80 then s[0] as int else s[0] as int - 0x100) * 0x100_0000
      + s[1] as int * 0x1_0000 + s[2] as int * 0x100 + s[3] as int
  }

  lemma IntStated(s: Bytes)
    requires 4 <= |s|
    ensures ReadInt(s[..4]) == StatedInt(s)
  {
    HighBit(s[0]);
  }

  lemma HighBit(b: byte)
    ensures b < 0x80 <==> b as int < 0x80
  {}

  /** A block: the size of its compressed form, and then that. */
  lemma BlockBytes(k: Snappy, b: Bytes)
    requires |b| <= 0x2000_0000
    ensures 4 <= |EncodeBlock(k, b)|
    ensures StatedInt(EncodeBlock(k, b)) == |k.compress(b)| && EncodeBlock(k, b)[4..] == k.compress(b)
  {
    hide WriteInt, ReadInt, EncodeBlock, Lawful, StatedInt;
    BlockSizes(k, b);
    IntStated(EncodeBlock(k, b));
    ReadWriteInt(|k.compress(b)|);
    assert EncodeBlock(k, b)[..4] == WriteInt(|k.compress(b)|);
  }

  // ---------------------------------------------------------------- what is read

  /** The first half of the magic. */
  predicate MagicAhead(src: Bytes) { 4 <= |src| && src[..4] == [0x82, 0x53, 0x4E, 0x41] }

  lemma MagicInts(src: Bytes)
    requires 4 <= |src|
    ensures MagicAhead(src) <==> ReadInt(src[..4]) == MagicHead()
  {
    hide ReadInt, WriteInt;
    WriteReadInt(src[..4]);
    WriteReadInt(MAGIC[..4]);
    assert MAGIC[..4] == [0x82, 0x53, 0x4E, 0x41];
  }

  /** Up to three bytes are the end of the stream. */
  lemma NoHead(k: Snappy, maxChunkSize: int, src: Bytes)
    requires |src| <= 3
    ensures NextChunk(k, maxChunkSize, src) == NoChunk([]) && RestAfter(maxChunkSize, src) == []
  {}

  /** A negative size that is no magic head is an error, whatever follows it; only the size is taken from the source. */
  lemma NegativeSizes(k: Snappy, maxChunkSize: int, src: Bytes)
    requires 4 <= |src| && 0x80 <= src[0] && !MagicAhead(src)
    ensures NextChunk(k, maxChunkSize, src) == Bad(NegativeSize) && RestAfter(maxChunkSize, src) == src[4..]
  {
    hide ReadInt, BlockContent;
    MagicInts(src);
    IntStated(src);
  }

  /** A later header that is cut is an error; a whole one is looked at. */
  lemma LaterHeads(k: Snappy, maxChunkSize: int, src: Bytes)
    requires MagicAhead(src)
    ensures |src| < 16 ==> NextChunk(k, maxChunkSize, src) == Bad(CutHeader) && RestAfter(maxChunkSize, src) == []
    ensures 16 <= |src| && src[4..8] != [0x50, 0x50, 0x59, 0x00] ==>
              NextChunk(k, maxChunkSize, src) == NoChunk(src[16..]) && RestAfter(maxChunkSize, src) == src[16..]
    ensures 16 <= |src| && src[4..8] == [0x50, 0x50, 0x59, 0x00] ==>
              if StatedInt(src[8..12]) < 1
              then NextChunk(k, maxChunkSize, src) == Bad(OldVersion) && RestAfter(maxChunkSize, src) == src[16..]
              else
                && NextChunk(k, maxChunkSize, src) == NextChunk(k, maxChunkSize, src[16..])
                && RestAfter(maxChunkSize, src) == RestAfter(maxChunkSize, src[16..])
  {
    hide ReadInt, BlockContent, StatedInt;
    MagicInts(src);
    if 16 <= |src| {
      IntStated(src[8..12]);
      assert src[8..12][..4] == src[8..12];
      assert src[..8] == src[..4] + src[4..8] && MAGIC == [0x82, 0x53, 0x4E, 0x41] + MAGIC[4..];
      assert MAGIC[4..] == [0x50, 0x50, 0x59, 0x00] && src[4..8] == src[..8][4..];
    }
  }

  /** The meaning of a chunk whose size has been read. */
  function SizedChunk(k: Snappy, maxChunkSize: int, size: nat, rest: Bytes): Next {
    if maxChunkSize < size then Bad(TooLarge)
    else if |rest| < size then Bad(CutChunk)
    else
      var body := rest[..size];
      if k.uncompressedLength(body).None? then Bad(Unparsable)
      else if k.uncompress(body).None? then Bad(Undecodable)
      else if |k.uncompress(body).value| < k.uncompressedLength(body).value then Bad(WrongLength)
      else Chunk(k.uncompress(body).value, rest[size..])
  }

  lemma SizedChunks(k: Snappy, maxChunkSize: int, src: Bytes)
    requires 4 <= |src| && src[0] < 0x80
    ensures 0 <= StatedInt(src)
    ensures NextChunk(k, maxChunkSize, src) == SizedChunk(k, maxChunkSize, StatedInt(src), src[4..])
    ensures RestAfter(maxChunkSize, src)
         == if maxChunkSize < StatedInt(src) then src[4..] else src[4..][Min(StatedInt(src), |src| - 4)..]
  {
    hide ReadInt, StatedInt, Lawful;
    var size := StatedInt(src);
    HighBit(src[0]);
    NotNegative(src);
    MagicInts(src);
    IntStated(src);
    assert src[..4][0] == src[0];
    if 4 + size <= |src| {
      assert src[4..4 + size] == src[4..][..size] && src[4 + size..] == src[4..][size..];
      UncompressLawHolds(k, src[4..4 + size]);
    }
  }

  lemma NotNegative(src: Bytes)
    requires 4 <= |src| && src[0] < 0x80
    ensures 0 <= StatedInt(src)
  {}

  // ---------------------------------------------------------------- whole inputs

  /** How an input begins decides what it is: nothing at all is an error, the magic and eight more bytes make it a
      stream, and anything else is raw data. */
  lemma Beginnings(k: Snappy, maxChunkSize: int, src: Bytes)
    ensures src == [] ==> Decode(k, maxChunkSize, src) == Outcome([], Fails(EmptyInput))
    ensures src != [] ==>
              Decode(k, maxChunkSize, src) ==
                if 16 <= |src| && src[..8] == [0x82, 0x53, 0x4E, 0x41, 0x50, 0x50, 0x59, 0x00]
                then DecodeChunks(k, maxChunkSize, src[16..]) else RawInput(k, src)
  {
    hide DecodeChunks;
    UncompressLawHolds(k, src);
  }

  /** Raw data: too long, rejected by the kernel, or what the kernel makes of it, with zeros up to the stated length. */
  function RawInput(k: Snappy, src: Bytes): Outcome {
    var length, data := k.uncompressedLength(src), k.uncompress(src);
    if 0x4000_0000 <= |src| then Outcome([], Fails(TooMuchRaw))
    else if length.None? then Outcome([], Fails(Unparsable))
    else if data.None? then Outcome([], Fails(Undecodable))
    else Outcome(data.value + seq(Max(0, length.value - |data.value|), _ => 0), Stop([]))
  }

  // ---------------------------------------------------------------- what follows joined streams

  /** Joined streams with anything behind them: their data, and then the meaning of what follows. */
  lemma StreamsThenTail(k: Snappy, maxChunkSize: int, ws: seq<Written>, tail: Bytes)
    requires ws != [] && AllStreamsFit(k, maxChunkSize, ws)
    ensures Decode(k, maxChunkSize, JoinStreams(k, ws) + tail) == Prepend(Join(ws), DecodeChunks(k, maxChunkSize, tail))
  {
    hide Decode, DecodeChunks, JoinStreams, AllStreamsFit, Lawful;
    FirstHeader(k, maxChunkSize, ws, tail);
    StreamsRoundTrip(k, maxChunkSize, ws, tail);
  }

  /** A chunk size below zero is reported behind the data of all the streams in front of it. */
  lemma NegativeSizeIsReported(k: Snappy, maxChunkSize: int, ws: seq<Written>, tail: Bytes)
    requires ws != [] && AllStreamsFit(k, maxChunkSize, ws)
    requires 4 <= |tail| && 0x80 <= tail[0] && !MagicAhead(tail)
    ensures Decode(k, maxChunkSize, JoinStreams(k, ws) + tail) == Outcome(Join(ws), Fails(NegativeSize))
  {
    hide Decode, NextChunk, JoinStreams, AllStreamsFit, Lawful;
    StreamsThenTail(k, maxChunkSize, ws, tail);
    NegativeSizes(k, maxChunkSize, tail);
    assert Join(ws) + [] == Join(ws);
  }

  /** Joined streams, the last of them cut anywhere: inside its header, the data of the others is delivered, and the cut
      is reported if and only if it leaves more than three bytes; behind it, also the whole blocks of the last one, and
      the cut is reported if and only if more than three bytes follow them. */
  lemma JoinedStreamsCut(k: Snappy, maxChunkSize: int, ws: seq<Written>, w: Written, n: nat)
    requires ws != [] && AllStreamsFit(k, maxChunkSize, ws)
    requires AllSegmentsFit(k, maxChunkSize, w.blockSize, w.segments) && n <= |Stream(k, w.blockSize, w.segments)|
    ensures
      var pieces := EmitAll(Blocker(k), AllBlocks(w.blockSize, w.segments));
      Decode(k, maxChunkSize, JoinStreams(k, ws) + Stream(k, w.blockSize, w.segments)[..n]) ==
        if n < 4 then Outcome(Join(ws), Stop([]))
        else if n < 16 then Outcome(Join(ws), Fails(CutHeader))
        else Outcome(Join(ws) + Joined(AllBlocks(w.blockSize, w.segments)[..WholePieces(pieces, n - 16)]),
                     if LeftOver(pieces, n - 16) < 4 then Stop([]) else Fails(CutChunk))
  {
    hide Decode, DecodeChunks, JoinStreams, AllStreamsFit, AllSegmentsFit, Lawful, EncodeSegments, EmitAll, Joined,
      AllBlocks, WholePieces, LeftOver, Blocker;
    var s := Stream(k, w.blockSize, w.segments);
    StreamsThenTail(k, maxChunkSize, ws, s[..n]);
    HeaderBytes(k, w.blockSize, w.segments);
    assert Join(ws) + [] == Join(ws);
    if n < 16 {
      CutHead(k, maxChunkSize, s, n);
    } else {
      TruncatedStream(k, maxChunkSize, w.blockSize, w.segments, n);
      assert s[..n] == HEADER + s[16..n];
      BehindHeader(k, maxChunkSize, s[16..n]);
      HeaderIsTransparent(k, maxChunkSize, s[16..n]);
    }
  }

  lemma CutHead(k: Snappy, maxChunkSize: int, s: Bytes, n: nat)
    requires n < 16 <= |s| && MagicAhead(s)
    ensures DecodeChunks(k, maxChunkSize, s[..n]) == Outcome([], if n < 4 then Stop([]) else Fails(CutHeader))
  {
    hide NextChunk;
    if n < 4 {
      NoHead(k, maxChunkSize, s[..n]);
    } else {
      assert s[..n][..4] == s[..4];
      LaterHeads(k, maxChunkSize, s[..n]);
    }
  }
}
