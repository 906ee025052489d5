/** The x-snappy-framed format byte by byte: what this library's writer puts on the wire, and what its reader makes of
every four-byte chunk header. */
module FramedBytes {
  import opened Base
  import opened Native
  import opened Crc32c
  import opened Chunking
  import opened FrameFormat

  // ---------------------------------------------------------------- what is written

  /** The stream identifier: 0xFF, the length 6, "sNaPpY".  A stream without data has nothing else. */
  lemma StreamIdentifier(k: Snappy, ratio: real, blockSize: nat, segments: seq<Bytes>)
    requires 0 < blockSize
    ensures 10 <= |Stream(k, ratio, blockSize, segments)|
    ensures Stream(k, ratio, blockSize, segments)[..10]
         == [0xFF, 0x06, 0x00, 0x00, 0x73, 0x4E, 0x61, 0x50, 0x70, 0x59]
    ensures |Stream(k, ratio, blockSize, [])| == |Stream(k, ratio, blockSize, [[]])| == 10
  {
    hide EncodeSegment, Framer;
    var none: seq<Bytes> := [[]];
    EncodeNothing(Framer(k, ratio), blockSize);
    assert none[..0] == [];
  }

  /** A chunk: flag, length and checksum, low bytes first, then the body. */
  lemma ChunkBytes(flag: byte, crc: bv32, body: Bytes)
    requires |body| + 4 < 0x100_0000
    ensures
      var s := Chunk(flag, crc, body);
      && |s| == 8 + |body| && s[0] == flag && s[8..] == body
      && s[1] as int + 0x100 * s[2] as int + 0x1_0000 * s[3] as int == |body| + 4
      && s[4] as bv32 == crc & 0xFF && s[5] as bv32 == (crc >> 8) & 0xFF
      && s[6] as bv32 == (crc >> 16) & 0xFF && s[7] as bv32 == crc >> 24
  {
    hide PutInt, PutLength, IntOf;
    var n := |body| + 4;
    var s := Chunk(flag, crc, body);
    LengthBytes(n);
    ChecksumBytes(crc);
    assert s[1..4] == PutLength(n) && s[4..8] == PutInt(crc);
    assert s[1] == PutLength(n)[0] && s[2] == PutLength(n)[1] && s[3] == PutLength(n)[2];
    assert s[4] == PutInt(crc)[0] && s[5] == PutInt(crc)[1] && s[6] == PutInt(crc)[2] && s[7] == PutInt(crc)[3];
  }

  lemma LengthBytes(n: nat)
    requires n < 0x100_0000
    ensures
      var s := PutLength(n);
      s[0] as int + 0x100 * s[1] as int + 0x1_0000 * s[2] as int == n
  {
    hide PutLength;
    GetPutLength(n);
  }

  lemma ChecksumBytes(crc: bv32)
    ensures
      var s := PutInt(crc);
      && s[0] as bv32 == crc & 0xFF && s[1] as bv32 == (crc >> 8) & 0xFF
      && s[2] as bv32 == (crc >> 16) & 0xFF && s[3] as bv32 == crc >> 24
  {}

  /** A block is stored compressed if and only if that reaches the ratio, and as it is otherwise. */
  lemma FrameBytes(k: Snappy, ratio: real, data: Bytes)
    requires 0.0 < ratio <= 1.0 && 1 <= |data| <= 65536
    ensures
      var c, s := k.compress(data), Frame(k, ratio, data);
      && 8 <= |s| && s[4..8] == PutInt(MaskedCrc(data))
      && (if |c| as real <= ratio * |data| as real then s[0] == 0x00 && s[8..] == c else s[0] == 0x01 && s[8..] == data)
  {
    hide MaskedCrc, PutInt, PutLength, Lawful, WorthCompressing;
    RatioReached(|k.compress(data)|, |data|, ratio);
  }

  lemma RatioReached(c: nat, n: nat, ratio: real)
    requires 0 < n
    ensures WorthCompressing(c, n, ratio) <==> c as real <= ratio * n as real
  {
    var q := c as real / n as real;
    assert q * n as real == c as real;
    if q <= ratio {
      assert q * n as real <= ratio * n as real;
    } else {
      assert ratio * n as real < q * n as real;
    }
  }

  /** An example, as the tests of the framed streams have it, whatever the kernel makes of the data. */
  lemma AsAndBsFrame(k: Snappy, ratio: real)
    requires 0.0 < ratio <= 1.0
    ensures
      var c := k.compress(AS_AND_BS);
      Frame(k, ratio, AS_AND_BS) ==
        if |c| as real <= ratio * 25.0 then [0x00, (|c| + 4) as byte, 0x00, 0x00, 0xA8, 0xCD, 0x74, 0x92] + c
        else [0x01, 0x1D, 0x00, 0x00, 0xA8, 0xCD, 0x74, 0x92] + AS_AND_BS
  {
    hide MaskedCrc, PutInt, PutLength, Lawful, WorthCompressing;
    var c := k.compress(AS_AND_BS);
    RatioReached(|c|, |AS_AND_BS|, ratio);
    KnownMaskedChecksums();
    AsAndBsParts();
    SmallLength(29);
    if |c| as real <= ratio * 25.0 {
      assert |c| <= 25;
      SmallLength(|c| + 4);
    }
  }

  lemma AsAndBsParts()
    ensures |AS_AND_BS| == 25 && PutInt(0x9274_CDA8) == [0xA8, 0xCD, 0x74, 0x92]
  {}

  lemma SmallLength(n: nat)
    requires n < 0x100
    ensures PutLength(n) == [n as byte, 0x00, 0x00]
  {
    hide ByteOf;
    assert n / 0x100 == 0;
    LowByte(n);
    LowByte(0);
  }

  lemma LowByte(n: nat)
    requires n < 0x100
    ensures ByteOf(n) == n as byte
  {
    assert n % 256 == n;
  }

  // ---------------------------------------------------------------- what is read

  /** The length that a chunk header states. */
  function StatedLength(h: Bytes): nat
    requires |h| == 4
  {
    h[1] as int + 0x100 * h[2] as int + 0x1_0000 * h[3] as int
  }

  /** The checksum in front of a chunk's body. */
  function StatedChecksum(frame: Bytes): bv32
    requires 4 <= |frame|
  {
    (frame[3] as bv32 << 24) | (frame[2] as bv32 << 16) | (frame[1] as bv32 << 8) | frame[0] as bv32
  }

  /** Where a stream ends: at a chunk boundary, or inside a chunk header. */
  lemma NoHeader(k: Snappy, verify: bool, src: Bytes)
    ensures src == [] ==> NextBlock(k, verify, src) == AtEnd
    ensures 1 <= |src| <= 3 ==> NextBlock(k, verify, src) == Bad(BlockHeaderEof)
    ensures |src| <= 3 ==> RestAfter(src) == []
  {}

  /** The chunk headers that a reader rejects, whatever follows them: reserved unskippable flags, identifiers of another
      length than six, and data chunks without data.  Nothing but the header is taken from the source. */
  lemma RejectedHeaders(k: Snappy, verify: bool, h: Bytes, rest: Bytes)
    requires |h| == 4
    ensures 0x02 <= h[0] <= 0x7F ==> NextBlock(k, verify, h + rest) == Bad(Unskippable)
    ensures h[0] == 0xFF && StatedLength(h) != 6 ==> NextBlock(k, verify, h + rest) == Bad(BadIdentifierLength)
    ensures h[0] <= 0x01 && StatedLength(h) < 5 ==> NextBlock(k, verify, h + rest) == Bad(TooShort)
    ensures Rejected(h) ==> RestAfter(h + rest) == rest
  {
    hide FrameMeta, FrameContent, StatedLength;
    MetaOf(h);
    HeaderFirst(h, rest, 0);
  }

  predicate Rejected(h: Bytes)
    requires |h| == 4
  {
    0x02 <= h[0] <= 0x7F || (h[0] == 0xFF && StatedLength(h) != 6) || (h[0] <= 0x01 && StatedLength(h) < 5)
  }

  /** What a reader makes of the header alone. */
  lemma MetaOf(h: Bytes)
    requires |h| == 4
    ensures
      FrameMeta(h) ==
        if 0x02 <= h[0] <= 0x7F then BadMeta(Unskippable)
        else if h[0] == 0xFF && StatedLength(h) != 6 then BadMeta(BadIdentifierLength)
        else if h[0] <= 0x01 && StatedLength(h) < 5 then BadMeta(TooShort)
        else Meta(if h[0] == 0x00 then Uncompress else if h[0] == 0x01 then Raw else Skip, StatedLength(h))
  {
    hide GetLength, StatedLength;
    LengthStated(h);
  }

  lemma LengthStated(h: Bytes)
    requires |h| == 4
    ensures GetLength(h[1..]) == StatedLength(h)
  {}

  lemma HeaderFirst(h: Bytes, rest: Bytes, n: nat)
    requires |h| == 4
    ensures (h + rest)[..4] == h && (h + rest)[4..] == rest
    ensures (h + rest)[Min(4 + n, |h + rest|)..] == rest[Min(n, |rest|)..]
    ensures n <= |rest| ==> (h + rest)[4..4 + n] == rest[..n] && (h + rest)[4 + n..] == rest[n..]
  {}

  /** The chunks that a reader skips: reserved flags and repeated identifiers.  The stream may end inside one. */
  lemma SkippedChunks(k: Snappy, verify: bool, h: Bytes, rest: Bytes)
    requires |h| == 4 && (0x80 <= h[0] <= 0xFE || (h[0] == 0xFF && StatedLength(h) == 6))
    ensures
      var after := rest[Min(StatedLength(h), |rest|)..];
      NextBlock(k, verify, h + rest) == NextBlock(k, verify, after) && RestAfter(h + rest) == RestAfter(after)
  {
    hide FrameMeta, FrameContent, StatedLength;
    MetaOf(h);
    HeaderFirst(h, rest, StatedLength(h));
  }

  /** The meaning of a data chunk whose flag and length `n` have been read: flag 0x01 is for the data itself, flag 0x00
      for its compressed form. */
  function DataChunk(k: Snappy, verify: bool, flag: byte, n: nat, rest: Bytes): Block
    requires 5 <= n
  {
    if |rest| < n then Bad(FrameEof)
    else
      var body := rest[4..n];
      if flag == 0x00 && k.uncompressedLength(body).None? then Bad(Unparsable)
      else if flag == 0x00 && k.uncompress(body).None? then Bad(Undecodable)
      else
        var data := if flag == 0x00 then k.uncompress(body).value else body;
        if verify && StatedChecksum(rest) != MaskedCrc(data) then Bad(BadChecksum) else Block(data, rest[n..])
  }

  lemma DataChunks(k: Snappy, verify: bool, h: Bytes, rest: Bytes)
    requires |h| == 4 && h[0] <= 0x01 && 5 <= StatedLength(h)
    ensures NextBlock(k, verify, h + rest) == DataChunk(k, verify, h[0], StatedLength(h), rest)
    ensures RestAfter(h + rest) == rest[Min(StatedLength(h), |rest|)..]
  {
    hide FrameMeta, FrameContent, DataChunk, StatedLength, MaskedCrc, Lawful;
    var n := StatedLength(h);
    MetaOf(h);
    HeaderFirst(h, rest, n);
    ContentOfChunk(k, verify, h[0], n, rest);
  }

  lemma ContentOfChunk(k: Snappy, verify: bool, flag: byte, n: nat, rest: Bytes)
    requires flag <= 0x01 && 5 <= n
    ensures |rest| < n ==> DataChunk(k, verify, flag, n, rest) == Bad(FrameEof)
    ensures n <= |rest| ==>
              var action := if flag == 0x00 then Uncompress else Raw;
              DataChunk(k, verify, flag, n, rest) == match FrameContent(k, verify, action, rest[..n])
                case Corrupt(e) => Bad(e)
                case Data(d) => Block(d, rest[n..])
  {
    hide GetInt, MaskedCrc, Lawful;
    if n <= |rest| {
      assert rest[..n][..4] == rest[..4] && rest[..n][4..] == rest[4..n];
      ChecksumStated(rest);
    }
  }

  lemma ChecksumStated(frame: Bytes)
    requires 4 <= |frame|
    ensures GetInt(frame[..4]) == StatedChecksum(frame)
  {}

  /** What follows a stream of this library's writer and is no chunk fails behind the data of that stream. */
  lemma FailsBehind(k: Snappy, verify: bool, ratio: real, blockSize: nat, segments: seq<Bytes>, tail: Bytes)
    requires 0.0 < ratio <= 1.0 && 1 <= blockSize <= MAX_BLOCK_SIZE && NextBlock(k, verify, tail).Bad?
    ensures Decode(k, verify, Stream(k, ratio, blockSize, segments) + tail)
         == Outcome(Flatten(segments), Some(NextBlock(k, verify, tail).error))
  {
    hide NextBlock, Stream, Decode, Flatten;
    StreamRoundTrip(k, verify, ratio, blockSize, segments, tail);
    PrependToEnd(Flatten(segments), Some(NextBlock(k, verify, tail).error));
  }

  /** The same for a whole input: all the data in front of a chunk that readers must reject is delivered, and then the
      chunk is reported, whatever follows it. */
  lemma RejectedChunkIsReported(k: Snappy, verify: bool, ratio: real, blockSize: nat, segments: seq<Bytes>, h: Bytes,
                                rest: Bytes)
    requires 0.0 < ratio <= 1.0 && 1 <= blockSize <= MAX_BLOCK_SIZE && |h| == 4 && Rejected(h)
    ensures Decode(k, verify, Stream(k, ratio, blockSize, segments) + (h + rest))
         == Outcome(Flatten(segments), Some(if 0x02 <= h[0] <= 0x7F then Unskippable
                                            else if h[0] == 0xFF then BadIdentifierLength else TooShort))
  {
    hide NextBlock, Stream, Decode, Flatten;
    RejectedHeaders(k, verify, h, rest);
    FailsBehind(k, verify, ratio, blockSize, segments, h + rest);
  }

  /** An input that does not begin with the stream identifier is reported before anything is delivered. */
  lemma WrongBeginning(k: Snappy, verify: bool, src: Bytes)
    ensures |src| < 10 ==> Decode(k, verify, src) == Outcome([], Some(StreamHeaderEof))
    ensures 10 <= |src| && src[..10] != [0xFF, 0x06, 0x00, 0x00, 0x73, 0x4E, 0x61, 0x50, 0x70, 0x59] ==>
              Decode(k, verify, src) == Outcome([], Some(BadStreamHeader))
  {
    hide DecodeFrames;
  }
}
