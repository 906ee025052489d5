/** The x-snappy-framed format: what a byte stream means, and the frames the writer chooses.

`Decode` follows the reader of this repository chunk by chunk (general structure, stream identifiers, compressed
and uncompressed data, reserved skippable and unskippable chunks: sections 1 and 4 of the Snappy framing format);
the reader and the writer are proved against the functions of this module. */
module FrameFormat {
  import opened Base
  import opened Native
  import opened Crc32c
  import opened Chunking

  const COMPRESSED_DATA_FLAG: byte := 0x00
  const UNCOMPRESSED_DATA_FLAG: byte := 0x01
  const STREAM_IDENTIFIER_FLAG: byte := 0xFF

  /** The stream identifier chunk: flag, length 6, "sNaPpY". */
  const HEADER: Bytes := [0xFF, 0x06, 0x00, 0x00, 0x73, 0x4E, 0x61, 0x50, 0x70, 0x59]

  const MAX_BLOCK_SIZE := 65536

  // ---------------------------------------------------------------- integers in headers

  /** Three bytes, little-endian: the length field of a chunk. */
  function PutLength(n: nat): (s: Bytes)
    ensures |s| == 3
  {
    [ByteOf(n), ByteOf(n / 0x100), ByteOf(n / 0x100 / 0x100)]
  }

  function GetLength(s: Bytes): nat
    requires |s| == 3
  {
    IntOf(s[0]) + 0x100 * IntOf(s[1]) + 0x1_0000 * IntOf(s[2])
  }

  lemma GetPutLength(n: nat)
    requires n < 0x100_0000
    ensures GetLength(PutLength(n)) == n
  {
    hide IntOf, ByteOf;
    var m := n / 0x100;
    var l := m / 0x100;
    IntOfByteOf(n);
    IntOfByteOf(m);
    IntOfByteOf(l);
    assert n == 0x100 * m + n % 0x100 && m == 0x100 * l + m % 0x100 && l % 0x100 == l;
  }

  /** Four bytes, little-endian: the checksum field. */
  function PutInt(v: bv32): (s: Bytes)
    ensures |s| == 4
  {
    [(v & 0xFF) as byte, ((v >> 8) & 0xFF) as byte, ((v >> 16) & 0xFF) as byte, ((v >> 24) & 0xFF) as byte]
  }

  function GetInt(s: Bytes): bv32
    requires |s| == 4
  {
    s[0] as bv32 | (s[1] as bv32 << 8) | (s[2] as bv32 << 16) | (s[3] as bv32 << 24)
  }

  lemma GetPutInt(v: bv32)
    ensures GetInt(PutInt(v)) == v
  {}

  // ---------------------------------------------------------------- meaning of a stream

  datatype FrameError =
    | StreamHeaderEof | BadStreamHeader | BlockHeaderEof | BadIdentifierLength | Unskippable | TooShort
    | FrameEof | Unparsable | Undecodable | BadChecksum

  datatype Action = Raw | Skip | Uncompress

  datatype Meta = Meta(action: Action, length: nat) | BadMeta(error: FrameError)

  /** The four bytes in front of every chunk. */
  function FrameMeta(h: Bytes): (m: Meta)
    requires |h| == 4
    ensures m.Meta? ==> m.length < 0x100_0000 && (m.action != Skip ==> 5 <= m.length)
    ensures m.BadMeta? ==> m.error == TooShort || m.error == BadIdentifierLength || m.error == Unskippable
  {
    var length := GetLength(h[1..]);
    var flag := h[0];
    if flag == COMPRESSED_DATA_FLAG then
      if length < 5 then BadMeta(TooShort) else Meta(Uncompress, length)
    else if flag == UNCOMPRESSED_DATA_FLAG then
      if length < 5 then BadMeta(TooShort) else Meta(Raw, length)
    else if flag == STREAM_IDENTIFIER_FLAG then
      if length != 6 then BadMeta(BadIdentifierLength) else Meta(Skip, length)
    else if flag <= 0x7F then BadMeta(Unskippable)
    else Meta(Skip, length)
  }

  datatype Content = Data(data: Bytes) | Corrupt(error: FrameError)

  /** The data inside a chunk body, before its checksum is looked at. */
  function Payload(k: Snappy, action: Action, body: Bytes): (c: Content)
    ensures c.Corrupt? ==> c.error == Unparsable || c.error == Undecodable
  {
    if action != Uncompress then Data(body)
    else if k.uncompressedLength(body).None? then Corrupt(Unparsable)
    else if k.uncompress(body).None? then Corrupt(Undecodable)
    else Data(k.uncompress(body).value)
  }

  /** A chunk: four bytes of checksum, then the body. */
  function FrameContent(k: Snappy, verify: bool, action: Action, frame: Bytes): Content
    requires 4 <= |frame|
  {
    var c := Payload(k, action, frame[4..]);
    if c.Data? && verify && GetInt(frame[..4]) != MaskedCrc(c.data) then Corrupt(BadChecksum) else c
  }

  datatype Block = AtEnd | Block(data: Bytes, rest: Bytes) | Bad(error: FrameError)

  /** The next data chunk of a stream positioned at a chunk boundary.  A skippable chunk may be cut short by
      the end of the stream; a data chunk may not. */
  function NextBlock(k: Snappy, verify: bool, src: Bytes): (r: Block)
    ensures r.Block? ==> |r.rest| < |src|
    decreases |src|
  {
    if src == [] then AtEnd
    else if |src| < 4 then Bad(BlockHeaderEof)
    else match FrameMeta(src[..4])
      case BadMeta(e) => Bad(e)
      case Meta(action, length) =>
        if action == Skip then
          NextBlock(k, verify, src[Min(4 + length, |src|)..])
        else if |src| < 4 + length then Bad(FrameEof)
        else match FrameContent(k, verify, action, src[4..4 + length])
          case Corrupt(e) => Bad(e)
          case Data(d) => Block(d, src[4 + length..])
  }

  /** Everything a reader gets before the stream ends or fails. */
  datatype Outcome = Outcome(data: Bytes, error: Option<FrameError>)

  function Prepend(d: Bytes, o: Outcome): Outcome { Outcome(d + o.data, o.error) }

  function DecodeFrames(k: Snappy, verify: bool, src: Bytes): Outcome
    decreases |src|
  {
    match NextBlock(k, verify, src)
    case AtEnd => Outcome([], None)
    case Bad(e) => Outcome([], Some(e))
    case Block(d, rest) => Prepend(d, DecodeFrames(k, verify, rest))
  }

  /** A whole stream, which must begin with the stream identifier. */
  function Decode(k: Snappy, verify: bool, src: Bytes): Outcome {
    if |src| < |HEADER| then Outcome([], Some(StreamHeaderEof))
    else if src[..|HEADER|] != HEADER then Outcome([], Some(BadStreamHeader))
    else DecodeFrames(k, verify, src[|HEADER|..])
  }

  lemma DecodeHead(k: Snappy, verify: bool, s: Bytes)
    ensures HEADER <= s <==> |HEADER| <= |s| && s[..|HEADER|] == HEADER
    ensures |s| < |HEADER| ==> Decode(k, verify, s) == Outcome([], Some(StreamHeaderEof))
    ensures |HEADER| <= |s| && s[..|HEADER|] != HEADER ==> Decode(k, verify, s) == Outcome([], Some(BadStreamHeader))
    ensures HEADER <= s ==> Decode(k, verify, s) == DecodeFrames(k, verify, s[|HEADER|..])
  {}

  // ---------------------------------------------------------------- reading on after an exception

  /** What is left of the source after one look for a block, found or not. */
  function RestAfter(src: Bytes): (rest: Bytes)
    decreases |src|
  {
    if |src| < 4 then []
    else match FrameMeta(src[..4])
      case BadMeta(_) => src[4..]
      case Meta(action, length) =>
        var rest := src[Min(4 + length, |src|)..];
        if action == Skip then RestAfter(rest) else rest
  }

  /** What stays buffered after the exception `x`: the block, if only its checksum was rejected. */
  function Kept(k: Snappy, x: FrameError, src: Bytes): Bytes {
    if x == BadChecksum && NextBlock(k, false, src).Block? then NextBlock(k, false, src).data else []
  }

  /** What is buffered at some moment, and everything still to come then. */
  datatype Remains = Remains(buffered: Bytes, pending: Outcome)

  /** What remains for a caller who reads on after the first exception on `src`. */
  function Resumed(k: Snappy, verify: bool, src: Bytes): Remains
    decreases |src|
  {
    match NextBlock(k, verify, src)
    case AtEnd => Remains([], Outcome([], None))
    case Bad(x) => Remains(Kept(k, x, src), Prepend(Kept(k, x, src), DecodeFrames(k, verify, RestAfter(src))))
    case Block(_, rest) => Resumed(k, verify, rest)
  }

  /** Reading on is safe, in that every byte then comes from a block that was accepted, if and only if the exception
      was not about the checksum of a block with data. */
  lemma ReadingOnIsSafe(k: Snappy, verify: bool, src: Bytes)
    requires NextBlock(k, verify, src).Bad?
    ensures Resumed(k, verify, src).pending == DecodeFrames(k, verify, RestAfter(src))
       <==> !(NextBlock(k, verify, src).error == BadChecksum && Kept(k, BadChecksum, src) != [])
  {
    hide NextBlock, DecodeFrames, RestAfter, Kept;
    PrependIsLonger(Kept(k, NextBlock(k, verify, src).error, src), DecodeFrames(k, verify, RestAfter(src)));
    assert NextBlock(k, verify, src).error != BadChecksum ==> Kept(k, NextBlock(k, verify, src).error, src) == [] by {
      KeptOnlyAfterBadChecksum(k, NextBlock(k, verify, src).error, src);
    }
  }

  lemma PrependIsLonger(d: Bytes, o: Outcome)
    ensures Prepend(d, o) == o <==> d == []
  {
    PrependNothing(o);
    assert |Prepend(d, o).data| == |d| + |o.data|;
  }

  lemma KeptOnlyAfterBadChecksum(k: Snappy, x: FrameError, src: Bytes)
    ensures x != BadChecksum ==> Kept(k, x, src) == []
  {}

  // ---------------------------------------------------------------- what the writer emits

  function Chunk(flag: byte, crc: bv32, body: Bytes): Bytes {
    [flag] + PutLength(|body| + 4) + PutInt(crc) + body
  }

  /** Compression is used when it reaches the wanted ratio of compressed to plain length. */
  predicate WorthCompressing(compressed: nat, plain: nat, ratio: real)
    requires 0 < plain
  {
    compressed as real / plain as real <= ratio
  }

  /** The frame for one block of data. */
  function Frame(k: Snappy, ratio: real, data: Bytes): Bytes
    requires data != []
  {
    var c := k.compress(data);
    if WorthCompressing(|c|, |data|, ratio)
    then Chunk(COMPRESSED_DATA_FLAG, MaskedCrc(data), c)
    else Chunk(UNCOMPRESSED_DATA_FLAG, MaskedCrc(data), data)
  }

  /** The writer's way with one block; nothing is emitted for nothing. */
  function FrameOrNothing(k: Snappy, ratio: real, b: Bytes): Bytes {
    if b == [] then [] else Frame(k, ratio, b)
  }

  function Framer(k: Snappy, ratio: real): Bytes -> Bytes {
    (b: Bytes) => FrameOrNothing(k, ratio, b)
  }

  lemma FramerEmits(k: Snappy, ratio: real, b: Bytes)
    ensures Framer(k, ratio)(b) == FrameOrNothing(k, ratio, b)
    ensures FrameOrNothing(k, ratio, []) == []
  {}

  // ---------------------------------------------------------------- round trip

  lemma ChunkParts(flag: byte, crc: bv32, body: Bytes, rest: Bytes)
    requires |body| + 4 < 0x100_0000
    ensures
      var s := Chunk(flag, crc, body) + rest;
      && |s| == 8 + |body| + |rest|
      && s[..4][0] == flag && GetLength(s[..4][1..]) == |body| + 4
      && s[4..8 + |body|][..4] == PutInt(crc) && s[4..8 + |body|][4..] == body
      && s[8 + |body|..] == rest
  {
    var s := Chunk(flag, crc, body) + rest;
    GetPutLength(|body| + 4);
    assert s[..4] == [flag] + PutLength(|body| + 4);
    assert s[4..8 + |body|] == PutInt(crc) + body;
  }

  /** What the reader makes of an intact chunk of data. */
  lemma NextBlockOfChunk(k: Snappy, verify: bool, compressed: bool, crc: bv32, body: Bytes, rest: Bytes)
    requires 1 <= |body| && |body| + 4 < 0x100_0000
    ensures
      var flag := if compressed then COMPRESSED_DATA_FLAG else UNCOMPRESSED_DATA_FLAG;
      var c := Payload(k, if compressed then Uncompress else Raw, body);
      NextBlock(k, verify, Chunk(flag, crc, body) + rest) ==
        if c.Corrupt? then Bad(c.error)
        else if verify && crc != MaskedCrc(c.data) then Bad(BadChecksum)
        else Block(c.data, rest)
  {
    hide MaskedCrc, PutInt, GetInt, PutLength, GetLength, Payload, Chunk;
    var flag := if compressed then COMPRESSED_DATA_FLAG else UNCOMPRESSED_DATA_FLAG;
    ChunkParts(flag, crc, body, rest);
    GetPutInt(crc);
    var s := Chunk(flag, crc, body) + rest;
    var action := if compressed then Uncompress else Raw;
    assert FrameMeta(s[..4]) == Meta(action, |body| + 4);
  }

  /** A ratio of at most one keeps a frame within the block size: no emitted length field exceeds 65540. */
  lemma FrameSize(k: Snappy, ratio: real, data: Bytes)
    requires 0.0 < ratio <= 1.0 && 1 <= |data| <= MAX_BLOCK_SIZE
    ensures 5 + 4 <= |Frame(k, ratio, data)| <= 65540 + 4
    ensures 1 <= |k.compress(data)|
    ensures WorthCompressing(|k.compress(data)|, |data|, ratio) ==> |k.compress(data)| <= |data|
  {
    hide MaskedCrc, PutInt, PutLength;
    var c := k.compress(data);
    assert CompressLaw(k, data);
    if WorthCompressing(|c|, |data|, ratio) {
      RatioBound(|c|, |data|, ratio);
    }
  }

  lemma RatioBound(c: nat, n: nat, ratio: real)
    requires 0 < n && ratio <= 1.0 && WorthCompressing(c, n, ratio)
    ensures c <= n
  {
    var q := c as real / n as real;
    assert q * (n as real) == c as real;
    assert q * (n as real) <= 1.0 * (n as real);
  }

  /** One frame, decoded: the block comes back whether or not it was worth compressing. */
  lemma FrameRoundTrip(k: Snappy, verify: bool, ratio: real, data: Bytes, rest: Bytes)
    requires 0.0 < ratio <= 1.0 && 1 <= |data| <= MAX_BLOCK_SIZE
    ensures NextBlock(k, verify, Frame(k, ratio, data) + rest) == Block(data, rest)
  {
    hide MaskedCrc, Chunk, NextBlock;
    FrameSize(k, ratio, data);
    var c := k.compress(data);
    assert CompressLaw(k, data);
    if WorthCompressing(|c|, |data|, ratio) {
      NextBlockOfChunk(k, verify, true, MaskedCrc(data), c, rest);
    } else {
      NextBlockOfChunk(k, verify, false, MaskedCrc(data), data, rest);
    }
  }

  lemma PrependTwice(a: Bytes, b: Bytes, o: Outcome)
    ensures Prepend(a, Prepend(b, o)) == Prepend(a + b, o)
  {
    assert a + (b + o.data) == (a + b) + o.data;
  }

  lemma PrependToEnd(a: Bytes, e: Option<FrameError>)
    ensures Prepend(a, Outcome([], e)) == Outcome(a, e)
  {}

  lemma PrependNothing(o: Outcome)
    ensures Prepend([], o) == o
  {
    assert [] + o.data == o.data;
  }

  lemma {:induction false} SegmentRoundTrip(k: Snappy, verify: bool, ratio: real, blockSize: nat, data: Bytes,
      rest: Bytes)
    requires 0.0 < ratio <= 1.0 && 1 <= blockSize <= MAX_BLOCK_SIZE
    ensures DecodeFrames(k, verify, EncodeSegment(Framer(k, ratio), blockSize, data) + rest)
         == Prepend(data, DecodeFrames(k, verify, rest))
    decreases |data|
  {
    hide Frame, NextBlock, Prepend, Lawful;
    if data == [] {
      assert EncodeSegment(Framer(k, ratio), blockSize, data) + rest == rest;
      PrependNothing(DecodeFrames(k, verify, rest));
    } else if |data| <= blockSize {
      FrameRoundTrip(k, verify, ratio, data, rest);
    } else {
      var a, b := data[..blockSize], data[blockSize..];
      var tail := EncodeSegment(Framer(k, ratio), blockSize, b) + rest;
      assert EncodeSegment(Framer(k, ratio), blockSize, data) + rest == Frame(k, ratio, a) + tail;
      FrameRoundTrip(k, verify, ratio, a, tail);
      SegmentRoundTrip(k, verify, ratio, blockSize, b, rest);
      PrependTwice(a, b, DecodeFrames(k, verify, rest));
      assert a + b == data;
    }
  }

  lemma {:induction false} SegmentsRoundTrip(k: Snappy, verify: bool, ratio: real, blockSize: nat,
      segments: seq<Bytes>, rest: Bytes)
    requires 0.0 < ratio <= 1.0 && 1 <= blockSize <= MAX_BLOCK_SIZE
    ensures DecodeFrames(k, verify, EncodeSegments(Framer(k, ratio), blockSize, segments) + rest)
         == Prepend(Flatten(segments), DecodeFrames(k, verify, rest))
    decreases |segments|
  {
    hide EncodeSegment, Prepend, DecodeFrames;
    if segments == [] {
      assert EncodeSegments(Framer(k, ratio), blockSize, segments) + rest == rest;
      PrependNothing(DecodeFrames(k, verify, rest));
    } else {
      var init, last := segments[..|segments| - 1], segments[|segments| - 1];
      var tail := EncodeSegment(Framer(k, ratio), blockSize, last) + rest;
      assert EncodeSegments(Framer(k, ratio), blockSize, segments) + rest
        == EncodeSegments(Framer(k, ratio), blockSize, init) + tail;
      SegmentsRoundTrip(k, verify, ratio, blockSize, init, tail);
      SegmentRoundTrip(k, verify, ratio, blockSize, last, rest);
      PrependTwice(Flatten(init), last, DecodeFrames(k, verify, rest));
    }
  }

  /** A closed writer's output. */
  function Stream(k: Snappy, ratio: real, blockSize: nat, segments: seq<Bytes>): Bytes
    requires 0 < blockSize
  {
    HEADER + EncodeSegments(Framer(k, ratio), blockSize, segments)
  }

  /** A chunk that is skipped leaves the meaning of what follows unchanged: reserved skippable chunks
      (section 4.6) and repeated stream identifiers (section 4.1). */
  lemma SkippableIsTransparent(k: Snappy, verify: bool, flag: byte, body: Bytes, rest: Bytes)
    requires 0x80 <= flag && |body| < 0x100_0000 && (flag == STREAM_IDENTIFIER_FLAG ==> |body| == 6)
    ensures DecodeFrames(k, verify, [flag] + PutLength(|body|) + body + rest) == DecodeFrames(k, verify, rest)
  {
    hide PutLength, GetLength, FrameContent;
    var s := [flag] + PutLength(|body|) + body + rest;
    GetPutLength(|body|);
    assert s[..4] == [flag] + PutLength(|body|);
    assert s[..4][1..] == PutLength(|body|);
    assert FrameMeta(s[..4]) == Meta(Skip, |body|);
    assert s[4 + |body|..] == rest;
    assert NextBlock(k, verify, s) == NextBlock(k, verify, rest);
  }

  lemma HeaderIsTransparent(k: Snappy, verify: bool, rest: Bytes)
    ensures DecodeFrames(k, verify, HEADER + rest) == DecodeFrames(k, verify, rest)
  {
    hide DecodeFrames;
    var body: Bytes := HEADER[4..];
    assert PutLength(6) == [6, 0, 0];
    assert HEADER + rest == [STREAM_IDENTIFIER_FLAG] + PutLength(|body|) + body + rest;
    SkippableIsTransparent(k, verify, STREAM_IDENTIFIER_FLAG, body, rest);
  }

  /** Framed round trip, with concatenation: streams written one after the other read back as the joined data. */
  lemma StreamRoundTrip(k: Snappy, verify: bool, ratio: real, blockSize: nat, segments: seq<Bytes>, rest: Bytes)
    requires 0.0 < ratio <= 1.0 && 1 <= blockSize <= MAX_BLOCK_SIZE
    ensures DecodeFrames(k, verify, Stream(k, ratio, blockSize, segments) + rest)
         == Prepend(Flatten(segments), DecodeFrames(k, verify, rest))
    ensures Decode(k, verify, Stream(k, ratio, blockSize, segments) + rest)
         == Prepend(Flatten(segments), DecodeFrames(k, verify, rest))
    ensures Decode(k, verify, Stream(k, ratio, blockSize, segments)) == Outcome(Flatten(segments), None)
  {
    hide DecodeFrames, EncodeSegments, Flatten;
    var body := EncodeSegments(Framer(k, ratio), blockSize, segments);
    var s := Stream(k, ratio, blockSize, segments);
    SegmentsRoundTrip(k, verify, ratio, blockSize, segments, rest);
    HeaderIsTransparent(k, verify, body + rest);
    assert s + rest == HEADER + (body + rest);
    assert (s + rest)[|HEADER|..] == body + rest;
    SegmentsRoundTrip(k, verify, ratio, blockSize, segments, []);
    assert body + [] == body == s[|HEADER|..];
    assert DecodeFrames(k, verify, []) == Outcome([], None) by { DecodeNothing(k, verify); }
    assert Flatten(segments) + [] == Flatten(segments);
  }

  lemma DecodeNothing(k: Snappy, verify: bool)
    ensures DecodeFrames(k, verify, []) == Outcome([], None)
  {}

  // ---------------------------------------------------------------- damaged streams

  /** Burst detection: a reader that accepts an uncompressed chunk rejects it after any damage confined to
      four consecutive bytes of its data. */
  lemma BurstIsRejected(k: Snappy, crc: bv32, prefix: Bytes, u: Bytes, v: Bytes, suffix: Bytes, rest: Bytes)
    requires |u| == |v| <= 4 && u != v
    requires |prefix| + |u| + |suffix| + 4 < 0x100_0000
    requires NextBlock(k, true, Chunk(UNCOMPRESSED_DATA_FLAG, crc, prefix + u + suffix) + rest).Block?
    ensures NextBlock(k, true, Chunk(UNCOMPRESSED_DATA_FLAG, crc, prefix + v + suffix) + rest) == Bad(BadChecksum)
  {
    hide NextBlock, Chunk, MaskedCrc;
    NextBlockOfChunk(k, true, false, crc, prefix + u + suffix, rest);
    NextBlockOfChunk(k, true, false, crc, prefix + v + suffix, rest);
    BurstChangesMaskedCrc(prefix, u, v, suffix);
  }

  /** An example of a caller who reads on: the damaged data itself comes next. */
  lemma DamageIsKept(k: Snappy, crc: bv32, data: Bytes, rest: Bytes)
    requires 1 <= |data| && |data| + 4 < 0x100_0000 && crc != MaskedCrc(data)
    ensures
      var s := Chunk(UNCOMPRESSED_DATA_FLAG, crc, data) + rest;
      && NextBlock(k, true, s) == Bad(BadChecksum)
      && Resumed(k, true, s) == Remains(data, Prepend(data, DecodeFrames(k, true, rest)))
  {
    hide NextBlock, Chunk, MaskedCrc, DecodeFrames, PutInt, PutLength, GetLength;
    var s := Chunk(UNCOMPRESSED_DATA_FLAG, crc, data) + rest;
    NextBlockOfChunk(k, true, false, crc, data, rest);
    NextBlockOfChunk(k, false, false, crc, data, rest);
    ChunkParts(UNCOMPRESSED_DATA_FLAG, crc, data, rest);
    assert FrameMeta(s[..4]) == Meta(Raw, |data| + 4);
    assert RestAfter(s) == rest;
  }

  /** The same in a whole stream: whatever this writer put in front of the damaged chunk is delivered, and then the
      damage is reported. */
  lemma DamagedStreamIsRejected(k: Snappy, ratio: real, blockSize: nat, segments: seq<Bytes>,
                                prefix: Bytes, u: Bytes, v: Bytes, suffix: Bytes, rest: Bytes)
    requires 0.0 < ratio <= 1.0 && 1 <= blockSize <= MAX_BLOCK_SIZE
    requires |u| == |v| <= 4 && u != v && |prefix| + |u| + |suffix| + 4 < 0x100_0000
    ensures
      var chunk := Chunk(UNCOMPRESSED_DATA_FLAG, MaskedCrc(prefix + u + suffix), prefix + v + suffix);
      Decode(k, true, Stream(k, ratio, blockSize, segments) + (chunk + rest))
        == Outcome(Flatten(segments), Some(BadChecksum))
  {
    hide NextBlock, Chunk, MaskedCrc, Stream, Decode, Flatten;
    var crc := MaskedCrc(prefix + u + suffix);
    var chunk := Chunk(UNCOMPRESSED_DATA_FLAG, crc, prefix + v + suffix);
    NextBlockOfChunk(k, true, false, crc, prefix + u + suffix, rest);
    BurstIsRejected(k, crc, prefix, u, v, suffix, rest);
    StreamRoundTrip(k, true, ratio, blockSize, segments, chunk + rest);
    PrependToEnd(Flatten(segments), Some(BadChecksum));
  }
}
