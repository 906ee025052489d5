/** The block stream format: a 16-byte header, then compressed blocks, each behind its size.

`Decode` follows the reader of this repository, which accepts concatenated streams and falls back to raw Snappy
data when the header is missing; the writer's output is described block by block. */
module BlockFormat {
  import opened Base
  import opened Native
  import opened Chunking

  // ---------------------------------------------------------------- big-endian ints

  const TWO_TO_THE_32 := 0x1_0000_0000

  /** A 32-bit int read as unsigned, and back. */
  function Unsigned(v: int): nat
    requires -0x8000_0000 <= v <= MAX_INT
  {
    if v < 0 then v + TWO_TO_THE_32 else v
  }

  function Signed(u: nat): int
    requires u < TWO_TO_THE_32
  {
    if u <= MAX_INT then u else u - TWO_TO_THE_32
  }

  function WriteInt(v: int): (s: Bytes)
    requires -0x8000_0000 <= v <= MAX_INT
    ensures |s| == 4
  {
    var u := Unsigned(v);
    [ByteOf(u / 0x100 / 0x100 / 0x100), ByteOf(u / 0x100 / 0x100), ByteOf(u / 0x100), ByteOf(u)]
  }

  /** The value of four digits to the base 256. */
  function FromDigits(a: nat, b: nat, c: nat, d: nat): (u: nat)
    requires a < 256 && b < 256 && c < 256 && d < 256
    ensures u < TWO_TO_THE_32
  {
    0x100_0000 * a + 0x1_0000 * b + 0x100 * c + d
  }

  function ReadInt(s: Bytes): (v: int)
    requires |s| == 4
    ensures -0x8000_0000 <= v <= MAX_INT
  {
    Signed(FromDigits(IntOf(s[0]), IntOf(s[1]), IntOf(s[2]), IntOf(s[3])))
  }

  lemma ReadWriteInt(v: int)
    requires -0x8000_0000 <= v <= MAX_INT
    ensures ReadInt(WriteInt(v)) == v
  {
    hide IntOf, ByteOf;
    var u := Unsigned(v);
    IntOfByteOf(u); IntOfByteOf(u / 0x100); IntOfByteOf(u / 0x100 / 0x100); IntOfByteOf(u / 0x100 / 0x100 / 0x100);
    FourDigits(u);
  }

  lemma FourDigits(u: nat)
    requires u < TWO_TO_THE_32
    ensures 0x100_0000 * (u / 0x100 / 0x100 / 0x100 % 0x100) + 0x1_0000 * (u / 0x100 / 0x100 % 0x100)
            + 0x100 * (u / 0x100 % 0x100) + u % 0x100 == u
  {
    var u1 := u / 0x100;
    var u2 := u1 / 0x100;
    var u3 := u2 / 0x100;
    assert u == 0x100 * u1 + u % 0x100 && u1 == 0x100 * u2 + u1 % 0x100 && u2 == 0x100 * u3 + u2 % 0x100;
    assert u3 % 0x100 == u3;
  }

  // ---------------------------------------------------------------- the header

  const MAGIC: Bytes := [0x82, 0x53, 0x4E, 0x41, 0x50, 0x50, 0x59, 0x00]
  const HEADER_SIZE := 16
  const VERSION := 1
  const MINIMUM_COMPATIBLE_VERSION := 1

  /** The fields of a header. */
  datatype CodecFields = Codec(magic: Bytes, version: int, compatibleVersion: int)

  type Codec = c: CodecFields | |c.magic| == |MAGIC|
      && -0x8000_0000 <= c.version <= MAX_INT && -0x8000_0000 <= c.compatibleVersion <= MAX_INT
    witness Codec(MAGIC, VERSION, MINIMUM_COMPATIBLE_VERSION)

  /** The header array of a codec. */
  function HeaderOf(c: Codec): (s: Bytes)
    ensures |s| == HEADER_SIZE
  {
    c.magic + WriteInt(c.version) + WriteInt(c.compatibleVersion)
  }

  /** `readHeader`: magic, version and compatible version, in turn. */
  function ReadCodec(s: Bytes): Codec
    requires HEADER_SIZE <= |s|
  {
    Codec(s[..8], ReadInt(s[8..12]), ReadInt(s[12..16]))
  }

  lemma WriteReadInt(s: Bytes)
    requires |s| == 4
    ensures WriteInt(ReadInt(s)) == s
  {
    hide IntOf, ByteOf;
    var a, b, c, d := IntOf(s[0]), IntOf(s[1]), IntOf(s[2]), IntOf(s[3]);
    var u := 0x100_0000 * a + 0x1_0000 * b + 0x100 * c + d;
    assert Unsigned(ReadInt(s)) == u;
    assert u / 0x100 == 0x1_0000 * a + 0x100 * b + c && u / 0x100 / 0x100 == 0x100 * a + b
      && u / 0x100 / 0x100 / 0x100 == a;
    ByteOfDigit(0, s[0]);
    ByteOfDigit(a, s[1]);
    ByteOfDigit(0x100 * a + b, s[2]);
    ByteOfDigit(0x1_0000 * a + 0x100 * b + c, s[3]);
  }

  lemma ByteOfDigit(high: nat, b: byte)
    ensures ByteOf(0x100 * high + IntOf(b)) == b
  {
    hide IntOf;
    ByteOfInt(b);
    RemainderIsUnique(0x100 * high + IntOf(b), 256, high, IntOf(b));
  }

  /** Headers read back, and nothing but the header that was read is written. */
  lemma CodecRoundTrip(c: Codec, s: Bytes, rest: Bytes)
    requires |s| == HEADER_SIZE
    ensures ReadCodec(HeaderOf(c) + rest) == c
    ensures HeaderOf(ReadCodec(s)) == s
  {
    hide WriteInt, ReadInt;
    ReadWriteInt(c.version);
    ReadWriteInt(c.compatibleVersion);
    WriteReadInt(s[8..12]);
    WriteReadInt(s[12..16]);
    var t := HeaderOf(c) + rest;
    assert t[..8] == c.magic && t[8..12] == WriteInt(c.version) && t[12..16] == WriteInt(c.compatibleVersion);
    assert s == s[..8] + s[8..12] + s[12..16];
  }

  /** The header that output streams write. */
  const HEADER: Bytes := HeaderOf(Codec(MAGIC, VERSION, MINIMUM_COMPATIBLE_VERSION))

  function MagicHead(): int { ReadInt(MAGIC[..4]) }

  /** The head of the magic is a negative int, so no chunk size can be mistaken for it. */
  lemma MagicHeadIsNegative()
    ensures MagicHead() < 0
  {
    assert IntOf(MAGIC[..4][0]) == 0x82;
  }

  // ---------------------------------------------------------------- meaning of a stream

  datatype BlockError =
    | EmptyInput | CutHeader | OldVersion | NegativeSize | TooLarge | CutChunk | Unparsable | Undecodable | WrongLength
    | TooMuchRaw

  datatype Content = Data(data: Bytes) | Corrupt(error: BlockError)

  /** One compressed block. */
  function BlockContent(k: Snappy, body: Bytes): Content {
    if k.uncompressedLength(body).None? then Corrupt(Unparsable)
    else if k.uncompress(body).None? then Corrupt(Undecodable)
    else if |k.uncompress(body).value| != k.uncompressedLength(body).value then Corrupt(WrongLength)
    else Data(k.uncompress(body).value)
  }

  /** The step at a block boundary: a chunk, no chunk (with what is left of the source), or an error. */
  datatype Next = NoChunk(rest: Bytes) | Chunk(data: Bytes, rest: Bytes) | Bad(error: BlockError)

  function NextChunk(k: Snappy, maxChunkSize: int, src: Bytes): (r: Next)
    ensures r.Chunk? ==> |r.rest| < |src|
    decreases |src|
  {
    if |src| < 4 then NoChunk([])
    else
      var size := ReadInt(src[..4]);
      if size == MagicHead() then
        if |src| < HEADER_SIZE then Bad(CutHeader)
        else if src[..8] != MAGIC then NoChunk(src[HEADER_SIZE..])
        else if ReadInt(src[8..12]) < MINIMUM_COMPATIBLE_VERSION then Bad(OldVersion)
        else NextChunk(k, maxChunkSize, src[HEADER_SIZE..])
      else if size < 0 then Bad(NegativeSize)
      else if size > maxChunkSize then Bad(TooLarge)
      else if |src| < 4 + size then Bad(CutChunk)
      else match BlockContent(k, src[4..4 + size])
        case Corrupt(e) => Bad(e)
        case Data(d) => Chunk(d, src[4 + size..])
  }

  /** How a stream ends: a reader reports -1 and has `rest` left, or throws. */
  datatype End = Stop(rest: Bytes) | Fails(error: BlockError)

  datatype Outcome = Outcome(data: Bytes, end: End)

  function Prepend(d: Bytes, o: Outcome): Outcome { Outcome(d + o.data, o.end) }

  function DecodeChunks(k: Snappy, maxChunkSize: int, src: Bytes): Outcome
    decreases |src|
  {
    match NextChunk(k, maxChunkSize, src)
    case NoChunk(rest) => Outcome([], Stop(rest))
    case Bad(e) => Outcome([], Fails(e))
    case Chunk(d, rest) => Prepend(d, DecodeChunks(k, maxChunkSize, rest))
  }

  function Zeros(n: nat): Bytes { seq(n, _ => 0) }

  /** From this length on, doubling the buffer for raw data exceeds an int. */
  const RAW_LIMIT := 0x4000_0000

  /** Data compressed without this library's header. */
  function DecodeRaw(k: Snappy, src: Bytes): Outcome {
    if RAW_LIMIT <= |src| then Outcome([], Fails(TooMuchRaw))
    else if k.uncompressedLength(src).None? then Outcome([], Fails(Unparsable))
    else if k.uncompress(src).None? then Outcome([], Fails(Undecodable))
    else
      UncompressLawHolds(k, src);
      var d := k.uncompress(src).value;
      Outcome(d + Zeros(k.uncompressedLength(src).value - |d|), Stop([]))
  }

  predicate HasMagicPrefix(src: Bytes) { HEADER_SIZE <= |src| && src[..8] == MAGIC }

  /** A whole input. */
  function Decode(k: Snappy, maxChunkSize: int, src: Bytes): Outcome {
    if src == [] then Outcome([], Fails(EmptyInput))
    else if HasMagicPrefix(src) then DecodeChunks(k, maxChunkSize, src[HEADER_SIZE..])
    else DecodeRaw(k, src)
  }

  // ---------------------------------------------------------------- reading on after an exception

  /** A later header that lets the stream go on. */
  predicate GoodHeader(src: Bytes)
    requires HEADER_SIZE <= |src|
  {
    src[..8] == MAGIC && MINIMUM_COMPATIBLE_VERSION <= ReadInt(src[8..12])
  }

  /** What is left of the source after one look for a chunk, whatever it found. */
  function RestAfter(maxChunkSize: int, src: Bytes): Bytes
    decreases |src|
  {
    if |src| < 4 then []
    else
      var size := ReadInt(src[..4]);
      if size == MagicHead() then
        if |src| < HEADER_SIZE then []
        else if GoodHeader(src) then RestAfter(maxChunkSize, src[HEADER_SIZE..])
        else src[HEADER_SIZE..]
      else if size < 0 || size > maxChunkSize then src[4..]
      else src[Min(4 + size, |src|)..]
  }

  /** What a caller still gets who reads on after the first exception on `src`. */
  function Resumed(k: Snappy, maxChunkSize: int, src: Bytes): Outcome
    decreases |src|
  {
    match NextChunk(k, maxChunkSize, src)
    case NoChunk(rest) => Outcome([], Stop(rest))
    case Bad(_) => DecodeChunks(k, maxChunkSize, RestAfter(maxChunkSize, src))
    case Chunk(_, rest) => Resumed(k, maxChunkSize, rest)
  }

  /** An example: behind a block that is too large for the reader, its compressed bytes are taken for chunks. */
  lemma ReadingOnAfterTooLarge(k: Snappy, maxChunkSize: int, b: Bytes, rest: Bytes)
    requires |b| <= MAX_BLOCK_SIZE && maxChunkSize < |k.compress(b)|
    ensures NextChunk(k, maxChunkSize, EncodeBlock(k, b) + rest) == Bad(TooLarge)
    ensures Resumed(k, maxChunkSize, EncodeBlock(k, b) + rest) == DecodeChunks(k, maxChunkSize, k.compress(b) + rest)
  {
    hide WriteInt, ReadInt, EncodeBlock, Lawful, NextChunk, DecodeChunks;
    BlockRoundTrip(k, maxChunkSize, b, rest);
    BlockSizes(k, b);
    var c := k.compress(b);
    var s := EncodeBlock(k, b) + rest;
    ReadWriteInt(|c|);
    MagicHeadIsNegative();
    assert s[..4] == WriteInt(|c|) && s[4..] == c + rest;
  }

  // ---------------------------------------------------------------- what the writer emits

  function EncodeBlock(k: Snappy, b: Bytes): Bytes {
    var c := k.compress(b);
    if |c| <= MAX_INT then WriteInt(|c|) + c else []
  }

  function Blocker(k: Snappy): Bytes -> Bytes { (b: Bytes) => EncodeBlock(k, b) }

  /** A closed writer's output. */
  function Stream(k: Snappy, blockSize: nat, segments: seq<Bytes>): Bytes
    requires 0 < blockSize
  {
    HEADER + EncodeSegments(Blocker(k), blockSize, segments)
  }

  // ---------------------------------------------------------------- round trip

  const MAX_BLOCK_SIZE := 0x2000_0000

  lemma BlockSizes(k: Snappy, b: Bytes)
    requires |b| <= MAX_BLOCK_SIZE
    ensures CompressLaw(k, b) && |k.compress(b)| <= MAX_INT - 20
    ensures EncodeBlock(k, b) == WriteInt(|k.compress(b)|) + k.compress(b)
  {
    CompressLawHolds(k, b);
    assert BoundLaw(k);
  }

  /** One block, decoded; a reader with a smaller limit than the block's compressed size refuses it. */
  lemma BlockRoundTrip(k: Snappy, maxChunkSize: int, b: Bytes, rest: Bytes)
    requires |b| <= MAX_BLOCK_SIZE
    ensures NextChunk(k, maxChunkSize, EncodeBlock(k, b) + rest)
         == if |k.compress(b)| <= maxChunkSize then Chunk(b, rest) else Bad(TooLarge)
  {
    hide WriteInt, ReadInt, EncodeBlock, Lawful;
    BlockSizes(k, b);
    var c := k.compress(b);
    var s := EncodeBlock(k, b) + rest;
    ReadWriteInt(|c|);
    MagicHeadIsNegative();
    assert s[..4] == WriteInt(|c|) && s[4..4 + |c|] == c && s[4 + |c|..] == rest;
  }

  lemma HeaderParts()
    ensures |HEADER| == HEADER_SIZE && HEADER[..8] == MAGIC && HEADER[..4] == MAGIC[..4]
    ensures ReadInt(HEADER[8..12]) == VERSION && ReadInt(HEADER[12..16]) == MINIMUM_COMPATIBLE_VERSION
  {
    hide WriteInt, ReadInt;
    CodecRoundTrip(Codec(MAGIC, VERSION, MINIMUM_COMPATIBLE_VERSION), HEADER, []);
    assert HEADER + [] == HEADER;
  }

  /** A header between blocks is skipped: streams may be concatenated. */
  lemma HeaderIsTransparent(k: Snappy, maxChunkSize: int, rest: Bytes)
    ensures NextChunk(k, maxChunkSize, HEADER + rest) == NextChunk(k, maxChunkSize, rest)
    ensures DecodeChunks(k, maxChunkSize, HEADER + rest) == DecodeChunks(k, maxChunkSize, rest)
  {
    hide WriteInt, ReadInt, Lawful, BlockContent;
    HeaderParts();
    var s := HEADER + rest;
    assert s[..4] == HEADER[..4] && s[..8] == HEADER[..8] && s[8..12] == HEADER[8..12] && s[HEADER_SIZE..] == rest;
  }

  /** Every block of the canonical chunking compresses to at most `maxChunkSize` bytes. */
  ghost predicate AllFit(k: Snappy, maxChunkSize: int, blockSize: nat, data: Bytes)
    requires 0 < blockSize
    decreases |data|
  {
    if data == [] then true
    else if |data| <= blockSize then |k.compress(data)| <= maxChunkSize
    else |k.compress(data[..blockSize])| <= maxChunkSize && AllFit(k, maxChunkSize, blockSize, data[blockSize..])
  }

  ghost predicate AllSegmentsFit(k: Snappy, maxChunkSize: int, blockSize: nat, segments: seq<Bytes>)
    requires 0 < blockSize
  {
    forall i :: 0 <= i < |segments| ==> AllFit(k, maxChunkSize, blockSize, segments[i])
  }

  lemma PrependTwice(a: Bytes, b: Bytes, o: Outcome)
    ensures Prepend(a, Prepend(b, o)) == Prepend(a + b, o)
  {
    assert a + (b + o.data) == (a + b) + o.data;
  }

  lemma PrependNothing(o: Outcome)
    ensures Prepend([], o) == o
  {
    assert [] + o.data == o.data;
  }

  /** A segment reads back followed by what follows it, or the reader stops short of its end. */
  lemma {:induction false} SegmentRoundTrip(k: Snappy, maxChunkSize: int, blockSize: nat, data: Bytes, rest: Bytes)
    requires 1 <= blockSize <= MAX_BLOCK_SIZE
    ensures
      var o := DecodeChunks(k, maxChunkSize, EncodeSegment(Blocker(k), blockSize, data) + rest);
      if AllFit(k, maxChunkSize, blockSize, data) then o == Prepend(data, DecodeChunks(k, maxChunkSize, rest))
      else |o.data| < |data| && o.end == Fails(TooLarge)
    decreases |data|
  {
    hide EncodeBlock, NextChunk, Lawful;
    if data == [] {
      assert EncodeSegment(Blocker(k), blockSize, data) + rest == rest;
      PrependNothing(DecodeChunks(k, maxChunkSize, rest));
    } else if |data| <= blockSize {
      BlockRoundTrip(k, maxChunkSize, data, rest);
    } else {
      var a, b := data[..blockSize], data[blockSize..];
      var tail := EncodeSegment(Blocker(k), blockSize, b) + rest;
      assert EncodeSegment(Blocker(k), blockSize, data) + rest == EncodeBlock(k, a) + tail;
      BlockRoundTrip(k, maxChunkSize, a, tail);
      SegmentRoundTrip(k, maxChunkSize, blockSize, b, rest);
      PrependTwice(a, b, DecodeChunks(k, maxChunkSize, rest));
      assert a + b == data;
    }
  }

  lemma {:induction false} SegmentsRoundTrip(k: Snappy, maxChunkSize: int, blockSize: nat, segments: seq<Bytes>,
      rest: Bytes)
    requires 1 <= blockSize <= MAX_BLOCK_SIZE
    ensures
      var o := DecodeChunks(k, maxChunkSize, EncodeSegments(Blocker(k), blockSize, segments) + rest);
      if AllSegmentsFit(k, maxChunkSize, blockSize, segments)
      then o == Prepend(Flatten(segments), DecodeChunks(k, maxChunkSize, rest))
      else |o.data| < |Flatten(segments)| && o.end == Fails(TooLarge)
    decreases |segments|
  {
    hide EncodeSegment, DecodeChunks, AllFit, Lawful, Blocker;
    if segments == [] {
      assert EncodeSegments(Blocker(k), blockSize, segments) + rest == rest;
      PrependNothing(DecodeChunks(k, maxChunkSize, rest));
    } else {
      var init, last := segments[..|segments| - 1], segments[|segments| - 1];
      var tail := EncodeSegment(Blocker(k), blockSize, last) + rest;
      assert EncodeSegments(Blocker(k), blockSize, segments) + rest
        == EncodeSegments(Blocker(k), blockSize, init) + tail;
      SegmentsRoundTrip(k, maxChunkSize, blockSize, init, tail);
      SegmentRoundTrip(k, maxChunkSize, blockSize, last, rest);
      PrependTwice(Flatten(init), last, DecodeChunks(k, maxChunkSize, rest));
      assert segments == init + [last];
    }
  }

  /** What one closed output stream was given. */
  datatype StreamContents = Written(blockSize: nat, segments: seq<Bytes>)

  type Written = w: StreamContents | 1 <= w.blockSize <= MAX_BLOCK_SIZE witness Written(1, [])

  function Join(ws: seq<Written>): Bytes { if ws == [] then [] else Flatten(ws[0].segments) + Join(ws[1..]) }

  function JoinStreams(k: Snappy, ws: seq<Written>): Bytes
  {
    if ws == [] then [] else Stream(k, ws[0].blockSize, ws[0].segments) + JoinStreams(k, ws[1..])
  }

  ghost predicate AllStreamsFit(k: Snappy, maxChunkSize: int, ws: seq<Written>)
  {
    forall i :: 0 <= i < |ws| ==> AllSegmentsFit(k, maxChunkSize, ws[i].blockSize, ws[i].segments)
  }

  /** Any number of streams, one after the other, read back as the joined data, followed by whatever follows them, if
      and only if every block's compressed size is within the reader's limit. */
  lemma {:induction false} StreamsRoundTrip(k: Snappy, maxChunkSize: int, ws: seq<Written>, rest: Bytes)
    ensures
      var o := DecodeChunks(k, maxChunkSize, JoinStreams(k, ws) + rest);
      if AllStreamsFit(k, maxChunkSize, ws) then o == Prepend(Join(ws), DecodeChunks(k, maxChunkSize, rest))
      else |o.data| < |Join(ws)| && o.end == Fails(TooLarge)
    decreases |ws|
  {
    hide DecodeChunks, NextChunk, EncodeSegments, AllSegmentsFit, AllStreamsFit, Lawful, Blocker, Flatten, HeaderOf;
    StreamsFitOneByOne(k, maxChunkSize, ws);
    if ws == [] {
      assert JoinStreams(k, ws) + rest == rest;
      PrependNothing(DecodeChunks(k, maxChunkSize, rest));
    } else {
      var w, more := ws[0], JoinStreams(k, ws[1..]) + rest;
      var body := EncodeSegments(Blocker(k), w.blockSize, w.segments);
      assert JoinStreams(k, ws) + rest == HEADER + (body + more);
      HeaderIsTransparent(k, maxChunkSize, body + more);
      SegmentsRoundTrip(k, maxChunkSize, w.blockSize, w.segments, more);
      StreamsRoundTrip(k, maxChunkSize, ws[1..], rest);
      PrependTwice(Flatten(w.segments), Join(ws[1..]), DecodeChunks(k, maxChunkSize, rest));
    }
  }

  lemma StreamsFitOneByOne(k: Snappy, maxChunkSize: int, ws: seq<Written>)
    ensures AllStreamsFit(k, maxChunkSize, ws) <==>
              ws == []
              || (&& AllSegmentsFit(k, maxChunkSize, ws[0].blockSize, ws[0].segments)
                  && AllStreamsFit(k, maxChunkSize, ws[1..]))
  {
    hide AllSegmentsFit;
    assert ws != [] ==> ws == [ws[0]] + ws[1..];
  }

  lemma NothingDecodes(k: Snappy, maxChunkSize: int)
    ensures DecodeChunks(k, maxChunkSize, []) == Outcome([], Stop([]))
  {}

  /** The same through the constructor's look at the first header. */
  lemma JoinedStreamsDecode(k: Snappy, maxChunkSize: int, ws: seq<Written>)
    requires ws != []
    ensures Decode(k, maxChunkSize, JoinStreams(k, ws)) == Outcome(Join(ws), Stop([])) <==>
              AllStreamsFit(k, maxChunkSize, ws)
    ensures HasMagicPrefix(JoinStreams(k, ws))
  {
    hide Decode, DecodeChunks, JoinStreams, AllStreamsFit, Lawful;
    FirstHeader(k, maxChunkSize, ws, []);
    StreamsRoundTrip(k, maxChunkSize, ws, []);
    NothingDecodes(k, maxChunkSize);
    assert JoinStreams(k, ws) + [] == JoinStreams(k, ws) && Join(ws) + [] == Join(ws);
  }

  lemma FirstHeader(k: Snappy, maxChunkSize: int, ws: seq<Written>, rest: Bytes)
    requires ws != []
    ensures HasMagicPrefix(JoinStreams(k, ws) + rest)
    ensures Decode(k, maxChunkSize, JoinStreams(k, ws) + rest)
         == DecodeChunks(k, maxChunkSize, JoinStreams(k, ws) + rest)
  {
    hide DecodeChunks, EncodeSegments, Lawful, Blocker, WriteInt, ReadInt;
    var w, more := ws[0], JoinStreams(k, ws[1..]) + rest;
    var tail := EncodeSegments(Blocker(k), w.blockSize, w.segments) + more;
    var s := JoinStreams(k, ws) + rest;
    assert s == HEADER + tail;
    HeaderParts();
    assert s[..8] == HEADER[..8] && s[HEADER_SIZE..] == tail;
    HeaderIsTransparent(k, maxChunkSize, tail);
  }

  // ---------------------------------------------------------------- headers that are odd

  /** The versions in the first header do not matter, whatever they are. */
  lemma FirstVersionIsIgnored(k: Snappy, maxChunkSize: int, c: Codec, rest: Bytes)
    requires c.magic == MAGIC
    ensures Decode(k, maxChunkSize, HeaderOf(c) + rest) == DecodeChunks(k, maxChunkSize, rest)
  {
    hide DecodeChunks, DecodeRaw, WriteInt;
    var s := HeaderOf(c) + rest;
    assert s[..8] == MAGIC && s[HEADER_SIZE..] == rest;
  }

  lemma BehindHeader(k: Snappy, maxChunkSize: int, rest: Bytes)
    ensures Decode(k, maxChunkSize, HEADER + rest) == DecodeChunks(k, maxChunkSize, rest)
  {
    hide Decode, DecodeChunks, WriteInt, Lawful;
    FirstVersionIsIgnored(k, maxChunkSize, Codec(MAGIC, VERSION, MINIMUM_COMPATIBLE_VERSION), rest);
  }

  /** A later header is looked at: with the right magic, the stream goes on if and only if the version is not too old;
      with a wrong one, it ends there, behind the header. */
  lemma LaterHeader(k: Snappy, maxChunkSize: int, c: Codec, rest: Bytes)
    requires c.magic[..4] == MAGIC[..4]
    ensures NextChunk(k, maxChunkSize, HeaderOf(c) + rest) ==
            if c.magic != MAGIC then NoChunk(rest)
            else if c.version < MINIMUM_COMPATIBLE_VERSION then Bad(OldVersion)
            else NextChunk(k, maxChunkSize, rest)
  {
    hide WriteInt, ReadInt, BlockContent;
    var s := HeaderOf(c) + rest;
    ReadWriteInt(c.version);
    assert s[..4] == c.magic[..4] && s[..8] == c.magic && s[8..12] == WriteInt(c.version) && s[HEADER_SIZE..] == rest;
  }

  // ---------------------------------------------------------------- truncation

  /** What a reader reports when `n` bytes of a block are left of it. */
  function CutEnd(n: nat): End { if n < 4 then Stop([]) else Fails(CutChunk) }

  lemma CutBlock(k: Snappy, maxChunkSize: int, b: Bytes, n: nat)
    requires |b| <= MAX_BLOCK_SIZE && |k.compress(b)| <= maxChunkSize && n < |EncodeBlock(k, b)|
    ensures DecodeChunks(k, maxChunkSize, EncodeBlock(k, b)[..n]) == Outcome([], CutEnd(n))
  {
    hide WriteInt, ReadInt, EncodeBlock, Lawful, BlockContent;
    BlockSizes(k, b);
    var c, s := k.compress(b), EncodeBlock(k, b)[..n];
    if 4 <= n {
      ReadWriteInt(|c|);
      MagicHeadIsNegative();
      assert s[..4] == WriteInt(|c|);
    }
  }

  predicate BlocksFit(k: Snappy, maxChunkSize: int, blocks: seq<Bytes>) {
    forall i :: 0 <= i < |blocks| ==> |k.compress(blocks[i])| <= maxChunkSize
  }

  /** The blocks before the cut are delivered; the cut is reported if and only if more than three bytes follow them. */
  lemma {:induction false} CutBlocks(k: Snappy, maxChunkSize: int, blocks: seq<Bytes>, n: nat)
    requires Sized(MAX_BLOCK_SIZE, blocks) && BlocksFit(k, maxChunkSize, blocks)
    requires n <= |Joined(EmitAll(Blocker(k), blocks))|
    ensures
      var pieces := EmitAll(Blocker(k), blocks);
      DecodeChunks(k, maxChunkSize, Joined(pieces)[..n])
      == Outcome(Joined(blocks[..WholePieces(pieces, n)]), CutEnd(LeftOver(pieces, n)))
  {
    hide DecodeChunks, EncodeBlock, Lawful, NextChunk;
    var pieces := EmitAll(Blocker(k), blocks);
    if blocks == [] {
      NothingDecodes(k, maxChunkSize);
    } else {
      var first, tail := EncodeBlock(k, blocks[0]), EmitAll(Blocker(k), blocks[1..]);
      assert pieces[0] == first && pieces[1..] == tail;
      var later := Joined(tail);
      if n < |first| {
        assert Joined(pieces)[..n] == first[..n];
        CutBlock(k, maxChunkSize, blocks[0], n);
      } else {
        var m := n - |first|;
        assert (first + later)[..n] == first + later[..m];
        BlockRoundTrip(k, maxChunkSize, blocks[0], later[..m]);
        ChunkThenRest(k, maxChunkSize, first + later[..m]);
        CutBlocks(k, maxChunkSize, blocks[1..], m);
        var c := WholePieces(pieces, n);
        assert blocks[..c][1..] == blocks[1..][..c - 1];
      }
    }
  }

  lemma ChunkThenRest(k: Snappy, maxChunkSize: int, src: Bytes)
    ensures var n := NextChunk(k, maxChunkSize, src);
            n.Chunk? ==> DecodeChunks(k, maxChunkSize, src) == Prepend(n.data, DecodeChunks(k, maxChunkSize, n.rest))
  {}

  lemma {:induction false} FitsAsBlocks(k: Snappy, maxChunkSize: int, blockSize: nat, data: Bytes)
    requires 0 < blockSize && AllFit(k, maxChunkSize, blockSize, data)
    ensures BlocksFit(k, maxChunkSize, Blocks(blockSize, data))
    decreases |data|
  {
    hide Lawful;
    if blockSize < |data| {
      FitsAsBlocks(k, maxChunkSize, blockSize, data[blockSize..]);
    }
  }

  lemma {:induction false} AllFitAsBlocks(k: Snappy, maxChunkSize: int, blockSize: nat, segments: seq<Bytes>)
    requires 0 < blockSize && AllSegmentsFit(k, maxChunkSize, blockSize, segments)
    ensures BlocksFit(k, maxChunkSize, AllBlocks(blockSize, segments))
  {
    hide Lawful, AllFit, Blocks;
    if segments != [] {
      AllFitAsBlocks(k, maxChunkSize, blockSize, segments[..|segments| - 1]);
      FitsAsBlocks(k, maxChunkSize, blockSize, segments[|segments| - 1]);
    }
  }

  /** A stream cut behind its header: what was whole is delivered, and the cut goes unreported if and only if it leaves
      at most three bytes of a block. */
  lemma TruncatedStream(k: Snappy, maxChunkSize: int, blockSize: nat, segments: seq<Bytes>, n: nat)
    requires 1 <= blockSize <= MAX_BLOCK_SIZE && AllSegmentsFit(k, maxChunkSize, blockSize, segments)
    requires HEADER_SIZE <= n <= |Stream(k, blockSize, segments)|
    ensures
      var blocks := AllBlocks(blockSize, segments);
      var pieces, m := EmitAll(Blocker(k), blocks), n - HEADER_SIZE;
      && Decode(k, maxChunkSize, Stream(k, blockSize, segments)[..n])
         == Outcome(Joined(blocks[..WholePieces(pieces, m)]), CutEnd(LeftOver(pieces, m)))
      && m == |Joined(pieces[..WholePieces(pieces, m)])| + LeftOver(pieces, m)
  {
    hide Decode, DecodeChunks, EncodeSegments, EmitAll, AllBlocks, Lawful, Blocker, AllSegmentsFit, Joined;
    hide HeaderOf, WholePieces, LeftOver;
    SegmentsAsBlocks(Blocker(k), blockSize, segments);
    AllFitAsBlocks(k, maxChunkSize, blockSize, segments);
    var blocks := AllBlocks(blockSize, segments);
    var body, s := Joined(EmitAll(Blocker(k), blocks)), Stream(k, blockSize, segments);
    assert s == HEADER + body;
    assert s[..n] == HEADER + body[..n - HEADER_SIZE];
    BehindHeader(k, maxChunkSize, body[..n - HEADER_SIZE]);
    CutBlocks(k, maxChunkSize, blocks, n - HEADER_SIZE);
    CutPieces(EmitAll(Blocker(k), blocks), n - HEADER_SIZE);
  }

  /** Up to three bytes of anything after the last block go unnoticed. */
  lemma TailIsIgnored(k: Snappy, maxChunkSize: int, blockSize: nat, segments: seq<Bytes>, tail: Bytes)
    requires 1 <= blockSize <= MAX_BLOCK_SIZE && AllSegmentsFit(k, maxChunkSize, blockSize, segments) && |tail| <= 3
    ensures Decode(k, maxChunkSize, Stream(k, blockSize, segments) + tail) == Outcome(Flatten(segments), Stop([]))
  {
    hide Decode, EncodeSegments, AllSegmentsFit, Lawful, Blocker, Flatten, HeaderOf;
    SegmentsRoundTrip(k, maxChunkSize, blockSize, segments, tail);
    var body := EncodeSegments(Blocker(k), blockSize, segments);
    assert Stream(k, blockSize, segments) + tail == HEADER + (body + tail);
    BehindHeader(k, maxChunkSize, body + tail);
    assert Flatten(segments) + [] == Flatten(segments);
  }

  /** Data compressed in one piece, without a header, reads back if it cannot be mistaken for a stream with one, and if
      and only if it is shorter than 1 GiB. */
  lemma RawRoundTrip(k: Snappy, maxChunkSize: int, data: Bytes)
    requires |data| <= MAX_INT
    requires !HasMagicPrefix(k.compress(data))
    ensures Decode(k, maxChunkSize, k.compress(data)) ==
            if |k.compress(data)| < 0x4000_0000 then Outcome(data, Stop([])) else Outcome([], Fails(TooMuchRaw))
  {
    CompressLawHolds(k, data);
    assert data + Zeros(0) == data;
  }
}
