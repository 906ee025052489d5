/** Whole sequences of intact chunks, in any order, and what becomes of them when the stream is cut short. */
module ChunkSequences {
  import opened Base
  import opened Native
  import opened Crc32c
  import opened Chunking
  import opened FrameFormat

  /** A chunk: data as it is, a compressed body, or something that readers skip (a stream identifier included). */
  datatype Item = Plain(data: Bytes) | Packed(body: Bytes) | Skipped(flag: byte, body: Bytes)

  predicate Intact(k: Snappy, item: Item) {
    match item
    case Plain(data) => 1 <= |data| && |data| + 4 < 0x100_0000
    case Packed(body) => 1 <= |body| && |body| + 4 < 0x100_0000 && Payload(k, Uncompress, body).Data?
    case Skipped(flag, body) => 0x80 <= flag && |body| < 0x100_0000 && (flag == STREAM_IDENTIFIER_FLAG ==> |body| == 6)
  }

  predicate AllIntact(k: Snappy, items: seq<Item>) { forall i :: 0 <= i < |items| ==> Intact(k, items[i]) }

  function Content(k: Snappy, item: Item): Bytes
    requires Intact(k, item)
  {
    match item
    case Plain(data) => data
    case Packed(body) => Payload(k, Uncompress, body).data
    case Skipped(_, _) => []
  }

  function Encoded(k: Snappy, item: Item): (s: Bytes)
    requires Intact(k, item)
    ensures 4 <= |s|
  {
    match item
    case Plain(data) => Chunk(UNCOMPRESSED_DATA_FLAG, MaskedCrc(data), data)
    case Packed(body) => Chunk(COMPRESSED_DATA_FLAG, MaskedCrc(Content(k, item)), body)
    case Skipped(flag, body) => [flag] + PutLength(|body|) + body
  }

  function Contents(k: Snappy, items: seq<Item>): Bytes
    requires AllIntact(k, items)
  {
    if items == [] then [] else Content(k, items[0]) + Contents(k, items[1..])
  }

  function Pieces(k: Snappy, items: seq<Item>): (pieces: seq<Bytes>)
    requires AllIntact(k, items)
    ensures |pieces| == |items|
  {
    seq(|items|, i requires 0 <= i < |items| => Encoded(k, items[i]))
  }

  lemma PiecesTail(k: Snappy, items: seq<Item>)
    requires AllIntact(k, items) && items != []
    ensures Pieces(k, items)[0] == Encoded(k, items[0]) && Pieces(k, items)[1..] == Pieces(k, items[1..])
  {}

  // ---------------------------------------------------------------- decoding

  lemma DecodeItem(k: Snappy, verify: bool, item: Item, rest: Bytes)
    requires Intact(k, item)
    ensures DecodeFrames(k, verify, Encoded(k, item) + rest) == Prepend(Content(k, item), DecodeFrames(k, verify, rest))
  {
    hide NextBlock, Chunk, MaskedCrc, PutLength, Lawful;
    match item
    case Plain(data) =>
      NextBlockOfChunk(k, verify, false, MaskedCrc(data), data, rest);
    case Packed(body) =>
      NextBlockOfChunk(k, verify, true, MaskedCrc(Content(k, item)), body, rest);
    case Skipped(flag, body) =>
      SkippableIsTransparent(k, verify, flag, body, rest);
      PrependNothing(DecodeFrames(k, verify, rest));
  }

  /** Compressed, uncompressed, skippable and identifier chunks in any order decode to the joined payloads. */
  lemma {:induction false} MixedChunks(k: Snappy, verify: bool, items: seq<Item>, rest: Bytes)
    requires AllIntact(k, items)
    ensures DecodeFrames(k, verify, Joined(Pieces(k, items)) + rest)
         == Prepend(Contents(k, items), DecodeFrames(k, verify, rest))
  {
    hide DecodeFrames, Encoded, Content, Prepend, Intact;
    if items == [] {
      assert Joined([]) + rest == rest;
      PrependNothing(DecodeFrames(k, verify, rest));
    } else {
      PiecesTail(k, items);
      var tail := Joined(Pieces(k, items[1..])) + rest;
      assert Joined(Pieces(k, items)) + rest == Encoded(k, items[0]) + tail;
      DecodeItem(k, verify, items[0], tail);
      MixedChunks(k, verify, items[1..], rest);
      PrependTwice(Content(k, items[0]), Contents(k, items[1..]), DecodeFrames(k, verify, rest));
    }
  }

  // ---------------------------------------------------------------- truncation

  /** The error that a reader finds when `n` bytes of `item` are left of it. */
  function CutError(item: Item, n: nat): Option<FrameError> {
    if n == 0 then None
    else if n < 4 then Some(BlockHeaderEof)
    else if item.Skipped? then None
    else Some(FrameEof)
  }

  lemma CutItem(k: Snappy, verify: bool, item: Item, n: nat)
    requires Intact(k, item) && n < |Encoded(k, item)|
    ensures DecodeFrames(k, verify, Encoded(k, item)[..n]) == Outcome([], CutError(item, n))
  {
    hide MaskedCrc, PutInt, PutLength, GetLength, GetInt, FrameContent, Lawful, Payload;
    var s := Encoded(k, item)[..n];
    if 4 <= n {
      var flag, length := Encoded(k, item)[0], |Encoded(k, item)| - 4;
      GetPutLength(length);
      assert s[..4] == [flag] + PutLength(length);
      assert s[..4][1..] == PutLength(length);
      assert FrameMeta(s[..4]).Meta? && FrameMeta(s[..4]).length == length;
      if item.Skipped? {
        assert NextBlock(k, verify, s) == NextBlock(k, verify, s[n..]) == AtEnd;
      }
    }
  }

  /** Truncation: the chunks before the cut are delivered, and the cut is reported unless it falls where a chunk ends
      or inside the body of a chunk that is skipped. */
  lemma {:induction false} CutChunks(k: Snappy, verify: bool, items: seq<Item>, n: nat)
    requires AllIntact(k, items) && n <= |Joined(Pieces(k, items))|
    ensures
      var pieces := Pieces(k, items);
      var c, left := WholePieces(pieces, n), LeftOver(pieces, n);
      DecodeFrames(k, verify, Joined(pieces)[..n])
      == Outcome(Contents(k, items[..c]), if left == 0 then None else (CutPieces(pieces, n); CutError(items[c], left)))
  {
    hide DecodeFrames, Encoded, Content, Intact;
    var pieces := Pieces(k, items);
    var c, left := WholePieces(pieces, n), LeftOver(pieces, n);
    CutPieces(pieces, n);
    if items == [] {
      DecodeNothing(k, verify);
    } else {
      PiecesTail(k, items);
      var first, later := Encoded(k, items[0]), Joined(Pieces(k, items[1..]));
      if n < |first| {
        assert Joined(pieces)[..n] == first[..n];
        CutItem(k, verify, items[0], n);
      } else {
        assert (first + later)[..n] == first + later[..n - |first|];
        DecodeItem(k, verify, items[0], later[..n - |first|]);
        CutChunks(k, verify, items[1..], n - |first|);
        assert items[..c][1..] == items[1..][..c - 1];
      }
    }
  }

  // ---------------------------------------------------------------- streams of this library's writer

  function ItemOf(k: Snappy, ratio: real, block: Bytes): (item: Item)
    requires 0.0 < ratio <= 1.0 && 1 <= |block| <= MAX_BLOCK_SIZE
    ensures Intact(k, item) && Encoded(k, item) == Frame(k, ratio, block) && Content(k, item) == block && !item.Skipped?
  {
    FrameSize(k, ratio, block);
    CompressLawHolds(k, block);
    var c := k.compress(block);
    if WorthCompressing(|c|, |block|, ratio) then Packed(c) else Plain(block)
  }

  function ItemsOf(k: Snappy, ratio: real, blocks: seq<Bytes>): (items: seq<Item>)
    requires 0.0 < ratio <= 1.0 && Sized(MAX_BLOCK_SIZE, blocks)
    ensures |items| == |blocks| && AllIntact(k, items)
    ensures forall i :: 0 <= i < |items| ==> items[i] == ItemOf(k, ratio, blocks[i])
  {
    seq(|blocks|, i requires 0 <= i < |blocks| => ItemOf(k, ratio, blocks[i]))
  }

  lemma FramesArePieces(k: Snappy, ratio: real, blocks: seq<Bytes>)
    requires 0.0 < ratio <= 1.0 && Sized(MAX_BLOCK_SIZE, blocks)
    ensures Pieces(k, ItemsOf(k, ratio, blocks)) == EmitAll(Framer(k, ratio), blocks)
  {
    hide Frame, Encoded, Lawful;
  }

  lemma {:induction false} ContentsOfItems(k: Snappy, ratio: real, blocks: seq<Bytes>, c: nat)
    requires 0.0 < ratio <= 1.0 && Sized(MAX_BLOCK_SIZE, blocks) && c <= |blocks|
    ensures Contents(k, ItemsOf(k, ratio, blocks)[..c]) == Joined(blocks[..c])
  {
    hide Content, Lawful, ItemOf;
    if c != 0 {
      var items := ItemsOf(k, ratio, blocks);
      ContentsOfItems(k, ratio, blocks[1..], c - 1);
      assert items[..c][1..] == ItemsOf(k, ratio, blocks[1..])[..c - 1];
      assert blocks[..c][1..] == blocks[1..][..c - 1];
    }
  }

  /** The frames of a stream of this library's writer. */
  function Frames(k: Snappy, ratio: real, blockSize: nat, segments: seq<Bytes>): seq<Bytes>
    requires 0 < blockSize
  {
    EmitAll(Framer(k, ratio), AllBlocks(blockSize, segments))
  }

  /** A stream of this library's writer, cut behind its identifier. */
  lemma CutFrames(k: Snappy, verify: bool, ratio: real, blockSize: nat, segments: seq<Bytes>, m: nat)
    requires 0.0 < ratio <= 1.0 && 1 <= blockSize <= MAX_BLOCK_SIZE
    requires m <= |EncodeSegments(Framer(k, ratio), blockSize, segments)|
    ensures
      var frames, blocks := Frames(k, ratio, blockSize, segments), AllBlocks(blockSize, segments);
      var o := DecodeFrames(k, verify, EncodeSegments(Framer(k, ratio), blockSize, segments)[..m]);
      && o.data == Joined(blocks[..WholePieces(frames, m)]) && (o.error == None <==> LeftOver(frames, m) == 0)
      && (o.error.Some? ==> o.error.value in {BlockHeaderEof, FrameEof})
  {
    hide DecodeFrames, EncodeSegments, Framer, Lawful, EmitAll, AllBlocks, Joined, ItemsOf, Contents, Pieces;
    hide WholePieces, LeftOver;
    var blocks, frames := AllBlocks(blockSize, segments), Frames(k, ratio, blockSize, segments);
    SegmentsAsBlocks(Framer(k, ratio), blockSize, segments);
    FramesArePieces(k, ratio, blocks);
    CutChunks(k, verify, ItemsOf(k, ratio, blocks), m);
    ContentsOfItems(k, ratio, blocks, WholePieces(frames, m));
    CutPieces(frames, m);
  }

  /** Every truncation of a stream that this library wrote is reported, except one where a frame ends; what was whole
      before the cut is delivered. */
  lemma TruncationIsReported(k: Snappy, verify: bool, ratio: real, blockSize: nat, segments: seq<Bytes>, n: nat)
    requires 0.0 < ratio <= 1.0 && 1 <= blockSize <= MAX_BLOCK_SIZE && n <= |Stream(k, ratio, blockSize, segments)|
    ensures
      var frames, o := Frames(k, ratio, blockSize, segments),
        Decode(k, verify, Stream(k, ratio, blockSize, segments)[..n]);
      && (o.error == None <==> exists c :: 0 <= c <= |frames| && n == |HEADER| + |Joined(frames[..c])|)
      && (|HEADER| <= n ==> o.data == Joined(AllBlocks(blockSize, segments)[..WholePieces(frames, n - |HEADER|)]))
      && o.data <= Flatten(segments)
      && (o.error.Some? ==> o.error.value in {StreamHeaderEof, BlockHeaderEof, FrameEof})
  {
    hide Decode, DecodeFrames, EncodeSegments, Framer, Lawful, EmitAll, AllBlocks, Joined, WholePieces, LeftOver;
    var blocks, frames := AllBlocks(blockSize, segments), Frames(k, ratio, blockSize, segments);
    var body, s := EncodeSegments(Framer(k, ratio), blockSize, segments), Stream(k, ratio, blockSize, segments)[..n];
    DecodeHead(k, verify, s);
    if |HEADER| <= n {
      var m := n - |HEADER|;
      var c := WholePieces(frames, m);
      assert s == HEADER + body[..m];
      assert s[|HEADER|..] == body[..m];
      CutFrames(k, verify, ratio, blockSize, segments, m);
      SegmentsAsBlocks(Framer(k, ratio), blockSize, segments);
      CutPieces(frames, m);
      if c' :| 0 <= c' <= |frames| && m == |Joined(frames[..c'])| {
        CutBetweenPieces(frames, c');
      }
      JoinedConcat(blocks[..c], blocks[c..]);
      assert blocks == blocks[..c] + blocks[c..];
    }
  }
}
