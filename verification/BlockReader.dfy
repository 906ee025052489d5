/** The block input stream: chunks, concatenated streams, raw data, and reads that fill their request. */
module BlockReader {
  import opened Base
  import opened Native
  import opened BlockFormat
  import opened ByteIo

  /** `Snappy.uncompress(byte[], 0, n, byte[], 0)`. */
  method ArrayUncompress(k: Snappy, src: array<byte>, n: nat, dst: array<byte>) returns (size: Option<nat>)
    requires src != dst && n <= src.Length
    requires k.uncompressedLength(src[..n]).Some? && k.uncompressedLength(src[..n]).value <= dst.Length
    modifies dst
    ensures size == None <==> k.uncompress(old(src[..n])) == None
    ensures size.Some? ==>
              && size.value == |k.uncompress(old(src[..n])).value| <= dst.Length
              && dst[..size.value] == k.uncompress(old(src[..n])).value
              && dst[size.value..] == old(dst[..])[size.value..]
  {
    UncompressLawHolds(k, src[..n]);
    var out := k.uncompress(src[..n]);
    if out == None {
      return None;
    }
    var data := out.value;
    ghost var before := dst[..];
    forall i | 0 <= i < |data| { dst[i] := data[i]; }
    assert dst[..|data|] == data && dst[|data|..] == before[|data|..];
    return Some(|data|);
  }

  /** Reads until `dest[offset..offset + len]` is full or the source ends. */
  method ReadUpTo(source: Source, dest: array<byte>, offset: nat, len: nat) returns (readBytes: nat)
    requires offset + len <= dest.Length
    modifies source, dest
    ensures readBytes == Min(len, |old(source.rest)|) && source.rest == old(source.rest)[readBytes..]
    ensures dest[..offset] == old(dest[..offset]) && dest[offset..offset + readBytes] == old(source.rest)[..readBytes]
  {
    ghost var all := source.rest;
    readBytes := 0;
    while readBytes < len
      invariant readBytes <= len && readBytes <= |all| && source.rest == all[readBytes..]
      invariant dest[..offset] == old(dest[..offset]) && dest[offset..offset + readBytes] == all[..readBytes]
      decreases len - readBytes
    {
      ghost var before := dest[..];
      var ret := source.Read(dest, offset + readBytes, len - readBytes);
      if ret == -1 {
        return;
      }
      assert dest[..offset + readBytes] == before[..offset + readBytes];
      assert dest[offset..offset + readBytes] == before[offset..offset + readBytes];
      assert dest[offset + readBytes..offset + readBytes + ret] == all[readBytes..][..ret];
      assert dest[offset..offset + readBytes + ret] == all[..readBytes] + all[readBytes..][..ret];
      readBytes := readBytes + ret;
    }
  }

  /** `hasMagicHeaderPrefix`: on a short array, whether it is a prefix of the magic. */
  method HasMagicHeaderPrefix(b: array<byte>) returns (r: bool)
    ensures r == (b[..Min(|MAGIC|, b.Length)] == MAGIC[..Min(|MAGIC|, b.Length)])
  {
    var limit := Min(|MAGIC|, b.Length);
    var i := 0;
    while i < limit
      invariant 0 <= i <= limit && b[..i] == MAGIC[..i]
    {
      if b[i] != MAGIC[i] {
        assert b[..limit][i] != MAGIC[..limit][i];
        return false;
      }
      i := i + 1;
    }
    return true;
  }

  /** Sizes that reach the largest one by doubling. */
  predicate DoublesUp(n: nat)
    decreases RAW_LIMIT - n
  {
    n == RAW_LIMIT || (0 < n < RAW_LIMIT && DoublesUp(2 * n))
  }

  lemma DoublesUpStep(n: nat)
    requires DoublesUp(n)
    ensures 0 < n <= RAW_LIMIT && (n < RAW_LIMIT ==> DoublesUp(2 * n))
  {}

  lemma FirstSizeDoublesUp()
    ensures DoublesUp(0x2000)
  {
    assert DoublesUp(0x1000_0000);
    assert DoublesUp(0x400_0000);
    assert DoublesUp(0x100_0000);
    assert DoublesUp(0x40_0000);
    assert DoublesUp(0x10_0000);
    assert DoublesUp(0x4_0000);
    assert DoublesUp(0x1_0000);
    assert DoublesUp(0x4000);
  }

  /** `got` is in its place in `b`; nothing is said of an empty `got`, whose place need not exist. */
  ghost predicate Copied(b: array<byte>, byteOffset: int, got: Bytes)
    reads b
  {
    got != [] ==> 0 <= byteOffset && byteOffset + |got| <= b.Length && b[byteOffset..byteOffset + |got|] == got
  }

  /** The exceptions of `read(byte[], int, int)`. */
  datatype Thrown = Nothing | IndexOutOfBounds | Corrupted(error: BlockError)

  class BlockInputStream {
    const k: Snappy
    const source: Source
    const maxChunkSize: int
    const header: array<byte>
    var finishedReading: bool
    var compressed: array?<byte>
    var uncompressed: array?<byte>
    var uncompressedCursor: nat
    var uncompressedLimit: nat

    ghost predicate Valid()
      reads this, source
    {
      && header.Length == HEADER_SIZE && header != compressed && header != uncompressed
      && (compressed != null ==> compressed != uncompressed)
      && uncompressedCursor <= uncompressedLimit
      && (0 < uncompressedLimit ==> uncompressed != null && uncompressedLimit <= uncompressed.Length)
      && (finishedReading ==> source.rest == [])
    }

    /** The objects a call may change. */
    ghost function Footprint(): set<object>
      reads this
    {
      {this, source, header}
      + (if compressed == null then {} else {compressed})
      + (if uncompressed == null then {} else {uncompressed})
    }

    /** Buffers are replaced by new ones only. */
    twostate predicate Rebuffered()
      reads this
    {
      && (compressed == old(compressed) || (compressed != null && fresh(compressed)))
      && (uncompressed == old(uncompressed) || (uncompressed != null && fresh(uncompressed)))
    }

    /** Decoded bytes not yet delivered. */
    ghost function Buffered(): Bytes
      requires Valid()
      reads this, source, uncompressed
    {
      if uncompressedCursor < uncompressedLimit then uncompressed[uncompressedCursor..uncompressedLimit] else []
    }

    /** Everything still to come. */
    ghost function Pending(): Outcome
      requires Valid()
      reads this, source, uncompressed
    {
      Prepend(Buffered(), DecodeChunks(k, maxChunkSize, source.rest))
    }

    // -------------------------------------------------------------- construction

    constructor (k: Snappy, source: Source, maxChunkSize: int)
      ensures Valid() && Buffered() == [] && !finishedReading
      ensures this.k == k && this.source == source && this.maxChunkSize == maxChunkSize
      ensures compressed == null && uncompressed == null && fresh(header)
    {
      this.k, this.source, this.maxChunkSize := k, source, maxChunkSize;
      header := new byte[HEADER_SIZE];
      finishedReading, compressed, uncompressed, uncompressedCursor, uncompressedLimit := false, null, null, 0, 0;
    }

    /** `readHeader`, called by the Java constructor: looks for the magic header and falls back to raw data. */
    method ReadHeader() returns (e: Option<BlockError>)
      requires Valid() && Buffered() == [] && !finishedReading && compressed == null && uncompressed == null
      modifies this, source, header
      ensures Valid() && Rebuffered()
      ensures e == None ==> Pending() == Decode(k, maxChunkSize, old(source.rest))
      ensures e.Some? ==> Decode(k, maxChunkSize, old(source.rest)) == Outcome([], Fails(e.value))
    {
      hide DecodeChunks, Lawful;
      ghost var src := source.rest;
      var readBytes := ReadUpTo(source, header, 0, header.Length);
      assert header[0..0 + readBytes] == header[..readBytes] == src[..readBytes];
      if readBytes == 0 {
        return Some(EmptyInput);
      }
      var magic := HasMagicHeaderPrefix(header);
      if readBytes == HEADER_SIZE {
        assert header[..8] == header[..readBytes][..8] && src[..8] == src[..readBytes][..8];
      }
      assert HasMagicPrefix(src) <==> readBytes == HEADER_SIZE && magic;
      if readBytes < header.Length || !magic {
        e := ReadFully(readBytes, src);
        NothingDecodes(k, maxChunkSize);
        assert e == None ==> Buffered() + [] == Buffered();
        return;
      }
      PrependNothing(DecodeChunks(k, maxChunkSize, source.rest));
      return None;
    }

    /** `readFully`: the whole source is one piece of raw Snappy data. */
    method ReadFully(fragmentLength: nat, ghost src: Bytes) returns (e: Option<BlockError>)
      requires Valid() && Buffered() == [] && compressed == null && uncompressed == null
      requires fragmentLength <= HEADER_SIZE && fragmentLength <= |src| && (fragmentLength == 0 ==> src == [])
      requires header[..fragmentLength] == src[..fragmentLength] && source.rest == src[fragmentLength..]
      modifies this, source
      ensures Valid() && Rebuffered() && (e != Some(TooMuchRaw) ==> source.rest == [] && finishedReading)
      ensures fragmentLength == 0 ==> e == None && Buffered() == []
      ensures 0 < fragmentLength ==>
                DecodeRaw(k, src) == match e
                  case None => Outcome(Buffered(), Stop([]))
                  case Some(x) => Outcome([], Fails(x))
    {
      hide Lawful;
      if fragmentLength == 0 {
        finishedReading := true;
        return None;
      }
      var fits, cursor := Slurp(fragmentLength, src);
      if !fits {
        return Some(TooMuchRaw);
      }
      finishedReading := true;
      var declared := k.uncompressedLength(compressed[..cursor]);
      if declared == None {
        return Some(Unparsable);
      }
      UncompressLawHolds(k, src);
      uncompressed := new byte[declared.value](_ => 0);
      var n := ArrayUncompress(k, compressed, cursor, uncompressed);
      if n == None {
        return Some(Undecodable);
      }
      uncompressedCursor := 0;
      uncompressedLimit := declared.value;
      assert uncompressed[..] == uncompressed[..n.value] + uncompressed[n.value..];
      assert uncompressed[n.value..] == Zeros(declared.value - n.value);
      assert Buffered() == uncompressed[..];
      return None;
    }

    /** The doubling loop: a read never asks for zero bytes, and at the end `compressed` holds the whole source; from
        1 GiB on the doubled length is no longer an int, and the allocation throws. */
    method Slurp(fragmentLength: nat, ghost src: Bytes) returns (fits: bool, cursor: nat)
      requires 0 < fragmentLength <= header.Length == HEADER_SIZE && fragmentLength <= |src|
      requires header[..fragmentLength] == src[..fragmentLength] && source.rest == src[fragmentLength..]
      modifies this`compressed, source
      ensures fits == (|src| < RAW_LIMIT) && compressed != null && fresh(compressed)
      ensures fits ==> source.rest == [] && cursor <= compressed.Length && compressed[..cursor] == src
    {
      hide DoublesUp;
      FirstSizeDoublesUp();
      var buffer := new byte[Max(8 * 1024, fragmentLength)];
      forall i | 0 <= i < fragmentLength { buffer[i] := header[i]; }
      cursor := fragmentLength;
      assert buffer[..cursor] == header[..cursor];
      var readBytes := 0;
      while readBytes != -1
        invariant fresh(buffer) && 0 < cursor <= |src| && cursor < buffer.Length && DoublesUp(buffer.Length)
        invariant buffer[..cursor] == src[..cursor] && source.rest == src[cursor..]
        invariant readBytes == -1 ==> source.rest == []
        decreases |source.rest|, readBytes != -1
      {
        DoublesUpStep(buffer.Length);
        readBytes := ReadBehind(buffer, cursor, src);
        if readBytes != -1 {
          cursor := cursor + readBytes;
          if cursor >= buffer.Length {
            assert buffer[..] == buffer[..cursor];
            if MAX_INT < buffer.Length * 2 {
              compressed := buffer;
              return false, cursor;
            }
            buffer := Doubled(buffer);
          }
        }
      }
      DoublesUpStep(buffer.Length);
      assert src[..cursor] == src;
      compressed := buffer;
      fits := true;
    }

    /** One read, behind the part of the source that is in `buffer` already. */
    method ReadBehind(buffer: array<byte>, cursor: nat, ghost src: Bytes) returns (readBytes: int)
      requires cursor < buffer.Length && cursor <= |src|
      requires buffer[..cursor] == src[..cursor] && source.rest == src[cursor..]
      modifies source, buffer
      ensures readBytes == -1 ==> source.rest == old(source.rest) == [] && buffer[..cursor] == src[..cursor]
      ensures readBytes != -1 ==>
                && 0 < readBytes && cursor + readBytes <= buffer.Length && cursor + readBytes <= |src|
                && buffer[..cursor + readBytes] == src[..cursor + readBytes] && source.rest == src[cursor + readBytes..]
    {
      ghost var before := buffer[..];
      readBytes := source.Read(buffer, cursor, buffer.Length - cursor);
      if readBytes != -1 {
        assert buffer[..cursor] == before[..cursor];
        assert buffer[..cursor + readBytes] == src[..cursor] + src[cursor..][..readBytes];
      }
    }

    static method Doubled(buffer: array<byte>) returns (newBuf: array<byte>)
      ensures fresh(newBuf) && newBuf.Length == buffer.Length * 2 && newBuf[..buffer.Length] == buffer[..]
    {
      newBuf := new byte[buffer.Length * 2];
      forall i | 0 <= i < buffer.Length { newBuf[i] := buffer[i]; }
    }

    // -------------------------------------------------------------- chunks

    /** `readNext`: into the header; remembers that the source has ended. */
    method ReadNext(offset: nat, len: nat) returns (readBytes: nat)
      requires Valid() && Buffered() == [] && offset + len <= HEADER_SIZE
      modifies this`finishedReading, source, header
      ensures Valid() && Buffered() == []
      ensures readBytes == Min(len, |old(source.rest)|) && source.rest == old(source.rest)[readBytes..]
      ensures header[..offset] == old(header[..offset])
                && header[offset..offset + readBytes] == old(source.rest)[..readBytes]
    {
      readBytes := ReadUpTo(source, header, offset, len);
      if readBytes < len {
        finishedReading := true;
      }
    }

    /** `isValidHeader`: reads the header's fields and compares them with what this version expects. */
    method IsValidHeader() returns (b: bool, e: Option<BlockError>)
      requires header.Length == HEADER_SIZE
      ensures b == (header[..8] == MAGIC)
      ensures e == if b && ReadInt(header[8..12]) < MINIMUM_COMPATIBLE_VERSION then Some(OldVersion) else None
    {
      var codec := ReadCodec(header[..]);
      assert header[..][..8] == header[..8] && header[..][8..12] == header[8..12];
      if codec.magic == MAGIC {
        if codec.version < MINIMUM_COMPATIBLE_VERSION {
          return true, Some(OldVersion);
        }
        return true, None;
      }
      return false, None;
    }

    /** `hasNextChunk`: moves to the next chunk, through any number of headers. */
    method HasNextChunk() returns (r: bool, e: Option<BlockError>)
      requires Valid() && Buffered() == []
      modifies Footprint()
      ensures Valid() && Rebuffered()
      ensures match NextChunk(k, maxChunkSize, old(source.rest))
              case NoChunk(rest) => !r && e == None && source.rest == rest && Buffered() == []
              case Bad(x) =>
                e == Some(x) && source.rest == RestAfter(maxChunkSize, old(source.rest)) && Buffered() == []
              case Chunk(d, rest) => r && e == None && source.rest == rest && Buffered() == d
      decreases |source.rest|
    {
      hide BlockContent, Lawful, ReadInt;
      ghost var src := source.rest;
      if finishedReading {
        return false, None;
      }
      uncompressedCursor := 0;
      uncompressedLimit := 0;
      var readBytes := ReadNext(0, 4);
      if readBytes < 4 {
        return false, None;
      }
      assert header[0..0 + 4] == src[..4];
      var chunkSize := ReadInt(header[0..4]);
      if chunkSize == MagicHead() {
        readBytes := ReadNext(4, HEADER_SIZE - 4);
        if readBytes < HEADER_SIZE - 4 {
          return false, Some(CutHeader);
        }
        assert header[..4] == src[..4] && header[4..4 + 12] == src[4..][..12];
        assert header[..16] == header[..4] + header[4..16] == src[..16];
        assert header[..8] == header[..16][..8] == src[..8] && header[8..12] == header[..16][8..12] == src[8..12];
        var good;
        good, e := IsValidHeader();
        if e.Some? {
          return false, e;
        }
        assert source.rest == src[HEADER_SIZE..];
        if good {
          r, e := HasNextChunk();
          return;
        }
        return false, None;
      }
      if chunkSize < 0 {
        return false, Some(NegativeSize);
      }
      if chunkSize > maxChunkSize {
        return false, Some(TooLarge);
      }
      e := LoadChunk(chunkSize);
      assert 4 + chunkSize <= |src| ==> src[4..][..chunkSize] == src[4..4 + chunkSize];
      return e == None, e;
    }

    /** The rest of `hasNextChunk`: one compressed chunk. */
    method LoadChunk(chunkSize: nat) returns (e: Option<BlockError>)
      requires Valid() && Buffered() == [] && uncompressedLimit == 0
      modifies Footprint()
      ensures Valid() && Rebuffered()
      ensures
        var s := old(source.rest);
        if |s| < chunkSize then e == Some(CutChunk) && source.rest == [] && Buffered() == []
        else source.rest == s[chunkSize..] && match BlockContent(k, s[..chunkSize])
          case Corrupt(x) => e == Some(x) && Buffered() == []
          case Data(d) => e == None && Buffered() == d
    {
      hide Lawful;
      ghost var src := source.rest;
      if compressed == null || chunkSize > compressed.Length {
        compressed := new byte[chunkSize];
      }
      var readBytes := ReadUpTo(source, compressed, 0, chunkSize);
      if readBytes < chunkSize {
        return Some(CutChunk);
      }
      assert compressed[0..0 + chunkSize] == compressed[..chunkSize] == src[..chunkSize];
      e := Inflate(chunkSize);
    }

    method Inflate(chunkSize: nat) returns (e: Option<BlockError>)
      requires Valid() && Buffered() == [] && uncompressedLimit == 0
      requires compressed != null && chunkSize <= compressed.Length
      modifies this`uncompressed, this`uncompressedLimit, Footprint() - {this, source, header}
      ensures Valid() && Rebuffered() && compressed == old(compressed)
      ensures match BlockContent(k, old(compressed[..chunkSize]))
              case Corrupt(x) => e == Some(x) && Buffered() == []
              case Data(d) => e == None && Buffered() == d
    {
      hide Lawful;
      ghost var body := compressed[..chunkSize];
      var declared := k.uncompressedLength(compressed[..chunkSize]);
      if declared == None {
        return Some(Unparsable);
      }
      if uncompressed == null || declared.value > uncompressed.Length {
        uncompressed := new byte[declared.value];
      }
      var actual := ArrayUncompress(k, compressed, chunkSize, uncompressed);
      if actual == None {
        return Some(Undecodable);
      }
      if declared.value != actual.value {
        return Some(WrongLength);
      }
      uncompressedLimit := actual.value;
      return None;
    }

    // -------------------------------------------------------------- the public operations

    /** What is to come for a caller who reads on after the exception that lies ahead. */
    ghost function Salvage(): Outcome
      reads this, source
    {
      Resumed(k, maxChunkSize, source.rest)
    }

    /** Moves on when everything buffered is delivered; reports whether there is a chunk. */
    method Advance() returns (r: bool, e: Option<BlockError>)
      requires Valid() && Buffered() == []
      modifies Footprint()
      ensures Valid() && Rebuffered()
      ensures e.Some? ==>
                old(Pending()) == Outcome([], Fails(e.value)) && Buffered() == [] && Pending() == old(Salvage())
      ensures e == None && !r ==> old(Pending()) == Outcome([], Stop(source.rest)) && Buffered() == []
      ensures e == None && r ==>
                old(Pending()) == Pending() && |source.rest| < |old(source.rest)| && Salvage() == old(Salvage())
      ensures e == None && r ==> NextChunk(k, maxChunkSize, old(source.rest)).Chunk?
    {
      hide Lawful, NextChunk, RestAfter;
      PrependNothing(DecodeChunks(k, maxChunkSize, source.rest));
      r, e := HasNextChunk();
      PrependNothing(DecodeChunks(k, maxChunkSize, source.rest));
    }

    /** `read()`: the next byte, through any number of chunks that decode to nothing. */
    method Read() returns (b: int, e: Option<BlockError>)
      requires Valid()
      modifies Footprint()
      ensures Valid() && Rebuffered() && -1 <= b < 256
      ensures
        var p := old(Pending());
        if p.data != [] then e == None && b == IntOf(p.data[0]) && Pending() == Outcome(p.data[1..], p.end)
        else match p.end
          case Fails(x) => e == Some(x) && Buffered() == [] && Pending() == old(Salvage())
          case Stop(rest) => e == None && b == -1 && source.rest == rest && Buffered() == []
      decreases |source.rest|, if Buffered() == [] then 1 else 0
    {
      hide Lawful, DecodeChunks, IntOf, NextChunk, Resumed;
      if uncompressedCursor < uncompressedLimit {
        ghost var before, later := Buffered(), DecodeChunks(k, maxChunkSize, source.rest);
        b := IntOf(uncompressed[uncompressedCursor]);
        uncompressedCursor := uncompressedCursor + 1;
        assert Buffered() == before[1..];
        SplitConcat(before, later.data, 1);
        return b, None;
      }
      var more;
      more, e := Advance();
      if e.Some? {
        return -1, e;
      }
      if more {
        b, e := Read();
      } else {
        b := -1;
      }
    }

    /** `available`: a look ahead that loses nothing but the report that the stream has ended. */
    method Available() returns (n: nat, e: Option<BlockError>)
      requires Valid()
      modifies Footprint()
      ensures Valid() && Rebuffered()
      ensures e.Some? ==>
                old(Pending()) == Outcome([], Fails(e.value)) && Buffered() == [] && Pending() == old(Salvage())
      ensures e == None ==>
                && n == |Buffered()|
                && (Pending() == old(Pending()) || (n == 0 && old(Pending()) == Outcome([], Stop(source.rest))))
      ensures old(Buffered()) == [] && e == None && NextChunk(k, maxChunkSize, old(source.rest)).NoChunk? ==>
                old(Pending()) == Outcome([], Stop(source.rest)) && Buffered() == []
    {
      hide Lawful, DecodeChunks, NextChunk;
      if uncompressedCursor < uncompressedLimit {
        return uncompressedLimit - uncompressedCursor, None;
      }
      var more;
      more, e := Advance();
      if e.Some? {
        return 0, e;
      }
      return if more then uncompressedLimit - uncompressedCursor else 0, None;
    }

    /** `read(byte[], int, int)`: fills the request unless the stream ends or fails first.  The range is not checked
        beforehand: the copy that leaves `b` throws, after the copies that did not. */
    method ReadArray(b: array<byte>, byteOffset: int, byteLength: int) returns (n: int, e: Thrown, ghost taken: nat)
      requires Valid() && b !in Footprint()
      modifies Footprint(), b
      ensures Valid() && Rebuffered()
      ensures
        var p := old(Pending());
        var want := Max(0, Min(byteLength, |p.data|));
        if 0 < want && (byteOffset < 0 || b.Length < byteOffset + want) then
          && e == IndexOutOfBounds && taken < want && Pending() == Outcome(p.data[taken..], p.end)
          && (0 < taken ==>
                0 <= byteOffset && byteOffset + taken <= b.Length
                  && b[byteOffset..byteOffset + taken] == p.data[..taken])
        else
          && (0 < want ==> b[byteOffset..byteOffset + want] == p.data[..want])
          && if byteLength <= |p.data| then
               e == Nothing && n == want && Pending() == Outcome(p.data[want..], p.end)
             else
               && Buffered() == []
               && match p.end
                  case Fails(x) => e == Corrupted(x) && Pending() == old(Salvage())
                  case Stop(rest) => e == Nothing && n == (if p.data == [] then -1 else |p.data|) && source.rest == rest
    {
      hide Lawful, DecodeChunks, NextChunk, Prepend, Pending, Buffered, Salvage;
      ghost var p, got: Bytes := Pending(), [];
      PrependNothing(p);
      n, taken := 0, 0;
      while n < byteLength
        invariant Valid() && Rebuffered() && b !in Footprint()
        invariant n == |got| <= Max(0, byteLength) && p == Prepend(got, Pending()) && Copied(b, byteOffset, got)
        invariant Salvage() == old(Salvage())
        decreases |source.rest|, |Buffered()|
      {
        var c, more;
        ghost var before, piece := Pending(), [];
        c, more, e, piece := Deliver(b, byteOffset, got, n, byteLength - n);
        PartsOfPrepend(got, before);
        if e != Nothing {
          assert got + [] == got;
          return 0, e, n;
        }
        if !more {
          assert got + [] == got;
          PrependEnd(got, Stop(source.rest));
          return if n == 0 then -1 else n, Nothing, n;
        }
        PrependTwice(got, piece, Pending());
        got, n := got + piece, n + c;
      }
      PartsOfPrepend(got, Pending());
      return n, Nothing, n;
    }

    /** The loop body: moves to the next chunk, or copies what is buffered if there is a place for it. */
    method Deliver(b: array<byte>, byteOffset: int, ghost got: Bytes, n: nat, want: nat)
      returns (c: nat, more: bool, e: Thrown, ghost piece: Bytes)
      requires Valid() && b !in Footprint() && 0 < want && n == |got| && Copied(b, byteOffset, got)
      modifies Footprint(), b
      ensures Valid() && Rebuffered() && c == |piece| <= want && Copied(b, byteOffset, got + piece)
      ensures e != Nothing || !more ==> piece == []
      ensures e.Corrupted? ==>
                old(Pending()) == Outcome([], Fails(e.error)) && Buffered() == [] && Pending() == old(Salvage())
      ensures e == Nothing && more ==> Salvage() == old(Salvage())
      ensures e == IndexOutOfBounds ==>
                && Pending() == old(Pending()) && Pending().data != []
                && (byteOffset < 0 || b.Length < byteOffset + n + Min(want, |Pending().data|))
      ensures e == Nothing && !more ==> old(Pending()) == Outcome([], Stop(source.rest)) && Buffered() == []
      ensures e == Nothing && more ==>
                && old(Pending()) == Prepend(piece, Pending())
                && (|source.rest| < |old(source.rest)|
                    || (source.rest == old(source.rest) && |Buffered()| < |old(Buffered())|))
    {
      hide Lawful, DecodeChunks, NextChunk, Prepend, Resumed;
      c, more, e, piece := 0, true, Nothing, [];
      assert got + [] == got;
      if uncompressedCursor >= uncompressedLimit {
        var x;
        more, x := Advance();
        e := if x.Some? then Corrupted(x.value) else Nothing;
        PrependNothing(Pending());
        return;
      }
      PartsOfPrepend(Buffered(), DecodeChunks(k, maxChunkSize, source.rest));
      if byteOffset + n < 0 || byteOffset + n + Min(uncompressedLimit - uncompressedCursor, want) > b.Length {
        e := IndexOutOfBounds;
        return;
      }
      c, piece := CopyBehind(b, byteOffset, got, n, want);
    }

    /** A copy behind what is in its place already. */
    method CopyBehind(b: array<byte>, byteOffset: int, ghost got: Bytes, n: nat, want: nat)
      returns (c: nat, ghost piece: Bytes)
      requires Valid() && uncompressedCursor < uncompressedLimit && 0 < want && b !in Footprint()
      requires n == |got| && Copied(b, byteOffset, got) && 0 <= byteOffset + n
      requires byteOffset + n + Min(uncompressedLimit - uncompressedCursor, want) <= b.Length
      modifies this`uncompressedCursor, b
      ensures Valid() && c == |piece| <= want && |Buffered()| < |old(Buffered())|
      ensures Copied(b, byteOffset, got + piece) && old(Pending()) == Prepend(piece, Pending())
    {
      hide Lawful, DecodeChunks, Prepend, Pending, Buffered;
      var offset := byteOffset + n;
      c, piece := CopyOut(b, offset, want);
      if got == [] {
        assert got + piece == piece;
      } else {
        SliceOfPrefix(b[..], byteOffset, offset, offset + c);
        assert b[..offset][byteOffset..] == old(b[..offset])[byteOffset..] == old(b[byteOffset..offset]);
      }
    }

    /** One copy out of the buffered chunk. */
    method CopyOut(b: array<byte>, offset: nat, want: nat) returns (c: nat, ghost got: Bytes)
      requires Valid() && uncompressedCursor < uncompressedLimit && 0 < want && b !in Footprint()
      requires offset + Min(uncompressedLimit - uncompressedCursor, want) <= b.Length
      modifies this`uncompressedCursor, b
      ensures Valid() && 0 < c == |got| <= want && |Buffered()| < |old(Buffered())| && offset + c <= b.Length
      ensures old(Pending()) == Prepend(got, Pending())
      ensures b[..offset] == old(b[..offset]) && b[offset..offset + c] == got
    {
      hide Lawful, DecodeChunks, Prepend;
      ghost var before, later := Buffered(), DecodeChunks(k, maxChunkSize, source.rest);
      c := Min(uncompressedLimit - uncompressedCursor, want);
      got := before[..c];
      var cursor := uncompressedCursor;
      forall i | 0 <= i < c { b[offset + i] := uncompressed[cursor + i]; }
      uncompressedCursor := cursor + c;
      assert forall i :: 0 <= i < c ==> b[offset + i] == before[i];
      assert b[offset..offset + c] == got;
      assert Buffered() == before[c..];
      assert before == got + before[c..];
      PrependTwice(got, before[c..], later);
    }
  }

  lemma PrependEnd(a: Bytes, end: End)
    ensures Prepend(a, Outcome([], end)) == Outcome(a, end)
  {}

  lemma PartsOfPrepend(a: Bytes, o: Outcome)
    ensures |a| <= |Prepend(a, o).data| && Prepend(a, o).data[..|a|] == a
    ensures o == Outcome(Prepend(a, o).data[|a|..], Prepend(a, o).end)
  {}

  lemma SliceOfPrefix(s: Bytes, i: nat, j: nat, n: nat)
    requires i <= j <= n <= |s|
    ensures s[..j][i..] == s[i..j] && s[i..n] == s[i..j] + s[j..n]
  {}
}
