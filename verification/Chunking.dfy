/** Cutting data into blocks: what both writers do with the bytes between two flushes. */
module Chunking {
  import opened Base

  /** The canonical output for the data between two flushes: full blocks, then the remainder, each passed to `emit`. */
  function EncodeSegment(emit: Bytes -> Bytes, blockSize: nat, data: Bytes): Bytes
    requires 0 < blockSize
    decreases |data|
  {
    if data == [] then []
    else if |data| <= blockSize then emit(data)
    else emit(data[..blockSize]) + EncodeSegment(emit, blockSize, data[blockSize..])
  }

  function EncodeSegments(emit: Bytes -> Bytes, blockSize: nat, segments: seq<Bytes>): Bytes
    requires 0 < blockSize
  {
    if segments == [] then []
    else EncodeSegments(emit, blockSize, segments[..|segments| - 1])
         + EncodeSegment(emit, blockSize, segments[|segments| - 1])
  }

  function Flatten(segments: seq<Bytes>): Bytes {
    if segments == [] then [] else Flatten(segments[..|segments| - 1]) + segments[|segments| - 1]
  }

  /** `e` consists of full blocks only. */
  ghost predicate WholeBlocks(blockSize: nat, e: Bytes)
    requires 0 < blockSize
    decreases |e|
  {
    e == [] || (blockSize <= |e| && WholeBlocks(blockSize, e[blockSize..]))
  }

  /** Appending a block to full blocks appends its encoding. */
  lemma {:induction false} EncodeSegmentSnoc(emit: Bytes -> Bytes, blockSize: nat, e: Bytes, b: Bytes)
    requires 0 < blockSize && WholeBlocks(blockSize, e) && |b| <= blockSize
    ensures EncodeSegment(emit, blockSize, e + b)
         == EncodeSegment(emit, blockSize, e) + if b == [] then [] else emit(b)
    ensures |b| == blockSize ==> WholeBlocks(blockSize, e + b)
    decreases |e|
  {
    if b == [] {
      assert e + b == e;
    } else if e == [] {
      assert e + b == b;
    } else {
      var e0, e1 := e[..blockSize], e[blockSize..];
      assert (e + b)[..blockSize] == e0 && (e + b)[blockSize..] == e1 + b;
      EncodeSegmentSnoc(emit, blockSize, e1, b);
      if e1 == [] {
        assert e == e0;
      }
    }
  }

  // ---------------------------------------------------------------- the same, block by block

  function Blocks(blockSize: nat, data: Bytes): seq<Bytes>
    requires 0 < blockSize
    decreases |data|
  {
    if data == [] then []
    else if |data| <= blockSize then [data]
    else [data[..blockSize]] + Blocks(blockSize, data[blockSize..])
  }

  /** Where the blocks are cut: at every multiple of the block size and nowhere else. */
  lemma BlockAt(blockSize: nat, data: Bytes, i: nat)
    requires 0 < blockSize && i < |Blocks(blockSize, data)|
    ensures i * blockSize < |data|
    ensures Blocks(blockSize, data)[i] == data[i * blockSize..Min(i * blockSize + blockSize, |data|)]
    ensures i == |Blocks(blockSize, data)| - 1 <==> |data| <= i * blockSize + blockSize
  {
    BlockFrom(blockSize, data, i, i * blockSize);
  }

  lemma {:induction false} BlockFrom(blockSize: nat, data: Bytes, i: nat, at: nat)
    requires 0 < blockSize && i < |Blocks(blockSize, data)| && at == i * blockSize
    ensures at < |data| && Blocks(blockSize, data)[i] == data[at..Min(at + blockSize, |data|)]
    ensures i == |Blocks(blockSize, data)| - 1 <==> |data| <= at + blockSize
    decreases i, 1
  {
    if 0 < i {
      var rest := at - blockSize;
      assert rest == (i - 1) * blockSize;
      BlockBehind(blockSize, data, i, rest);
    }
  }

  lemma {:induction false} BlockBehind(blockSize: nat, data: Bytes, i: nat, rest: nat)
    requires 0 < blockSize && 0 < i < |Blocks(blockSize, data)| && rest == (i - 1) * blockSize
    ensures rest + blockSize < |data|
    ensures Blocks(blockSize, data)[i] == data[rest + blockSize..Min(rest + 2 * blockSize, |data|)]
    ensures i == |Blocks(blockSize, data)| - 1 <==> |data| <= rest + 2 * blockSize
    decreases i, 0
  {
    BlockFrom(blockSize, data[blockSize..], i - 1, rest);
  }

  /** The blocks of all segments, in order. */
  function AllBlocks(blockSize: nat, segments: seq<Bytes>): seq<Bytes>
    requires 0 < blockSize
  {
    if segments == [] then []
    else AllBlocks(blockSize, segments[..|segments| - 1]) + Blocks(blockSize, segments[|segments| - 1])
  }

  predicate Sized(blockSize: nat, blocks: seq<Bytes>) {
    forall i :: 0 <= i < |blocks| ==> 1 <= |blocks[i]| <= blockSize
  }

  function EmitAll(emit: Bytes -> Bytes, blocks: seq<Bytes>): (pieces: seq<Bytes>)
    ensures |pieces| == |blocks|
  {
    seq(|blocks|, i requires 0 <= i < |blocks| => emit(blocks[i]))
  }

  function Joined(pieces: seq<Bytes>): Bytes {
    if pieces == [] then [] else pieces[0] + Joined(pieces[1..])
  }

  lemma {:induction false} JoinedConcat(a: seq<Bytes>, b: seq<Bytes>)
    ensures Joined(a + b) == Joined(a) + Joined(b)
  {
    if a == [] {
      assert a + b == b;
    } else {
      assert (a + b)[1..] == a[1..] + b;
      JoinedConcat(a[1..], b);
    }
  }

  lemma {:induction false} SegmentAsBlocks(emit: Bytes -> Bytes, blockSize: nat, data: Bytes)
    requires 0 < blockSize
    ensures EncodeSegment(emit, blockSize, data) == Joined(EmitAll(emit, Blocks(blockSize, data)))
    ensures Joined(Blocks(blockSize, data)) == data && Sized(blockSize, Blocks(blockSize, data))
    decreases |data|
  {
    var blocks := Blocks(blockSize, data);
    if data != [] && |data| <= blockSize {
      assert EmitAll(emit, blocks)[1..] == [] == blocks[1..];
    } else if data != [] {
      SegmentAsBlocks(emit, blockSize, data[blockSize..]);
      assert blocks[1..] == Blocks(blockSize, data[blockSize..]);
      assert EmitAll(emit, blocks)[1..] == EmitAll(emit, blocks[1..]);
    }
  }

  /** The canonical output is what the blocks emit, one after the other. */
  lemma {:induction false} SegmentsAsBlocks(emit: Bytes -> Bytes, blockSize: nat, segments: seq<Bytes>)
    requires 0 < blockSize
    ensures EncodeSegments(emit, blockSize, segments) == Joined(EmitAll(emit, AllBlocks(blockSize, segments)))
    ensures Joined(AllBlocks(blockSize, segments)) == Flatten(segments)
              && Sized(blockSize, AllBlocks(blockSize, segments))
  {
    hide EncodeSegment, Blocks, Joined;
    if segments == [] {
      assert Joined([]) == [] by { JoinedNothing(); }
      assert EmitAll(emit, []) == [];
    } else {
      var init, last := segments[..|segments| - 1], segments[|segments| - 1];
      SegmentsAsBlocks(emit, blockSize, init);
      SegmentAsBlocks(emit, blockSize, last);
      var a, b := AllBlocks(blockSize, init), Blocks(blockSize, last);
      JoinedConcat(a, b);
      JoinedConcat(EmitAll(emit, a), EmitAll(emit, b));
      assert EmitAll(emit, a + b) == EmitAll(emit, a) + EmitAll(emit, b);
    }
  }

  lemma JoinedNothing()
    ensures Joined([]) == []
  {}

  // ---------------------------------------------------------------- a sequence of pieces, cut short

  /** How many pieces lie wholly within the first `n` bytes. */
  function WholePieces(pieces: seq<Bytes>, n: nat): (c: nat)
    ensures c <= |pieces|
  {
    if pieces == [] || n < |pieces[0]| then 0 else 1 + WholePieces(pieces[1..], n - |pieces[0]|)
  }

  /** How many of the first `n` bytes follow the last whole piece. */
  function LeftOver(pieces: seq<Bytes>, n: nat): nat {
    if pieces == [] || n < |pieces[0]| then n else LeftOver(pieces[1..], n - |pieces[0]|)
  }

  /** What the two numbers mean: in particular nothing is left over if and only if the cut is where a piece ends. */
  lemma {:induction false} CutPieces(pieces: seq<Bytes>, n: nat)
    requires n <= |Joined(pieces)|
    ensures n == |Joined(pieces[..WholePieces(pieces, n)])| + LeftOver(pieces, n)
    ensures 0 < LeftOver(pieces, n) ==>
              WholePieces(pieces, n) < |pieces| && LeftOver(pieces, n) < |pieces[WholePieces(pieces, n)]|
  {
    if pieces != [] && |pieces[0]| <= n {
      CutPieces(pieces[1..], n - |pieces[0]|);
      var c := WholePieces(pieces, n);
      assert pieces[..c][1..] == pieces[1..][..c - 1];
    }
  }

  /** The converse: where some first pieces end, nothing is left over. */
  lemma {:induction false} CutBetweenPieces(pieces: seq<Bytes>, c: nat)
    requires c <= |pieces|
    ensures LeftOver(pieces, |Joined(pieces[..c])|) == 0
  {
    if pieces != [] && (0 < c || pieces[0] == []) {
      var d := if c == 0 then 0 else c - 1;
      CutBetweenPieces(pieces[1..], d);
      assert 0 < c ==> pieces[..c][1..] == pieces[1..][..d];
    }
  }

  lemma EncodeNothing(emit: Bytes -> Bytes, blockSize: nat)
    requires 0 < blockSize
    ensures EncodeSegment(emit, blockSize, []) == []
  {}
}
