/** Scripts of calls on the output streams, and the data they write. */
module Scripts {
  import opened Base
  import opened Chunking

  /** One call on an output stream; `PutArray` is `write(byte[], int, int)` on part of an array, and `PutBuffer` is
      `write(ByteBuffer)` on a whole buffer. */
  datatype WriteOp =
    | PutByte(b: byte) | PutArray(whole: Bytes, offset: nat, length: nat) | PutBuffer(data: Bytes)
    | Transfer(source: Bytes) | FlushNow
  {
    predicate InRange() {
      && (PutArray? ==> offset + length <= |whole|)
      && (PutBuffer? ==> |data| <= MAX_INT)
    }

    /** A buffer that ends at least 64 KiB below the largest int. */
    predicate Small() { PutBuffer? ==> |data| <= MAX_INT - 0x1_0000 }

    function Data(): Bytes
      requires InRange()
    {
      match this
      case PutByte(b) => [b]
      case PutArray(whole, offset, length) => whole[offset..offset + length]
      case PutBuffer(data) => data
      case Transfer(source) => source
      case FlushNow => []
    }
  }

  predicate InRange(ops: seq<WriteOp>) { forall i :: 0 <= i < |ops| ==> ops[i].InRange() }

  predicate AllSmall(ops: seq<WriteOp>) { forall i :: 0 <= i < |ops| ==> ops[i].Small() }

  /** All the data a script writes. */
  function DataOf(ops: seq<WriteOp>): Bytes
    requires InRange(ops)
  {
    if ops == [] then [] else DataOf(ops[..|ops| - 1]) + ops[|ops| - 1].Data()
  }

  /** The data between flushes, the last segment being the one that `close` ends. */
  function SegmentsOf(ops: seq<WriteOp>): (segments: seq<Bytes>)
    requires InRange(ops)
    ensures segments != []
  {
    if ops == [] then [[]]
    else
      var before, op := SegmentsOf(ops[..|ops| - 1]), ops[|ops| - 1];
      if op.FlushNow? then before + [[]]
      else before[..|before| - 1] + [before[|before| - 1] + op.Data()]
  }

  lemma {:induction false} SegmentsHoldTheData(ops: seq<WriteOp>)
    requires InRange(ops)
    ensures Flatten(SegmentsOf(ops)) == DataOf(ops)
  {
    if ops == [] {
      assert Flatten([[]]) == Flatten([]) + [];
    } else {
      var init, op := ops[..|ops| - 1], ops[|ops| - 1];
      SegmentsHoldTheData(init);
      var before, after := SegmentsOf(init), SegmentsOf(ops);
      var most := before[..|before| - 1];
      if op.FlushNow? {
        assert after[..|after| - 1] == before;
      } else {
        assert after[..|after| - 1] == most;
        assert Flatten(most) + (before[|before| - 1] + op.Data()) == (Flatten(most) + before[|before| - 1]) + op.Data();
      }
    }
  }

  method ToArray(s: Bytes) returns (a: array<byte>)
    ensures fresh(a) && a[..] == s
  {
    a := new byte[|s|](i requires 0 <= i < |s| => s[i]);
  }
}
