/** Channels, byte buffers and the buffer pool as one stream sees them. */
module ByteIo {
  import opened Base
  import opened Native
  import opened SizeClasses

  /** A finite input stream or readable channel.  Each read delivers as few bytes as it likes, but at least one;
      the choice is arbitrary, so whatever is proved holds for every schedule of short reads. */
  class Source {
    var rest: Bytes
    var closed: bool

    constructor (data: Bytes)
      ensures rest == data && !closed
    {
      rest, closed := data, false;
    }

    method Close()
      modifies this`closed
      ensures closed
    {
      closed := true;
    }

    /** Reads into `dst[offset..offset + length]`; -1 means end of stream. */
    method Read(dst: array<byte>, offset: nat, length: nat) returns (n: int)
      requires offset + length <= dst.Length
      modifies this`rest, dst
      ensures n == -1 <==> 0 < length && old(rest) == []
      ensures n == -1 || (0 <= n <= length && n <= |old(rest)| && (0 < length ==> 0 < n))
      ensures n == -1 ==> rest == []
      ensures 0 <= n ==> rest == old(rest)[n..]
      ensures dst[..] == if n <= 0 then old(dst[..]) else old(dst[..offset]) + old(rest)[..n] + old(dst[offset + n..])
    {
      if length == 0 {
        return 0;
      }
      if rest == [] {
        return -1;
      }
      var m := Min(length, |rest|);
      n :| 1 <= n <= m;
      forall i | 0 <= i < n { dst[offset + i] := rest[i]; }
      assert dst[..] == old(dst[..offset]) + rest[..n] + old(dst[offset + n..]);
      rest := rest[n..];
    }
  }

  /** An output stream or writable channel that takes everything it is given. */
  class Sink {
    var bytes: Bytes
    var closed: bool

    constructor ()
      ensures bytes == [] && !closed
    {
      bytes, closed := [], false;
    }

    method Write(src: array<byte>, offset: nat, length: nat)
      requires offset + length <= src.Length
      modifies this`bytes
      ensures bytes == old(bytes) + src[offset..offset + length]
    {
      bytes := bytes + src[offset..offset + length];
    }

    method Close()
      modifies this`closed
      ensures closed
    {
      closed := true;
    }
  }

  /** A byte buffer over an array: `data[position..limit]` is what remains to be read or written. */
  class ByteBuffer {
    const data: array<byte>
    var position: nat
    var limit: nat

    ghost predicate Valid()
      reads this
    {
      position <= limit <= data.Length
    }

    /** `ByteBuffer.wrap(a, 0, limit)`. */
    constructor (a: array<byte>, limit: nat)
      requires limit <= a.Length
      ensures data == a && position == 0 && this.limit == limit
    {
      data, position, this.limit := a, 0, limit;
    }

    ghost function Remaining(): Bytes
      requires Valid()
      reads this, data
    {
      data[position..limit]
    }

    method Clear()
      modifies this
      ensures position == 0 && limit == data.Length
    {
      position, limit := 0, data.Length;
    }

    method Flip()
      requires Valid()
      modifies this
      ensures position == 0 && limit == old(position)
    {
      position, limit := 0, position;
    }

    /** Appends `src[offset..offset + length]` at the position. */
    method Put(src: array<byte>, offset: nat, length: nat)
      requires Valid() && position + length <= limit && offset + length <= src.Length && src != data
      modifies this`position, data
      ensures position == old(position) + length && Valid()
      ensures data[..] == old(data[..position]) + src[offset..offset + length] + old(data[position + length..])
    {
      var p := position;
      forall i | 0 <= i < length { data[p + i] := src[offset + i]; }
      position := p + length;
    }

    /** `put(ByteBuffer)`: moves everything that remains in `src`. */
    method PutBuffer(src: ByteBuffer)
      requires Valid() && src.Valid() && src != this && src.data != data
      requires src.limit - src.position <= limit - position
      modifies this`position, data, src`position
      ensures position == old(position) + (src.limit - old(src.position)) && Valid()
      ensures src.position == src.limit
      ensures data[..] == old(data[..position]) + old(src.Remaining())
                + old(data[position + src.limit - src.position..])
    {
      Put(src.data, src.position, src.limit - src.position);
      src.position := src.limit;
    }

    /** `get(byte[], 0, n)`: moves the next `n` bytes to the start of `dst`. */
    method Get(dst: array<byte>, n: nat)
      requires Valid() && position + n <= limit && n <= dst.Length && dst != data
      modifies this`position, dst
      ensures position == old(position) + n
      ensures dst[..] == old(data[position..position + n]) + old(dst[n..])
    {
      var p := position;
      forall i | 0 <= i < n { dst[i] := data[p + i]; }
      position := p + n;
    }
  }

  // ---------------------------------------------------------------- the kernel on direct buffers

  /** `Snappy.compress(ByteBuffer, ByteBuffer)`: the output appears in what remains of `dst`. */
  method DirectCompress(k: Snappy, src: ByteBuffer, dst: ByteBuffer)
    requires src.Valid() && dst.Valid() && src != dst && src.data != dst.data
    requires src.limit - src.position <= MAX_INT
    requires dst.position + k.maxCompressedLength(src.limit - src.position) <= dst.data.Length
    modifies dst`limit, dst.data
    ensures dst.Valid() && dst.Remaining() == k.compress(src.Remaining())
  {
    var out := k.compress(src.data[src.position..src.limit]);
    assert CompressLaw(k, src.Remaining());
    var p := dst.position;
    forall i | 0 <= i < |out| { dst.data[p + i] := out[i]; }
    dst.limit := p + |out|;
  }

  /** `Snappy.uncompress(ByteBuffer, ByteBuffer)`: fails, or leaves the data in what remains of `dst`. */
  method DirectUncompress(k: Snappy, src: ByteBuffer, dst: ByteBuffer) returns (n: Option<nat>)
    requires src.Valid() && dst.Valid() && src != dst && src.data != dst.data
    requires k.uncompressedLength(src.Remaining()).Some?
    requires dst.position + k.uncompressedLength(src.Remaining()).value <= dst.data.Length
    modifies dst`limit, dst.data
    ensures dst.Valid()
    ensures n.None? <==> k.uncompress(old(src.Remaining())).None?
    ensures n.Some? ==> dst.Remaining() == k.uncompress(old(src.Remaining())).value && n.value == |dst.Remaining()|
  {
    var out := k.uncompress(src.data[src.position..src.limit]);
    assert UncompressLaw(k, src.Remaining());
    if out.None? {
      return None;
    }
    var p, data := dst.position, out.value;
    forall i | 0 <= i < |data| { dst.data[p + i] := data[i]; }
    dst.limit := p + |data|;
    assert dst.Remaining() == data;
    return Some(|data|);
  }

  /** `Snappy.compress(byte[], int, int, byte[], int)`: the output lands at `dst[at..]`. */
  method ArrayCompress(k: Snappy, src: array<byte>, n: nat, dst: array<byte>, at: nat) returns (size: nat)
    requires src != dst && n <= src.Length && n <= MAX_INT
    requires at + k.maxCompressedLength(n) <= dst.Length
    modifies dst
    ensures size == |k.compress(old(src[..n]))| <= k.maxCompressedLength(n)
    ensures dst[..at] == old(dst[..at]) && dst[at..at + size] == k.compress(old(src[..n]))
  {
    var out := k.compress(src[..n]);
    CompressLawHolds(k, src[..n]);
    size := |out|;
    forall i | 0 <= i < size { dst[at + i] := out[i]; }
  }

  // ---------------------------------------------------------------- pools and allocators as one stream sees them

  /** The caching pool as its clients see it: a buffer handed out is held by nobody else (see module CachingPool), and
      only a buffer that is held may be given back.  It is a new one or one that was given back, whichever the pool
      likes; the contents are whatever they are. */
  class BufferPool {
    var arrays: set<array<byte>>
    var directs: set<ByteBuffer>
    ghost var held: set<object>
    ghost var knownArrays: set<array<byte>>
    ghost var knownDirects: set<ByteBuffer>

    /** The memory behind `directs`. */
    ghost var memory: set<array<byte>>

    /** A buffer is held or idle, and no two buffers share memory. */
    ghost predicate Valid()
      reads this
    {
      && arrays <= knownArrays && directs <= knownDirects
      && (forall a :: a in knownArrays ==> (a in arrays <==> a !in held) && a !in memory)
      && (forall b :: b in knownDirects ==>
            (b in directs <==> b !in held) && (b in directs <==> b.data in memory) && b.data !in knownArrays)
      && (forall b, c :: b in knownDirects && c in knownDirects && b.data == c.data ==> b == c)
    }

    /** The objects that the pool may hand out again. */
    ghost function Idle(): (s: set<object>)
      reads this
      ensures arrays <= s && directs <= s && memory <= s
    {
      var a: set<object>, b: set<object>, c: set<object> := arrays, directs, memory;
      a + b + c
    }

    ghost predicate HoldsArray(a: array<byte>)
      reads this
    {
      a in held && a in knownArrays
    }

    ghost predicate HoldsDirect(b: ByteBuffer)
      reads this
    {
      b in held && b in knownDirects
    }

    constructor ()
      ensures Valid() && held == {} && Idle() == {}
    {
      arrays, directs, held, knownArrays, knownDirects, memory := {}, {}, {}, {}, {}, {};
    }

    method AllocateArray(size: nat) returns (a: array<byte>)
      requires 0 < size <= MAX_INT && Valid()
      modifies this
      ensures Valid() && a.Length == AdjustSize(size)
      ensures (fresh(a) || a in old(arrays * knownArrays)) && a !in old(held) && a !in memory
      ensures forall b :: b in knownDirects ==> b.data != a
      ensures held == old(held) + {a} && arrays == old(arrays) - {a} && directs == old(directs) && memory == old(memory)
      ensures knownArrays == old(knownArrays) + {a} && knownDirects == old(knownDirects)
    {
      hide AdjustSize;
      var n := AdjustSize(size);
      var candidates := set c | c in arrays && c.Length == n;
      var reuse: bool := *;
      if reuse && candidates != {} {
        a :| a in candidates;
      } else {
        a := new byte[n];
      }
      arrays := arrays - {a};
      held, knownArrays := held + {a}, knownArrays + {a};
    }

    method AllocateDirect(size: nat) returns (b: ByteBuffer)
      requires 0 < size <= MAX_INT && Valid()
      modifies this
      ensures Valid() && b.data.Length == AdjustSize(size)
      ensures (fresh(b) && fresh(b.data)) || (b in old(directs * knownDirects) && b.data in old(memory))
      ensures b !in old(held) && b.data !in knownArrays
      ensures forall c :: c in knownDirects && c.data == b.data ==> c == b
      ensures held == old(held) + {b} && directs == old(directs) - {b} && memory == old(memory) - {b.data}
      ensures knownDirects == old(knownDirects) + {b} && knownArrays == old(knownArrays) && arrays == old(arrays)
    {
      hide AdjustSize;
      var n := AdjustSize(size);
      var candidates := set c | c in directs && c.data.Length == n;
      var reuse: bool := *;
      if reuse && candidates != {} {
        b :| b in candidates;
      } else {
        var a := new byte[n];
        b := new ByteBuffer(a, n);
      }
      directs := directs - {b};
      held, memory, knownDirects := held + {b}, memory - {b.data}, knownDirects + {b};
    }

    method ReleaseArray(a: array<byte>)
      requires Valid() && HoldsArray(a)
      modifies this
      ensures Valid() && held == old(held) - {a} && arrays == old(arrays) + {a}
      ensures directs == old(directs) && memory == old(memory)
      ensures knownArrays == old(knownArrays) && knownDirects == old(knownDirects)
    {
      arrays := arrays + {a};
      held := held - {a};
    }

    method ReleaseDirect(b: ByteBuffer)
      requires Valid() && HoldsDirect(b)
      modifies this, b
      ensures Valid() && held == old(held) - {b} && directs == old(directs) + {b} && memory == old(memory) + {b.data}
      ensures knownArrays == old(knownArrays) && knownDirects == old(knownDirects) && arrays == old(arrays)
      ensures b.position == 0 && b.limit == b.data.Length
    {
      b.Clear();
      directs := directs + {b};
      held, memory := held - {b}, memory + {b.data};
    }
  }

  /** A per-size buffer allocator as its clients see it (see module CachedAllocators): buffers have exactly the
      size asked for, nobody else holds them, and only a buffer that is held may be given back. */
  class BufferAllocator {
    ghost var held: set<object>

    constructor ()
      ensures held == {}
    {
      held := {};
    }

    method Allocate(size: nat) returns (a: array<byte>)
      modifies this
      ensures fresh(a) && a.Length == size
      ensures held == old(held) + {a}
    {
      a := new byte[size];
      held := held + {a};
    }

    method Release(a: array<byte>)
      requires a in held
      modifies this
      ensures held == old(held) - {a}
    {
      held := held - {a};
    }
  }
}
