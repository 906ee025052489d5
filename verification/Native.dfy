/** The compression kernel that the rest of the library wraps.

The kernel itself is foreign code.  It enters the model as a record of four total functions together with
the laws its callers rely on; every theorem about the stream codecs holds for every kernel that obeys them. */
module Native {

  import opened Base

  datatype Kernel = Kernel(
    compress: Bytes -> Bytes,
    uncompressedLength: Bytes -> Option<nat>,
    uncompress: Bytes -> Option<Bytes>,
    maxCompressedLength: nat -> nat)

  /** `compress` on an array: the output is never empty, fits the announced bound and decodes back. */
  ghost predicate CompressLaw(k: Kernel, x: Bytes) {
    var y := k.compress(x);
    && k.uncompress(y) == Some(x)
    && k.uncompressedLength(y) == Some(|x|)
    && 1 <= |y| <= k.maxCompressedLength(|x|)
  }

  /** `uncompress` on arbitrary bytes: it may fail, but it never writes more than the declared length. */
  ghost predicate UncompressLaw(k: Kernel, y: Bytes) {
    && (k.uncompressedLength(y).Some? ==> k.uncompressedLength(y).value <= MAX_INT)
    && (k.uncompress(y).Some? ==>
          k.uncompressedLength(y).Some? && |k.uncompress(y).value| <= k.uncompressedLength(y).value)
  }

  /** The bound is monotone, no smaller than its argument, leaves room for 20 bytes of header on every size up to the
      largest block (512 MiB) that a caller asks about, and grows by no more than a header from no byte to one. */
  ghost predicate BoundLaw(k: Kernel) {
    && (forall n: nat :: n <= k.maxCompressedLength(n))
    && (forall m: nat, n: nat :: m <= n ==> k.maxCompressedLength(m) <= k.maxCompressedLength(n))
    && (forall n: nat :: n <= 0x2000_0000 ==> k.maxCompressedLength(n) <= MAX_INT - 20)
    && k.maxCompressedLength(1) <= k.maxCompressedLength(0) + 16
  }

  ghost predicate Lawful(k: Kernel) {
    && (forall x: Bytes {:trigger k.compress(x)} :: |x| <= MAX_INT ==> CompressLaw(k, x))
    && (forall y: Bytes {:trigger k.uncompressedLength(y)} {:trigger k.uncompress(y)} :: UncompressLaw(k, y))
    && BoundLaw(k)
  }

  /** A kernel that stores its input behind a one-byte tag: the laws are consistent. */
  const TagKernel: Kernel := Kernel(
    x => [0] + x,
    y => if 1 <= |y| <= MAX_INT + 1 then Some(|y| - 1) else None,
    y => if 1 <= |y| <= MAX_INT + 1 then Some(y[1..]) else None,
    n => n + 1)

  lemma TagKernelIsLawful()
    ensures Lawful(TagKernel)
  {
    forall x: Bytes | |x| <= MAX_INT ensures CompressLaw(TagKernel, x) {
      TagKernelRoundTrip(x);
    }
    forall y: Bytes ensures UncompressLaw(TagKernel, y) {}
    assert BoundLaw(TagKernel);
  }

  lemma TagKernelRoundTrip(x: Bytes)
    requires |x| <= MAX_INT
    ensures CompressLaw(TagKernel, x)
  {
    assert ([0] + x)[1..] == x;
  }

  type Snappy = k: Kernel | Lawful(k) ghost witness (TagKernelIsLawful(); TagKernel)

  // The laws, one instance at a time.

  lemma CompressLawHolds(k: Snappy, x: Bytes)
    requires |x| <= MAX_INT
    ensures CompressLaw(k, x)
  {}

  lemma UncompressLawHolds(k: Snappy, y: Bytes)
    ensures UncompressLaw(k, y)
  {}

  lemma BoundOfOne(k: Snappy)
    ensures k.maxCompressedLength(1) <= k.maxCompressedLength(0) + 16
  {
    assert BoundLaw(k);
  }

  lemma BoundMonotone(k: Snappy, m: nat, n: nat)
    requires m <= n
    ensures k.maxCompressedLength(m) <= k.maxCompressedLength(n)
  {
    assert BoundLaw(k);
  }
}
