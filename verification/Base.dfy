/** Bytes and other vocabulary shared by all modules. */
module Base {

  type byte = bv8
  type Bytes = seq<byte>

  /** The largest Java int, hence the largest length of a Java array. */
  const MAX_INT := 0x7FFF_FFFF

  function Min(a: int, b: int): int { if a <= b then a else b }

  function Max(a: int, b: int): int { if a <= b then b else a }

  /** The Java sum of two non-negative ints. */
  function AddInts(a: int, b: int): int {
    if a + b <= MAX_INT then a + b else a + b - 0x1_0000_0000
  }

  datatype Option<+T> = None | Some(value: T)

  lemma RemainderIsUnique(x: int, n: nat, q: int, m: nat)
    requires m < n && x == q * n + m
    ensures x % n == m
  {
    var d := x / n - q;
    assert d * n == m - x % n;
  }

  lemma SplitConcat(a: Bytes, b: Bytes, n: nat)
    requires n <= |a|
    ensures (a + b)[..n] == a[..n] && (a + b)[n..] == a[n..] + b
  {}

  lemma SliceOfSlice(s: Bytes, i: nat, n: nat, j: nat, m: nat)
    requires i + n <= |s| && j + m <= n
    ensures s[i..i + n][j..j + m] == s[i + j..i + j + m]
  {
    var a, b := s[i..i + n][j..j + m], s[i + j..i + j + m];
    assert |a| == |b| && forall x :: 0 <= x < m ==> a[x] == b[x];
  }

  /** Appending the next slice extends the slice appended before. */
  lemma ExtendSlice(a: Bytes, s: Bytes, i: nat, j: nat, n: nat)
    requires i <= j <= n <= |s|
    ensures (a + s[i..j]) + s[j..n] == a + s[i..n]
  {
    assert s[i..n] == s[i..j] + s[j..n];
  }

  /** The low byte of a non-negative int. */
  function ByteOf(n: nat): byte { (n % 256) as byte }

  function IntOf(b: byte): (n: nat)
    ensures n < 256
  {
    b as int
  }

  lemma SmallInt(m: nat)
    requires m < 256
    ensures IntOf(m as byte) == m
  {}

  lemma IntOfByteOf(n: nat)
    ensures IntOf(ByteOf(n)) == n % 256
  {
    hide IntOf;
    SmallInt(n % 256);
  }

  lemma ByteOfInt(b: byte)
    ensures IntOf(b) as byte == b
  {}
}
