/** CRC-32C (the polynomial of section 12.1 of RFC 3720, bit-reflected) and its slicing-by-8 implementation. */
module Crc32c {
  import opened Base

  // ---------------------------------------------------------------- bit-at-a-time definition

  function Widen(b: byte): bv32 { b as bv32 }

  function Xor(a: bv32, b: bv32): bv32 { a ^ b }

  predicate Odd(c: bv32) { c & 1 == 1 }

  function Half(c: bv32): bv32 { c >> 1 }

  const POLYNOMIAL: bv32 := 0x82F6_3B78

  /** One step of the reflected shift register. */
  function Shift1(c: bv32): bv32 {
    if Odd(c) then Xor(Half(c), POLYNOMIAL) else Half(c)
  }

  function Shift2(c: bv32): bv32 { Shift1(Shift1(c)) }

  function Shift4(c: bv32): bv32 { Shift2(Shift2(c)) }

  function Shift8(c: bv32): bv32 { Shift4(Shift4(c)) }

  /** Feeding one byte to the register. */
  function Feed(c: bv32, b: byte): bv32 { Shift8(Xor(c, Widen(b))) }

  /** Feeding a sequence of bytes, in order. */
  function Crc(c: bv32, s: Bytes): bv32
    decreases s
  {
    if s == [] then c else Crc(Feed(c, s[0]), s[1..])
  }

  lemma {:induction false} CrcConcat(c: bv32, s: Bytes, t: Bytes)
    ensures Crc(c, s + t) == Crc(Crc(c, s), t)
    decreases s
  {
    hide Feed;
    if s == [] {
      assert s + t == t;
    } else {
      assert (s + t)[1..] == s[1..] + t;
      CrcConcat(Feed(c, s[0]), s[1..], t);
    }
  }

  lemma FeedSlice(c: bv32, s: Bytes, i: nat, n: nat)
    requires i + n <= |s|
    ensures Crc(c, s[i..]) == Crc(Crc(c, s[i..i + n]), s[i + n..])
  {
    hide Crc;
    assert s[i..] == s[i..i + n] + s[i + n..];
    CrcConcat(c, s[i..i + n], s[i + n..]);
  }

  lemma CrcOne(c: bv32, b: byte)
    ensures Crc(c, [b]) == Feed(c, b)
  {
    hide Feed;
    assert Crc(Feed(c, b), [b][1..]) == Feed(c, b);
  }

  // ---------------------------------------------------------------- linearity over GF(2)

  lemma OddXor(a: bv32, b: bv32)
    ensures Odd(Xor(a, b)) == (Odd(a) != Odd(b))
  {}

  lemma HalfXor(a: bv32, b: bv32)
    ensures Half(Xor(a, b)) == Xor(Half(a), Half(b))
  {}

  lemma XorComm(a: bv32, b: bv32)
    ensures Xor(a, b) == Xor(b, a)
  {}

  lemma XorAssoc(a: bv32, b: bv32, c: bv32)
    ensures Xor(Xor(a, b), c) == Xor(a, Xor(b, c))
  {}

  lemma XorZero(a: bv32)
    ensures Xor(a, 0) == a && Xor(0, a) == a
  {}

  lemma XorSelf(a: bv32)
    ensures Xor(a, a) == 0
  {}

  lemma XorCancels(a: bv32, b: bv32, p: bv32)
    ensures Xor(Xor(a, p), Xor(b, p)) == Xor(a, b)
    ensures Xor(Xor(a, p), b) == Xor(Xor(a, b), p)
    ensures Xor(a, Xor(b, p)) == Xor(Xor(a, b), p)
  {
    hide Widen, Xor;
    XorAssoc(a, b, p);
    XorAssoc(a, p, b);
    XorComm(p, b);
    XorAssoc(Xor(a, p), b, p);
    XorAssoc(Xor(a, b), p, p);
    XorSelf(p);
    XorZero(Xor(a, b));
  }

  lemma Shift1Linear(a: bv32, b: bv32)
    ensures Shift1(Xor(a, b)) == Xor(Shift1(a), Shift1(b))
  {
    hide Odd, Half, Xor;
    OddXor(a, b);
    HalfXor(a, b);
    XorCancels(Half(a), Half(b), POLYNOMIAL);
  }

  lemma Shift2Linear(a: bv32, b: bv32)
    ensures Shift2(Xor(a, b)) == Xor(Shift2(a), Shift2(b))
  {
    hide Shift1, Xor;
    Shift1Linear(a, b);
    Shift1Linear(Shift1(a), Shift1(b));
  }

  lemma Shift4Linear(a: bv32, b: bv32)
    ensures Shift4(Xor(a, b)) == Xor(Shift4(a), Shift4(b))
  {
    hide Shift2, Xor;
    Shift2Linear(a, b);
    Shift2Linear(Shift2(a), Shift2(b));
  }

  lemma Shift8Linear(a: bv32, b: bv32)
    ensures Shift8(Xor(a, b)) == Xor(Shift8(a), Shift8(b))
  {
    hide Shift4, Xor;
    Shift4Linear(a, b);
    Shift4Linear(Shift4(a), Shift4(b));
  }

  /** The register advanced over `k` zero bytes. */
  function Advance(c: bv32, k: nat): bv32
    decreases k
  {
    if k == 0 then c else Advance(Shift8(c), k - 1)
  }

  lemma {:induction false} AdvanceLinear(a: bv32, b: bv32, k: nat)
    ensures Advance(Xor(a, b), k) == Xor(Advance(a, k), Advance(b, k))
    decreases k
  {
    hide Widen, Shift8, Xor;
    if k != 0 {
      Shift8Linear(a, b);
      AdvanceLinear(Shift8(a), Shift8(b), k - 1);
    }
  }

  /** A register whose low byte is zero only moves down. */
  lemma Shift8Zeros(d: bv32)
    requires d <= 0x00FF_FFFF
    ensures Shift8(d << 8) == d
  {
    hide Shift4;
    Shift4Zeros(d << 4);
    Shift4Zeros(d);
    assert (d << 4) << 4 == d << 8;
  }

  lemma Shift4Zeros(d: bv32)
    requires d <= 0x0FFF_FFFF
    ensures Shift4(d << 4) == d
  {
    hide Shift2;
    Shift2Zeros(d << 2);
    Shift2Zeros(d);
    assert (d << 2) << 2 == d << 4;
  }

  lemma Shift2Zeros(d: bv32)
    requires d <= 0x3FFF_FFFF
    ensures Shift2(d << 2) == d
  {
    hide Shift1;
    Shift1Zeros(d << 1);
    Shift1Zeros(d);
    assert (d << 1) << 1 == d << 2;
  }

  lemma Shift1Zeros(d: bv32)
    requires d <= 0x7FFF_FFFF
    ensures Shift1(d << 1) == d
  {
    assert !Odd(d << 1);
    assert (d << 1) >> 1 == d;
  }

  /** The register's old contents and the data contribute independently. */
  lemma {:induction false} CrcLinear(a: bv32, b: bv32, s: Bytes)
    ensures Crc(Xor(a, b), s) == Xor(Advance(a, |s|), Crc(b, s))
    decreases s
  {
    hide Widen, Shift8, Xor;
    if s != [] {
      var d := Widen(s[0]);
      XorAssoc(a, b, d);
      Shift8Linear(a, Xor(b, d));
      CrcLinear(Shift8(a), Feed(b, s[0]), s[1..]);
    }
  }

  // ---------------------------------------------------------------- up to four bytes as one word

  /** Little-endian value of at most four bytes. */
  function Word(s: Bytes): bv32
    decreases s
  {
    if s == [] then 0 else Xor(Widen(s[0]), Word(s[1..]) << 8)
  }

  lemma {:induction false} WordBound(s: Bytes)
    requires |s| <= 3
    ensures Word(s) <= 0x00FF_FFFF
    ensures |s| <= 2 ==> Word(s) <= 0xFFFF
    ensures |s| <= 1 ==> Word(s) <= 0xFF
    ensures |s| == 0 ==> Word(s) == 0
  {
    if s != [] {
      WordBound(s[1..]);
      PushByteBound(s[0], Word(s[1..]));
    }
  }

  lemma PushByteBound(b: byte, w: bv32)
    ensures w <= 0xFFFF ==> Xor(Widen(b), w << 8) <= 0x00FF_FFFF
    ensures w <= 0xFF ==> Xor(Widen(b), w << 8) <= 0xFFFF
    ensures w == 0 ==> Xor(Widen(b), w << 8) <= 0xFF
  {}

  lemma PushByteInjective(b: byte, w: bv32, b': byte, w': bv32)
    requires w <= 0x00FF_FFFF && w' <= 0x00FF_FFFF
    requires Xor(Widen(b), w << 8) == Xor(Widen(b'), w' << 8)
    ensures b == b' && w == w'
  {}

  lemma {:induction false} WordInjective(s: Bytes, t: Bytes)
    requires |s| == |t| <= 4
    requires Word(s) == Word(t)
    ensures s == t
    decreases s
  {
    hide Widen, Xor;
    if s != [] {
      WordBound(s[1..]);
      WordBound(t[1..]);
      PushByteInjective(s[0], Word(s[1..]), t[0], Word(t[1..]));
      WordInjective(s[1..], t[1..]);
      assert s == [s[0]] + s[1..] && t == [t[0]] + t[1..];
    }
  }

  /** Up to four bytes can be fed as one word. */
  lemma {:induction false} CrcOfWord(c: bv32, s: Bytes)
    requires |s| <= 4
    ensures Crc(c, s) == Advance(Xor(c, Word(s)), |s|)
    decreases s
  {
    hide Widen, Shift8, Xor;
    if s == [] {
      XorZero(c);
    } else {
      var d, w := Widen(s[0]), Word(s[1..]);
      WordBound(s[1..]);
      XorAssoc(c, d, w << 8);
      Shift8Linear(Xor(c, d), w << 8);
      Shift8Zeros(w);
      CrcOfWord(Feed(c, s[0]), s[1..]);
    }
  }

  // ---------------------------------------------------------------- injectivity and burst errors

  function Unshift1(d: bv32): bv32 {
    if 0x8000_0000 <= d then (Xor(d, POLYNOMIAL) << 1) | 1 else d << 1
  }

  lemma Unshift1Odd(c: bv32)
    requires Odd(c)
    ensures 0x8000_0000 <= Xor(Half(c), POLYNOMIAL)
    ensures (Half(c) << 1) | 1 == c
  {}

  lemma Unshift1Even(c: bv32)
    requires !Odd(c)
    ensures Half(c) < 0x8000_0000
    ensures Half(c) << 1 == c
  {}

  lemma Unshift1Inverts(c: bv32)
    ensures Unshift1(Shift1(c)) == c
  {
    hide Widen, Xor, Odd, Half;
    if Odd(c) {
      Unshift1Odd(c);
      XorAssoc(Half(c), POLYNOMIAL, POLYNOMIAL);
      XorSelf(POLYNOMIAL);
      XorZero(Half(c));
    } else {
      Unshift1Even(c);
    }
  }

  lemma Shift8Injective(a: bv32, b: bv32)
    requires Shift8(a) == Shift8(b)
    ensures a == b
  {
    hide Shift1;
    forall c ensures Unshift1(Shift1(c)) == c { Unshift1Inverts(c); }
    assert forall c, d :: Shift1(c) == Shift1(d) ==> c == d;
  }

  lemma {:induction false} AdvanceInjective(a: bv32, b: bv32, k: nat)
    requires Advance(a, k) == Advance(b, k)
    ensures a == b
    decreases k
  {
    hide Shift8;
    if k != 0 {
      AdvanceInjective(Shift8(a), Shift8(b), k - 1);
      Shift8Injective(a, b);
    }
  }

  /** Two different register contents stay different whatever is fed next. */
  lemma CrcInjective(a: bv32, b: bv32, s: Bytes)
    requires Crc(a, s) == Crc(b, s)
    ensures a == b
  {
    hide Widen, Xor, Crc;
    var d := Xor(a, b);
    assert Xor(d, b) == a by { XorAssoc(a, b, b); XorSelf(b); XorZero(a); }
    CrcLinear(d, b, s);
    var z, u := Advance(d, |s|), Crc(b, s);
    assert z == 0 by { XorAssoc(z, u, u); XorSelf(u); XorZero(z); }
    AdvanceLinear(d, d, |s|);
    XorSelf(d);
    XorSelf(z);
    AdvanceInjective(d, 0, |s|);
    XorZero(b);
  }

  /** Burst detection: replacing at most four consecutive bytes by different ones changes the checksum. */
  lemma BurstChangesCrc(c: bv32, prefix: Bytes, u: Bytes, v: Bytes, suffix: Bytes)
    requires |u| == |v| <= 4 && u != v
    ensures Crc(c, prefix + u + suffix) != Crc(c, prefix + v + suffix)
  {
    hide Crc, Xor;
    CrcConcat(c, prefix + u, suffix);
    CrcConcat(c, prefix + v, suffix);
    CrcConcat(c, prefix, u);
    CrcConcat(c, prefix, v);
    var r := Crc(c, prefix);
    if Crc(c, prefix + u + suffix) == Crc(c, prefix + v + suffix) {
      CrcInjective(Crc(r, u), Crc(r, v), suffix);
      CrcOfWord(r, u);
      CrcOfWord(r, v);
      AdvanceInjective(Xor(r, Word(u)), Xor(r, Word(v)), |u|);
      XorInjective(r, Word(u), Word(v));
      WordInjective(u, v);
    }
  }

  lemma XorInjective(r: bv32, a: bv32, b: bv32)
    requires Xor(r, a) == Xor(r, b)
    ensures a == b
  {
    hide Widen, Xor;
    XorAssoc(r, r, a);
    XorAssoc(r, r, b);
    XorSelf(r);
    XorZero(a);
    XorZero(b);
  }

  // ---------------------------------------------------------------- the tables and the fast loop

  /** Entry `i` of table T8_k: the contribution of byte `i` when `k` more bytes follow it. */
  function T8(k: nat, i: bv32): bv32 { Advance(i, k + 1) }

  /** A Java byte widened to int. */
  function SignExtend(b: byte): bv32 {
    if b < 0x80 then Widen(b) else Widen(b) | 0xFFFF_FF00
  }

  function LowByte(c: bv32): bv32 { c & 0xFF }

  function Drop8(c: bv32): bv32 { c >> 8 }

  lemma SplitLowByte(c: bv32, d: bv32)
    requires d <= 0xFF
    ensures Xor(c, d) == Xor(Drop8(c) << 8, LowByte(Xor(c, d)))
    ensures Drop8(c) <= 0x00FF_FFFF
  {
    assert c ^ d == ((c >> 8) << 8) ^ ((c ^ d) & 0xFF);
  }

  lemma WidenBound(b: byte)
    ensures Widen(b) <= 0xFF
  {}

  /** The table step computes `Feed`. */
  lemma TableFeed(c: bv32, b: byte)
    ensures Feed(c, b) == Xor(Drop8(c), T8(0, LowByte(Xor(c, Widen(b)))))
  {
    hide Widen, Xor, Shift8, LowByte, Drop8;
    var low := LowByte(Xor(c, Widen(b)));
    WidenBound(b);
    SplitLowByte(c, Widen(b));
    Shift8Linear(Drop8(c) << 8, low);
    Shift8Zeros(Drop8(c));
    assert T8(0, low) == Advance(Shift8(low), 0) == Shift8(low);
  }

  /** One byte's contribution, read from the table that matches the number of bytes still to come. */
  lemma PeelByte(c: bv32, s: Bytes)
    requires s != []
    ensures Crc(c, s) == Xor(T8(|s| - 1, LowByte(Xor(c, Widen(s[0])))), Crc(Drop8(c), s[1..]))
  {
    hide Widen, Xor, Shift8, LowByte, Drop8, Feed;
    var low := LowByte(Xor(c, Widen(s[0])));
    TableFeed(c, s[0]);
    assert T8(0, low) == Advance(Shift8(low), 0) == Shift8(low);
    XorComm(Drop8(c), Shift8(low));
    CrcLinear(Shift8(low), Drop8(c), s[1..]);
  }

  lemma Drop8FourTimes(c: bv32)
    ensures Drop8(Drop8(Drop8(Drop8(c)))) == 0
  {}

  lemma LowByteAlone(b: byte)
    ensures LowByte(Xor(0, Widen(b))) == Widen(b)
    ensures Drop8(0) == 0
  {}

  /** The second half of a stride, fed to an empty register. */
  lemma SliceLast4(s: Bytes)
    requires |s| == 4
    ensures Crc(0, s) == Xor(Xor(T8(3, Widen(s[0])), T8(2, Widen(s[1]))), Xor(T8(1, Widen(s[2])), T8(0, Widen(s[3]))))
  {
    hide Widen, Xor, LowByte, Drop8, T8, Crc;
    var t3, t2, t1, t0 := T8(3, Widen(s[0])), T8(2, Widen(s[1])), T8(1, Widen(s[2])), T8(0, Widen(s[3]));
    LowByteAlone(s[0]); LowByteAlone(s[1]); LowByteAlone(s[2]); LowByteAlone(s[3]);
    PeelByte(0, s);
    PeelByte(0, s[1..]);
    PeelByte(0, s[2..]);
    PeelByte(0, s[3..]);
    assert s[1..][1..] == s[2..] && s[2..][1..] == s[3..] && s[3..][1..] == [];
    CrcEmpty(0);
    XorZero(t0);
    XorAssoc(t3, t2, Xor(t1, t0));
  }

  /** A whole stride of the main loop. */
  lemma SliceBy8(c: bv32, s: Bytes)
    requires |s| == 8
    ensures
      var i0 := LowByte(Xor(c, Widen(s[0])));
      var i1 := LowByte(Xor(Drop8(c), Widen(s[1])));
      var i2 := LowByte(Xor(Drop8(Drop8(c)), Widen(s[2])));
      var i3 := LowByte(Xor(Drop8(Drop8(Drop8(c))), Widen(s[3])));
      Crc(c, s) == Xor(Xor(Xor(T8(7, i0), T8(6, i1)), Xor(T8(5, i2), T8(4, i3))),
                       Xor(Xor(T8(3, Widen(s[4])), T8(2, Widen(s[5]))), Xor(T8(1, Widen(s[6])), T8(0, Widen(s[7])))))
  {
    hide Widen, Xor, LowByte, Drop8, T8, Crc;
    var c1, c2, c3 := Drop8(c), Drop8(Drop8(c)), Drop8(Drop8(Drop8(c)));
    PeelByte(c, s);
    PeelByte(c1, s[1..]);
    PeelByte(c2, s[2..]);
    PeelByte(c3, s[3..]);
    Drop8FourTimes(c);
    assert s[1..][1..] == s[2..] && s[2..][1..] == s[3..] && s[3..][1..] == s[4..];
    SliceLast4(s[4..]);
    var t7, t6 := T8(7, LowByte(Xor(c, Widen(s[0])))), T8(6, LowByte(Xor(c1, Widen(s[1]))));
    var t5, t4 := T8(5, LowByte(Xor(c2, Widen(s[2])))), T8(4, LowByte(Xor(c3, Widen(s[3]))));
    var rest := Crc(0, s[4..]);
    XorAssoc(Xor(t7, t6), Xor(t5, t4), rest);
    XorAssoc(t5, t4, rest);
    XorAssoc(t7, t6, Xor(t5, Xor(t4, rest)));
  }

  // ---------------------------------------------------------------- the checksum object

  const INITIAL: bv32 := 0xFFFF_FFFF

  function Complement(c: bv32): bv32 { c ^ 0xFFFF_FFFF }

  lemma ComplementInverts(c: bv32)
    ensures Complement(Complement(c)) == c
  {}

  class PureJavaCrc32C {
    var crc: bv32

    constructor ()
      ensures crc == INITIAL
    {
      crc := INITIAL;
    }

    method Reset()
      modifies this
      ensures crc == INITIAL
    {
      crc := INITIAL;
    }

    /** `getValue`: the register, complemented. */
    function Value(): bv32
      reads this
    {
      Complement(crc)
    }

    /** Bulk update; a non-positive length is a no-op, whatever the offset. */
    method Update(b: array<byte>, offset: int, length: int)
      requires 0 < length ==> 0 <= offset && offset + length <= b.Length
      modifies this
      ensures crc == Crc(old(crc), if 0 < length then b[offset..offset + length] else [])
    {
      hide Widen, Xor, T8, LowByte, Drop8, SignExtend, Crc;
      var localCrc, off, len := crc, offset, length;
      ghost var all := if 0 < length then b[..][offset..offset + length] else [];
      assert 0 < length ==> all == b[offset..offset + length];
      ghost var done := 0;
      while len > 7
        invariant 0 < length ==> off == offset + done && len == length - done && done <= length
        invariant length <= 0 ==> len == length && done == 0
        invariant Crc(localCrc, all[done..]) == Crc(old(crc), all)
      {
        FeedSlice(localCrc, all, done, 8);
        SliceOfSlice(b[..], offset, length, done, 8);
        assert b[off..off + 8] == b[..][off..off + 8];
        localCrc := Stride(b, off, localCrc);
        off, len, done := off + 8, len - 8, done + 8;
      }
      while len > 0
        invariant 0 < length ==> off == offset + done && len == length - done && done <= length
        invariant length <= 0 ==> len == length && done == 0
        invariant Crc(localCrc, all[done..]) == Crc(old(crc), all)
      {
        FeedSlice(localCrc, all, done, 1);
        assert all[done..done + 1] == [all[done]] && all[done] == b[off];
        localCrc := Step(b[off], localCrc);
        off, len, done := off + 1, len - 1, done + 1;
      }
      assert all[done..] == [];
      CrcEmpty(localCrc);
      crc := localCrc;
    }

    /** The body of the second loop, for one byte. */
    static method Step(b: byte, localCrc: bv32) returns (r: bv32)
      ensures r == Crc(localCrc, [b])
    {
      hide Widen, Xor, T8, LowByte, Drop8, SignExtend, Crc, Feed;
      CrcOne(localCrc, b);
      TableFeed(localCrc, b);
      LowByteOfSignExtended(b, localCrc);
      r := Xor(Drop8(localCrc), T8(0, LowByte(Xor(localCrc, SignExtend(b)))));
    }

    /** The body of the main loop, for eight bytes. */
    static method Stride(b: array<byte>, off: nat, localCrc: bv32) returns (r: bv32)
      requires off + 8 <= b.Length
      ensures r == Crc(localCrc, b[off..off + 8])
    {
      hide Widen, Xor, T8, LowByte, Drop8, SignExtend, Crc;
      var c := localCrc;
      var i0 := LowByte(Xor(SignExtend(b[off]), c));
      LowByteOfSignExtended(b[off], c);
      c := Drop8(c);
      var i1 := LowByte(Xor(SignExtend(b[off + 1]), c));
      LowByteOfSignExtended(b[off + 1], c);
      c := Drop8(c);
      var i2 := LowByte(Xor(SignExtend(b[off + 2]), c));
      LowByteOfSignExtended(b[off + 2], c);
      c := Drop8(c);
      var i3 := LowByte(Xor(SignExtend(b[off + 3]), c));
      LowByteOfSignExtended(b[off + 3], c);
      r := Xor(Xor(T8(7, i0), T8(6, i1)), Xor(T8(5, i2), T8(4, i3)));
      ghost var s := b[off..off + 8];
      LowByteIndex(b[off + 4]); LowByteIndex(b[off + 5]); LowByteIndex(b[off + 6]); LowByteIndex(b[off + 7]);
      r := Xor(r, Xor(Xor(T8(3, LowByte(SignExtend(b[off + 4]))), T8(2, LowByte(SignExtend(b[off + 5])))),
                      Xor(T8(1, LowByte(SignExtend(b[off + 6]))), T8(0, LowByte(SignExtend(b[off + 7]))))));
      SliceBy8(localCrc, s);
      assert s[0] == b[off] && s[1] == b[off + 1] && s[2] == b[off + 2] && s[3] == b[off + 3];
      assert s[4] == b[off + 4] && s[5] == b[off + 5] && s[6] == b[off + 6] && s[7] == b[off + 7];
    }

    /** Single-byte update: the low eight bits of `b` count. */
    method UpdateByte(b: bv32)
      modifies this
      ensures crc == Crc(old(crc), [(b & 0xFF) as byte])
    {
      hide Widen, Xor, T8, LowByte, Drop8, Crc;
      var d := (b & 0xFF) as byte;
      CrcOne(crc, d);
      TableFeed(crc, d);
      LowByteOfInt(crc, b);
      crc := Xor(Drop8(crc), T8(0, LowByte(Xor(crc, b))));
    }
  }

  lemma CrcEmpty(c: bv32)
    ensures Crc(c, []) == c
  {}

  /** One call on a checksum object: part of an array, one int, or a reset. */
  datatype Op = Bulk(whole: Bytes, offset: nat, length: nat) | One(b: bv32) | Restart
  {
    predicate InRange() { Bulk? ==> offset + length <= |whole| }
  }

  /** The bytes fed since the last reset. */
  function FedBy(ops: seq<Op>): Bytes
    requires forall i :: 0 <= i < |ops| ==> ops[i].InRange()
  {
    if ops == [] then []
    else
      var before, last := FedBy(ops[..|ops| - 1]), ops[|ops| - 1];
      assert last.InRange();
      match last
      case Bulk(whole, offset, length) => before + whole[offset..offset + length]
      case One(b) => before + [(b & 0xFF) as byte]
      case Restart => []
  }

  /** Any mix of bulk and single-byte updates computes the bit-at-a-time checksum of the bytes fed. */
  method Checksum(ops: seq<Op>) returns (value: bv32)
    requires forall i :: 0 <= i < |ops| ==> ops[i].InRange()
    ensures value == Complement(Crc(INITIAL, FedBy(ops)))
  {
    hide Crc, Complement;
    var crc := new PureJavaCrc32C();
    CrcEmpty(INITIAL);
    for i := 0 to |ops|
      invariant fresh(crc) && crc.crc == Crc(INITIAL, FedBy(ops[..i]))
    {
      assert ops[..i + 1][..i] == ops[..i];
      assert ops[i].InRange();
      ghost var before := FedBy(ops[..i]);
      match ops[i]
      case Bulk(whole, offset, length) =>
        var a := new byte[|whole|](j requires 0 <= j < |whole| => whole[j]);
        assert a[..] == whole;
        crc.Update(a, offset, length);
        CrcConcat(INITIAL, before, whole[offset..offset + length]);
        assert length == 0 ==> whole[offset..offset + length] == [];
      case One(b) =>
        crc.UpdateByte(b);
        CrcConcat(INITIAL, before, [(b & 0xFF) as byte]);
      case Restart =>
        crc.Reset();
        CrcEmpty(INITIAL);
    }
    assert ops[..|ops|] == ops;
    value := crc.Value();
  }

  lemma LowByteOfSignExtended(b: byte, c: bv32)
    ensures LowByte(Xor(SignExtend(b), c)) == LowByte(Xor(c, Widen(b)))
    ensures LowByte(Xor(c, SignExtend(b))) == LowByte(Xor(c, Widen(b)))
  {}

  lemma LowByteIndex(b: byte)
    ensures LowByte(SignExtend(b)) == Widen(b)
  {}

  lemma LowByteOfInt(c: bv32, b: bv32)
    ensures LowByte(Xor(c, b)) == LowByte(Xor(c, Widen((b & 0xFF) as byte)))
  {}

  // ---------------------------------------------------------------- masking

  /** Rotate right by 15 bits and add a constant, with wrap-around. */
  function Mask(crc: bv32): bv32 {
    ((crc >> 15) | (crc << 17)) + 0xA282_EAD8
  }

  function Unmask(m: bv32): bv32 {
    var r := m - 0xA282_EAD8;
    (r << 15) | (r >> 17)
  }

  /** Masking loses nothing. */
  lemma UnmaskInverts(crc: bv32)
    ensures Unmask(Mask(crc)) == crc
    ensures Mask(Unmask(crc)) == crc
  {}

  /** The checksum stored in a frame for the data `s`. */
  function MaskedCrc(s: Bytes): bv32 {
    Mask(Complement(Crc(INITIAL, s)))
  }

  lemma BurstChangesMaskedCrc(prefix: Bytes, u: Bytes, v: Bytes, suffix: Bytes)
    requires |u| == |v| <= 4 && u != v
    ensures MaskedCrc(prefix + u + suffix) != MaskedCrc(prefix + v + suffix)
  {
    hide Crc, Mask, Unmask, Complement;
    var a, b := Crc(INITIAL, prefix + u + suffix), Crc(INITIAL, prefix + v + suffix);
    BurstChangesCrc(INITIAL, prefix, u, v, suffix);
    UnmaskInverts(Complement(a));
    UnmaskInverts(Complement(b));
    ComplementInverts(a);
    ComplementInverts(b);
  }

  method MaskedCrc32c(crc32c: PureJavaCrc32C, data: array<byte>, offset: nat, length: nat) returns (r: bv32)
    requires offset + length <= data.Length
    modifies crc32c
    ensures r == MaskedCrc(data[offset..offset + length])
  {
    hide Crc, Mask, Complement;
    crc32c.Reset();
    crc32c.Update(data, offset, length);
    r := Mask(crc32c.Value());
    assert length == 0 ==> data[offset..offset + length] == [];
  }

  // ---------------------------------------------------------------- known answers

  /** "123456789", whose checksum is the check value of CRC-32C. */
  const CHECK: Bytes := [0x31, 0x32, 0x33, 0x34, 0x35, 0x36, 0x37, 0x38, 0x39]

  /** "aaaaaaaaaaaabbbbbbbaaaaaa". */
  const AS_AND_BS: Bytes := [
    0x61, 0x61, 0x61, 0x61, 0x61, 0x61, 0x61, 0x61, 0x61, 0x61, 0x61, 0x61, 0x62, 0x62, 0x62, 0x62, 0x62, 0x62,
    0x62, 0x61, 0x61, 0x61, 0x61, 0x61, 0x61]

  /** The registers between the bytes. */
  lemma {:induction false} Trace(s: Bytes, registers: seq<bv32>)
    requires |registers| == |s| + 1 && forall i :: 0 <= i < |s| ==> Feed(registers[i], s[i]) == registers[i + 1]
    ensures Crc(registers[0], s) == registers[|s|]
    decreases s
  {
    hide Feed;
    if s != [] {
      Trace(s[1..], registers[1..]);
    }
  }

  lemma CheckSteps()
    ensures Feed(0xFFFF_FFFF, 0x31) == 0x6F0A_661C && Feed(0x6F0A_661C, 0x32) == 0x8CAA_3B9F
    ensures Feed(0x8CAA_3B9F, 0x33) == 0xEF84_D04D && Feed(0xEF84_D04D, 0x34) == 0x09C5_0B11
    ensures Feed(0x09C5_0B11, 0x35) == 0xE72E_DCCA && Feed(0xE72E_DCCA, 0x36) == 0xBECA_8E79
    ensures Feed(0xBECA_8E79, 0x37) == 0xEDBD_6815 && Feed(0xEDBD_6815, 0x38) == 0x9F78_7F65
    ensures Feed(0x9F78_7F65, 0x39) == 0x1CF9_6D7C
  {}

  lemma CheckRegister()
    ensures Crc(0xFFFF_FFFF, CHECK) == 0x1CF9_6D7C
  {
    hide Feed, Crc;
    CheckSteps();
    var registers: seq<bv32> := [
      0xFFFF_FFFF, 0x6F0A_661C, 0x8CAA_3B9F, 0xEF84_D04D, 0x09C5_0B11, 0xE72E_DCCA, 0xBECA_8E79, 0xEDBD_6815,
      0x9F78_7F65, 0x1CF9_6D7C];
    Trace(CHECK, registers);
  }

  lemma AsSteps()
    ensures Feed(0xFFFF_FFFF, 0x61) == 0x3E2F_BCCF && Feed(0x3E2F_BCCF, 0x61) == 0x0E0D_253D
    ensures Feed(0x0E0D_253D, 0x61) == 0x1C68_1826 && Feed(0x1C68_1826, 0x61) == 0x95AD_114F
    ensures Feed(0x95AD_114F, 0x61) == 0x8C50_9CE8 && Feed(0x8C50_9CE8, 0x61) == 0xFAC8_B028
    ensures Feed(0xFAC8_B028, 0x61) == 0x3933_0EC0 && Feed(0x3933_0EC0, 0x61) == 0x5019_05AB
    ensures Feed(0x5019_05AB, 0x61) == 0xA83F_17F9 && Feed(0xA83F_17F9, 0x61) == 0x18D9_9BCF
    ensures Feed(0x18D9_9BCF, 0x61) == 0x0E2B_D31A && Feed(0x0E2B_D31A, 0x61) == 0xE81F_D4E5
  {}

  lemma BsSteps()
    ensures Feed(0xE81F_D4E5, 0x62) == 0x56D4_4047 && Feed(0x56D4_4047, 0x62) == 0x151A_4E82
    ensures Feed(0x151A_4E82, 0x62) == 0xE325_B254 && Feed(0xE325_B254, 0x62) == 0x16A1_8BEB
    ensures Feed(0x16A1_8BEB, 0x62) == 0xFA52_413F && Feed(0xFA52_413F, 0x62) == 0xEEF7_C441
    ensures Feed(0xEEF7_C441, 0x62) == 0x3303_8AEE && Feed(0x3303_8AEE, 0x61) == 0xDCD6_04D6
    ensures Feed(0xDCD6_04D6, 0x61) == 0x6603_C026 && Feed(0x6603_C026, 0x61) == 0x95D7_7A97
    ensures Feed(0x95D7_7A97, 0x61) == 0xD55A_5FE7 && Feed(0xD55A_5FE7, 0x61) == 0xA482_86CF
    ensures Feed(0xA482_86CF, 0x61) == 0x0E97_8807
  {}

  lemma AsAndBsRegister()
    ensures Crc(0xFFFF_FFFF, AS_AND_BS) == 0x0E97_8807
  {
    hide Feed, Crc;
    AsSteps();
    BsSteps();
    var registers: seq<bv32> := [
      0xFFFF_FFFF, 0x3E2F_BCCF, 0x0E0D_253D, 0x1C68_1826, 0x95AD_114F, 0x8C50_9CE8, 0xFAC8_B028, 0x3933_0EC0,
      0x5019_05AB, 0xA83F_17F9, 0x18D9_9BCF, 0x0E2B_D31A, 0xE81F_D4E5, 0x56D4_4047, 0x151A_4E82, 0xE325_B254,
      0x16A1_8BEB, 0xFA52_413F, 0xEEF7_C441, 0x3303_8AEE, 0xDCD6_04D6, 0x6603_C026, 0x95D7_7A97, 0xD55A_5FE7,
      0xA482_86CF, 0x0E97_8807];
    Trace(AS_AND_BS, registers);
  }

  /** Known answers: no byte, a zero byte, and the check value. */
  lemma KnownChecksums()
    ensures Complement(Crc(INITIAL, [])) == 0
    ensures Complement(Crc(INITIAL, [0])) == 0x527D_5351
    ensures Complement(Crc(INITIAL, CHECK)) == 0xE306_9283
  {
    CrcOne(INITIAL, 0);
    CheckRegister();
  }

  /** The same as they are stored, and the one that the tests of the framed streams expect. */
  lemma KnownMaskedChecksums()
    ensures MaskedCrc([]) == 0xA282_EAD8
    ensures MaskedCrc([0]) == 0x4925_8FD2
    ensures MaskedCrc(CHECK) == 0xC78A_B0E5
    ensures MaskedCrc(AS_AND_BS) == 0x9274_CDA8
  {
    KnownChecksums();
    AsAndBsRegister();
    assert MaskedCrc([0]) == Mask(0x527D_5351) && MaskedCrc(CHECK) == Mask(0xE306_9283);
  }

  // ---------------------------------------------------------------- the literal tables

  /** For each bit `j`, the entries `1 << j` of the tables T8_0 to T8_7 as the program spells them. */
  const COLUMNS: seq<seq<bv32>> := [
    [0xF26B_8303, 0x13A2_9877, 0xA541_927E, 0xDD45_AAB8, 0x3811_6FAC, 0xEF30_6B19, 0x6803_2CC8, 0x493C_7D27],
    [0xE13B_70F7, 0x2745_30EE, 0x4F6F_520D, 0xBF67_2381, 0x7022_DF58, 0xDB8C_A0C3, 0xD006_5990, 0x9278_FA4E],
    [0xC79A_971F, 0x4E8A_61DC, 0x9EDE_A41A, 0x7B22_31F3, 0xE045_BEB0, 0xB2F5_3777, 0xA5E0_C5D1, 0x211D_826D],
    [0x8AD9_58CF, 0x9D14_C3B8, 0x3851_3EC5, 0xF644_63E6, 0xC567_0B91, 0x6006_181F, 0x4E2D_FD53, 0x423B_04DA],
    [0x105E_C76F, 0x3FC5_F181, 0x70A2_7D8A, 0xE964_B13D, 0x8F22_61D3, 0xC00C_303E, 0x9C5B_FAA6, 0x8476_09B4],
    [0x20BD_8EDE, 0x7F8B_E302, 0xE144_FB14, 0xD725_148B, 0x1BA8_B557, 0x85F4_168D, 0x3D5B_83BD, 0x0D00_6599],
    [0x417B_1DBC, 0xFF17_C604, 0xC765_80D9, 0xABA6_5FE7, 0x3751_6AAE, 0x0E04_5BEB, 0x7AB7_077A, 0x1A00_CB32],
    [0x82F6_3B78, 0xFBC3_FAF9, 0x8B27_7743, 0x52A0_C93F, 0x6EA2_D55C, 0x1C08_B7D6, 0xF56E_0EF4, 0x3401_9664]]

  const POWERS: seq<bv32> := [1, 2, 4, 8, 16, 32, 64, 128]

  /** A column starts at its bit and advances by one zero byte from table to table. */
  predicate IsColumn(c: seq<bv32>, bit: bv32)
    requires |c| == 8
  {
    && Shift8(bit) == c[0] && Shift8(c[0]) == c[1] && Shift8(c[1]) == c[2] && Shift8(c[2]) == c[3]
    && Shift8(c[3]) == c[4] && Shift8(c[4]) == c[5] && Shift8(c[5]) == c[6] && Shift8(c[6]) == c[7]
  }

  lemma Column0()
    ensures Shift8(1) == 0xF26B_8303 && Shift8(0xF26B_8303) == 0x13A2_9877
    ensures Shift8(0x13A2_9877) == 0xA541_927E && Shift8(0xA541_927E) == 0xDD45_AAB8
    ensures Shift8(0xDD45_AAB8) == 0x3811_6FAC && Shift8(0x3811_6FAC) == 0xEF30_6B19
    ensures Shift8(0xEF30_6B19) == 0x6803_2CC8 && Shift8(0x6803_2CC8) == 0x493C_7D27
  {}

  lemma Column1()
    ensures Shift8(2) == 0xE13B_70F7 && Shift8(0xE13B_70F7) == 0x2745_30EE
    ensures Shift8(0x2745_30EE) == 0x4F6F_520D && Shift8(0x4F6F_520D) == 0xBF67_2381
    ensures Shift8(0xBF67_2381) == 0x7022_DF58 && Shift8(0x7022_DF58) == 0xDB8C_A0C3
    ensures Shift8(0xDB8C_A0C3) == 0xD006_5990 && Shift8(0xD006_5990) == 0x9278_FA4E
  {}

  lemma Column2()
    ensures Shift8(4) == 0xC79A_971F && Shift8(0xC79A_971F) == 0x4E8A_61DC
    ensures Shift8(0x4E8A_61DC) == 0x9EDE_A41A && Shift8(0x9EDE_A41A) == 0x7B22_31F3
    ensures Shift8(0x7B22_31F3) == 0xE045_BEB0 && Shift8(0xE045_BEB0) == 0xB2F5_3777
    ensures Shift8(0xB2F5_3777) == 0xA5E0_C5D1 && Shift8(0xA5E0_C5D1) == 0x211D_826D
  {}

  lemma Column3()
    ensures Shift8(8) == 0x8AD9_58CF && Shift8(0x8AD9_58CF) == 0x9D14_C3B8
    ensures Shift8(0x9D14_C3B8) == 0x3851_3EC5 && Shift8(0x3851_3EC5) == 0xF644_63E6
    ensures Shift8(0xF644_63E6) == 0xC567_0B91 && Shift8(0xC567_0B91) == 0x6006_181F
    ensures Shift8(0x6006_181F) == 0x4E2D_FD53 && Shift8(0x4E2D_FD53) == 0x423B_04DA
  {}

  lemma Column4()
    ensures Shift8(16) == 0x105E_C76F && Shift8(0x105E_C76F) == 0x3FC5_F181
    ensures Shift8(0x3FC5_F181) == 0x70A2_7D8A && Shift8(0x70A2_7D8A) == 0xE964_B13D
    ensures Shift8(0xE964_B13D) == 0x8F22_61D3 && Shift8(0x8F22_61D3) == 0xC00C_303E
    ensures Shift8(0xC00C_303E) == 0x9C5B_FAA6 && Shift8(0x9C5B_FAA6) == 0x8476_09B4
  {}

  lemma Column5()
    ensures Shift8(32) == 0x20BD_8EDE && Shift8(0x20BD_8EDE) == 0x7F8B_E302
    ensures Shift8(0x7F8B_E302) == 0xE144_FB14 && Shift8(0xE144_FB14) == 0xD725_148B
    ensures Shift8(0xD725_148B) == 0x1BA8_B557 && Shift8(0x1BA8_B557) == 0x85F4_168D
    ensures Shift8(0x85F4_168D) == 0x3D5B_83BD && Shift8(0x3D5B_83BD) == 0x0D00_6599
  {}

  lemma Column6()
    ensures Shift8(64) == 0x417B_1DBC && Shift8(0x417B_1DBC) == 0xFF17_C604
    ensures Shift8(0xFF17_C604) == 0xC765_80D9 && Shift8(0xC765_80D9) == 0xABA6_5FE7
    ensures Shift8(0xABA6_5FE7) == 0x3751_6AAE && Shift8(0x3751_6AAE) == 0x0E04_5BEB
    ensures Shift8(0x0E04_5BEB) == 0x7AB7_077A && Shift8(0x7AB7_077A) == 0x1A00_CB32
  {}

  lemma Column7()
    ensures Shift8(128) == 0x82F6_3B78 && Shift8(0x82F6_3B78) == 0xFBC3_FAF9
    ensures Shift8(0xFBC3_FAF9) == 0x8B27_7743 && Shift8(0x8B27_7743) == 0x52A0_C93F
    ensures Shift8(0x52A0_C93F) == 0x6EA2_D55C && Shift8(0x6EA2_D55C) == 0x1C08_B7D6
    ensures Shift8(0x1C08_B7D6) == 0xF56E_0EF4 && Shift8(0xF56E_0EF4) == 0x3401_9664
  {}

  lemma Columns(j: nat)
    requires j < 8
    ensures IsColumn(COLUMNS[j], POWERS[j])
  {
    hide Shift8;
    match j {
      case 0 => Column0();
      case 1 => Column1();
      case 2 => Column2();
      case 3 => Column3();
      case 4 => Column4();
      case 5 => Column5();
      case 6 => Column6();
      case 7 => Column7();
    }
  }

  lemma {:induction false} AdvanceLast(c: bv32, k: nat)
    ensures Advance(c, k + 1) == Shift8(Advance(c, k))
    decreases k
  {
    hide Shift8;
    if k != 0 {
      AdvanceLast(Shift8(c), k - 1);
    }
  }

  lemma {:induction false} T8OnColumn(j: nat, k: nat)
    requires j < 8 && k < 8
    ensures T8(k, POWERS[j]) == COLUMNS[j][k]
  {
    hide Shift8;
    Columns(j);
    AdvanceLast(POWERS[j], k);
    if k != 0 {
      T8OnColumn(j, k - 1);
    } else {
      assert Advance(POWERS[j], 0) == POWERS[j];
    }
  }

  function Pick(i: bv32, bit: bv32, v: bv32): bv32 { if i & bit != 0 then v else 0 }

  /** The XOR of the entries `row[j..]` whose bit is set in `i`. */
  function Combine(i: bv32, row: seq<bv32>, j: nat): bv32
    requires |row| == 8 && j <= 8
    decreases 8 - j
  {
    if j == 8 then 0 else Xor(Pick(i, POWERS[j], row[j]), Combine(i, row, j + 1))
  }

  lemma CombinePowers(i: bv32)
    requires i <= 0xFF
    ensures Combine(i, POWERS, 0) == i
  {
    hide Combine, Xor, Pick;
    UnfoldCombine(i, POWERS);
    PickedBits(i);
  }

  lemma UnfoldCombine(i: bv32, row: seq<bv32>)
    requires |row| == 8
    ensures Combine(i, row, 0) ==
            Xor(Pick(i, 1, row[0]), Xor(Pick(i, 2, row[1]), Xor(Pick(i, 4, row[2]), Xor(Pick(i, 8, row[3]),
            Xor(Pick(i, 16, row[4]),
              Xor(Pick(i, 32, row[5]), Xor(Pick(i, 64, row[6]), Xor(Pick(i, 128, row[7]), 0))))))))
  {
    hide Xor, Pick;
    assert Combine(i, row, 8) == 0;
    assert Combine(i, row, 6) == Xor(Pick(i, 64, row[6]), Xor(Pick(i, 128, row[7]), 0));
    assert Combine(i, row, 4) == Xor(Pick(i, 16, row[4]), Xor(Pick(i, 32, row[5]), Combine(i, row, 6)));
    assert Combine(i, row, 2) == Xor(Pick(i, 4, row[2]), Xor(Pick(i, 8, row[3]), Combine(i, row, 4)));
  }

  lemma PickedBits(i: bv32)
    requires i <= 0xFF
    ensures Xor(Pick(i, 1, 1), Xor(Pick(i, 2, 2), Xor(Pick(i, 4, 4), Xor(Pick(i, 8, 8),
            Xor(Pick(i, 16, 16), Xor(Pick(i, 32, 32), Xor(Pick(i, 64, 64), Xor(Pick(i, 128, 128), 0)))))))) == i
  {}

  lemma {:induction false} AdvanceZero(k: nat)
    ensures Advance(0, k) == 0
  {
    if k != 0 {
      assert Shift8(0) == 0;
      AdvanceZero(k - 1);
    }
  }

  lemma {:induction false} AdvanceCombine(i: bv32, row: seq<bv32>, j: nat, k: nat)
    requires |row| == 8 && j <= 8
    requires forall b :: 0 <= b < 8 ==> row[b] == Advance(POWERS[b], k)
    ensures Advance(Combine(i, POWERS, j), k) == Combine(i, row, j)
    decreases 8 - j
  {
    hide Xor, Advance;
    AdvanceZero(k);
    if j != 8 {
      AdvanceLinear(Pick(i, POWERS[j], POWERS[j]), Combine(i, POWERS, j + 1), k);
      AdvanceCombine(i, row, j + 1, k);
    }
  }

  /** Every entry of every generated table is the XOR of the program's own literals for the bits of its index. */
  lemma T8FromLiterals(k: nat, i: bv32)
    requires k < 8 && i <= 0xFF
    ensures T8(k, i) == Combine(i, seq(8, j requires 0 <= j < 8 => COLUMNS[j][k]), 0)
  {
    hide Advance, Combine;
    var row := seq(8, j requires 0 <= j < 8 => COLUMNS[j][k]);
    forall b | 0 <= b < 8 ensures row[b] == Advance(POWERS[b], k + 1) {
      T8OnColumn(b, k);
    }
    AdvanceCombine(i, row, 0, k + 1);
    CombinePowers(i);
  }
}
