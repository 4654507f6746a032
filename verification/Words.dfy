/**
 Machine words as registers. Each lemma that looks inside a word is split in two: the facts
 about single bits are stated on words alone, the step to a register on sequences alone.
 */
module Words {
  import opened ShiftRegister

  type byte = bv8
  type word = bv16

  /** One bit step of the CRC-16 with the reversed polynomial 0xA001. */
  function Shift(c: word): word {
    if c & 1 == 1 then (c >> 1) ^ 0xA001 else c >> 1
  }

  function Octet(b0: bool, b1: bool, b2: bool, b3: bool,
                 b4: bool, b5: bool, b6: bool, b7: bool): (r: seq<bool>)
    ensures |r| == 8
    ensures r[0] == b0 && r[1] == b1 && r[2] == b2 && r[3] == b3
    ensures r[4] == b4 && r[5] == b5 && r[6] == b6 && r[7] == b7
  {
    [b0, b1, b2, b3, b4, b5, b6, b7]
  }

  /** The bits of a byte, in the order in which they enter the register. */
  function ByteBits(d: byte): (r: seq<bool>)
    ensures |r| == 8
  {
    Octet(d & 0x01 != 0, d & 0x02 != 0, d & 0x04 != 0, d & 0x08 != 0,
          d & 0x10 != 0, d & 0x20 != 0, d & 0x40 != 0, d & 0x80 != 0)
  }

  function Low(w: word): byte {
    (w & 0xFF) as byte
  }

  function High(w: word): byte {
    (w >> 8) as byte
  }

  function Join(high: byte, low: byte): word {
    ((high as word) << 8) | (low as word)
  }

  lemma JoinBits(high: byte, low: byte)
    ensures Low(((high as word) << 8) | (low as word)) == low
    ensures High(((high as word) << 8) | (low as word)) == high
  {
  }

  lemma JoinHalves(high: byte, low: byte)
    ensures Low(Join(high, low)) == low && High(Join(high, low)) == high
  {
    hide Low, High;
    JoinBits(high, low);
  }

  function OfBytes(low: byte, high: byte): Register {
    ByteBits(low) + ByteBits(high)
  }

  /** The bits of a word, lowest first. */
  function OfWord(w: word): Register {
    OfBytes(Low(w), High(w))
  }

  lemma ByteBitsAt(d: byte, r: seq<bool>)
    requires r == ByteBits(d)
    ensures r[0] == (d & 0x01 != 0) && r[1] == (d & 0x02 != 0)
    ensures r[2] == (d & 0x04 != 0) && r[3] == (d & 0x08 != 0)
    ensures r[4] == (d & 0x10 != 0) && r[5] == (d & 0x20 != 0)
    ensures r[6] == (d & 0x40 != 0) && r[7] == (d & 0x80 != 0)
  {
    hide Octet;
  }

  lemma HalfBits(w: word, low: byte, high: byte)
    requires low == (w & 0xFF) as byte && high == (w >> 8) as byte
    ensures (low & 0x01 != 0) == (w & 0x0001 != 0)
    ensures (low & 0x02 != 0) == (w & 0x0002 != 0)
    ensures (low & 0x04 != 0) == (w & 0x0004 != 0)
    ensures (low & 0x08 != 0) == (w & 0x0008 != 0)
    ensures (low & 0x10 != 0) == (w & 0x0010 != 0)
    ensures (low & 0x20 != 0) == (w & 0x0020 != 0)
    ensures (low & 0x40 != 0) == (w & 0x0040 != 0)
    ensures (low & 0x80 != 0) == (w & 0x0080 != 0)
    ensures (high & 0x01 != 0) == (w & 0x0100 != 0)
    ensures (high & 0x02 != 0) == (w & 0x0200 != 0)
    ensures (high & 0x04 != 0) == (w & 0x0400 != 0)
    ensures (high & 0x08 != 0) == (w & 0x0800 != 0)
    ensures (high & 0x10 != 0) == (w & 0x1000 != 0)
    ensures (high & 0x20 != 0) == (w & 0x2000 != 0)
    ensures (high & 0x40 != 0) == (w & 0x4000 != 0)
    ensures (high & 0x80 != 0) == (w & 0x8000 != 0)
  {
  }

  lemma OfWordAt(w: word, r: Register)
    requires r == OfWord(w)
    ensures r[0] == (w & 0x0001 != 0) && r[1] == (w & 0x0002 != 0)
    ensures r[2] == (w & 0x0004 != 0) && r[3] == (w & 0x0008 != 0)
    ensures r[4] == (w & 0x0010 != 0) && r[5] == (w & 0x0020 != 0)
    ensures r[6] == (w & 0x0040 != 0) && r[7] == (w & 0x0080 != 0)
    ensures r[8] == (w & 0x0100 != 0) && r[9] == (w & 0x0200 != 0)
    ensures r[10] == (w & 0x0400 != 0) && r[11] == (w & 0x0800 != 0)
    ensures r[12] == (w & 0x1000 != 0) && r[13] == (w & 0x2000 != 0)
    ensures r[14] == (w & 0x4000 != 0) && r[15] == (w & 0x8000 != 0)
  {
    var low, high := Low(w), High(w);
    HalfBits(w, low, high);
    hide ByteBits, Low, High;
    ByteBitsAt(low, ByteBits(low));
    ByteBitsAt(high, ByteBits(high));
  }

  lemma Same(a: Register, b: Register)
    requires a[0] == b[0] && a[1] == b[1] && a[2] == b[2] && a[3] == b[3]
    requires a[4] == b[4] && a[5] == b[5] && a[6] == b[6] && a[7] == b[7]
    requires a[8] == b[8] && a[9] == b[9] && a[10] == b[10] && a[11] == b[11]
    requires a[12] == b[12] && a[13] == b[13] && a[14] == b[14] && a[15] == b[15]
    ensures a == b
  {
  }

  // ---- Shift is Advance ----

  lemma ShiftBitsOdd(w: word, v: word)
    requires v == (w >> 1) ^ 0xA001
    ensures (v & 0x0001 != 0) == !(w & 0x0002 != 0)
    ensures (v & 0x0002 != 0) == (w & 0x0004 != 0)
    ensures (v & 0x0004 != 0) == (w & 0x0008 != 0)
    ensures (v & 0x0008 != 0) == (w & 0x0010 != 0)
    ensures (v & 0x0010 != 0) == (w & 0x0020 != 0)
    ensures (v & 0x0020 != 0) == (w & 0x0040 != 0)
    ensures (v & 0x0040 != 0) == (w & 0x0080 != 0)
    ensures (v & 0x0080 != 0) == (w & 0x0100 != 0)
    ensures (v & 0x0100 != 0) == (w & 0x0200 != 0)
    ensures (v & 0x0200 != 0) == (w & 0x0400 != 0)
    ensures (v & 0x0400 != 0) == (w & 0x0800 != 0)
    ensures (v & 0x0800 != 0) == (w & 0x1000 != 0)
    ensures (v & 0x1000 != 0) == (w & 0x2000 != 0)
    ensures (v & 0x2000 != 0) == !(w & 0x4000 != 0)
    ensures (v & 0x4000 != 0) == (w & 0x8000 != 0)
    ensures (v & 0x8000 != 0) == true
  {
  }

  lemma ShiftBitsEven(w: word, v: word)
    requires v == w >> 1
    ensures (v & 0x0001 != 0) == (w & 0x0002 != 0)
    ensures (v & 0x0002 != 0) == (w & 0x0004 != 0)
    ensures (v & 0x0004 != 0) == (w & 0x0008 != 0)
    ensures (v & 0x0008 != 0) == (w & 0x0010 != 0)
    ensures (v & 0x0010 != 0) == (w & 0x0020 != 0)
    ensures (v & 0x0020 != 0) == (w & 0x0040 != 0)
    ensures (v & 0x0040 != 0) == (w & 0x0080 != 0)
    ensures (v & 0x0080 != 0) == (w & 0x0100 != 0)
    ensures (v & 0x0100 != 0) == (w & 0x0200 != 0)
    ensures (v & 0x0200 != 0) == (w & 0x0400 != 0)
    ensures (v & 0x0400 != 0) == (w & 0x0800 != 0)
    ensures (v & 0x0800 != 0) == (w & 0x1000 != 0)
    ensures (v & 0x1000 != 0) == (w & 0x2000 != 0)
    ensures (v & 0x2000 != 0) == (w & 0x4000 != 0)
    ensures (v & 0x4000 != 0) == (w & 0x8000 != 0)
    ensures (v & 0x8000 != 0) == false
  {
  }

  lemma ShiftBits(w: word, v: word)
    requires v == if w & 1 == 1 then (w >> 1) ^ 0xA001 else w >> 1
    ensures (v & 0x0001 != 0) == ((w & 0x0002 != 0) != (w & 0x0001 != 0))
    ensures (v & 0x0002 != 0) == (w & 0x0004 != 0)
    ensures (v & 0x0004 != 0) == (w & 0x0008 != 0)
    ensures (v & 0x0008 != 0) == (w & 0x0010 != 0)
    ensures (v & 0x0010 != 0) == (w & 0x0020 != 0)
    ensures (v & 0x0020 != 0) == (w & 0x0040 != 0)
    ensures (v & 0x0040 != 0) == (w & 0x0080 != 0)
    ensures (v & 0x0080 != 0) == (w & 0x0100 != 0)
    ensures (v & 0x0100 != 0) == (w & 0x0200 != 0)
    ensures (v & 0x0200 != 0) == (w & 0x0400 != 0)
    ensures (v & 0x0400 != 0) == (w & 0x0800 != 0)
    ensures (v & 0x0800 != 0) == (w & 0x1000 != 0)
    ensures (v & 0x1000 != 0) == (w & 0x2000 != 0)
    ensures (v & 0x2000 != 0) == ((w & 0x4000 != 0) != (w & 0x0001 != 0))
    ensures (v & 0x4000 != 0) == (w & 0x8000 != 0)
    ensures (v & 0x8000 != 0) == (w & 0x0001 != 0)
  {
    if w & 1 == 1 {
      ShiftBitsOdd(w, v);
    } else {
      ShiftBitsEven(w, v);
    }
  }

  lemma ShiftedBits(w: word, v: word)
    requires v == if w & 1 == 1 then (w >> 1) ^ 0xA001 else w >> 1
    ensures OfWord(v) == Advance(OfWord(w))
  {
    hide OfWord, Advance;
    ShiftBits(w, v);
    OfWordAt(w, OfWord(w));
    OfWordAt(v, OfWord(v));
    Same(OfWord(v), Advance(OfWord(w)));
  }

  lemma ShiftIsAdvance(w: word)
    ensures OfWord(Shift(w)) == Advance(OfWord(w))
  {
    hide OfWord, Advance;
    ShiftedBits(w, Shift(w));
  }

  // ---- Exclusive or ----

  lemma XorByteBits(a: byte, b: byte, v: byte)
    requires v == a ^ b
    ensures (v & 0x01 != 0) == ((a & 0x01 != 0) != (b & 0x01 != 0))
    ensures (v & 0x02 != 0) == ((a & 0x02 != 0) != (b & 0x02 != 0))
    ensures (v & 0x04 != 0) == ((a & 0x04 != 0) != (b & 0x04 != 0))
    ensures (v & 0x08 != 0) == ((a & 0x08 != 0) != (b & 0x08 != 0))
    ensures (v & 0x10 != 0) == ((a & 0x10 != 0) != (b & 0x10 != 0))
    ensures (v & 0x20 != 0) == ((a & 0x20 != 0) != (b & 0x20 != 0))
    ensures (v & 0x40 != 0) == ((a & 0x40 != 0) != (b & 0x40 != 0))
    ensures (v & 0x80 != 0) == ((a & 0x80 != 0) != (b & 0x80 != 0))
  {
  }

  lemma XorFrom(p: seq<bool>, q: seq<bool>, r: seq<bool>)
    requires |p| == |q| == |r| == 8
    requires r[0] == (p[0] != q[0]) && r[1] == (p[1] != q[1])
    requires r[2] == (p[2] != q[2]) && r[3] == (p[3] != q[3])
    requires r[4] == (p[4] != q[4]) && r[5] == (p[5] != q[5])
    requires r[6] == (p[6] != q[6]) && r[7] == (p[7] != q[7])
    ensures r == XorBits(p, q)
  {
  }

  lemma XorFromBits(a: byte, b: byte, v: byte)
    requires (v & 0x01 != 0) == ((a & 0x01 != 0) != (b & 0x01 != 0))
    requires (v & 0x02 != 0) == ((a & 0x02 != 0) != (b & 0x02 != 0))
    requires (v & 0x04 != 0) == ((a & 0x04 != 0) != (b & 0x04 != 0))
    requires (v & 0x08 != 0) == ((a & 0x08 != 0) != (b & 0x08 != 0))
    requires (v & 0x10 != 0) == ((a & 0x10 != 0) != (b & 0x10 != 0))
    requires (v & 0x20 != 0) == ((a & 0x20 != 0) != (b & 0x20 != 0))
    requires (v & 0x40 != 0) == ((a & 0x40 != 0) != (b & 0x40 != 0))
    requires (v & 0x80 != 0) == ((a & 0x80 != 0) != (b & 0x80 != 0))
    ensures ByteBits(v) == XorBits(ByteBits(a), ByteBits(b))
  {
    hide ByteBits, Octet, XorBits;
    ByteBitsAt(a, ByteBits(a));
    ByteBitsAt(b, ByteBits(b));
    ByteBitsAt(v, ByteBits(v));
    XorFrom(ByteBits(a), ByteBits(b), ByteBits(v));
  }

  lemma XorByte(a: byte, b: byte)
    ensures ByteBits(a ^ b) == XorBits(ByteBits(a), ByteBits(b))
  {
    hide ByteBits, XorBits;
    XorByteBits(a, b, a ^ b);
    XorFromBits(a, b, a ^ b);
  }

  lemma XorConcat(a: seq<bool>, b: seq<bool>, c: seq<bool>, d: seq<bool>)
    requires |a| == |c| && |b| == |d|
    ensures XorBits(a + b, c + d) == XorBits(a, c) + XorBits(b, d)
  {
  }

  lemma XorOfBytes(a: byte, b: byte, c: byte, d: byte)
    ensures Xor(OfBytes(a, b), OfBytes(c, d)) == OfBytes(a ^ c, b ^ d)
  {
    hide ByteBits, XorBits;
    XorByte(a, c);
    XorByte(b, d);
    XorConcat(ByteBits(a), ByteBits(b), ByteBits(c), ByteBits(d));
  }

  lemma XorHalves(a: word, b: word)
    ensures Low(a ^ b) == Low(a) ^ Low(b) && High(a ^ b) == High(a) ^ High(b)
  {
  }

  lemma XorIsXor(a: word, b: word)
    ensures OfWord(a ^ b) == Xor(OfWord(a), OfWord(b))
  {
    XorHalves(a, b);
    hide Low, High, OfBytes, Xor;
    XorOfBytes(Low(a), High(a), Low(b), High(b));
  }

  // ---- A word is known by its bits ----

  lemma SameByte(a: byte, b: byte)
    requires (a & 0x01 != 0) == (b & 0x01 != 0)
    requires (a & 0x02 != 0) == (b & 0x02 != 0)
    requires (a & 0x04 != 0) == (b & 0x04 != 0)
    requires (a & 0x08 != 0) == (b & 0x08 != 0)
    requires (a & 0x10 != 0) == (b & 0x10 != 0)
    requires (a & 0x20 != 0) == (b & 0x20 != 0)
    requires (a & 0x40 != 0) == (b & 0x40 != 0)
    requires (a & 0x80 != 0) == (b & 0x80 != 0)
    ensures a == b
  {
  }

  lemma ByteBitsInjective(a: byte, b: byte)
    requires ByteBits(a) == ByteBits(b)
    ensures a == b
  {
    hide ByteBits, Octet;
    ByteBitsAt(a, ByteBits(a));
    ByteBitsAt(b, ByteBits(b));
    SameByte(a, b);
  }

  lemma SameHalves(a: word, b: word)
    requires Low(a) == Low(b) && High(a) == High(b)
    ensures a == b
  {
  }

  lemma OfBytesInjective(a: byte, b: byte, c: byte, d: byte)
    requires OfBytes(a, b) == OfBytes(c, d)
    ensures a == c && b == d
  {
    hide ByteBits;
    assert OfBytes(a, b)[..8] == ByteBits(a) && OfBytes(a, b)[8..] == ByteBits(b);
    assert OfBytes(c, d)[..8] == ByteBits(c) && OfBytes(c, d)[8..] == ByteBits(d);
    ByteBitsInjective(a, c);
    ByteBitsInjective(b, d);
  }

  lemma OfWordInjective(a: word, b: word)
    requires OfWord(a) == OfWord(b)
    ensures a == b
  {
    hide OfBytes, Low, High;
    OfBytesInjective(Low(a), High(a), Low(b), High(b));
    SameHalves(a, b);
  }

  lemma OfWordZero(w: word)
    ensures OfWord(w) == ZERO <==> w == 0
  {
    hide OfWord, Octet;
    var z := OfWord(0);
    OfWordAt(0, z);
    Same(z, ZERO);
    if OfWord(w) == ZERO {
      OfWordInjective(w, 0);
    }
  }
}
