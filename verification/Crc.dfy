/**
 The CRC-16 of section 2.5.1.2 of "MODBUS over Serial Line Specification and Implementation
 Guide V1.02": the fold of the bitwise update from 0xFFFF, and the three forms in which the
 repository computes it.
 */
module Crc {
  import opened ShiftRegister
  import opened Words
  import opened CrcTables

  const SEED: word := 0xFFFF

  function Shifts(c: word, n: nat): word
    decreases n
  {
    if n == 0 then c else Shift(Shifts(c, n - 1))
  }

  function Update(c: word, d: byte): word {
    Shifts(c ^ (d as word), 8)
  }

  function Fold(c: word, m: seq<byte>): word
    decreases |m|
  {
    if m == [] then c else Update(Fold(c, m[..|m| - 1]), m[|m| - 1])
  }

  function CrcOf(m: seq<byte>): word {
    Fold(SEED, m)
  }

  /** The two bytes that follow a message on the line, low byte first. */
  function Trailer(m: seq<byte>): (t: seq<byte>)
    ensures |t| == 2
  {
    [Low(CrcOf(m)), High(CrcOf(m))]
  }

  function Sealed(m: seq<byte>): seq<byte> {
    m + Trailer(m)
  }

  /** The last two bytes are the CRC of the bytes before them. */
  predicate Intact(frame: seq<byte>)
    requires |frame| >= 2
  {
    frame[|frame| - 2..] == Trailer(frame[..|frame| - 2])
  }

  /** The bits of a message in the order in which they enter the register. */
  function FrameBits(m: seq<byte>): (bits: seq<bool>)
    ensures |bits| == 8 * |m|
    decreases |m|
  {
    if m == [] then [] else FrameBits(m[..|m| - 1]) + ByteBits(m[|m| - 1])
  }

  // ---- The update as bits through the register ----

  lemma {:induction false} ShiftsIsAdvances(c: word, n: nat)
    ensures OfWord(Shifts(c, n)) == Advances(OfWord(c), n)
    decreases n
  {
    hide OfWord, Shift;
    if n > 0 {
      ShiftsIsAdvances(c, n - 1);
      ShiftIsAdvance(Shifts(c, n - 1));
    }
  }

  lemma HalvesOfByte(d: byte)
    ensures Low(d as word) == d && High(d as word) == 0
  {
  }

  lemma ByteAsWord(d: byte)
    ensures OfWord(d as word) == OfBytes(d, 0)
  {
    hide OfBytes;
    HalvesOfByte(d);
  }

  lemma NoBits()
    ensures Quiet(ByteBits(0))
  {
    hide Octet;
  }

  lemma ByteIsPacked(d: byte)
    ensures OfWord(d as word) == Pack(ByteBits(d))
  {
    var bits := ByteBits(d);
    ByteAsWord(d);
    NoBits();
    hide ByteBits, OfWord, Pack;
    forall k | 0 <= k < 16 ensures OfBytes(d, 0)[k] == Pack(bits)[k] {
      PackAt(bits, k);
    }
  }

  lemma UpdateIsSerial(c: word, d: byte)
    ensures OfWord(Update(c, d)) == Serial(OfWord(c), ByteBits(d))
  {
    hide OfWord, ByteBits, Xor, Serial, Pack, Shifts, Advances;
    ShiftsIsAdvances(c ^ (d as word), 8);
    XorIsXor(c, d as word);
    ByteIsPacked(d);
    SerialIsParallel(OfWord(c), ByteBits(d));
  }

  lemma {:induction false} FoldIsSerial(c: word, m: seq<byte>)
    ensures OfWord(Fold(c, m)) == Serial(OfWord(c), FrameBits(m))
    decreases |m|
  {
    hide OfWord, ByteBits, Update;
    if m != [] {
      var init, last := m[..|m| - 1], m[|m| - 1];
      FoldIsSerial(c, init);
      UpdateIsSerial(Fold(c, init), last);
      SerialConcat(OfWord(c), FrameBits(init), ByteBits(last));
    }
  }

  lemma {:induction false} FoldConcat(c: word, a: seq<byte>, b: seq<byte>)
    ensures Fold(c, a + b) == Fold(Fold(c, a), b)
    decreases |b|
  {
    hide Update;
    if b == [] {
      assert a + b == a;
    } else {
      assert (a + b)[..|a + b| - 1] == a + b[..|b| - 1];
      FoldConcat(c, a, b[..|b| - 1]);
    }
  }

  // ---- The residue ----

  lemma {:induction false} FrameBitsOfTwo(low: byte, high: byte)
    ensures FrameBits([low, high]) == OfBytes(low, high)
  {
    hide ByteBits;
    assert [low, high][..1] == [low];
    assert [low][..0] == [];
    assert FrameBits([low]) == FrameBits([]) + ByteBits(low);
  }

  lemma PackWhole(r: Register)
    ensures Pack(r) == r
  {
    forall k | 0 <= k < 16 ensures Pack(r)[k] == r[k] {
      PackAt(r, k);
    }
  }

  lemma TwoBytesClear(c: word, low: byte, high: byte)
    ensures Fold(c, [low, high]) == 0 <==> low == Low(c) && high == High(c)
  {
    hide OfBytes, ByteBits, Low, High, Fold, Serial, Xor, Advances;
    var bits := OfBytes(low, high);
    FoldIsSerial(c, [low, high]);
    FrameBitsOfTwo(low, high);
    SerialIsParallel(OfWord(c), bits);
    PackWhole(bits);
    OfWordZero(Fold(c, [low, high]));
    AdvancesZero(16);
    XorZero(OfWord(c), bits);
    if Fold(c, [low, high]) == 0 {
      AdvancesInjective(Xor(OfWord(c), bits), ZERO, 16);
      OfBytesInjective(low, high, Low(c), High(c));
    }
  }

  /** A frame is intact exactly when the CRC of all of it, trailer included, is zero. */
  lemma Residue(frame: seq<byte>)
    requires |frame| >= 2
    ensures Intact(frame) <==> CrcOf(frame) == 0
  {
    hide Low, High, Update;
    var n := |frame| - 2;
    var body, low, high := frame[..n], frame[n], frame[n + 1];
    assert frame == body + [low, high];
    assert frame[n..] == [low, high];
    FoldConcat(SEED, body, [low, high]);
    TwoBytesClear(CrcOf(body), low, high);
  }

  /** Messages do not make different CRCs equal. */
  lemma FoldInjective(c: word, d: word, m: seq<byte>)
    requires Fold(c, m) == Fold(d, m)
    ensures c == d
  {
    hide OfWord, Fold, FrameBits, Xor, Serial;
    var bits := FrameBits(m);
    FoldIsSerial(c, m);
    FoldIsSerial(d, m);
    SerialInjective(OfWord(c), OfWord(d), bits);
    OfWordInjective(c, d);
  }

  /** Two intact frames, one behind the other, are not intact. */
  lemma IntactNeverJoins(a: seq<byte>, b: seq<byte>)
    requires |a| >= 2 && |b| >= 2 && Intact(a) && Intact(b)
    ensures !Intact(a + b)
  {
    hide Intact, Fold;
    Residue(a);
    Residue(b);
    Residue(a + b);
    FoldConcat(SEED, a, b);
    if Intact(a + b) {
      FoldInjective(0, SEED, b);
    }
  }

  lemma SealedIsIntact(m: seq<byte>)
    ensures Intact(Sealed(m))
  {
    assert Sealed(m)[..|m|] == m;
    assert Sealed(m)[|m|..] == Trailer(m);
  }

  /** Zero bytes added behind an intact frame are not noticed by the CRC. */
  lemma {:induction false} TrailingZeros(frame: seq<byte>, n: nat)
    requires |frame| >= 2 && Intact(frame)
    ensures Intact(frame + seq(n, _ => 0))
    decreases n
  {
    hide Update, Intact;
    var zeros := seq(n, _ => 0 as byte);
    Residue(frame);
    FoldConcat(SEED, frame, zeros);
    ZerosKeepZero(zeros);
    Residue(frame + zeros);
  }

  lemma {:induction false} ZerosKeepZero(zeros: seq<byte>)
    requires forall i :: 0 <= i < |zeros| ==> zeros[i] == 0
    ensures Fold(0, zeros) == 0
    decreases |zeros|
  {
    if zeros != [] {
      ZerosKeepZero(zeros[..|zeros| - 1]);
      ShiftsOfZero(8);
    }
  }

  lemma {:induction false} ShiftsOfZero(n: nat)
    ensures Shifts(0, n) == 0
    decreases n
  {
    if n > 0 {
      ShiftsOfZero(n - 1);
    }
  }

  // ---- The table form ----

  lemma EightSteps(i: byte, c0: word, c1: word, c2: word, c3: word, c4: word,
                    c5: word, c6: word, c7: word, c8: word)
    requires c0 == i as word
    requires c1 == if c0 & 1 == 1 then (c0 >> 1) ^ 0xA001 else c0 >> 1
    requires c2 == if c1 & 1 == 1 then (c1 >> 1) ^ 0xA001 else c1 >> 1
    requires c3 == if c2 & 1 == 1 then (c2 >> 1) ^ 0xA001 else c2 >> 1
    requires c4 == if c3 & 1 == 1 then (c3 >> 1) ^ 0xA001 else c3 >> 1
    requires c5 == if c4 & 1 == 1 then (c4 >> 1) ^ 0xA001 else c4 >> 1
    requires c6 == if c5 & 1 == 1 then (c5 >> 1) ^ 0xA001 else c5 >> 1
    requires c7 == if c6 & 1 == 1 then (c6 >> 1) ^ 0xA001 else c6 >> 1
    requires c8 == if c7 & 1 == 1 then (c7 >> 1) ^ 0xA001 else c7 >> 1
    ensures c8 == ((i as word) << 6) ^ ((i as word) << 7)
      ^ (if ((((i & 0x01 != 0) != (i & 0x02 != 0)) != ((i & 0x04 != 0) != (i & 0x08 != 0)))
         != (((i & 0x10 != 0) != (i & 0x20 != 0)) != ((i & 0x40 != 0) != (i & 0x80 != 0)))) then 0xC001 else 0)
  {
  }

  lemma ShiftsEight(c: word)
    ensures Shifts(c, 8) == Shift(Shift(Shift(Shift(Shift(Shift(Shift(Shift(c))))))))
  {
    hide Shift;
    assert Shifts(c, 2) == Shift(Shift(c));
    assert Shifts(c, 4) == Shift(Shift(Shifts(c, 2)));
    assert Shifts(c, 6) == Shift(Shift(Shifts(c, 4)));
    assert Shifts(c, 8) == Shift(Shift(Shifts(c, 6)));
  }

  lemma EntryIsUpdate(i: byte)
    ensures Shifts(i as word, 8) == Entry(i)
  {
    var c0 := i as word;
    var c1 := Shift(c0);
    var c2 := Shift(c1);
    var c3 := Shift(c2);
    var c4 := Shift(c3);
    var c5 := Shift(c4);
    var c6 := Shift(c5);
    var c7 := Shift(c6);
    var c8 := Shift(c7);
    EightSteps(i, c0, c1, c2, c3, c4, c5, c6, c7, c8);
    ShiftsEight(c0);
  }

  lemma {:induction false} Slides(r: Register, n: nat)
    requires n <= 16 && Quiet(r[..n])
    ensures Advances(r, n) == r[n..] + seq(n, _ => false)
  {
    if n > 0 {
      assert forall k :: 0 <= k < n ==> r[..n][k] == r[k];
      Slides(r, n - 1);
      var s := Advances(r, n - 1);
      assert !s[0] by {
        assert s[0] == r[n - 1];
      }
      assert Advance(s) == s[1..] + [false];
    }
  }

  lemma SlideHigh(r: Register, low: seq<bool>, high: seq<bool>)
    requires |low| == |high| == 8 && Quiet(low) && r == low + high
    ensures Advances(r, 8) == high + low
  {
    assert r[..8] == low && r[8..] == high;
    Slides(r, 8);
    assert low == seq(8, _ => false);
  }

  lemma HighByteSlides(h: byte)
    ensures Advances(OfBytes(0, h), 8) == OfBytes(h, 0)
  {
    NoBits();
    hide ByteBits, Advances;
    SlideHigh(OfBytes(0, h), ByteBits(0), ByteBits(h));
  }

  lemma XorNone(b: byte)
    ensures b ^ 0 == b && 0 ^ b == b
  {
  }

  lemma XorLow(a: byte, b: byte, d: byte)
    ensures Xor(OfBytes(a, b), OfBytes(d, 0)) == OfBytes(a ^ d, b)
  {
    hide OfBytes, Xor;
    XorOfBytes(a, b, d, 0);
    XorNone(b);
  }

  lemma XorBeside(a: byte, b: byte)
    ensures Xor(OfBytes(a, 0), OfBytes(0, b)) == OfBytes(a, b)
  {
    hide OfBytes, Xor;
    XorOfBytes(a, 0, 0, b);
    XorNone(a);
    XorNone(b);
  }

  /** The low half takes the data byte, the high half is carried beside it. */
  lemma SplitRegister(c: word, d: byte)
    ensures Xor(OfWord(c), OfWord(d as word))
         == Xor(OfWord((Low(c) ^ d) as word), OfBytes(0, High(c)))
  {
    ByteAsWord(d);
    ByteAsWord(Low(c) ^ d);
    hide OfBytes, Low, High, Xor;
    XorLow(Low(c), High(c), d);
    XorBeside(Low(c) ^ d, High(c));
  }

  lemma UpdateRegister(c: word, d: byte)
    ensures OfWord(Update(c, d)) == Xor(OfWord(Entry(Low(c) ^ d)), OfBytes(High(c), 0))
  {
    hide OfBytes, Low, High, OfWord, Xor, Shifts, Entry, Advances;
    var i := Low(c) ^ d;
    XorIsXor(c, d as word);
    SplitRegister(c, d);
    ShiftsIsAdvances(c ^ (d as word), 8);
    ShiftsIsAdvances(i as word, 8);
    EntryIsUpdate(i);
    AdvancesLinear(OfWord(i as word), OfBytes(0, High(c)), 8);
    HighByteSlides(High(c));
  }

  lemma BytesOfSum(v: word, e: word, h: byte)
    requires OfWord(v) == Xor(OfWord(e), OfBytes(h, 0))
    ensures Low(v) == Low(e) ^ h && High(v) == High(e)
  {
    hide OfBytes, Low, High, Xor;
    XorLow(Low(e), High(e), h);
    OfBytesInjective(Low(v), High(v), Low(e) ^ h, High(e));
  }

  lemma EntryBytes(i: byte)
    ensures (i as nat) < |HCRC16| == |LCRC16|
    ensures Low(Entry(i)) == HCRC16[i as nat] && High(Entry(i)) == LCRC16[i as nat]
  {
    hide Entry, Flatten, Low, High, Join;
    TableEntry(i);
    JoinHalves(LCRC16[i as nat], HCRC16[i as nat]);
  }

  lemma XorCommutes(a: byte, b: byte)
    ensures a ^ b == b ^ a
  {
  }

  /** One byte through the tables. */
  lemma TableStep(c: word, d: byte, i: nat)
    requires i == (Low(c) ^ d) as nat
    ensures i < |HCRC16| == |LCRC16|
    ensures Low(Update(c, d)) == High(c) ^ HCRC16[i] && High(Update(c, d)) == LCRC16[i]
  {
    hide Entry, Update, Low, High, Flatten, OfWord, OfBytes, Xor;
    UpdateRegister(c, d);
    BytesOfSum(Update(c, d), Entry(Low(c) ^ d), High(c));
    EntryBytes(Low(c) ^ d);
    XorCommutes(High(c), HCRC16[i]);
  }

  // ---- The loops of the source ----

  lemma JoinOfHalves(w: word)
    ensures Join(High(w), Low(w)) == w
  {
  }

  lemma {:induction false} FoldLast(c: word, m: seq<byte>, k: nat)
    requires k < |m|
    ensures Fold(c, m[..k + 1]) == Update(Fold(c, m[..k]), m[k])
  {
    assert m[..k + 1][..k] == m[..k];
  }

  lemma ShiftIs(w: word, v: word)
    requires v == if w & 1 == 1 then (w >> 1) ^ 0xA001 else w >> 1
    ensures v == Shift(w)
  {
  }

  lemma ShiftsUnfold(c: word, n: nat)
    ensures Shifts(c, n + 1) == Shift(Shifts(c, n))
  {
    hide Shift;
  }

  lemma ShiftsNext(c: word, n: nat, w: word, v: word)
    requires w == Shifts(c, n)
    requires v == if w & 1 == 1 then (w >> 1) ^ 0xA001 else w >> 1
    ensures v == Shifts(c, n + 1)
  {
    hide Shift, Shifts;
    ShiftIs(w, v);
    ShiftsUnfold(c, n);
  }

  lemma ShiftsNone(c: word)
    ensures Shifts(c, 0) == c
  {
  }

  /** linux/crc.c, the bitwise update of a CRC held as two bytes. */
  method Crc16Update(low: byte, high: byte, data: byte) returns (low': byte, high': byte)
    ensures Join(high', low') == Update(Join(high, low), data)
  {
    hide Join, Low, High, Shifts, Shift;
    var crc16: word := Join(high, low);
    crc16 := crc16 ^ (data as word);
    ghost var c := crc16;
    ShiftsNone(c);
    var i := 0;
    while i < 8
      invariant 0 <= i <= 8
      invariant crc16 == Shifts(c, i)
    {
      ghost var w := crc16;
      crc16 := if crc16 & 1 == 1 then (crc16 >> 1) ^ 0xA001 else crc16 >> 1;
      ShiftsNext(c, i, w, crc16);
      i := i + 1;
    }
    low', high' := Low(crc16), High(crc16);
    JoinOfHalves(crc16);
  }

  lemma TableFold(m: seq<byte>, k: nat, low: byte, high: byte, i: nat)
    requires k < |m| && i == (low ^ m[k]) as nat
    requires low == Low(Fold(SEED, m[..k])) && high == High(Fold(SEED, m[..k]))
    ensures i < |HCRC16| == |LCRC16|
    ensures high ^ HCRC16[i] == Low(Fold(SEED, m[..k + 1]))
    ensures LCRC16[i] == High(Fold(SEED, m[..k + 1]))
  {
    hide Update, Low, High, Flatten;
    FoldLast(SEED, m, k);
    TableStep(Fold(SEED, m[..k]), m[k], i);
  }

  /** linux/crc.c, the two tables over a part of a buffer. */
  method CalcCrc(buffer: array?<byte>, begin: nat, end: nat) returns (low: byte, high: byte)
    requires buffer != null ==> begin <= end <= buffer.Length
    ensures buffer == null ==> low == high == 0xFF
    ensures buffer != null ==> [low, high] == Trailer(buffer[begin..end])
  {
    hide Fold, Low, High, Flatten;
    low, high := 0xFF, 0xFF;
    if buffer == null {
      return;
    }
    ghost var m := buffer[begin..end];
    var curr := begin;
    assert m[..0] == [];
    SeedHalves();
    NoBytes(SEED);
    while curr != end
      invariant begin <= curr <= end
      invariant low == Low(Fold(SEED, m[..curr - begin])) && high == High(Fold(SEED, m[..curr - begin]))
      decreases end - curr
    {
      var i := low ^ buffer[curr];
      TableFold(m, curr - begin, low, high, i as nat);
      low := high ^ HCRC16[i as nat];
      high := LCRC16[i as nat];
      curr := curr + 1;
    }
    assert m[..end - begin] == m;
  }

  lemma NoBytes(c: word)
    ensures Fold(c, []) == c
  {
  }

  lemma SeedHalves()
    ensures Low(SEED) == 0xFF && High(SEED) == 0xFF
  {
  }

  /** stm32f103c8/crc.c, the bitwise update of a word. */
  method Crc16UpdateWord(crc: word, data: byte) returns (crc': word)
    ensures crc' == Update(crc, data)
  {
    hide Shifts, Shift;
    crc' := crc ^ (data as word);
    ghost var c := crc';
    ShiftsNone(c);
    var i := 0;
    while i < 8
      invariant 0 <= i <= 8
      invariant crc' == Shifts(c, i)
    {
      ghost var w := crc';
      crc' := if crc' & 1 == 1 then (crc' >> 1) ^ 0xA001 else crc' >> 1;
      ShiftsNext(c, i, w, crc');
      i := i + 1;
    }
  }

  /** stm32f103c8/crc.c, the fold of the word update; the microcontrollers have no table. */
  method CalcCrcWord(buffer: array<byte>, begin: nat, end: nat) returns (crc16: word)
    requires begin <= end <= buffer.Length
    ensures crc16 == CrcOf(buffer[begin..end])
  {
    hide Update;
    crc16 := 0xFFFF;
    ghost var m := buffer[begin..end];
    var curr := begin;
    assert m[..0] == [];
    while curr != end
      invariant begin <= curr <= end
      invariant crc16 == Fold(SEED, m[..curr - begin])
      decreases end - curr
    {
      FoldLast(SEED, m, curr - begin);
      crc16 := Crc16UpdateWord(crc16, buffer[curr]);
      curr := curr + 1;
    }
    assert m[..end - begin] == m;
  }
}
