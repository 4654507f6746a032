/**
 What the frame check detects. Frames are compared bit by bit, in line order; the errors of a
 damaged frame are the places where it differs from the frame that was sent.
 */
module FrameErrors {
  import opened ShiftRegister
  import opened Words
  import opened RegisterOrder
  import opened Crc

  /** Where two equally long frames differ. */
  function Errors(sent: seq<byte>, heard: seq<byte>): (e: seq<bool>)
    requires |sent| == |heard|
    ensures |e| == 8 * |sent|
  {
    XorBits(FrameBits(sent), FrameBits(heard))
  }

  function Distance(sent: seq<byte>, heard: seq<byte>): nat
    requires |sent| == |heard|
  {
    Weight(Errors(sent, heard))
  }

  lemma IntactIsZero(frame: seq<byte>)
    requires |frame| >= 2
    ensures Intact(frame) <==> Serial(OfWord(SEED), FrameBits(frame)) == ZERO
  {
    hide Intact, OfWord, Serial, Fold;
    Residue(frame);
    FoldIsSerial(SEED, frame);
    OfWordZero(CrcOf(frame));
  }

  /** Only the errors decide whether damage to an intact frame is noticed. */
  lemma Syndrome(sent: seq<byte>, heard: seq<byte>)
    requires |sent| == |heard| >= 2 && Intact(sent)
    ensures Intact(heard) <==> Serial(ZERO, Errors(sent, heard)) == ZERO
  {
    hide Intact, OfWord, Serial, Xor;
    IntactIsZero(sent);
    IntactIsZero(heard);
    var r := OfWord(SEED);
    SerialDifference(r, FrameBits(sent), FrameBits(heard));
    XorZero(Serial(r, FrameBits(sent)), Serial(r, FrameBits(heard)));
  }

  /** Every odd number of flipped bits is detected, in frames of any length. */
  lemma OddDamageDetected(sent: seq<byte>, heard: seq<byte>)
    requires |sent| == |heard| >= 2 && Intact(sent)
    requires Distance(sent, heard) % 2 == 1
    ensures !Intact(heard)
  {
    Syndrome(sent, heard);
    SerialOdd(ZERO, Errors(sent, heard));
    SpreadOdd(false);
  }

  lemma AllOnes()
    ensures !Odd(OfWord(SEED))
  {
    hide OfWord, OfBytes, Octet;
    var r := OfWord(SEED);
    OfWordAt(SEED, r);
    assert r == [true, true, true, true, true, true, true, true] + [true, true, true, true, true, true, true, true];
    WeightConcat([true, true, true, true, true, true, true, true], [true, true, true, true, true, true, true, true]);
  }

  /** Every intact frame holds an even number of one bits. */
  lemma IntactIsEven(frame: seq<byte>)
    requires |frame| >= 2 && Intact(frame)
    ensures Weight(FrameBits(frame)) % 2 == 0
  {
    hide Intact, OfWord, Serial, FrameBits;
    IntactIsZero(frame);
    AllOnes();
    SerialOdd(OfWord(SEED), FrameBits(frame));
    SpreadOdd(false);
  }

  // ---- Bursts ----

  lemma {:induction false} ZeroStaysQuiet(bits: seq<bool>)
    requires Quiet(bits)
    ensures Serial(ZERO, bits) == ZERO
  {
    SerialQuiet(ZERO, bits);
    AdvancesZero(|bits|);
  }

  /** Silence after a register neither sets nor clears it. */
  lemma QuietTail(r: Register, bits: seq<bool>)
    requires Quiet(bits)
    ensures Serial(r, bits) == ZERO <==> r == ZERO
  {
    SerialQuiet(r, bits);
    AdvancesZero(|bits|);
    if Serial(r, bits) == ZERO {
      AdvancesInjective(r, ZERO, |bits|);
    }
  }

  lemma ShortBurst(w: seq<bool>)
    requires |w| <= 16 && !Quiet(w)
    ensures Serial(ZERO, w) != ZERO
  {
    hide Advances, Xor;
    SerialIsParallel(ZERO, w);
    XorIdentity(Pack(w));
    AdvancesZero(|w|);
    var k :| 0 <= k < |w| && w[k];
    PackAt(w, k);
    assert Pack(w)[k] != ZERO[k];
    if Serial(ZERO, w) == ZERO {
      AdvancesInjective(Pack(w), ZERO, |w|);
    }
  }

  lemma BurstLeavesTrace(before: seq<bool>, w: seq<bool>, after: seq<bool>)
    requires Quiet(before) && Quiet(after) && |w| <= 16 && !Quiet(w)
    ensures Serial(ZERO, before + w + after) != ZERO
  {
    hide Quiet;
    SerialConcat(ZERO, before + w, after);
    SerialConcat(ZERO, before, w);
    ZeroStaysQuiet(before);
    ShortBurst(w);
    QuietTail(Serial(ZERO, w), after);
  }

  /** The errors lie within sixteen consecutive bits starting at `at`. */
  ghost predicate Burst(e: seq<bool>, at: nat) {
    forall i :: 0 <= i < |e| && e[i] ==> at <= i < at + 16
  }

  lemma BurstIsSeen(e: seq<bool>, at: nat)
    requires Burst(e, at) && Weight(e) > 0
    ensures Serial(ZERO, e) != ZERO
  {
    hide Serial;
    WeightQuiet(e);
    var i :| 0 <= i < |e| && e[i];
    var end := if at + 16 <= |e| then at + 16 else |e|;
    var before, w, after := e[..at], e[at..end], e[end..];
    assert e == before + w + after;
    assert w[i - at] == e[i];
    BurstLeavesTrace(before, w, after);
  }

  /** Every burst of at most sixteen bits is detected, in frames of any length. */
  lemma BurstDetected(sent: seq<byte>, heard: seq<byte>, at: nat)
    requires |sent| == |heard| >= 2 && Intact(sent)
    requires Burst(Errors(sent, heard), at)
    requires Distance(sent, heard) > 0
    ensures !Intact(heard)
  {
    hide Intact, Serial, Errors, Burst;
    Syndrome(sent, heard);
    BurstIsSeen(Errors(sent, heard), at);
  }

  lemma CrcDifference(a: seq<byte>, b: seq<byte>)
    requires |a| == |b|
    ensures CrcOf(a) == CrcOf(b) ==> Serial(ZERO, Errors(a, b)) == ZERO
  {
    hide OfWord, Serial, Fold, FrameBits, Xor, XorBits;
    var r := OfWord(SEED);
    FoldIsSerial(SEED, a);
    FoldIsSerial(SEED, b);
    SerialDifference(r, FrameBits(a), FrameBits(b));
    XorZero(Serial(r, FrameBits(a)), Serial(r, FrameBits(b)));
  }

  /** Two messages of one length that differ, but only within sixteen bits, have different CRCs. */
  lemma BurstChangesCrc(a: seq<byte>, b: seq<byte>, at: nat)
    requires |a| == |b|
    requires Burst(Errors(a, b), at)
    requires Distance(a, b) > 0
    ensures CrcOf(a) != CrcOf(b)
  {
    hide Serial, Errors, Burst, CrcOf;
    CrcDifference(a, b);
    BurstIsSeen(Errors(a, b), at);
  }

  // ---- Two flipped bits ----

  lemma SingleIsPower()
    ensures Advances(UNIT, 15) == Spread(true)
  {
    hide OfWord;
    SinglePower();
    OfWordAt(0x0001, OfWord(0x0001));
    assert forall k :: 0 <= k < 16 ==> Spread(true)[k] == (k == 0);
    Same(OfWord(0x0001), Spread(true));
  }

  /** A bit moves back onto itself after exactly the multiples of the order. */
  lemma BitReturns(d: nat)
    ensures Advances(Spread(true), d) == Spread(true) <==> d % ORDER == 0
  {
    hide Advance, Spread;
    SingleIsPower();
    OrderExact(d);
    AdvancesCompose(UNIT, 15, d);
    AdvancesCompose(UNIT, d, 15);
    if Advances(Spread(true), d) == Spread(true) {
      AdvancesInjective(Advances(UNIT, d), UNIT, 15);
    }
  }

  lemma TwoOnesTrace(before: seq<bool>, between: seq<bool>, after: seq<bool>)
    requires Quiet(before) && Quiet(between) && Quiet(after)
    ensures Serial(ZERO, before + [true] + between + [true] + after) == ZERO
      <==> (|between| + 1) % ORDER == 0
  {
    hide Quiet, Advance, Spread, Xor;
    var head := before + [true] + between;
    SerialConcat(ZERO, head + [true], after);
    SerialConcat(ZERO, head, [true]);
    SerialConcat(ZERO, before + [true], between);
    SerialConcat(ZERO, before, [true]);
    ZeroStaysQuiet(before);
    var one := Spread(true);
    XorIdentity(one);
    SerialOne(ZERO, true);
    SerialQuiet(Advance(one), between);
    AdvancesFirst(one, |between|);
    var r := Advances(one, |between| + 1);
    SerialOne(r, true);
    BitReturns(|between| + 1);
    XorZero(r, one);
    AdvanceZero(Xor(r, one));
    QuietTail(Advance(Xor(r, one)), after);
  }

  lemma SerialOne(r: Register, bit: bool)
    ensures Serial(r, [bit]) == Advance(Xor(r, Spread(bit)))
  {
    hide Advance, Spread, Xor;
    assert [bit][1..] == [];
    assert Serial(Feed(r, bit), []) == Feed(r, bit);
  }

  lemma AdvanceZero(r: Register)
    ensures Advance(r) == ZERO <==> r == ZERO
  {
    AdvancesZero(1);
    assert Advances(ZERO, 1) == Advance(Advances(ZERO, 0));
    if Advance(r) == ZERO {
      AdvanceInjective(r, ZERO);
    }
  }

  /** The errors are exactly the bits i and j. */
  ghost predicate Pair(e: seq<bool>, i: nat, j: nat) {
    i < j < |e| && forall k :: 0 <= k < |e| ==> e[k] == (k == i || k == j)
  }

  /**
   Two flipped bits escape the check exactly when their distance is a multiple of 32767,
   in frames of any length.
   */
  lemma DoubleDamage(sent: seq<byte>, heard: seq<byte>, i: nat, j: nat)
    requires |sent| == |heard| >= 2 && Intact(sent)
    requires Pair(Errors(sent, heard), i, j)
    ensures Intact(heard) <==> (j - i) % ORDER == 0
  {
    hide Intact, Serial, FrameBits, XorBits;
    var e := Errors(sent, heard);
    Syndrome(sent, heard);
    var before, between, after := e[..i], e[i + 1..j], e[j + 1..];
    assert e == before + [true] + between + [true] + after;
    TwoOnesTrace(before, between, after);
  }

  // ---- The distance of the code ----

  lemma {:induction false} OneOne(e: seq<bool>) returns (i: nat)
    requires Weight(e) == 1
    ensures i < |e| && forall k :: 0 <= k < |e| ==> e[k] == (k == i)
    decreases |e|
  {
    if e[0] {
      WeightQuiet(e[1..]);
      i := 0;
      assert forall k :: 0 < k < |e| ==> e[k] == e[1..][k - 1];
    } else {
      var i' := OneOne(e[1..]);
      i := i' + 1;
      assert forall k :: 0 < k < |e| ==> e[k] == e[1..][k - 1];
    }
  }

  lemma {:induction false} TwoOnes(e: seq<bool>) returns (i: nat, j: nat)
    requires Weight(e) == 2
    ensures Pair(e, i, j)
    decreases |e|
  {
    if e[0] {
      var j' := OneOne(e[1..]);
      i, j := 0, j' + 1;
      assert forall k :: 0 < k < |e| ==> e[k] == e[1..][k - 1];
    } else {
      var i', j' := TwoOnes(e[1..]);
      i, j := i' + 1, j' + 1;
      assert forall k :: 0 < k < |e| ==> e[k] == e[1..][k - 1];
    }
  }

  /** One, two or three flipped bits are always detected in a frame of at most 4095 bytes. */
  lemma DistanceAtLeastFour(sent: seq<byte>, heard: seq<byte>)
    requires 2 <= |sent| == |heard| <= 4095 && Intact(sent)
    requires 1 <= Distance(sent, heard) <= 3
    ensures !Intact(heard)
  {
    hide Intact, FrameBits, XorBits;
    if Distance(sent, heard) == 2 {
      var i, j := TwoOnes(Errors(sent, heard));
      DoubleDamage(sent, heard, i, j);
    } else {
      OddDamageDetected(sent, heard);
    }
  }

  // ---- Both bounds are sharp ----

  /** The register with only the bits `i` and `j` set. */
  function Marked(i: nat, j: nat): Register {
    seq(16, k => k == i || k == j)
  }

  lemma MarkedMoves(i: nat, j: nat)
    requires 0 < i < 16 && 0 < j < 16
    ensures Advance(Marked(i, j)) == Marked(i - 1, j - 1)
  {
  }

  lemma MarkedClears(j: nat)
    requires 0 < j < 16
    ensures Xor(Marked(0, j), Spread(true)) == Marked(j, j)
  {
  }

  lemma {:induction false} MarkedSlides(i: nat, j: nat, n: nat)
    requires n <= i < 16 && n <= j < 16
    ensures Advances(Marked(i, j), n) == Marked(i - n, j - n)
    decreases n
  {
    if n > 0 {
      hide Marked, Advance;
      MarkedSlides(i, j, n - 1);
      MarkedMoves(i - (n - 1), j - (n - 1));
    }
  }

  lemma TapsMarked()
    ensures Xor(Advance(Spread(true)), Spread(true)) == Marked(13, 15)
  {
    hide XorBits, Advance;
    var r := Advance(Spread(true));
    assert forall k :: 0 <= k < 16 ==> r[k] == Tapped(k);
    var x := Xor(r, Spread(true));
    assert forall k :: 0 <= k < 16 ==> x[k] == (k == 13 || k == 15);
    Same(x, Marked(13, 15));
  }

  lemma FirstTwo()
    ensures Serial(ZERO, [true] + [true]) == Marked(12, 14)
  {
    hide Serial, Advance, Spread, Xor, Marked;
    SerialConcat(ZERO, [true], [true]);
    SerialOne(ZERO, true);
    XorIdentity(Spread(true));
    SerialOne(Advance(Spread(true)), true);
    TapsMarked();
    MarkedMoves(13, 15);
  }

  lemma LastThree()
    ensures Serial(Marked(0, 2), [true] + [false] + [true]) == ZERO
  {
    var r := Marked(0, 2);
    SerialConcat(r, [true] + [false], [true]);
    SerialConcat(r, [true], [false]);
    hide Serial, Marked, Advance, Xor, Spread;
    SerialOne(r, true);
    MarkedClears(2);
    MarkedMoves(2, 2);
    SerialOne(Marked(1, 1), false);
    XorIdentity(Marked(1, 1));
    MarkedMoves(1, 1);
    SerialOne(Marked(0, 0), true);
    OnlyFirst();
    XorZero(Marked(0, 0), Spread(true));
    AdvanceZero(ZERO);
  }

  lemma OnlyFirst()
    ensures Marked(0, 0) == Spread(true)
  {
  }

  function Zeros(n: nat): (z: seq<bool>)
    ensures |z| == n && Quiet(z)
  {
    seq(n, _ => false)
  }

  /** The generator polynomial as a pattern of errors: four bits within seventeen. */
  function Generator(): (w: seq<bool>)
    ensures |w| == 17
  {
    [true] + [true] + Zeros(12) + ([true] + [false] + [true])
  }

  lemma SerialThree(r: Register, a: seq<bool>, z: seq<bool>, c: seq<bool>)
    requires Quiet(z)
    ensures Serial(r, a + z + c) == Serial(Advances(Serial(r, a), |z|), c)
  {
    hide Serial, Advances, Quiet;
    SerialConcat(r, a + z, c);
    SerialConcat(r, a, z);
    SerialQuiet(Serial(r, a), z);
  }

  lemma GeneratorVanishes()
    ensures Serial(ZERO, Generator()) == ZERO
  {
    hide Serial, Marked, Quiet, Zeros, Advances;
    SerialThree(ZERO, [true] + [true], Zeros(12), [true] + [false] + [true]);
    FirstTwo();
    MarkedSlides(12, 14, 12);
    LastThree();
  }

  lemma WeightOfOne(bit: bool)
    ensures Weight([bit]) == if bit then 1 else 0
  {
    assert [bit][1..] == [];
  }

  lemma GeneratorWeight()
    ensures Weight(Generator()) == 4
  {
    hide Weight, Zeros;
    WeightConcat([true] + [true] + Zeros(12), [true] + [false] + [true]);
    WeightConcat([true] + [true], Zeros(12));
    WeightConcat([true], [true]);
    WeightConcat([true] + [false], [true]);
    WeightConcat([true], [false]);
    WeightOfOne(true);
    WeightOfOne(false);
    WeightQuiet(Zeros(12));
  }

  /** Every error that is the generator alone escapes, wherever it begins. */
  lemma GeneratorEscapes(sent: seq<byte>, heard: seq<byte>, before: seq<bool>, after: seq<bool>)
    requires |sent| == |heard| >= 2 && Intact(sent)
    requires Quiet(before) && Quiet(after) && Errors(sent, heard) == before + Generator() + after
    ensures Intact(heard) && Distance(sent, heard) == 4
  {
    hide Intact, Serial, Quiet, Generator, Errors;
    Syndrome(sent, heard);
    SerialConcat(ZERO, before + Generator(), after);
    SerialConcat(ZERO, before, Generator());
    ZeroStaysQuiet(before);
    GeneratorVanishes();
    ZeroStaysQuiet(after);
    WeightConcat(before + Generator(), after);
    WeightConcat(before, Generator());
    WeightQuiet(before);
    WeightQuiet(after);
    GeneratorWeight();
  }

  lemma {:induction false} FrameBitsConcat(a: seq<byte>, b: seq<byte>)
    ensures FrameBits(a + b) == FrameBits(a) + FrameBits(b)
    decreases |b|
  {
    hide ByteBits;
    if b == [] {
      assert a + b == a;
    } else {
      assert (a + b)[..|a + b| - 1] == a + b[..|b| - 1];
      FrameBitsConcat(a, b[..|b| - 1]);
    }
  }

  lemma {:induction false} FrameBitsOfThree(x: byte, y: byte, z: byte)
    ensures FrameBits([x, y, z]) == ByteBits(x) + ByteBits(y) + ByteBits(z)
  {
    hide ByteBits, FrameBits;
    assert [x, y, z] == [x, y] + [z] && [x, y] == [x] + [y];
    FrameBitsConcat([x, y], [z]);
    FrameBitsConcat([x], [y]);
    FrameBitsOfOne(x);
    FrameBitsOfOne(y);
    FrameBitsOfOne(z);
  }

  lemma FrameBitsOfOne(x: byte)
    ensures FrameBits([x]) == ByteBits(x)
  {
    hide ByteBits;
    assert [x][..0] == [];
    assert FrameBits([x]) == FrameBits([]) + ByteBits(x);
  }

  lemma XorSelf(bits: seq<bool>)
    ensures Quiet(XorBits(bits, bits))
  {
  }

  lemma MaskUndone(a: byte, mask: byte)
    ensures a ^ (a ^ mask) == mask
  {
  }

  lemma FlippedByte(a: byte, mask: byte)
    ensures XorBits(ByteBits(a), ByteBits(a ^ mask)) == ByteBits(mask)
  {
    hide ByteBits, XorBits;
    XorByte(a, a ^ mask);
    MaskUndone(a, mask);
  }

  lemma MaskBits()
    ensures ByteBits(0x03) + ByteBits(0x40) + ByteBits(0x01) == Generator() + Zeros(7)
  {
    hide Octet, Zeros;
    ByteBitsAt(0x03, ByteBits(0x03));
    ByteBitsAt(0x40, ByteBits(0x40));
    ByteBitsAt(0x01, ByteBits(0x01));
    hide ByteBits;
    var z, y := Zeros(12), Zeros(7);
    assert forall i :: 0 <= i < 12 ==> !z[i];
    assert forall i :: 0 <= i < 7 ==> !y[i];
  }

  lemma QuietBoth(a: seq<bool>, b: seq<bool>)
    requires Quiet(a) && Quiet(b)
    ensures Quiet(a + b)
  {
  }

  lemma ThreeBytesDiffer(a: seq<bool>, b: seq<bool>, c: seq<bool>, a': seq<bool>, b': seq<bool>, c': seq<bool>,
                         rest: seq<bool>)
    requires |a| == |a'| && |b| == |b'| && |c| == |c'|
    ensures XorBits(a + b + c + rest, a' + b' + c' + rest)
         == XorBits(a, a') + XorBits(b, b') + XorBits(c, c') + XorBits(rest, rest)
  {
    hide XorBits;
    XorConcat(a + b + c, rest, a' + b' + c', rest);
    XorConcat(a + b, c, a' + b', c');
    XorConcat(a, b, a', b');
  }

  /** The errors of flipping four bits of the first three bytes. */
  lemma FlippedErrors(x: byte, y: byte, z: byte, rest: seq<byte>)
    ensures Errors([x, y, z] + rest, [x ^ 0x03, y ^ 0x40, z ^ 0x01] + rest)
      == Generator() + Zeros(7) + XorBits(FrameBits(rest), FrameBits(rest))
  {
    hide ByteBits, FrameBits, Generator, Zeros, XorBits;
    FrameBitsConcat([x, y, z], rest);
    FrameBitsConcat([x ^ 0x03, y ^ 0x40, z ^ 0x01], rest);
    FrameBitsOfThree(x, y, z);
    FrameBitsOfThree(x ^ 0x03, y ^ 0x40, z ^ 0x01);
    ThreeBytesDiffer(ByteBits(x), ByteBits(y), ByteBits(z), ByteBits(x ^ 0x03), ByteBits(y ^ 0x40), ByteBits(z ^ 0x01),
                     FrameBits(rest));
    FlippedByte(x, 0x03);
    FlippedByte(y, 0x40);
    FlippedByte(z, 0x01);
    MaskBits();
  }

  /**
   In every intact frame of three or more bytes some four bits, within seventeen, can be flipped
   unnoticed: neither three flips nor sixteen bits can be made more.
   */
  lemma FourFlipsEscape(sent: seq<byte>) returns (heard: seq<byte>)
    requires |sent| >= 3 && Intact(sent)
    ensures |heard| == |sent| && Intact(heard) && Distance(sent, heard) == 4
    ensures forall i :: 17 <= i < 8 * |sent| ==> !Errors(sent, heard)[i]
  {
    hide Intact, FrameBits, Generator, Zeros, Weight, Errors, Distance;
    var x, y, z, rest := sent[0], sent[1], sent[2], sent[3..];
    heard := [x ^ 0x03, y ^ 0x40, z ^ 0x01] + rest;
    assert sent == [x, y, z] + rest;
    FlippedErrors(x, y, z, rest);
    var tail := Zeros(7) + XorBits(FrameBits(rest), FrameBits(rest));
    XorSelf(FrameBits(rest));
    QuietBoth(Zeros(7), XorBits(FrameBits(rest), FrameBits(rest)));
    Regroup(Generator(), Zeros(7), XorBits(FrameBits(rest), FrameBits(rest)));
    hide XorBits;
    GeneratorEscapes(sent, heard, [], tail);
    forall i | 17 <= i < 8 * |sent| ensures !Errors(sent, heard)[i] {
      assert ([] + Generator() + tail)[i] == tail[i - 17];
    }
  }

  lemma Regroup(a: seq<bool>, b: seq<bool>, c: seq<bool>)
    ensures a + b + c == [] + a + (b + c)
  {
  }
}
