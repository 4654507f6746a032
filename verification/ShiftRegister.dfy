/**
 The CRC-16 shift register as an element of GF(2)[x] / (x^16 + x^15 + x^2 + 1).
 Bit k of the register is the coefficient of x^(15-k), so one step to the right is
 multiplication by x, and the reduction x^16 = x^15 + x^2 + 1 is the constant 0xA001
 (bits 0, 13 and 15).
 */
module ShiftRegister {

  type Register = r: seq<bool> | |r| == 16 witness seq(16, _ => false)

  predicate Tapped(k: int) {
    k == 0 || k == 13 || k == 15
  }

  /** The register with only bit `k` set. */
  function Single(k: int): Register {
    seq(16, i => i == k)
  }

  const ZERO: Register := Spread(false)

  /** The polynomial 1. */
  const UNIT: Register := Single(15)

  function XorBits(p: seq<bool>, q: seq<bool>): (r: seq<bool>)
    requires |p| == |q|
    ensures |r| == |p|
    ensures forall i :: 0 <= i < |p| ==> r[i] == (p[i] != q[i])
  {
    seq(|p|, i requires 0 <= i < |p| => p[i] != q[i])
  }

  function Xor(p: Register, q: Register): Register {
    XorBits(p, q)
  }

  /** One step: multiplication by x. */
  function Advance(r: Register): (s: Register)
    ensures forall k :: 0 <= k < 16 ==> s[k] == ((k < 15 && r[k + 1]) != (Tapped(k) && r[0]))
  {
    seq(16, k requires 0 <= k < 16 => (k < 15 && r[k + 1]) != (Tapped(k) && r[0]))
  }

  function Advances(r: Register, n: nat): Register {
    if n == 0 then r else Advance(Advances(r, n - 1))
  }

  /** The register moved one place to the left, losing its top bit. */
  function Lift(r: Register): (s: Register)
    ensures forall k :: 0 <= k < 16 ==> s[k] == (0 < k && r[k - 1])
  {
    seq(16, k requires 0 <= k < 16 => 0 < k && r[k - 1])
  }

  function Spread(bit: bool): Register {
    seq(16, k => k == 0 && bit)
  }

  /** A data bit enters at the low end, then the register steps. */
  function Feed(r: Register, bit: bool): Register {
    Advance(Xor(r, Spread(bit)))
  }

  function Serial(r: Register, bits: seq<bool>): Register
    decreases |bits|
  {
    if bits == [] then r else Serial(Feed(r, bits[0]), bits[1..])
  }

  function Weight(bits: seq<bool>): nat {
    if bits == [] then 0 else (if bits[0] then 1 else 0) + Weight(bits[1..])
  }

  // ---- Laws of addition ----

  lemma XorSwap(p: Register, q: Register, s: Register, t: Register)
    ensures Xor(Xor(p, q), Xor(s, t)) == Xor(Xor(p, s), Xor(q, t))
  {
  }

  lemma XorIdentity(p: Register)
    ensures Xor(p, ZERO) == p && Xor(ZERO, p) == p
  {
  }

  lemma XorZero(p: Register, q: Register)
    ensures Xor(p, q) == ZERO <==> p == q
  {
    if Xor(p, q) == ZERO {
      forall i | 0 <= i < 16 ensures p[i] == q[i] {
        assert !Xor(p, q)[i];
      }
    }
  }

  lemma AdvanceLinear(p: Register, q: Register)
    ensures Advance(Xor(p, q)) == Xor(Advance(p), Advance(q))
  {
  }

  lemma AdvanceInjective(p: Register, q: Register)
    requires Advance(p) == Advance(q)
    ensures p == q
  {
    assert Advance(p)[15] == p[0] && Advance(q)[15] == q[0];
    forall i | 0 <= i < 16 ensures p[i] == q[i] {
      if i > 0 {
        assert Advance(p)[i - 1] == Advance(q)[i - 1];
      }
    }
  }

  lemma {:induction false} AdvancesLinear(p: Register, q: Register, n: nat)
    ensures Advances(Xor(p, q), n) == Xor(Advances(p, n), Advances(q, n))
  {
    if n > 0 {
      AdvancesLinear(p, q, n - 1);
      AdvanceLinear(Advances(p, n - 1), Advances(q, n - 1));
    }
  }

  lemma {:induction false} AdvancesCompose(r: Register, m: nat, n: nat)
    ensures Advances(Advances(r, m), n) == Advances(r, m + n)
  {
    if n > 0 {
      AdvancesCompose(r, m, n - 1);
    }
  }

  lemma {:induction false} AdvancesFirst(r: Register, n: nat)
    ensures Advances(Advance(r), n) == Advances(r, n + 1)
  {
    if n > 0 {
      AdvancesFirst(r, n - 1);
    }
  }

  lemma {:induction false} AdvancesInjective(p: Register, q: Register, n: nat)
    requires Advances(p, n) == Advances(q, n)
    ensures p == q
  {
    if n > 0 {
      AdvanceInjective(Advances(p, n - 1), Advances(q, n - 1));
      AdvancesInjective(p, q, n - 1);
    }
  }

  lemma {:induction false} AdvancesZero(n: nat)
    ensures Advances(ZERO, n) == ZERO
  {
    if n > 0 {
      AdvancesZero(n - 1);
    }
  }

  // ---- Linearity of the serial register ----

  lemma SpreadLinear(a: bool, b: bool)
    ensures Spread(a != b) == Xor(Spread(a), Spread(b))
  {
  }

  lemma FeedLinear(p: Register, q: Register, a: bool, b: bool)
    ensures Feed(Xor(p, q), a != b) == Xor(Feed(p, a), Feed(q, b))
  {
    SpreadLinear(a, b);
    XorSwap(p, q, Spread(a), Spread(b));
    AdvanceLinear(Xor(p, Spread(a)), Xor(q, Spread(b)));
  }

  lemma {:induction false} SerialLinear(p: Register, q: Register, a: seq<bool>, b: seq<bool>)
    requires |a| == |b|
    ensures Serial(Xor(p, q), XorBits(a, b)) == Xor(Serial(p, a), Serial(q, b))
    decreases |a|
  {
    if a != [] {
      FeedLinear(p, q, a[0], b[0]);
      assert XorBits(a, b)[1..] == XorBits(a[1..], b[1..]);
      SerialLinear(Feed(p, a[0]), Feed(q, b[0]), a[1..], b[1..]);
    }
  }

  /** Two equally long streams from the same start differ by the response to their difference. */
  lemma SerialDifference(r: Register, a: seq<bool>, b: seq<bool>)
    requires |a| == |b|
    ensures Serial(ZERO, XorBits(a, b)) == Xor(Serial(r, a), Serial(r, b))
  {
    SerialLinear(r, r, a, b);
    XorZero(r, r);
  }

  lemma {:induction false} SerialConcat(r: Register, a: seq<bool>, b: seq<bool>)
    ensures Serial(r, a + b) == Serial(Serial(r, a), b)
    decreases |a|
  {
    if a == [] {
      assert a + b == b;
    } else {
      assert (a + b)[1..] == a[1..] + b;
      SerialConcat(Feed(r, a[0]), a[1..], b);
    }
  }

  predicate Quiet(bits: seq<bool>) {
    forall i :: 0 <= i < |bits| ==> !bits[i]
  }

  lemma FeedQuiet(r: Register)
    ensures Feed(r, false) == Advance(r)
  {
    XorIdentity(r);
  }

  lemma {:induction false} SerialQuiet(r: Register, bits: seq<bool>)
    requires Quiet(bits)
    ensures Serial(r, bits) == Advances(r, |bits|)
    decreases |bits|
  {
    if bits != [] {
      hide Advance, Xor;
      assert !bits[0];
      assert Quiet(bits[1..]) by {
        assert forall i :: 0 <= i < |bits| - 1 ==> bits[1..][i] == bits[i + 1];
      }
      assert Serial(r, bits) == Serial(Feed(r, false), bits[1..]);
      hide Serial, Feed, Advances, Quiet;
      FeedQuiet(r);
      SerialQuiet(Advance(r), bits[1..]);
      AdvancesFirst(r, |bits| - 1);
    }
  }

  /** Different registers stay different, whatever bits are fed into them. */
  lemma {:induction false} SerialInjective(p: Register, q: Register, bits: seq<bool>)
    requires Serial(p, bits) == Serial(q, bits)
    ensures p == q
    decreases |bits|
  {
    if bits != [] {
      hide Advance, Xor, Spread;
      SerialInjective(Feed(p, bits[0]), Feed(q, bits[0]), bits[1..]);
      AdvanceInjective(Xor(p, Spread(bits[0])), Xor(q, Spread(bits[0])));
      XorCancel(p, q, Spread(bits[0]));
    }
  }

  lemma XorCancel(p: Register, q: Register, r: Register)
    requires Xor(p, r) == Xor(q, r)
    ensures p == q
  {
    forall k | 0 <= k < 16 ensures p[k] == q[k] {
      assert Xor(p, r)[k] == Xor(q, r)[k];
    }
  }

  // ---- Up to sixteen serial bits act as one parallel word ----

  /** The bits as a register, the first bit lowest. */
  function Pack(bits: seq<bool>): Register {
    if bits == [] then ZERO else Xor(Spread(bits[0]), Lift(Pack(bits[1..])))
  }

  lemma {:induction false} PackAt(bits: seq<bool>, k: nat)
    requires k < 16
    ensures Pack(bits)[k] == (k < |bits| && bits[k])
    decreases |bits|
  {
    if bits != [] && k > 0 {
      PackAt(bits[1..], k - 1);
    }
  }

  lemma FeedPacked(r: Register, bit: bool, rest: Register)
    requires !rest[15]
    ensures Advance(Xor(r, Xor(Spread(bit), Lift(rest)))) == Xor(Feed(r, bit), rest)
  {
    assert Advance(Lift(rest)) == rest;
    assert Xor(r, Xor(Spread(bit), Lift(rest))) == Xor(Xor(r, Spread(bit)), Lift(rest));
    AdvanceLinear(Xor(r, Spread(bit)), Lift(rest));
  }

  lemma {:induction false} SerialIsParallel(r: Register, bits: seq<bool>)
    requires |bits| <= 16
    ensures Serial(r, bits) == Advances(Xor(r, Pack(bits)), |bits|)
    decreases |bits|
  {
    if bits == [] {
      XorIdentity(r);
    } else {
      var whole, rest := Xor(r, Pack(bits)), Pack(bits[1..]);
      PackAt(bits[1..], 15);
      FeedPacked(r, bits[0], rest);
      SerialIsParallel(Feed(r, bits[0]), bits[1..]);
      AdvancesFirst(whole, |bits| - 1);
    }
  }

  // ---- Parity: the value of the polynomial at x = 1 ----

  predicate Odd(bits: seq<bool>) {
    Weight(bits) % 2 == 1
  }

  lemma {:induction false} OddXor(a: seq<bool>, b: seq<bool>)
    requires |a| == |b|
    ensures Odd(XorBits(a, b)) == (Odd(a) != Odd(b))
    decreases |a|
  {
    if a != [] {
      assert XorBits(a, b)[1..] == XorBits(a[1..], b[1..]);
      OddXor(a[1..], b[1..]);
    }
  }

  lemma {:induction false} WeightConcat(a: seq<bool>, b: seq<bool>)
    ensures Weight(a + b) == Weight(a) + Weight(b)
    decreases |a|
  {
    if a == [] {
      assert a + b == b;
    } else {
      assert (a + b)[1..] == a[1..] + b;
      WeightConcat(a[1..], b);
    }
  }

  lemma {:induction false} WeightQuiet(bits: seq<bool>)
    ensures Quiet(bits) <==> Weight(bits) == 0
    decreases |bits|
  {
    if bits != [] {
      WeightQuiet(bits[1..]);
      if Weight(bits) == 0 {
        forall i | 0 <= i < |bits| ensures !bits[i] {
          if i > 0 {
            assert bits[i] == bits[1..][i - 1];
          }
        }
      }
    }
  }

  function Taps(): Register {
    seq(16, k => Tapped(k))
  }

  lemma OneInFront(bits: seq<bool>)
    requires bits != [] && bits[0] && Quiet(bits[1..])
    ensures Weight(bits) == 1
  {
    hide Quiet;
    WeightQuiet(bits[1..]);
  }

  lemma TwoOfThree(bits: seq<bool>)
    requires |bits| == 3 && bits[0] && !bits[1] && bits[2]
    ensures Weight(bits) == 2
  {
    var rest := bits[1..];
    var last := rest[1..];
    assert last[0] && last[1..] == [];
    assert Weight(last) == 1;
    assert Weight(rest) == 1;
  }

  lemma ThreeTaps(r: seq<bool>)
    requires |r| == 16 && forall k :: 0 <= k < 16 ==> r[k] == (k == 0 || k == 13 || k == 15)
    ensures Odd(r)
  {
    hide Weight, Quiet;
    var head, tail := r[..13], r[13..];
    assert r == head + tail;
    assert forall k :: 0 <= k < 13 ==> head[k] == r[k];
    NoneAfterFirst(head);
    OneInFront(head);
    assert tail[0] == r[13] && tail[1] == r[14] && tail[2] == r[15];
    TwoOfThree(tail);
    WeightConcat(head, tail);
  }

  lemma NoneAfterFirst(bits: seq<bool>)
    requires bits != [] && forall k :: 0 < k < |bits| ==> !bits[k]
    ensures Quiet(bits[1..])
  {
  }

  lemma TapsOdd()
    ensures Odd(Taps())
  {
    var r := Taps();
    assert forall k :: 0 <= k < 16 ==> r[k] == (k == 0 || k == 13 || k == 15);
    hide Odd;
    ThreeTaps(r);
  }

  /** The low bit that a step shifts out is odd in number, and so are the three taps it sets. */
  lemma AdvanceOdd(r: Register)
    ensures Odd(Advance(r)) == Odd(r)
  {
    var shifted := r[1..] + [false];
    WeightConcat(r[1..], [false]);
    if r[0] {
      TapsOdd();
      assert Advance(r) == XorBits(shifted, Taps());
      OddXor(shifted, Taps());
    } else {
      assert Advance(r) == shifted;
    }
  }

  lemma SpreadOdd(bit: bool)
    ensures Odd(Spread(bit)) == bit
  {
    var rest := Spread(bit)[1..];
    assert Quiet(rest);
    WeightQuiet(rest);
    assert Weight(Spread(bit)) == if bit then 1 else 0;
  }

  lemma OddFirst(bits: seq<bool>)
    ensures Odd(bits) == (bits != [] && bits[0] != Odd(bits[1..]))
  {
  }

  /** A register and the bits fed into it keep their common parity. */
  lemma {:induction false} SerialOdd(r: Register, bits: seq<bool>)
    ensures Odd(Serial(r, bits)) == (Odd(r) != Odd(bits))
    decreases |bits|
  {
    hide Odd, Advance, Spread, XorBits;
    OddFirst(bits);
    if bits != [] {
      SpreadOdd(bits[0]);
      OddXor(r, Spread(bits[0]));
      AdvanceOdd(Xor(r, Spread(bits[0])));
      SerialOdd(Feed(r, bits[0]), bits[1..]);
    }
  }
}
