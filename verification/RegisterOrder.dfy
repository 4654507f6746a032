/**
 The order of x in GF(2)[x] / (x^16 + x^15 + x^2 + 1) is 32767 = 7 * 31 * 151: the shift
 register started from a single bit comes back to it exactly after multiples of 32767 steps.
 */
module RegisterOrder {
  import opened ShiftRegister
  import opened Words

  const ORDER := 32767

  // ---- Squaring: the Frobenius map of a ring of characteristic two ----

  predicate Sum1To7(r: Register) {
    ((r[1] != r[2]) != (r[3] != r[4])) != ((r[5] != r[6]) != r[7])
  }

  /** Bit k of the square of r(x), which is r at x squared, reduced. */
  predicate SquareBit(r: Register, k: nat)
    requires k < 16
  {
    if k == 0 then r[0] != Sum1To7(r)
    else if k == 13 then (r[7] != r[14]) != r[0]
    else if k == 14 then r[0] != (Sum1To7(r) != r[7])
    else if k == 15 then r[15] != Sum1To7(r)
    else if k % 2 == 0 then r[k / 2]
    else r[(k + 1) / 2] != r[(k + 15) / 2]
  }

  function Square(r: Register): (s: Register)
    ensures forall k :: 0 <= k < 16 ==> s[k] == SquareBit(r, k)
  {
    seq(16, k requires 0 <= k < 16 => SquareBit(r, k))
  }

  lemma SumAdvance(r: Register)
    ensures Sum1To7(Advance(r)) == ((Sum1To7(r) != r[1]) != r[8])
  {
    var a := Advance(r);
    assert a[1] == r[2] && a[2] == r[3] && a[3] == r[4] && a[4] == r[5];
    assert a[5] == r[6] && a[6] == r[7] && a[7] == r[8];
  }

  lemma SquareAdvanceEven(r: Register, k: nat)
    requires 2 <= k <= 10 && k % 2 == 0
    ensures Square(Advance(r))[k] == Advance(Advance(Square(r)))[k]
  {
    hide Sum1To7;
    var j := k / 2;
    assert SquareBit(Advance(r), k) == Advance(r)[j] == r[j + 1] == SquareBit(r, k + 2);
    assert Advance(Advance(Square(r)))[k] == Advance(Square(r))[k + 1];
  }

  lemma SquareAdvanceOdd(r: Register, k: nat)
    requires 1 <= k <= 9 && k % 2 == 1
    ensures Square(Advance(r))[k] == Advance(Advance(Square(r)))[k]
  {
    hide Sum1To7;
    var j := (k + 1) / 2;
    assert SquareBit(Advance(r), k) == (Advance(r)[j] != Advance(r)[j + 7]);
    assert Advance(r)[j] == r[j + 1] && Advance(r)[j + 7] == r[j + 8];
    assert Advance(Advance(Square(r)))[k] == Advance(Square(r))[k + 1];
  }

  lemma SquareAdvance0(r: Register)
    ensures Square(Advance(r))[0] == Advance(Advance(Square(r)))[0]
  {
    hide Sum1To7;
    SumAdvance(r);
    var t := Advance(Square(r));
    assert Advance(t)[0] == (t[1] != t[0]);
  }

  lemma SquareAdvance11(r: Register)
    ensures Square(Advance(r))[11] == Advance(Advance(Square(r)))[11]
  {
    hide Sum1To7;
    var t := Advance(Square(r));
    assert Advance(t)[11] == t[12];
  }

  lemma SquareAdvance12(r: Register)
    ensures Square(Advance(r))[12] == Advance(Advance(Square(r)))[12]
  {
    hide Sum1To7;
    SumAdvance(r);
    var t := Advance(Square(r));
    assert Advance(t)[12] == t[13];
  }

  lemma SquareAdvance13(r: Register)
    ensures Square(Advance(r))[13] == Advance(Advance(Square(r)))[13]
  {
    hide Sum1To7;
    SumAdvance(r);
    var t := Advance(Square(r));
    assert Advance(t)[13] == (t[14] != t[0]);
  }

  lemma SquareAdvance14(r: Register)
    ensures Square(Advance(r))[14] == Advance(Advance(Square(r)))[14]
  {
    hide Sum1To7;
    SumAdvance(r);
    var t := Advance(Square(r));
    assert Advance(t)[14] == t[15];
  }

  lemma SquareAdvance15(r: Register)
    ensures Square(Advance(r))[15] == Advance(Advance(Square(r)))[15]
  {
    hide Sum1To7;
    SumAdvance(r);
    var t := Advance(Square(r));
    assert Advance(t)[15] == t[0];
  }

  lemma SquareAdvance(r: Register)
    ensures Square(Advance(r)) == Advance(Advance(Square(r)))
  {
    var left, right := Square(Advance(r)), Advance(Advance(Square(r)));
    hide SquareBit;
    forall k | 0 <= k < 16 ensures left[k] == right[k] {
      if k == 0 {
        SquareAdvance0(r);
      } else if k == 11 {
        SquareAdvance11(r);
      } else if k <= 10 && k % 2 == 0 {
        SquareAdvanceEven(r, k);
      } else if k <= 9 {
        SquareAdvanceOdd(r, k);
      } else if k == 12 {
        SquareAdvance12(r);
      } else if k == 13 {
        SquareAdvance13(r);
      } else if k == 14 {
        SquareAdvance14(r);
      } else {
        SquareAdvance15(r);
      }
    }
  }

  lemma SquareUnit()
    ensures Square(UNIT) == UNIT
  {
    forall k | 0 <= k < 16 ensures Square(UNIT)[k] == UNIT[k] {
      assert Square(UNIT)[k] == SquareBit(UNIT, k);
    }
  }

  lemma AdvancesTwice(r: Register, n: nat)
    ensures Advances(r, n + 2) == Advance(Advance(Advances(r, n)))
  {
    assert Advances(r, n + 2) == Advance(Advances(r, n + 1));
  }

  /** Squaring x^n gives x^(2n). */
  lemma {:induction false} SquareDoubles(n: nat)
    ensures Square(Advances(UNIT, n)) == Advances(UNIT, 2 * n)
  {
    hide Square, Advance;
    if n == 0 {
      SquareUnit();
    } else {
      SquareDoubles(n - 1);
      SquareAdvance(Advances(UNIT, n - 1));
      AdvancesTwice(UNIT, 2 * (n - 1));
    }
  }

  // ---- Some powers of x, by repeated squaring of words ----

  predicate SumWord(w: word) {
    (((w & 0x0002 != 0) != (w & 0x0004 != 0)) != ((w & 0x0008 != 0) != (w & 0x0010 != 0)))
    != (((w & 0x0020 != 0) != (w & 0x0040 != 0)) != (w & 0x0080 != 0))
  }

  function SquareWith(w: word, sum: bool): word {
    (((w & 0x0002) << 1) | ((w & 0x0004) << 2) | ((w & 0x0008) << 3)
     | ((w & 0x0010) << 4) | ((w & 0x0020) << 5) | ((w & 0x0040) << 6))
    | (((w & 0x0002) | ((w & 0x0004) << 1) | ((w & 0x0008) << 2)
        | ((w & 0x0010) << 3) | ((w & 0x0020) << 4) | ((w & 0x0040) << 5))
       ^ (((w & 0x0100) >> 7) | ((w & 0x0200) >> 6) | ((w & 0x0400) >> 5)
          | ((w & 0x0800) >> 4) | ((w & 0x1000) >> 3) | ((w & 0x2000) >> 2)))
    | ((if sum then 0xC001 else 0) ^ (if w & 0x0001 != 0 then 0x6001 else 0)
       ^ (if w & 0x0080 != 0 then 0x6000 else 0) ^ ((w & 0x4000) >> 1) ^ (w & 0x8000))
  }

  /** The square of a word, by moving its bits. */
  function SquareWord(w: word): word {
    SquareWith(w, SumWord(w))
  }

  lemma SquareWithBits(w: word, sum: bool, v: word)
    requires v ==
    (((w & 0x0002) << 1) | ((w & 0x0004) << 2) | ((w & 0x0008) << 3)
     | ((w & 0x0010) << 4) | ((w & 0x0020) << 5) | ((w & 0x0040) << 6))
    | (((w & 0x0002) | ((w & 0x0004) << 1) | ((w & 0x0008) << 2)
        | ((w & 0x0010) << 3) | ((w & 0x0020) << 4) | ((w & 0x0040) << 5))
       ^ (((w & 0x0100) >> 7) | ((w & 0x0200) >> 6) | ((w & 0x0400) >> 5)
          | ((w & 0x0800) >> 4) | ((w & 0x1000) >> 3) | ((w & 0x2000) >> 2)))
    | ((if sum then 0xC001 else 0) ^ (if w & 0x0001 != 0 then 0x6001 else 0)
       ^ (if w & 0x0080 != 0 then 0x6000 else 0) ^ ((w & 0x4000) >> 1) ^ (w & 0x8000))
    ensures (v & 0x0001 != 0) == ((w & 0x0001 != 0) != sum)
    ensures (v & 0x0002 != 0) == ((w & 0x0002 != 0) != (w & 0x0100 != 0))
    ensures (v & 0x0004 != 0) == (w & 0x0002 != 0)
    ensures (v & 0x0008 != 0) == ((w & 0x0004 != 0) != (w & 0x0200 != 0))
    ensures (v & 0x0010 != 0) == (w & 0x0004 != 0)
    ensures (v & 0x0020 != 0) == ((w & 0x0008 != 0) != (w & 0x0400 != 0))
    ensures (v & 0x0040 != 0) == (w & 0x0008 != 0)
    ensures (v & 0x0080 != 0) == ((w & 0x0010 != 0) != (w & 0x0800 != 0))
    ensures (v & 0x0100 != 0) == (w & 0x0010 != 0)
    ensures (v & 0x0200 != 0) == ((w & 0x0020 != 0) != (w & 0x1000 != 0))
    ensures (v & 0x0400 != 0) == (w & 0x0020 != 0)
    ensures (v & 0x0800 != 0) == ((w & 0x0040 != 0) != (w & 0x2000 != 0))
    ensures (v & 0x1000 != 0) == (w & 0x0040 != 0)
    ensures (v & 0x2000 != 0) == (((w & 0x0080 != 0) != (w & 0x4000 != 0)) != (w & 0x0001 != 0))
    ensures (v & 0x4000 != 0) == ((w & 0x0001 != 0) != (sum != (w & 0x0080 != 0)))
    ensures (v & 0x8000 != 0) == ((w & 0x8000 != 0) != sum)
  {
  }

  lemma SquareFrom(r: Register, s: Register)
    requires s[0] == (r[0] != Sum1To7(r))
    requires s[1] == (r[1] != r[8])
    requires s[2] == r[1]
    requires s[3] == (r[2] != r[9])
    requires s[4] == r[2]
    requires s[5] == (r[3] != r[10])
    requires s[6] == r[3]
    requires s[7] == (r[4] != r[11])
    requires s[8] == r[4]
    requires s[9] == (r[5] != r[12])
    requires s[10] == r[5]
    requires s[11] == (r[6] != r[13])
    requires s[12] == r[6]
    requires s[13] == ((r[7] != r[14]) != r[0])
    requires s[14] == (r[0] != (Sum1To7(r) != r[7]))
    requires s[15] == (r[15] != Sum1To7(r))
    ensures s == Square(r)
  {
    hide Sum1To7;
    Same(s, Square(r));
  }

  lemma SumWordIs(w: word)
    ensures SumWord(w) == Sum1To7(OfWord(w))
  {
    hide OfWord;
    OfWordAt(w, OfWord(w));
  }

  lemma SquaredBits(w: word, v: word)
    requires v == SquareWith(w, Sum1To7(OfWord(w)))
    ensures OfWord(v) == Square(OfWord(w))
  {
    var sum := Sum1To7(OfWord(w));
    SquareWithBits(w, sum, v);
    hide OfWord, Square, Sum1To7, SquareWith;
    OfWordAt(w, OfWord(w));
    OfWordAt(v, OfWord(v));
    SquareFrom(OfWord(w), OfWord(v));
  }

  lemma SquareWordIs(w: word)
    ensures OfWord(SquareWord(w)) == Square(OfWord(w))
  {
    hide OfWord, Square, Sum1To7, SumWord, SquareWith;
    SumWordIs(w);
    SquaredBits(w, SquareWord(w));
  }

  ghost predicate At(n: nat, w: word) {
    Advances(UNIT, n) == OfWord(w)
  }

  lemma Double(n: nat, v: word, w: word)
    requires At(n, v)
    requires SquareWord(v) == w
    ensures At(2 * n, w)
  {
    SquareDoubles(n);
    SquareWordIs(v);
  }

  lemma Step(n: nat, v: word, w: word)
    requires At(n, v)
    requires Shift(v) == w
    ensures At(n + 1, w)
  {
    ShiftIsAdvance(v);
  }

  lemma UnitWord()
    ensures OfWord(0x8000) == UNIT
  {
    hide OfWord;
    OfWordAt(0x8000, OfWord(0x8000));
    assert forall k :: 0 <= k < 16 ==> UNIT[k] == (k == 15);
    Same(UNIT, OfWord(0x8000));
  }

  lemma Start()
    ensures At(1, 0x4000)
  {
    UnitWord();
    hide OfWord, Advance;
    Step(0, 0x8000, 0x4000);
  }

  /** x^15 is the lowest bit. */
  lemma SinglePower()
    ensures Advances(UNIT, 15) == OfWord(0x0001)
  {
    Power15();
  }

  lemma Power15()
    ensures At(15, 0x0001)
  {
    hide At;
    Start();
    Double(1, 0x4000, 0x2000);
    Step(2, 0x2000, 0x1000);
    Double(3, 0x1000, 0x0200);
    Step(6, 0x0200, 0x0100);
    Double(7, 0x0100, 0x0002);
    Step(14, 0x0002, 0x0001);
  }

  lemma Power217()
    ensures At(217, 0x3E55)
  {
    hide At;
    Start();
    Double(1, 0x4000, 0x2000);
    Step(2, 0x2000, 0x1000);
    Double(3, 0x1000, 0x0200);
    Double(6, 0x0200, 0x0008);
    Step(12, 0x0008, 0x0004);
    Double(13, 0x0004, 0xC019);
    Step(26, 0xC019, 0xC00D);
    Double(27, 0xC00D, 0xC079);
    Double(54, 0xC079, 0xDFE1);
    Double(108, 0xDFE1, 0x7CAA);
    Step(216, 0x7CAA, 0x3E55);
  }

  lemma Power1057()
    ensures At(1057, 0xCE41)
  {
    hide At;
    Start();
    Double(1, 0x4000, 0x2000);
    Double(2, 0x2000, 0x0800);
    Double(4, 0x0800, 0x0080);
    Double(8, 0x0080, 0xA001);
    Double(16, 0xA001, 0xE801);
    Step(32, 0xE801, 0xD401);
    Double(33, 0xD401, 0xC221);
    Double(66, 0xC221, 0x0608);
    Double(132, 0x0608, 0xC049);
    Double(264, 0xC049, 0xD861);
    Double(528, 0xD861, 0xDC81);
    Step(1056, 0xDC81, 0xCE41);
  }

  lemma Power4681()
    ensures At(4681, 0x8C69)
  {
    hide At;
    Start();
    Double(1, 0x4000, 0x2000);
    Double(2, 0x2000, 0x0800);
    Double(4, 0x0800, 0x0080);
    Step(8, 0x0080, 0x0040);
    Double(9, 0x0040, 0xD801);
    Double(18, 0xD801, 0xC281);
    Double(36, 0xC281, 0x6008);
    Step(72, 0x6008, 0x3004);
    Double(73, 0x3004, 0xCA19);
    Double(146, 0xCA19, 0xC169);
    Double(292, 0xC169, 0x1E62);
    Step(584, 0x1E62, 0x0F31);
    Double(585, 0x0F31, 0x672B);
    Double(1170, 0x672B, 0x8E4C);
    Double(2340, 0x8E4C, 0x58D1);
    Step(4680, 0x58D1, 0x8C69);
  }

  lemma Power32768()
    ensures At(32768, 0x4000)
  {
    hide At;
    Start();
    Double(1, 0x4000, 0x2000);
    Double(2, 0x2000, 0x0800);
    Double(4, 0x0800, 0x0080);
    Double(8, 0x0080, 0xA001);
    Double(16, 0xA001, 0xE801);
    Double(32, 0xE801, 0xC881);
    Double(64, 0xC881, 0x6080);
    Double(128, 0x6080, 0x8801);
    Double(256, 0x8801, 0xE081);
    Double(512, 0xE081, 0x6800);
    Double(1024, 0x6800, 0x2880);
    Double(2048, 0x2880, 0xA881);
    Double(4096, 0xA881, 0x4880);
    Double(8192, 0x4880, 0x8081);
    Double(16384, 0x8081, 0x4000);
  }

  // ---- The steps that return to the start ----

  ghost predicate Returns(n: nat) {
    Advances(UNIT, n) == UNIT
  }

  lemma ReturnsDifference(m: nat, n: nat)
    requires Returns(m) && Returns(m + n)
    ensures Returns(n)
  {
    AdvancesCompose(UNIT, n, m);
    AdvancesInjective(Advances(UNIT, n), UNIT, m);
  }

  lemma {:induction false} ReturnsMultiple(n: nat, k: nat)
    requires Returns(n)
    ensures Returns(n * k)
  {
    if k > 0 {
      ReturnsMultiple(n, k - 1);
      AdvancesCompose(UNIT, n * (k - 1), n);
      assert n * k == n * (k - 1) + n;
    }
  }

  /** If the register returns after u * p and u * r steps, p prime and 0 < r < p, then after u. */
  lemma {:induction false} ReturnsQuotient(u: nat, p: nat, r: nat)
    requires Returns(u * p) && Returns(u * r)
    requires 0 < r < p && Prime(p)
    ensures Returns(u)
    decreases r
  {
    if r == 1 {
      assert u * r == u;
    } else {
      var q, rest := p / r, p % r;
      ReturnsMultiple(u * r, q);
      assert u * p == u * r * q + u * rest by {
        assert p == r * q + rest;
      }
      ReturnsDifference(u * r * q, u * rest);
      ReturnsQuotient(u, p, rest);
    }
  }

  ghost predicate Prime(p: nat) {
    1 < p && forall r :: 1 < r < p ==> p % r != 0
  }

  lemma Primes()
    ensures Prime(7) && Prime(31) && Prime(151)
  {
    forall r | 1 < r < 31 ensures 31 % r != 0 {
      var q := 31 / r;
      assert r <= 5 || q <= 5;
    }
    forall r | 1 < r < 151 ensures 151 % r != 0 {
      var q := 151 / r;
      assert r <= 12 || q <= 11;
    }
  }

  lemma PowersNotUnit()
    ensures !Returns(217) && !Returns(1057) && !Returns(4681)
  {
    Power217();
    Power1057();
    Power4681();
    UnitWord();
    OfWordNotUnit(0x3E55);
    OfWordNotUnit(0xCE41);
    OfWordNotUnit(0x8C69);
  }

  lemma OfWordNotUnit(w: word)
    requires w != 0x8000
    ensures OfWord(w) != UNIT
  {
    hide OfWord;
    UnitWord();
    if OfWord(w) == UNIT {
      OfWordInjective(w, 0x8000);
    }
  }

  lemma ReturnsOrder()
    ensures Returns(ORDER)
  {
    Power32768();
    Start();
    assert Advances(UNIT, 32768) == Advance(Advances(UNIT, 32767));
    assert Advances(UNIT, 1) == Advance(Advances(UNIT, 0));
    AdvanceInjective(Advances(UNIT, 32767), UNIT);
  }

  /** A number below 7 * 31 * 151 that all three divide is zero. */
  lemma CommonMultiple(n: nat)
    requires n < ORDER && n % 7 == 0 && n % 31 == 0 && n % 151 == 0
    ensures n == 0
  {
    var a, b, c := n / 7, n / 31, n / 151;
    var d := 9 * b - 2 * a;
    assert b == 7 * d;
    var e := 7 * d - 16 * (c - d);
    assert d == 151 * e;
  }

  lemma Distribute(n: nat, u: nat, p: nat)
    requires 0 < p && u * p == ORDER
    ensures n * u == ORDER * (n / p) + u * (n % p)
  {
    var q, rest := n / p, n % p;
    assert n == p * q + rest;
    assert (p * q + rest) * u == (u * p) * q + u * rest;
  }

  /** One prime factor: if it does not divide n, the register returns already after ORDER / p. */
  lemma ReturnsFactor(n: nat, u: nat, p: nat)
    requires Returns(n) && u * p == ORDER && Prime(p) && n % p != 0
    ensures Returns(u)
  {
    hide Returns, Prime;
    ReturnsOrder();
    ReturnsMultiple(n, u);
    ReturnsMultiple(ORDER, n / p);
    Distribute(n, u, p);
    ReturnsDifference(ORDER * (n / p), u * (n % p));
    ReturnsQuotient(u, p, n % p);
  }

  /** The register does not return before its order. */
  lemma NoEarlyReturn(rest: nat)
    requires rest < ORDER && Returns(rest)
    ensures rest == 0
  {
    hide Returns, Prime;
    Primes();
    PowersNotUnit();
    if rest % 7 != 0 {
      ReturnsFactor(rest, 4681, 7);
    } else if rest % 31 != 0 {
      ReturnsFactor(rest, 1057, 31);
    } else if rest % 151 != 0 {
      ReturnsFactor(rest, 217, 151);
    } else {
      CommonMultiple(rest);
    }
  }

  lemma WholeOrders(n: nat) returns (q: nat, rest: nat)
    ensures n == ORDER * q + rest && rest < ORDER && rest == n % ORDER
  {
    q, rest := n / ORDER, n % ORDER;
  }

  /** The register returns exactly after the multiples of its order. */
  lemma OrderExact(n: nat)
    ensures Returns(n) <==> n % ORDER == 0
  {
    hide Returns;
    var q, rest := WholeOrders(n);
    ReturnsOrder();
    ReturnsMultiple(ORDER, q);
    if Returns(n) {
      ReturnsDifference(ORDER * q, rest);
      NoEarlyReturn(rest);
    }
  }
}
