/**
 The two 256-entry tables of the byte-at-a-time CRC-16. Entry i of the pair is the word that
 eight bit steps make of the byte i.
 */
module CrcTables {
  import opened Words

  // The tables in rows of sixteen entries. The first table has only two different rows.

  const EVEN: seq<byte> :=
    [0x00, 0xC1, 0x81, 0x40, 0x01, 0xC0, 0x80, 0x41,
     0x01, 0xC0, 0x80, 0x41, 0x00, 0xC1, 0x81, 0x40]
  const ODD: seq<byte> :=
    [0x01, 0xC0, 0x80, 0x41, 0x00, 0xC1, 0x81, 0x40,
     0x00, 0xC1, 0x81, 0x40, 0x01, 0xC0, 0x80, 0x41]

  const HROWS: seq<seq<byte>> :=
    [EVEN, ODD, ODD, EVEN, ODD, EVEN, EVEN, ODD,
     ODD, EVEN, EVEN, ODD, EVEN, ODD, ODD, EVEN]

  const L0: seq<byte> :=
    [0x00, 0xC0, 0xC1, 0x01, 0xC3, 0x03, 0x02, 0xC2,
     0xC6, 0x06, 0x07, 0xC7, 0x05, 0xC5, 0xC4, 0x04]
  const L1: seq<byte> :=
    [0xCC, 0x0C, 0x0D, 0xCD, 0x0F, 0xCF, 0xCE, 0x0E,
     0x0A, 0xCA, 0xCB, 0x0B, 0xC9, 0x09, 0x08, 0xC8]
  const L2: seq<byte> :=
    [0xD8, 0x18, 0x19, 0xD9, 0x1B, 0xDB, 0xDA, 0x1A,
     0x1E, 0xDE, 0xDF, 0x1F, 0xDD, 0x1D, 0x1C, 0xDC]
  const L3: seq<byte> :=
    [0x14, 0xD4, 0xD5, 0x15, 0xD7, 0x17, 0x16, 0xD6,
     0xD2, 0x12, 0x13, 0xD3, 0x11, 0xD1, 0xD0, 0x10]
  const L4: seq<byte> :=
    [0xF0, 0x30, 0x31, 0xF1, 0x33, 0xF3, 0xF2, 0x32,
     0x36, 0xF6, 0xF7, 0x37, 0xF5, 0x35, 0x34, 0xF4]
  const L5: seq<byte> :=
    [0x3C, 0xFC, 0xFD, 0x3D, 0xFF, 0x3F, 0x3E, 0xFE,
     0xFA, 0x3A, 0x3B, 0xFB, 0x39, 0xF9, 0xF8, 0x38]
  const L6: seq<byte> :=
    [0x28, 0xE8, 0xE9, 0x29, 0xEB, 0x2B, 0x2A, 0xEA,
     0xEE, 0x2E, 0x2F, 0xEF, 0x2D, 0xED, 0xEC, 0x2C]
  const L7: seq<byte> :=
    [0xE4, 0x24, 0x25, 0xE5, 0x27, 0xE7, 0xE6, 0x26,
     0x22, 0xE2, 0xE3, 0x23, 0xE1, 0x21, 0x20, 0xE0]
  const L8: seq<byte> :=
    [0xA0, 0x60, 0x61, 0xA1, 0x63, 0xA3, 0xA2, 0x62,
     0x66, 0xA6, 0xA7, 0x67, 0xA5, 0x65, 0x64, 0xA4]
  const L9: seq<byte> :=
    [0x6C, 0xAC, 0xAD, 0x6D, 0xAF, 0x6F, 0x6E, 0xAE,
     0xAA, 0x6A, 0x6B, 0xAB, 0x69, 0xA9, 0xA8, 0x68]
  const LA: seq<byte> :=
    [0x78, 0xB8, 0xB9, 0x79, 0xBB, 0x7B, 0x7A, 0xBA,
     0xBE, 0x7E, 0x7F, 0xBF, 0x7D, 0xBD, 0xBC, 0x7C]
  const LB: seq<byte> :=
    [0xB4, 0x74, 0x75, 0xB5, 0x77, 0xB7, 0xB6, 0x76,
     0x72, 0xB2, 0xB3, 0x73, 0xB1, 0x71, 0x70, 0xB0]
  const LC: seq<byte> :=
    [0x50, 0x90, 0x91, 0x51, 0x93, 0x53, 0x52, 0x92,
     0x96, 0x56, 0x57, 0x97, 0x55, 0x95, 0x94, 0x54]
  const LD: seq<byte> :=
    [0x9C, 0x5C, 0x5D, 0x9D, 0x5F, 0x9F, 0x9E, 0x5E,
     0x5A, 0x9A, 0x9B, 0x5B, 0x99, 0x59, 0x58, 0x98]
  const LE: seq<byte> :=
    [0x88, 0x48, 0x49, 0x89, 0x4B, 0x8B, 0x8A, 0x4A,
     0x4E, 0x8E, 0x8F, 0x4F, 0x8D, 0x4D, 0x4C, 0x8C]
  const LF: seq<byte> :=
    [0x44, 0x84, 0x85, 0x45, 0x87, 0x47, 0x46, 0x86,
     0x82, 0x42, 0x43, 0x83, 0x41, 0x81, 0x80, 0x40]

  const LROWS: seq<seq<byte>> :=
    [L0, L1, L2, L3, L4, L5, L6, L7, L8, L9, LA, LB, LC, LD, LE, LF]

  function Flatten(rows: seq<seq<byte>>): seq<byte> {
    if rows == [] then [] else rows[0] + Flatten(rows[1..])
  }

  const HCRC16: seq<byte> := Flatten(HROWS)

  const LCRC16: seq<byte> := Flatten(LROWS)

  ghost predicate Regular(rows: seq<seq<byte>>) {
    forall k :: 0 <= k < |rows| ==> |rows[k]| == 16
  }

  lemma {:induction false} FlattenAt(rows: seq<seq<byte>>, k: nat, j: nat)
    requires Regular(rows) && k < |rows| && j < 16
    ensures 16 * k + j < |Flatten(rows)| && Flatten(rows)[16 * k + j] == rows[k][j]
    decreases |rows|
  {
    if k > 0 {
      assert Regular(rows[1..]);
      FlattenAt(rows[1..], k - 1, j);
    }
  }

  /** The word that eight bit steps make of a byte, in closed form. */
  function Entry(i: byte): word {
    ((i as word) << 6) ^ ((i as word) << 7) ^ (if OddByte(i) then 0xC001 else 0)
  }

  predicate OddByte(i: byte) {
    ((((i & 0x01 != 0) != (i & 0x02 != 0)) != ((i & 0x04 != 0) != (i & 0x08 != 0)))
    != (((i & 0x10 != 0) != (i & 0x20 != 0)) != ((i & 0x40 != 0) != (i & 0x80 != 0))))
  }

  predicate RowOk(h: seq<byte>, l: seq<byte>, base: byte) {
    |h| == 16 && |l| == 16 &&
    Pair(h, l, 0) == Entry(base | 0) &&
    Pair(h, l, 1) == Entry(base | 1) &&
    Pair(h, l, 2) == Entry(base | 2) &&
    Pair(h, l, 3) == Entry(base | 3) &&
    Pair(h, l, 4) == Entry(base | 4) &&
    Pair(h, l, 5) == Entry(base | 5) &&
    Pair(h, l, 6) == Entry(base | 6) &&
    Pair(h, l, 7) == Entry(base | 7) &&
    Pair(h, l, 8) == Entry(base | 8) &&
    Pair(h, l, 9) == Entry(base | 9) &&
    Pair(h, l, 10) == Entry(base | 10) &&
    Pair(h, l, 11) == Entry(base | 11) &&
    Pair(h, l, 12) == Entry(base | 12) &&
    Pair(h, l, 13) == Entry(base | 13) &&
    Pair(h, l, 14) == Entry(base | 14) &&
    Pair(h, l, 15) == Entry(base | 15)
  }

  function Pair(h: seq<byte>, l: seq<byte>, j: nat): word
    requires j < |h| && j < |l|
  {
    Join(l[j], h[j])
  }

  lemma Row0()
    ensures RowOk(EVEN, L0, 0x00)
  {
  }

  lemma Row1()
    ensures RowOk(ODD, L1, 0x10)
  {
  }

  lemma Row2()
    ensures RowOk(ODD, L2, 0x20)
  {
  }

  lemma Row3()
    ensures RowOk(EVEN, L3, 0x30)
  {
  }

  lemma Row4()
    ensures RowOk(ODD, L4, 0x40)
  {
  }

  lemma Row5()
    ensures RowOk(EVEN, L5, 0x50)
  {
  }

  lemma Row6()
    ensures RowOk(EVEN, L6, 0x60)
  {
  }

  lemma Row7()
    ensures RowOk(ODD, L7, 0x70)
  {
  }

  lemma Row8()
    ensures RowOk(ODD, L8, 0x80)
  {
  }

  lemma Row9()
    ensures RowOk(EVEN, L9, 0x90)
  {
  }

  lemma RowA()
    ensures RowOk(EVEN, LA, 0xA0)
  {
  }

  lemma RowB()
    ensures RowOk(ODD, LB, 0xB0)
  {
  }

  lemma RowC()
    ensures RowOk(EVEN, LC, 0xC0)
  {
  }

  lemma RowD()
    ensures RowOk(ODD, LD, 0xD0)
  {
  }

  lemma RowE()
    ensures RowOk(ODD, LE, 0xE0)
  {
  }

  lemma RowF()
    ensures RowOk(EVEN, LF, 0xF0)
  {
  }

  /** Within a row the low half of the byte selects the entry. */
  lemma RowAt(h: seq<byte>, l: seq<byte>, base: byte, n: byte)
    requires RowOk(h, l, base) && n < 16
    ensures (n as nat) < 16 && Pair(h, l, n as nat) == Entry(base | n)
  {
    hide Entry, Pair;
    if n < 8 {
      if n < 4 {
        if n < 2 {
          if n < 1 {
            assert n as nat == 0;
          } else {
            assert n as nat == 1;
          }
        } else {
          if n < 3 {
            assert n as nat == 2;
          } else {
            assert n as nat == 3;
          }
        }
      } else {
        if n < 6 {
          if n < 5 {
            assert n as nat == 4;
          } else {
            assert n as nat == 5;
          }
        } else {
          if n < 7 {
            assert n as nat == 6;
          } else {
            assert n as nat == 7;
          }
        }
      }
    } else {
      if n < 12 {
        if n < 10 {
          if n < 9 {
            assert n as nat == 8;
          } else {
            assert n as nat == 9;
          }
        } else {
          if n < 11 {
            assert n as nat == 10;
          } else {
            assert n as nat == 11;
          }
        }
      } else {
        if n < 14 {
          if n < 13 {
            assert n as nat == 12;
          } else {
            assert n as nat == 13;
          }
        } else {
          if n < 15 {
            assert n as nat == 14;
          } else {
            assert n as nat == 15;
          }
        }
      }
    }
  }

  lemma NibblesOf(i: byte)
    ensures i as nat == 16 * ((i >> 4) as nat) + ((i & 0x0F) as nat)
    ensures i & 0x0F < 16 && i >> 4 < 16
  {
  }

  lemma RowOfNibble(k: byte)
    requires k < 16
    ensures (k as nat) < |HROWS| && (k as nat) < |LROWS| && RowOk(HROWS[k as nat], LROWS[k as nat], k << 4)
  {
    hide RowOk;
    if k == 0 {
      Row0();
    } else if k == 1 {
      Row1();
    } else if k == 2 {
      Row2();
    } else if k == 3 {
      Row3();
    } else if k == 4 {
      Row4();
    } else if k == 5 {
      Row5();
    } else if k == 6 {
      Row6();
    } else if k == 7 {
      Row7();
    } else if k == 8 {
      Row8();
    } else if k == 9 {
      Row9();
    } else if k == 10 {
      RowA();
    } else if k == 11 {
      RowB();
    } else if k == 12 {
      RowC();
    } else if k == 13 {
      RowD();
    } else if k == 14 {
      RowE();
    } else {
      assert k == 15;
      RowF();
    }
  }

  lemma Rejoin(i: byte)
    ensures ((i >> 4) << 4) | (i & 0x0F) == i
  {
  }

  lemma {:induction false} FlattenLength(rows: seq<seq<byte>>)
    requires Regular(rows)
    ensures |Flatten(rows)| == 16 * |rows|
    decreases |rows|
  {
    if rows != [] {
      assert Regular(rows[1..]);
      FlattenLength(rows[1..]);
    }
  }

  lemma TableAt(hrows: seq<seq<byte>>, lrows: seq<seq<byte>>, h: seq<byte>, l: seq<byte>, k: nat, j: nat)
    requires Regular(hrows) && Regular(lrows) && |hrows| == |lrows| == 16 && k < 16 && j < 16
    requires h == Flatten(hrows) && l == Flatten(lrows)
    ensures |h| == |l| == 256
    ensures Pair(h, l, 16 * k + j) == Pair(hrows[k], lrows[k], j)
  {
    FlattenAt(hrows, k, j);
    FlattenAt(lrows, k, j);
    FlattenLength(hrows);
    FlattenLength(lrows);
  }

  /** Every entry of the two tables. */
  lemma TableEntry(i: byte)
    ensures |HCRC16| == |LCRC16| == 256 && (i as nat) < 256
    ensures Pair(HCRC16, LCRC16, i as nat) == Entry(i)
  {
    hide Entry, Pair, Flatten;
    var k, n := i >> 4, i & 0x0F;
    NibblesOf(i);
    Rejoin(i);
    RowOfNibble(k);
    hide RowOk;
    RowAt(HROWS[k as nat], LROWS[k as nat], k << 4, n);
    TableAt(HROWS, LROWS, HCRC16, LCRC16, k as nat, n as nat);
  }
}
