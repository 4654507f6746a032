/**
 What is on the wire, in numbers: the replies to the five functions of the memory handler for every
 address, count and content, the exceptions, and the sizes and the CRC of frames. Nothing here is
 stated through a constant or a function of the handler.
 */
module Wire {
  import opened Words
  import opened Crc
  import opened Framing
  import opened Memory
  import Master
  import opened MemoryMap

  // ---- Numbers ----

  lemma NumberIs(high: byte, low: byte)
    ensures Number(high, low) / 256 == high as nat && Number(high, low) % 256 == low as nat
  {
  }

  lemma CountIs(b: byte)
    ensures Count(b) == b as nat
  {
  }

  lemma TwiceIs(num: nat, b: byte)
    requires num < 128 && b == TwiceAsByte(num)
    ensures b as nat == 2 * num
  {
    hide Count, TwiceAsByte;
    TwiceBack(num);
    CountIs(b);
  }

  /** A number of two bytes, high byte first. */
  function Address(high: byte, low: byte): nat {
    256 * (high as nat) + (low as nat)
  }

  lemma AddressIs(high: byte, low: byte)
    ensures Number(high, low) == Address(high, low)
  {
  }

  // ---- Function 3: read holding registers ----

  lemma ReadRegistersReply(s: Store, hi: byte, lo: byte, ch: byte, cl: byte, behind: byte)
    requires s.Valid()
    ensures var e, addr, num := Handle(s, [3, hi, lo, ch, cl], behind), Address(hi, lo), Address(ch, cl);
      && e.data == []
      && e.reply ==
         if !(s.begin <= addr < s.end) then [0x83, 2]
         else if num == 0 || num > 125 then [0x83, 3]
         else if addr + num > s.end then [0x83, 2]
         else [3, TwiceAsByte(num)] + Widen(s.bytes[addr - s.begin..addr - s.begin + num])
  {
    hide Number, Address, Widen, TwiceAsByte;
    var p := [3, hi, lo, ch, cl];
    AddressIs(hi, lo);
    AddressIs(ch, cl);
    assert NumberAt(p, 1) == Address(hi, lo) && NumberAt(p, 3) == Address(ch, cl);
  }

  lemma RegistersAt(count: byte, bytes: seq<byte>, at: nat, num: nat, reply: seq<byte>)
    requires num < 128 && at + num <= |bytes|
    requires count == TwiceAsByte(num) && reply == [3, count] + Widen(bytes[at..at + num])
    ensures |reply| == 2 + 2 * num && reply[0] == 3 && reply[1] as nat == 2 * num
    ensures forall i :: 0 <= i < num ==> reply[2 + 2 * i] == 0 && reply[3 + 2 * i] == bytes[at + i]
  {
    TwiceIs(num, count);
    hide Widen, TwiceAsByte;
    forall i | 0 <= i < num ensures reply[2 + 2 * i] == 0 && reply[3 + 2 * i] == bytes[at + i] {
      WidenAt(bytes[at..at + num], i);
    }
  }

  lemma ReadRegistersOnWire(s: Store, hi: byte, lo: byte, ch: byte, cl: byte, behind: byte)
    requires s.Valid()
    ensures var e, addr, num := Handle(s, [3, hi, lo, ch, cl], behind), Address(hi, lo), Address(ch, cl);
      && e.data == []
      && if !(s.begin <= addr < s.end) then e.reply == [0x83, 2]
         else if num == 0 || num > 125 then e.reply == [0x83, 3]
         else if addr + num > s.end then e.reply == [0x83, 2]
         else
           && |e.reply| == 2 + 2 * num && e.reply[0] == 3 && e.reply[1] as nat == 2 * num
           && forall i :: 0 <= i < num ==>
                e.reply[2 + 2 * i] == 0 && e.reply[3 + 2 * i] == s.bytes[addr - s.begin + i]
  {
    hide Handle, Address, Widen, TwiceAsByte;
    ReadRegistersReply(s, hi, lo, ch, cl, behind);
    var addr, num := Address(hi, lo), Address(ch, cl);
    if s.begin <= addr && addr + num <= s.end && 0 < num <= 125 {
      RegistersAt(TwiceAsByte(num), s.bytes, addr - s.begin, num, Handle(s, [3, hi, lo, ch, cl], behind).reply);
    }
  }

  lemma WidenAt(bytes: seq<byte>, i: nat)
    requires i < |bytes|
    ensures Widen(bytes)[2 * i] == 0 && Widen(bytes)[2 * i + 1] == bytes[i]
  {
  }

  // ---- Function 6: write one register ----

  lemma WriteRegisterOnWire(s: Store, hi: byte, lo: byte, vh: byte, vl: byte, behind: byte)
    requires s.Valid()
    ensures var e, addr := Handle(s, [6, hi, lo, vh, vl], behind), Address(hi, lo);
      if s.end <= addr then e.reply == [0x86, 2] && e.data == []
      else if vh != 0 then e.reply == [0x86, 3] && e.data == []
      else e.reply == [6, hi, lo, vh, vl] && e.data == [vl] && e.addr == addr
  {
    var p := [6, hi, lo, vh, vl];
    AddressIs(hi, lo);
    assert NumberAt(p, 1) == Address(hi, lo);
    assert p[..5] == p;
    hide Number, Address;
  }

  // ---- Function 16: write registers ----

  lemma WriteRegistersOnWire(s: Store, hi: byte, lo: byte, ch: byte, cl: byte, byteCount: byte,
                             values: seq<byte>, behind: byte)
    requires s.Valid()
    ensures var e := Handle(s, [16, hi, lo, ch, cl, byteCount] + values, behind);
      var addr, num, n := Address(hi, lo), Address(ch, cl), |e.data|;
      if s.end <= addr then e.reply == [0x90, 2] && e.data == []
      else if num == 0 || num > 123 || byteCount as nat != 2 * num then e.reply == [0x90, 3] && e.data == []
      else if |values| != 2 * num then e.reply == [0x90, 0x80] && e.data == []
      else
        && n <= num && (n > 0 ==> e.addr == addr)
        && (forall i :: 0 <= i < n ==> values[2 * i] == 0 && e.data[i] == values[2 * i + 1])
        && if n == num then e.reply == [16, hi, lo, ch, cl]
           else values[2 * n] != 0 && e.reply == [0x90, 3]
  {
    hide Number, Address, Count, Fitting;
    var p := [16, hi, lo, ch, cl, byteCount] + values;
    AddressIs(hi, lo);
    AddressIs(ch, cl);
    CountIs(byteCount);
    assert NumberAt(p, 1) == Address(hi, lo) && NumberAt(p, 3) == Address(ch, cl);
    assert (p + [behind])[5] == byteCount && p[6..] == values && p[..5] == [16, hi, lo, ch, cl];
  }

  // ---- Function 65: read bytes ----

  lemma ReadBytesOnWire(s: Store, hi: byte, lo: byte, n: byte, behind: byte)
    requires s.Valid()
    ensures var e, addr, num := Handle(s, [65, hi, lo, n], behind), Address(hi, lo), n as nat;
      && e.data == []
      && e.reply ==
         if !(s.begin <= addr < s.end) then [0xC1, 2]
         else if num == 0 || num > 249 then [0xC1, 3]
         else if addr + num > s.end then [0xC1, 2]
         else [65, hi, lo, n] + s.bytes[addr - s.begin..addr - s.begin + num]
  {
    hide Number, Address, Count;
    var p := [65, hi, lo, n];
    AddressIs(hi, lo);
    CountIs(n);
    assert NumberAt(p, 1) == Address(hi, lo);
    assert p[..4] == p;
  }

  // ---- Function 66: write bytes ----

  lemma WriteBytesOnWire(s: Store, hi: byte, lo: byte, n: byte, data: seq<byte>, behind: byte)
    requires s.Valid()
    ensures var e, addr, num := Handle(s, [66, hi, lo, n] + data, behind), Address(hi, lo), n as nat;
      if s.end <= addr then e.reply == [0xC2, 2] && e.data == []
      else if num == 0 || num > 249 || num != |data| then e.reply == [0xC2, 3] && e.data == []
      else e.reply == [66, hi, lo, n] && e.data == data && e.addr == addr
  {
    hide Number, Address, Count;
    var p := [66, hi, lo, n] + data;
    AddressIs(hi, lo);
    CountIs(n);
    assert NumberAt(p, 1) == Address(hi, lo);
    assert p[4..] == data && p[..4] == [66, hi, lo, n];
  }

  // ---- Everything else ----

  lemma OtherRequestsOnWire(s: Store, p: seq<byte>, behind: byte)
    requires s.Valid() && |p| >= 1
    ensures p[0] !in {3, 6, 16, 65, 66} ==>
      Handle(s, p, behind).reply == [p[0] + 0x80, 1] && Handle(s, p, behind).data == []
    ensures (p[0] in {3, 6, 16} && |p| < 5) || (p[0] in {65, 66} && |p| < 4) ==>
      Handle(s, p, behind).reply == [0xC2, 0x80] && Handle(s, p, behind).data == []
  {
  }

  /** What follows a read behind the bytes that it needs does not matter. */
  lemma ReadsIgnoreTheRest(s: Store, p: seq<byte>, more: seq<byte>, behind: byte, other: byte)
    requires s.Valid() && ((|p| == 5 && p[0] in {3, 6}) || (|p| == 4 && p[0] == 65))
    ensures Handle(s, p + more, behind) == Handle(s, p, other)
  {
    hide Number, Count, Widen, TwiceAsByte;
    assert NumberAt(p + more, 1) == NumberAt(p, 1);
    assert |p| == 5 ==> NumberAt(p + more, 3) == NumberAt(p, 3) && (p + more)[..5] == p[..5];
    assert (p + more)[..4] == p[..4];
  }

  // ---- Requests of the master ----

  lemma RequestsOnWire(slave: byte, q: Master.Query)
    ensures Master.Adu(slave, q) == Sealed([slave] + match q
      case RdHoldingRegisters(addr, count) => [3, addr.high, addr.low, count.high, count.low]
      case WrRegister(addr, value) => [6, addr.high, addr.low, value.high, value.low]
      case WrRegisters(addr, count, values) =>
        [16, addr.high, addr.low, count.high, count.low, count.low << 1] + Spread(values)
      case RdBytes(addr, num) => [65, addr.high, addr.low, num]
      case WrBytes(addr, num, data) => [66, addr.high, addr.low, num] + data)
  {
  }

  // ---- Frames ----

  /** A frame is served from four bytes on. */
  lemma FrameSizesOnWire(a: byte, f: byte, frame: seq<byte>)
    ensures AduOk(Sealed([a, f]))
    ensures |frame| < 4 ==> !AduOk(frame)
  {
    SealedIsIntact([a, f]);
  }

  lemma EightShifts(c: word, c1: word, c2: word, c3: word, c4: word, c5: word, c6: word, c7: word, c8: word)
    requires c1 == Shift(c) && c2 == Shift(c1) && c3 == Shift(c2) && c4 == Shift(c3)
    requires c5 == Shift(c4) && c6 == Shift(c5) && c7 == Shift(c6) && c8 == Shift(c7)
    ensures Shifts(c, 8) == c8
  {
    hide Shift;
    ShiftsEight(c);
  }

  lemma FirstByteOfExample()
    ensures Update(0xFFFF, 0x02) == 0x813E
  {
    EightShifts(0xFFFD, 0xDFFF, 0xCFFE, 0x67FF, 0x93FE, 0x49FF, 0x84FE, 0x427F, 0x813E);
  }

  lemma SecondByteOfExample()
    ensures Update(0x813E, 0x07) == 0x1241
  {
    EightShifts(0x8139, 0xE09D, 0xD04F, 0xC826, 0x6413, 0x9208, 0x4904, 0x2482, 0x1241);
  }

  /**
   The example of section 6.2.2 of "MODBUS over Serial Line Specification and Implementation Guide
   V1.02": after 02 07 the CRC is 1241 in hexadecimal, sent as 41 12.
   */
  lemma CrcExample()
    ensures Trailer([0x02, 0x07]) == [0x41, 0x12]
    ensures Intact([0x02, 0x07, 0x41, 0x12])
  {
    hide Update;
    var m: seq<byte> := [0x02, 0x07];
    assert m[..1] == [0x02] && m[..1][..0] == [];
    assert Fold(SEED, m[..1]) == Update(SEED, 0x02);
    FirstByteOfExample();
    SecondByteOfExample();
    assert CrcOf(m) == 0x1241;
    var frame: seq<byte> := [0x02, 0x07, 0x41, 0x12];
    assert frame[..2] == m && frame[2..] == [0x41, 0x12];
  }
}
