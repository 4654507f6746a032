/**
 The memory handler of rtu_memory.c: a flat array of bytes behind the addresses of a window,
 read and written as bytes or as registers of which only the low byte is kept. A request is what
 the handler sees of a frame: the bytes from the function code up to the CRC.
 */
module Memory {
  import opened Buffers
  import opened Words

  const READ_REGISTERS: byte := 3
  const WRITE_REGISTER: byte := 6
  const WRITE_REGISTERS: byte := 16
  const READ_BYTES: byte := 65
  const WRITE_BYTES: byte := 66

  const ILLEGAL_FUNCTION: byte := 1
  const ILLEGAL_ADDRESS: byte := 2
  const ILLEGAL_VALUE: byte := 3
  const FORMAT_ERROR: byte := 0x80

  /** The window of addresses from `begin` up to `end`; both are 16-bit words. */
  datatype Store = Store(begin: nat, end: nat, bytes: seq<byte>)
  {
    predicate Valid() {
      begin <= end < 65536 && |bytes| == end - begin
    }
  }

  /** A 16-bit number sent high byte first. */
  function Number(high: byte, low: byte): (n: nat)
    ensures n < 65536
  {
    (high as nat) * 256 + (low as nat)
  }

  /** A number of one byte. */
  function Count(b: byte): (n: nat)
    ensures n < 256
  {
    b as nat
  }

  /** The byte count of registers. */
  function TwiceAsByte(num: nat): byte
    requires num < 128
  {
    (2 * num) as byte
  }

  lemma TwiceBack(num: nat)
    requires num < 128
    ensures Count(TwiceAsByte(num)) == 2 * num
  {
  }

  function NumberAt(p: seq<byte>, i: nat): (n: nat)
    requires i + 2 <= |p|
    ensures n < 65536
  {
    Number(p[i], p[i + 1])
  }

  function Exception(fcode: byte, ecode: byte): seq<byte> {
    [fcode + 0x80, ecode]
  }

  /** Registers as sent: every byte behind a zero high byte. */
  function Widen(bytes: seq<byte>): (r: seq<byte>)
    ensures |r| == 2 * |bytes|
  {
    seq(2 * |bytes|, i requires 0 <= i < 2 * |bytes| => if i % 2 == 0 then 0 else bytes[i / 2])
  }

  /** The low bytes of the first `n` registers. */
  function Narrow(p: seq<byte>, n: nat): (bytes: seq<byte>)
    requires 2 * n <= |p|
    ensures |bytes| == n
  {
    seq(n, i requires 0 <= i < n => p[2 * i + 1])
  }

  /** How many registers there are before the first whose high byte is not zero. */
  function Fitting(p: seq<byte>): (n: nat)
    ensures 2 * n <= |p|
    ensures forall i :: 0 <= i < n ==> p[2 * i] == 0
    ensures 2 * n + 1 < |p| ==> p[2 * n] != 0
    decreases |p|
  {
    if |p| < 2 || p[0] != 0 then 0
    else
      var m := Fitting(p[2..]);
      assert 2 * m + 1 < |p[2..]| ==> p[2..][2 * m] == p[2 * (m + 1)];
      assert forall i :: 1 <= i < m + 1 ==> p[2 * i] == p[2..][2 * (i - 1)];
      m + 1
  }

  // ---- The handlers: what is stored, from which address, and the reply ----

  datatype Effect = Effect(addr: nat, data: seq<byte>, reply: seq<byte>)

  function Refusal(fcode: byte, ecode: byte): Effect {
    Effect(0, [], Exception(fcode, ecode))
  }

  predicate Holds(s: Store, addr: nat) {
    s.begin <= addr < s.end
  }

  function ReadN16(s: Store, p: seq<byte>): Effect
    requires s.Valid()
  {
    if |p| < 5 then Refusal(WRITE_BYTES, FORMAT_ERROR)
    else
      var addr, num := NumberAt(p, 1), NumberAt(p, 3);
      if !Holds(s, addr) then Refusal(READ_REGISTERS, ILLEGAL_ADDRESS)
      else if !(0 < num < 0x7E) then Refusal(READ_REGISTERS, ILLEGAL_VALUE)
      else if s.end < addr + num then Refusal(READ_REGISTERS, ILLEGAL_ADDRESS)
      else
        var at := addr - s.begin;
        Effect(0, [], [READ_REGISTERS, TwiceAsByte(num)] + Widen(s.bytes[at..at + num]))
  }

  function Write16(s: Store, p: seq<byte>): Effect {
    if |p| < 5 then Refusal(WRITE_BYTES, FORMAT_ERROR)
    else
      var addr := NumberAt(p, 1);
      if s.end <= addr then Refusal(WRITE_REGISTER, ILLEGAL_ADDRESS)
      else if p[3] != 0 then Refusal(WRITE_REGISTER, ILLEGAL_VALUE)
      else Effect(addr, [p[4]], p[..5])
  }

  /** A request of five bytes has no byte count: the byte behind it, of the CRC, is read for it. */
  function WriteN16(s: Store, p: seq<byte>, behind: byte): Effect {
    if |p| < 5 then Refusal(WRITE_BYTES, FORMAT_ERROR)
    else
      var addr, num := NumberAt(p, 1), NumberAt(p, 3);
      var byteCount := Count((p + [behind])[5]);
      if s.end <= addr then Refusal(WRITE_REGISTERS, ILLEGAL_ADDRESS)
      else if !(0 < num < 0x7C) then Refusal(WRITE_REGISTERS, ILLEGAL_VALUE)
      else if byteCount != 2 * num then Refusal(WRITE_REGISTERS, ILLEGAL_VALUE)
      else if byteCount != |p| - 6 then Refusal(WRITE_REGISTERS, FORMAT_ERROR)
      else
        var values := p[6..];
        var n := Fitting(values);
        Effect(addr, Narrow(values, n),
               if n == num then p[..5] else Exception(WRITE_REGISTERS, ILLEGAL_VALUE))
  }

  function ReadN8(s: Store, p: seq<byte>): Effect
    requires s.Valid()
  {
    if |p| < 4 then Refusal(WRITE_BYTES, FORMAT_ERROR)
    else
      var addr, num := NumberAt(p, 1), Count(p[3]);
      if !Holds(s, addr) then Refusal(READ_BYTES, ILLEGAL_ADDRESS)
      else if !(0 < num < 250) then Refusal(READ_BYTES, ILLEGAL_VALUE)
      else if s.end < addr + num then Refusal(READ_BYTES, ILLEGAL_ADDRESS)
      else
        var at := addr - s.begin;
        Effect(0, [], p[..4] + s.bytes[at..at + num])
  }

  function WriteN8(s: Store, p: seq<byte>): Effect {
    if |p| < 4 then Refusal(WRITE_BYTES, FORMAT_ERROR)
    else
      var addr, num := NumberAt(p, 1), Count(p[3]);
      if s.end <= addr then Refusal(WRITE_BYTES, ILLEGAL_ADDRESS)
      else if !(0 < num < 250) then Refusal(WRITE_BYTES, ILLEGAL_VALUE)
      else if num != |p| - 4 then Refusal(WRITE_BYTES, ILLEGAL_VALUE)
      else Effect(addr, p[4..], p[..4])
  }

  function Handle(s: Store, p: seq<byte>, behind: byte): Effect
    requires s.Valid() && |p| >= 1
  {
    if p[0] == READ_REGISTERS then ReadN16(s, p)
    else if p[0] == WRITE_REGISTER then Write16(s, p)
    else if p[0] == WRITE_REGISTERS then WriteN16(s, p, behind)
    else if p[0] == READ_BYTES then ReadN8(s, p)
    else if p[0] == WRITE_BYTES then WriteN8(s, p)
    else Refusal(p[0], ILLEGAL_FUNCTION)
  }

  /** All that is stored lies in the window. */
  predicate Inside(s: Store, e: Effect) {
    e.data == [] || (s.begin <= e.addr && e.addr + |e.data| <= s.end)
  }

  // The window that README.md states for the requests that write. The handlers test only its end.

  predicate Window16(s: Store, p: seq<byte>) {
    |p| >= 5 && NumberAt(p, 1) < s.end ==> s.begin <= NumberAt(p, 1)
  }

  predicate WindowN16(s: Store, p: seq<byte>) {
    |p| >= 5 && NumberAt(p, 1) < s.end ==>
      s.begin <= NumberAt(p, 1) && NumberAt(p, 1) + NumberAt(p, 3) <= s.end
  }

  predicate WindowN8(s: Store, p: seq<byte>) {
    |p| >= 4 && NumberAt(p, 1) < s.end ==>
      s.begin <= NumberAt(p, 1) && NumberAt(p, 1) + Count(p[3]) <= s.end
  }

  predicate Window(s: Store, p: seq<byte>)
    requires |p| >= 1
  {
    && (p[0] == WRITE_REGISTER ==> Window16(s, p))
    && (p[0] == WRITE_REGISTERS ==> WindowN16(s, p))
    && (p[0] == WRITE_BYTES ==> WindowN8(s, p))
  }

  lemma WindowSuffices(s: Store, p: seq<byte>, behind: byte)
    requires s.Valid() && |p| >= 1 && Window(s, p)
    ensures Inside(s, Handle(s, p, behind))
  {
  }

  function Apply(s: Store, e: Effect): (t: Store)
    requires s.Valid() && Inside(s, e)
    ensures t.Valid() && t.begin == s.begin && t.end == s.end
  {
    if e.data == [] then s else s.(bytes := Splice(s.bytes, e.addr - s.begin, e.data))
  }

  // ---- The window ----

  /** The index into the array that the handlers compute for the k-th byte: 16 bits wide. */
  function Offset(s: Store, addr: nat, k: nat): nat
    requires s.Valid()
  {
    (addr - s.begin + k) % 65536
  }

  /** Every byte is stored inside the array. */
  ghost predicate StoresInside(s: Store, e: Effect)
    requires s.Valid()
  {
    forall k :: 0 <= k < |e.data| ==> Offset(s, e.addr, k) < |s.bytes|
  }

  /**
   The handlers that write test only the end of the window, and only for the first address. What
   they store lies inside the array exactly when the addresses lie in the window.
   */
  lemma WindowExact(s: Store, e: Effect)
    requires s.Valid() && e.addr < s.end
    ensures StoresInside(s, e) <==> Inside(s, e)
  {
    if e.data != [] {
      if e.addr < s.begin {
        assert Offset(s, e.addr, 0) == 65536 + e.addr - s.begin;
      } else if s.end < e.addr + |e.data| {
        assert Offset(s, e.addr, s.end - e.addr) == |s.bytes|;
      }
    }
  }

  /** A write below the window is acknowledged, and stored outside the array. */
  lemma WriteBelowWindow(s: Store, value: byte)
    requires s.Valid() && s.begin == 16 && s.end == 32
    ensures var e := Handle(s, [WRITE_BYTES, 0, 0, 1, value], 0);
      e.reply == [WRITE_BYTES, 0, 0, 1] && e.data == [value] && Offset(s, e.addr, 0) == 65520 >= |s.bytes|
  {
  }

  /** A write that starts in the window and ends behind it is acknowledged, too. */
  lemma WritePastWindow(s: Store, first: byte, second: byte)
    requires s.Valid() && s.begin == 16 && s.end == 32
    ensures var e := Handle(s, [WRITE_BYTES, 0, 31, 2, first, second], 0);
      e.reply == [WRITE_BYTES, 0, 31, 2] && e.data == [first, second] && Offset(s, e.addr, 1) == 16 >= |s.bytes|
  {
  }

  /** A write of registers below the window that is refused has still stored its first register. */
  lemma RefusedButStored(s: Store)
    requires s.Valid() && s.begin == 16 && s.end == 32
    ensures var e := Handle(s, [WRITE_REGISTERS, 0, 0, 0, 2, 4, 0, 1, 1, 1], 0);
      e.reply == Exception(WRITE_REGISTERS, ILLEGAL_VALUE) && e.data == [1]
      && Offset(s, e.addr, 0) == 65520 >= |s.bytes|
  {
    var p: seq<byte> := [WRITE_REGISTERS, 0, 0, 0, 2, 4, 0, 1, 1, 1];
    var values := p[6..];
    assert values == [0, 1, 1, 1];
    assert values[2..] == [1, 1];
    assert Fitting(values[2..]) == 0;
    assert Fitting(values) == 1;
    assert Narrow(values, 1) == [1];
  }

  // ---- Exceptions ----

  /** The bytes that a request must at least have. */
  function RequestSize(fcode: byte): nat {
    if fcode in {READ_REGISTERS, WRITE_REGISTER, WRITE_REGISTERS} then 5
    else if fcode in {READ_BYTES, WRITE_BYTES} then 4
    else 1
  }

  lemma OtherCode(a: byte, b: byte)
    requires a != b
    ensures a + 0x80 != b + 0x80
  {
  }

  /**
   An exception names the function of the request, as section 7 of "MODBUS Application Protocol
   Specification V1.1b3" asks, exactly if the request is not too short, or is a write of bytes:
   a request that is too short is always answered as if it were one.
   */
  lemma ExceptionNamesRequest(s: Store, p: seq<byte>, behind: byte)
    requires s.Valid() && |p| >= 1 && |Handle(s, p, behind).reply| == 2
    ensures Handle(s, p, behind).reply[0] == p[0] + 0x80
      <==> p[0] == WRITE_BYTES || |p| >= RequestSize(p[0])
    ensures |p| < RequestSize(p[0]) ==> Handle(s, p, behind).reply == Exception(WRITE_BYTES, FORMAT_ERROR)
  {
    hide Number, Count, Fitting, Narrow;
    if p[0] != WRITE_BYTES {
      OtherCode(p[0], WRITE_BYTES);
    }
  }

  lemma HighBitFlips(b: byte)
    ensures (b + 0x80) & 0x80 != 0 <==> b & 0x80 == 0
  {
  }

  /** An unknown function is refused with a code that has its high bit set exactly if the request's has not. */
  lemma UnknownFunction(s: Store, p: seq<byte>, behind: byte)
    requires s.Valid() && |p| >= 1
    requires p[0] !in {READ_REGISTERS, WRITE_REGISTER, WRITE_REGISTERS, READ_BYTES, WRITE_BYTES}
    ensures var e := Handle(s, p, behind);
      && e.data == [] && |e.reply| == 2 && e.reply[1] == ILLEGAL_FUNCTION
      && (e.reply[0] & 0x80 != 0 <==> p[0] & 0x80 == 0)
  {
    HighBitFlips(p[0]);
  }
}
