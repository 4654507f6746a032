/**
 master.c: the builders of requests, the parsers of replies and the two CRC helpers, on the
 caller's buffers. A null pointer as a result is the option None or the answer false.
 */
module Master {
  import opened Buffers
  import opened Words
  import opened Crc
  import opened Memory
  import opened MemoryMap

  /** The requests with their fields as they are sent. */
  datatype Query =
    | RdHoldingRegisters(addr: Data16, count: Data16)
    | WrRegister(addr: Data16, value: Data16)
    | WrRegisters(addr: Data16, count: Data16, values: seq<Data16>)
    | RdBytes(addr: Data16, num: byte)
    | WrBytes(addr: Data16, num: byte, data: seq<byte>)

  function Value(d: Data16): (n: nat)
    ensures n < 65536
  {
    Number(d.high, d.low)
  }

  /** A request between the slave address and the CRC. */
  function Pdu(q: Query): seq<byte> {
    match q
    case RdHoldingRegisters(addr, count) => [READ_REGISTERS, addr.high, addr.low, count.high, count.low]
    case WrRegister(addr, value) => [WRITE_REGISTER, addr.high, addr.low, value.high, value.low]
    case WrRegisters(addr, count, values) =>
      [WRITE_REGISTERS, addr.high, addr.low, count.high, count.low, count.low << 1] + Spread(values)
    case RdBytes(addr, num) => [READ_BYTES, addr.high, addr.low, num]
    case WrBytes(addr, num, data) => [WRITE_BYTES, addr.high, addr.low, num] + data
  }

  function Adu(slave: byte, q: Query): seq<byte> {
    Sealed([slave] + Pdu(q))
  }

  // ---- Parsers ----

  predicate ParsesRdHoldingRegisters(adu: seq<byte>) {
    |adu| >= 5 && |adu| == 5 + Count(adu[2]) && Intact(adu)
  }

  predicate ParsesWrRegister(adu: seq<byte>) {
    |adu| == 8 && Intact(adu)
  }

  predicate ParsesWrRegisters(adu: seq<byte>) {
    |adu| == 8 && Intact(adu)
  }

  predicate ParsesWrBytes(adu: seq<byte>) {
    |adu| == 7 && Intact(adu)
  }

  predicate ParsesRdBytes(adu: seq<byte>) {
    |adu| >= 7 && |adu| == 7 + Count(adu[4]) && Intact(adu)
  }

  /** The exception code in a reply, if it holds one. */
  function Ecode(adu: seq<byte>): Option<byte> {
    if |adu| == 5 && Intact(adu) then Some(adu[2]) else None
  }

  predicate Parses(q: Query, adu: seq<byte>) {
    match q
    case RdHoldingRegisters(_, _) => ParsesRdHoldingRegisters(adu)
    case WrRegister(_, _) => ParsesWrRegister(adu)
    case WrRegisters(_, _, _) => ParsesWrRegisters(adu)
    case RdBytes(_, _) => ParsesRdBytes(adu)
    case WrBytes(_, _, _) => ParsesWrBytes(adu)
  }

  /** A reply that parses parses in no other length: nothing may follow it. */
  lemma ParsedWhole(q: Query, adu: seq<byte>, more: seq<byte>)
    requires Parses(q, adu) && more != []
    ensures !Parses(q, adu + more)
  {
    hide Intact, Count;
  }

  lemma EcodeWhole(adu: seq<byte>, more: seq<byte>)
    requires Ecode(adu).Some? && more != []
    ensures Ecode(adu + more).None?
  {
    hide Intact;
  }

  /** No frame is both the reply to a write of bytes and the reply to a write of registers, or an exception. */
  lemma ParsersDisjoint(adu: seq<byte>)
    ensures !(ParsesWrBytes(adu) && (ParsesWrRegister(adu) || ParsesWrRegisters(adu)))
    ensures Ecode(adu).Some? ==>
      !ParsesWrBytes(adu) && !ParsesWrRegister(adu) && !ParsesWrRegisters(adu) && !ParsesRdBytes(adu)
    ensures Ecode(adu).Some? && ParsesRdHoldingRegisters(adu) ==> adu[2] == 0
  {
    hide Intact;
  }

  // ---- The CRC helpers ----

  /** The CRC behind the first `end` bytes of a buffer, if `maxSize` leaves room for it. */
  method ImplaceCrcImpl(buffer: array<byte>, end: nat, maxSize: nat) returns (curr: Option<nat>)
    requires end + 2 <= maxSize ==> end + 2 <= buffer.Length
    modifies buffer
    ensures curr == if end + 2 > maxSize then None else Some(end + 2)
    ensures curr.None? ==> buffer[..] == old(buffer[..])
    ensures curr.Some? ==> buffer[..] == Sealed(old(buffer[..end])) + old(buffer[end + 2..])
  {
    if end + 2 > maxSize {
      return None;
    }
    hide Trailer;
    var low, high := CalcCrc(buffer, 0, end);
    SealAt(buffer[..], end, low, high);
    buffer[end] := low;
    buffer[end + 1] := high;
    return Some(end + 2);
  }

  lemma SealAt(a: seq<byte>, end: nat, low: byte, high: byte)
    requires end + 2 <= |a| && [low, high] == Trailer(a[0..end])
    ensures a[end := low][end + 1 := high] == Sealed(a[..end]) + a[end + 2..]
  {
    hide Trailer;
    assert a[0..end] == a[..end];
  }

  /** Puts the CRC into the last two bytes. */
  method ImplaceCrc(adu: array<byte>, aduSize: nat) returns (curr: Option<nat>)
    requires 2 <= aduSize <= adu.Length
    modifies adu
    ensures curr == Some(aduSize)
    ensures adu[..] == Sealed(old(adu[..aduSize - 2])) + old(adu[aduSize..])
  {
    curr := ImplaceCrcImpl(adu, aduSize - 2, aduSize);
  }

  /** Where the CRC of a frame starts, if the frame holds more than a CRC and is intact. */
  method ValidCrc(adu: array<byte>, aduSize: nat) returns (payloadEnd: Option<nat>)
    requires aduSize <= adu.Length
    ensures payloadEnd == if aduSize > 2 && Intact(adu[..aduSize]) then Some(aduSize - 2) else None
  {
    if aduSize <= 2 {
      return None;
    }
    hide Trailer;
    ghost var frame := adu[..aduSize];
    var crcLow, crcHigh := adu[aduSize - 2], adu[aduSize - 1];
    var low, high := CalcCrc(adu, 0, aduSize - 2);
    assert frame[|frame| - 2..] == [crcLow, crcHigh];
    assert frame[..|frame| - 2] == adu[0..aduSize - 2];
    if crcLow != low || crcHigh != high {
      return None;
    }
    return Some(aduSize - 2);
  }

  method ParseReplyRdHoldingRegisters(adu: array<byte>, aduSize: nat) returns (ok: bool)
    requires aduSize <= adu.Length
    ensures ok <==> aduSize >= 5 && aduSize == 5 + (adu[2] as nat) && Intact(adu[..aduSize])
    ensures ok == ParsesRdHoldingRegisters(adu[..aduSize])
  {
    hide Intact;
    if 5 > aduSize {
      return false;
    }
    if 5 + Count(adu[2]) != aduSize {
      return false;
    }
    var end := ValidCrc(adu, aduSize);
    return end.Some?;
  }

  method ParseReplyWrRegister(adu: array<byte>, aduSize: nat) returns (ok: bool)
    requires aduSize <= adu.Length
    ensures ok <==> aduSize == 8 && Intact(adu[..aduSize])
    ensures ok == ParsesWrRegister(adu[..aduSize])
  {
    hide Intact;
    if 8 != aduSize {
      return false;
    }
    var end := ValidCrc(adu, aduSize);
    return end.Some?;
  }

  method ParseReplyWrRegisters(adu: array<byte>, aduSize: nat) returns (ok: bool)
    requires aduSize <= adu.Length
    ensures ok <==> aduSize == 8 && Intact(adu[..aduSize])
    ensures ok == ParsesWrRegisters(adu[..aduSize])
  {
    hide Intact;
    var expectedSize := 1 + 1 + 2 + 2 + 2;
    if expectedSize != aduSize {
      return false;
    }
    var end := ValidCrc(adu, aduSize);
    return end.Some?;
  }

  method ParseReplyWrBytes(adu: array<byte>, aduSize: nat) returns (ok: bool)
    requires aduSize <= adu.Length
    ensures ok <==> aduSize == 7 && Intact(adu[..aduSize])
    ensures ok == ParsesWrBytes(adu[..aduSize])
  {
    hide Intact;
    var expectedSize := 1 + 1 + 2 + 1 + 2;
    if expectedSize != aduSize {
      return false;
    }
    var end := ValidCrc(adu, aduSize);
    return end.Some?;
  }

  method ParseReplyRdBytes(adu: array<byte>, aduSize: nat) returns (ok: bool)
    requires aduSize <= adu.Length
    ensures ok <==> aduSize >= 7 && aduSize == 7 + (adu[4] as nat) && Intact(adu[..aduSize])
    ensures ok == ParsesRdBytes(adu[..aduSize])
  {
    hide Intact;
    if 7 > aduSize {
      return false;
    }
    if 7 + Count(adu[4]) != aduSize {
      return false;
    }
    var end := ValidCrc(adu, aduSize);
    return end.Some?;
  }

  method FindEcode(adu: array<byte>, size: nat) returns (at: Option<nat>)
    requires size <= adu.Length
    ensures at == if size == 5 && Intact(adu[..size]) then Some(2) else None
    ensures at.Some? ==> Ecode(adu[..size]) == Some(adu[at.value])
    ensures at.None? ==> Ecode(adu[..size]) == None
  {
    hide Intact;
    if size != 5 {
      return None;
    }
    var end := ValidCrc(adu, size);
    return if end.Some? then Some(2) else None;
  }

  // ---- Builders ----

  /** A request is in a buffer, and the rest of the buffer is as it was. */
  ghost predicate Built(was: seq<byte>, now: seq<byte>, end: Option<nat>, adu: seq<byte>) {
    end.Some? && Written(was, now, 0, end.value, adu)
  }

  lemma InFront(slave: byte, p: seq<byte>)
    ensures |p| == 4 ==> [slave] + p == [slave, p[0], p[1], p[2], p[3]]
    ensures |p| == 5 ==> [slave] + p == [slave, p[0], p[1], p[2], p[3], p[4]]
  {
  }

  method MakeRequestRdHoldingRegisters(slave: byte, memAddr: Data16, count: Data16,
                                       dst: array?<byte>, maxSize: nat)
    returns (end: Option<nat>)
    requires dst != null ==> maxSize <= dst.Length
    modifies dst
    ensures end.None? <==> dst == null || 0x7D < Value(count) || 8 > maxSize
    ensures end.None? && dst != null ==> dst[..] == old(dst[..])
    ensures end.Some? ==> Built(old(dst[..]), dst[..], end, Adu(slave, RdHoldingRegisters(memAddr, count)))
  {
    if dst == null {
      return None;
    }
    if 0x7D < Value(count) {
      return None;
    }
    if 8 > maxSize {
      return None;
    }
    hide Sealed, Written;
    InFront(slave, [READ_REGISTERS, memAddr.high, memAddr.low, count.high, count.low]);
    end := CopyFixed(dst, [slave, READ_REGISTERS, memAddr.high, memAddr.low, count.high, count.low]);
  }

  /** A request that is built in a local struct, gets its CRC there and is copied as a whole. */
  method CopyFixed(dst: array<byte>, fields: seq<byte>) returns (end: Option<nat>)
    requires |fields| + 2 <= dst.Length
    modifies dst
    ensures Built(old(dst[..]), dst[..], end, Sealed(fields))
  {
    var req := new byte[|fields| + 2];
    forall i | 0 <= i < |fields| {
      req[i] := fields[i];
    }
    assert req[..|fields|] == fields;
    var done := ImplaceCrc(req, |fields| + 2);
    forall i | 0 <= i < |fields| + 2 {
      dst[i] := req[i];
    }
    end := Some(|fields| + 2);
  }

  method MakeRequestWrRegister(slave: byte, memAddr: Data16, data: Data16, dst: array<byte>, maxSize: nat)
    returns (end: Option<nat>)
    requires maxSize <= dst.Length
    modifies dst
    ensures end.None? <==> 8 > maxSize
    ensures end.None? ==> dst[..] == old(dst[..])
    ensures end.Some? ==> Built(old(dst[..]), dst[..], end, Adu(slave, WrRegister(memAddr, data)))
  {
    if 8 > maxSize {
      return None;
    }
    hide Sealed, Written;
    InFront(slave, [WRITE_REGISTER, memAddr.high, memAddr.low, data.high, data.low]);
    end := CopyFixed(dst, [slave, WRITE_REGISTER, memAddr.high, memAddr.low, data.high, data.low]);
  }

  method MakeRequestRdBytes(slave: byte, memAddr: Data16, count: byte, dst: array?<byte>, maxSize: nat)
    returns (end: Option<nat>)
    requires dst != null ==> maxSize <= dst.Length
    modifies dst
    ensures end.None? <==> dst == null || 249 < Count(count) || 7 > maxSize
    ensures end.None? && dst != null ==> dst[..] == old(dst[..])
    ensures end.Some? ==> Built(old(dst[..]), dst[..], end, Adu(slave, RdBytes(memAddr, count)))
  {
    if dst == null {
      return None;
    }
    if 249 < Count(count) {
      return None;
    }
    if 7 > maxSize {
      return None;
    }
    hide Sealed, Written;
    InFront(slave, [READ_BYTES, memAddr.high, memAddr.low, count]);
    end := CopyFixed(dst, [slave, READ_BYTES, memAddr.high, memAddr.low, count]);
  }

  method MakeRequestWrRegisters(slave: byte, memAddr: Data16, data: array?<Data16>, count: Data16,
                                dst: array?<byte>, maxSize: nat)
    returns (end: Option<nat>)
    requires dst != null ==> maxSize <= dst.Length
    requires data != null && dst != null ==> (data as object) != (dst as object)
    requires data != null && Value(count) <= 0x7B ==> Value(count) <= data.Length
    modifies dst
    ensures end.None? <==> data == null || dst == null || 0x7B < Value(count) || 9 + 2 * Value(count) > maxSize
    ensures end.None? && dst != null ==> dst[..] == old(dst[..])
    ensures end.Some? ==>
      Built(old(dst[..]), dst[..], end, Adu(slave, WrRegisters(memAddr, count, data[..Value(count)])))
  {
    if data == null || dst == null {
      return None;
    }
    if 0x7B < Value(count) {
      return None;
    }
    var num := Value(count);
    if 9 + 2 * num > maxSize {
      return None;
    }
    hide Value, Spread, Written, Splice, Sealed, Adu;
    var header := [slave, WRITE_REGISTERS, memAddr.high, memAddr.low, count.high, count.low, count.low << 1];
    AduOfWrRegisters(slave, memAddr, count, data[..num], header);
    ghost var was := dst[..];
    CopyHeader(dst, header);
    ghost var between := dst[..];
    CopyValues(dst, 7, data, num);
    WrittenTwice(was, between, dst[..], 0, 7, 7 + 2 * num, header, Spread(data[..num]));
    end := CloseRequest(dst, 7 + 2 * num, maxSize, was, header + Spread(data[..num]));
  }

  lemma AduOfWrRegisters(slave: byte, addr: Data16, count: Data16, values: seq<Data16>, header: seq<byte>)
    requires header == [slave, WRITE_REGISTERS, addr.high, addr.low, count.high, count.low, count.low << 1]
    ensures Adu(slave, WrRegisters(addr, count, values)) == Sealed(header + Spread(values))
  {
    assert [slave] + Pdu(WrRegisters(addr, count, values)) == header + Spread(values);
  }

  lemma AduOfWrBytes(slave: byte, addr: Data16, num: byte, data: seq<byte>, header: seq<byte>)
    requires header == [slave, WRITE_BYTES, addr.high, addr.low, num]
    ensures Adu(slave, WrBytes(addr, num, data)) == Sealed(header + data)
  {
    assert [slave] + Pdu(WrBytes(addr, num, data)) == header + data;
  }

  lemma TakeIsSlice(a: seq<byte>, n: nat)
    requires n <= |a|
    ensures a[0..n] == a[..n]
  {
  }

  /** The request is complete but for its CRC, for which there is room. */
  method CloseRequest(dst: array<byte>, curr: nat, maxSize: nat, ghost was: seq<byte>, ghost data: seq<byte>)
    returns (end: Option<nat>)
    requires Written(was, dst[..], 0, curr, data) && curr + 2 <= maxSize <= dst.Length
    modifies dst
    ensures Built(was, dst[..], end, Sealed(data))
  {
    hide Sealed;
    ghost var between := dst[..];
    end := ImplaceCrcImpl(dst, curr, maxSize);
    SealedBehind(was, between, dst[..], curr, data);
  }

  method CopyHeader(dst: array<byte>, header: seq<byte>)
    requires |header| <= dst.Length
    modifies dst
    ensures Written(old(dst[..]), dst[..], 0, |header|, header)
  {
    forall i | 0 <= i < |header| {
      dst[i] := header[i];
    }
  }

  method CopyValues(dst: array<byte>, at: nat, data: array<Data16>, num: nat)
    requires (data as object) != (dst as object) && num <= data.Length && at + 2 * num <= dst.Length
    modifies dst
    ensures Written(old(dst[..]), dst[..], at, at + 2 * num, Spread(data[..num]))
  {
    hide Spread, Written, Splice;
    ghost var was := dst[..];
    NoValues();
    assert data[..0] == [];
    WrittenNothing(was, at);
    var curr := 0;
    while curr < num
      invariant 0 <= curr <= num
      invariant Written(was, dst[..], at, at + 2 * curr, Spread(data[..curr]))
    {
      ghost var now := dst[..];
      SpreadNext(data[..curr], data[curr]);
      assert data[..curr] + [data[curr]] == data[..curr + 1];
      WrittenPair(was, now, at, at + 2 * curr, Spread(data[..curr]), data[curr]);
      dst[at + 2 * curr] := data[curr].high;
      dst[at + 2 * curr + 1] := data[curr].low;
      assert dst[..] == now[at + 2 * curr := data[curr].high][at + 2 * curr + 1 := data[curr].low];
      curr := curr + 1;
    }
  }

  lemma WrittenPair(was: seq<byte>, now: seq<byte>, at: nat, next: nat, data: seq<byte>, more: Data16)
    requires Written(was, now, at, next, data) && next + 1 < |was|
    ensures |now| == |was|
    ensures Written(was, now[next := more.high][next + 1 := more.low], at, next + 2, data + [more.high, more.low])
  {
    WrittenByte(was, now, at, next, data, more.high);
    WrittenByte(was, now[next := more.high], at, next + 1, data + [more.high], more.low);
    assert data + [more.high] + [more.low] == data + [more.high, more.low];
  }

  /** The CRC goes behind what has been written. */
  lemma SealedBehind(was: seq<byte>, between: seq<byte>, now: seq<byte>, end: nat, data: seq<byte>)
    requires Written(was, between, 0, end, data) && end + 2 <= |was|
    requires now == Sealed(between[..end]) + between[end + 2..]
    ensures Written(was, now, 0, end + 2, Sealed(data))
  {
    hide Trailer;
    assert between[..end] == data;
    assert between[end + 2..] == was[end + 2..];
  }

  lemma NoValues()
    ensures Spread([]) == []
  {
  }

  lemma SpreadNext(values: seq<Data16>, more: Data16)
    ensures Spread(values + [more]) == Spread(values) + [more.high, more.low]
  {
  }

  method MakeRequestWrBytes(slave: byte, memAddr: Data16, data: array?<byte>, count: byte,
                            dst: array?<byte>, maxSize: nat)
    returns (end: Option<nat>)
    requires dst != null ==> maxSize <= dst.Length
    requires data != null ==> data != dst && (Count(count) <= 249 ==> Count(count) <= data.Length)
    modifies dst
    ensures end.None? <==> dst == null || data == null || 249 < Count(count) || 7 + Count(count) > maxSize
    ensures end.None? && dst != null ==> dst[..] == old(dst[..])
    ensures end.Some? ==>
      Built(old(dst[..]), dst[..], end, Adu(slave, WrBytes(memAddr, count, old(data[..Count(count)]))))
  {
    if dst == null || data == null {
      return None;
    }
    if 249 < Count(count) {
      return None;
    }
    var num := Count(count);
    if 7 + num > maxSize {
      return None;
    }
    hide Count, Written, Splice, Sealed, Adu;
    ghost var bytes := data[..num];
    var header := [slave, WRITE_BYTES, memAddr.high, memAddr.low, count];
    AduOfWrBytes(slave, memAddr, count, bytes, header);
    end := FillRequest(dst, header, data, num, bytes, maxSize);
  }

  /** Header, data and CRC. */
  method FillRequest(dst: array<byte>, header: seq<byte>, data: array<byte>, num: nat, ghost bytes: seq<byte>,
                     maxSize: nat)
    returns (end: Option<nat>)
    requires dst != data && num <= data.Length && bytes == data[..num]
    requires |header| + num + 2 <= maxSize <= dst.Length
    modifies dst
    ensures Built(old(dst[..]), dst[..], end, Sealed(header + bytes))
  {
    hide Written, Sealed;
    ghost var was, size := dst[..], |header|;
    CopyHeader(dst, header);
    ghost var between := dst[..];
    CopyBytes(dst, |header|, data, num, bytes);
    WrittenTwice(was, between, dst[..], 0, size, size + num, header, bytes);
    end := CloseRequest(dst, |header| + num, maxSize, was, header + bytes);
  }

  method CopyBytes(dst: array<byte>, at: nat, data: array<byte>, num: nat, ghost bytes: seq<byte>)
    requires dst != data && num <= data.Length && at + num <= dst.Length && bytes == data[..num]
    modifies dst
    ensures Written(old(dst[..]), dst[..], at, at + num, bytes)
  {
    hide Written;
    TakeIsSlice(data[..], num);
    Memcpy(dst, at, data, 0, num);
  }
}
