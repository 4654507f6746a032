/**
 rtu_memory.c on its buffers: the handlers read the request from the receive buffer, write the
 reply into the transmit buffer from an index on, and change the memory in place. Each is proved
 against its effect.
 */
module MemoryHandler {
  import opened Buffers
  import opened Words
  import opened Memory

  /** The longest reply without the address byte. */
  const REPLY_MAX := 253

  method Rd16(src: array<byte>, curr: nat) returns (data: nat)
    requires curr + 2 <= src.Length
    ensures data / 256 == src[curr] as nat && data % 256 == src[curr + 1] as nat
    ensures data == Number(src[curr], src[curr + 1])
  {
    var high := src[curr];
    var low := src[curr + 1];
    data := (high as nat) * 256 + (low as nat);
  }

  /** rd16 inside a request, as a field of the request. */
  method RdField(src: array<byte>, begin: nat, end: nat, curr: nat) returns (data: nat)
    requires begin <= curr && curr + 2 <= end <= src.Length
    ensures data == NumberAt(src[begin..end], curr - begin)
  {
    data := Rd16(src, curr);
  }

  /** Two bytes, high byte first. */
  method Wr16(dst: array<byte>, at: nat, high: byte, low: byte) returns (next: nat)
    requires at + 2 <= dst.Length
    modifies dst
    ensures next == at + 2 && Written(old(dst[..]), dst[..], at, next, [high, low])
  {
    dst[at] := high;
    dst[at + 1] := low;
    next := at + 2;
  }

  method Except(fcode: byte, ecode: byte, dst: array<byte>, reply: nat) returns (next: nat)
    requires reply + 2 <= dst.Length
    modifies dst
    ensures Written(old(dst[..]), dst[..], reply, next, Exception(fcode, ecode))
  {
    dst[reply] := fcode + 0x80;
    dst[reply + 1] := ecode;
    next := reply + 2;
  }

  lemma {:induction false} FittingIs(p: seq<byte>, n: nat)
    requires 2 * n <= |p| && forall i :: 0 <= i < n ==> p[2 * i] == 0
    requires 2 * n + 1 < |p| ==> p[2 * n] != 0
    ensures Fitting(p) == n
    decreases |p|
  {
    if n > 0 {
      assert p[2 * 0] == 0;
      assert forall i :: 0 <= i < n - 1 ==> p[2..][2 * i] == p[2 * (i + 1)];
      FittingIs(p[2..], n - 1);
    }
  }

  lemma ReadsStoreNothing(s: Store, p: seq<byte>)
    requires s.Valid()
    ensures Memory.ReadN16(s, p).data == [] && Memory.ReadN8(s, p).data == []
  {
  }

  lemma ByteRequestParts(a: seq<byte>, begin: nat, end: nat)
    requires begin + 4 <= end <= |a|
    ensures a[begin..end][4..] == a[begin + 4..end] && a[begin..end][..4] == a[begin..begin + 4]
  {
  }

  lemma RequestParts(a: seq<byte>, begin: nat, end: nat)
    requires begin + 6 <= end <= |a|
    ensures a[begin..end][6..] == a[begin + 6..end] && a[begin..end][..5] == a[begin..begin + 5]
  {
  }

  lemma ApplySplices(s: Store, e: Effect)
    requires s.Valid() && s.begin <= e.addr && e.addr + |e.data| <= s.end
    ensures Apply(s, e) == s.(bytes := Splice(s.bytes, e.addr - s.begin, e.data))
  {
    SpliceNone(s.bytes, e.addr - s.begin);
  }

  lemma NarrowNone(p: seq<byte>)
    ensures Narrow(p, 0) == []
  {
  }

  lemma NarrowNext(p: seq<byte>, n: nat)
    requires 2 * n + 1 < |p|
    ensures Narrow(p, n + 1) == Narrow(p, n) + [p[2 * n + 1]]
  {
  }

  lemma NoWrap(x: nat)
    requires x < 65536
    ensures x % 65536 == x
  {
  }

  lemma WidenNext(bytes: seq<byte>, more: byte)
    ensures Widen(bytes + [more]) == Widen(bytes) + [0, more]
  {
  }

  class RtuMemory {
    const addrBegin: nat
    const addrEnd: nat
    const bytes: array<byte>

    ghost predicate Valid() {
      addrBegin <= addrEnd < 65536 && bytes.Length == addrEnd - addrBegin
    }

    ghost function Contents(): (s: Store)
      requires Valid()
      reads bytes
      ensures s.Valid()
    {
      Store(addrBegin, addrEnd, bytes[..])
    }

    /** A cleared memory behind a window. */
    constructor (addrBegin: nat, addrEnd: nat)
      requires addrBegin <= addrEnd < 65536
      ensures Valid() && fresh(bytes)
      ensures Contents() == Store(addrBegin, addrEnd, seq(addrEnd - addrBegin, _ => 0))
    {
      this.addrBegin, this.addrEnd := addrBegin, addrEnd;
      bytes := new byte[addrEnd - addrBegin](_ => 0);
    }

    method ReadN16(src: array<byte>, begin: nat, end: nat, curr: nat, dst: array<byte>, reply: nat)
      returns (next: nat)
      requires Valid() && dst != src && dst != bytes
      requires curr == begin + 1 && curr <= end <= src.Length && reply + REPLY_MAX <= dst.Length
      modifies dst
      ensures var e := old(Memory.ReadN16(Contents(), src[begin..end]));
        Written(old(dst[..]), dst[..], reply, next, e.reply)
    {
      hide Written, Splice, Widen, Exception, Number, Count, TwiceAsByte;
      ghost var p := src[begin..end];
      ghost var e := Memory.ReadN16(Contents(), p);
      if 5 > end - begin {
        next := Except(WRITE_BYTES, FORMAT_ERROR, dst, reply);
        assert e.reply == Exception(WRITE_BYTES, FORMAT_ERROR);
        return;
      }
      var addr := RdField(src, begin, end, curr);
      if !(addrEnd > addr && addrBegin <= addr) {
        assert e.reply == Exception(READ_REGISTERS, ILLEGAL_ADDRESS);
        next := Except(READ_REGISTERS, ILLEGAL_ADDRESS, dst, reply);
        return;
      }
      var num := RdField(src, begin, end, curr + 2);
      if !(0 < num && 0x7E > num) {
        assert e.reply == Exception(READ_REGISTERS, ILLEGAL_VALUE);
        next := Except(READ_REGISTERS, ILLEGAL_VALUE, dst, reply);
        return;
      }
      if !(addrEnd >= addr + num) {
        assert e.reply == Exception(READ_REGISTERS, ILLEGAL_ADDRESS);
        next := Except(READ_REGISTERS, ILLEGAL_ADDRESS, dst, reply);
        return;
      }
      assert e.reply == [READ_REGISTERS, TwiceAsByte(num)]
        + Widen(bytes[addr - addrBegin..addr - addrBegin + num]);
      hide Memory.ReadN16, NumberAt;
      next := AnswerRegisters(addr, num, dst, reply);
    }

    /** The end of read_n16: the two leading bytes and the loop. */
    method AnswerRegisters(addr: nat, num: nat, dst: array<byte>, reply: nat) returns (next: nat)
      requires Valid() && dst != bytes && 0 < num < 0x7E
      requires addrBegin <= addr && addr + num <= addrEnd && reply + REPLY_MAX <= dst.Length
      modifies dst
      ensures Written(old(dst[..]), dst[..], reply, next,
        [READ_REGISTERS, TwiceAsByte(num)] + Widen(bytes[addr - addrBegin..addr - addrBegin + num]))
    {
      hide Written, Splice, Widen, TwiceAsByte;
      ghost var was := dst[..];
      NoWrap(addr - addrBegin);
      var offset := (addr - addrBegin) % 65536;
      var byteCount := TwiceAsByte(num);
      next := Wr16(dst, reply, READ_REGISTERS, byteCount);
      ghost var mid, between := next, dst[..];
      next := WidenOut(offset, num, dst, next);
      WrittenTwice(was, between, dst[..], reply, mid, next,
                   [READ_REGISTERS, byteCount], Widen(bytes[offset..offset + num]));
    }

    /** The loop of read_n16. */
    method WidenOut(offset: nat, num: nat, dst: array<byte>, at: nat) returns (next: nat)
      requires dst != bytes && offset + num <= bytes.Length < 65536 && at + 2 * num <= dst.Length
      modifies dst
      ensures Written(old(dst[..]), dst[..], at, next, Widen(bytes[offset..offset + num]))
    {
      hide Written, Splice, Widen;
      ghost var was := dst[..];
      WrittenNothing(was, at);
      assert bytes[offset..offset] == [] && Widen([]) == [];
      NoWrap(offset + num);
      var curr := offset;
      var offsetEnd := (offset + num) % 65536;
      next := at;
      while curr != offsetEnd
        invariant offset <= curr <= offset + num
        invariant next == at + 2 * (curr - offset)
        invariant Written(was, dst[..], at, next, Widen(bytes[offset..curr]))
        decreases offset + num - curr
      {
        ghost var between, mid := dst[..], next;
        var data := bytes[curr];
        next := Wr16(dst, next, 0, data);
        WrittenTwice(was, between, dst[..], at, mid, next, Widen(bytes[offset..curr]), [0, data]);
        WidenNext(bytes[offset..curr], data);
        assert bytes[offset..curr] + [data] == bytes[offset..curr + 1];
        NoWrap(curr + 1);
        curr := (curr + 1) % 65536;
      }
    }

    method Write16(src: array<byte>, begin: nat, end: nat, curr: nat, dst: array<byte>, reply: nat)
      returns (next: nat)
      requires Valid() && dst != src && dst != bytes && src != bytes
      requires curr == begin + 1 && curr <= end <= src.Length && reply + REPLY_MAX <= dst.Length
      requires Window16(Contents(), src[begin..end])
      modifies dst, bytes
      ensures var e := old(Memory.Write16(Contents(), src[begin..end]));
        && Inside(old(Contents()), e) && Contents() == Apply(old(Contents()), e)
        && Written(old(dst[..]), dst[..], reply, next, e.reply)
    {
      hide Written, Exception, Number, Count;
      ghost var was, p, s := dst[..], src[begin..end], Contents();
      ghost var e := Memory.Write16(s, p);
      if 5 > end - begin {
        next := Except(WRITE_BYTES, FORMAT_ERROR, dst, reply);
        return;
      }
      var addr := RdField(src, begin, end, curr);
      if !(addrEnd > addr) {
        next := Except(WRITE_REGISTER, ILLEGAL_ADDRESS, dst, reply);
        return;
      }
      var high, low := src[curr + 2], src[curr + 3];
      assert high == p[3] && low == p[4];
      if high != 0 {
        next := Except(WRITE_REGISTER, ILLEGAL_VALUE, dst, reply);
        return;
      }
      assert e == Effect(addr, [low], p[..5]);
      bytes[addr - addrBegin] := low;
      assert Contents() == Apply(s, e);
      Memcpy(dst, reply, src, begin, 5);
      assert src[begin..begin + 5] == p[..5];
      next := reply + 5;
    }

    method WriteN16(src: array<byte>, begin: nat, end: nat, curr: nat, dst: array<byte>, reply: nat)
      returns (next: nat)
      requires Valid() && dst != src && dst != bytes && src != bytes
      requires curr == begin + 1 && curr <= end < src.Length && reply + REPLY_MAX <= dst.Length
      requires WindowN16(Contents(), src[begin..end])
      modifies dst, bytes
      ensures var e := old(Memory.WriteN16(Contents(), src[begin..end], src[end]));
        && Inside(old(Contents()), e) && Contents() == Apply(old(Contents()), e)
        && Written(old(dst[..]), dst[..], reply, next, e.reply)
    {
      hide Written, Exception, Number, Count, Splice, Narrow, Fitting;
      ghost var was, p, s := dst[..], src[begin..end], Contents();
      ghost var e := Memory.WriteN16(s, p, src[end]);
      if 5 > end - begin {
        next := Except(WRITE_BYTES, FORMAT_ERROR, dst, reply);
        return;
      }
      var addr := RdField(src, begin, end, curr);
      if !(addrEnd > addr) {
        next := Except(WRITE_REGISTERS, ILLEGAL_ADDRESS, dst, reply);
        return;
      }
      var num := RdField(src, begin, end, curr + 2);
      if !(0 < num && 0x7C > num) {
        next := Except(WRITE_REGISTERS, ILLEGAL_VALUE, dst, reply);
        return;
      }
      var byteCount := Count(src[curr + 4]);
      assert src[curr + 4] == (p + [src[end]])[5];
      if byteCount != 2 * num {
        next := Except(WRITE_REGISTERS, ILLEGAL_VALUE, dst, reply);
        return;
      }
      if byteCount != end - (curr + 5) {
        next := Except(WRITE_REGISTERS, FORMAT_ERROR, dst, reply);
        return;
      }
      ghost var values := p[6..];
      assert e == Effect(addr, Narrow(values, Fitting(values)),
        if Fitting(values) == num then p[..5] else Exception(WRITE_REGISTERS, ILLEGAL_VALUE));
      ApplySplices(s, e);
      hide Memory.WriteN16, WindowN16, NumberAt;
      RequestParts(src[..], begin, end);
      assert end == begin + 6 + 2 * num;
      next := AcceptRegisters(src, begin, addr, num, dst, reply, values);
    }

    /** The end of write_n16: the loop, and the echo if it has stored everything. */
    method AcceptRegisters(src: array<byte>, begin: nat, addr: nat, num: nat,
                           dst: array<byte>, reply: nat, ghost values: seq<byte>)
      returns (next: nat)
      requires Valid() && dst != src && dst != bytes && src != bytes
      requires addrBegin <= addr && addr + num <= addrEnd && reply + REPLY_MAX <= dst.Length
      requires begin + 6 + 2 * num <= src.Length && values == src[begin + 6..begin + 6 + 2 * num]
      modifies dst, bytes
      ensures bytes[..] == Splice(old(bytes[..]), addr - addrBegin, Narrow(values, Fitting(values)))
      ensures Written(old(dst[..]), dst[..], reply, next,
        if Fitting(values) == num then old(src[begin..begin + 5]) else Exception(WRITE_REGISTERS, ILLEGAL_VALUE))
    {
      hide Written, Exception, Splice, Narrow, Fitting;
      var fits := StoreRegisters(src, begin + 6, addr, num, values);
      if fits {
        Memcpy(dst, reply, src, begin, 5);
        next := reply + 5;
      } else {
        next := Except(WRITE_REGISTERS, ILLEGAL_VALUE, dst, reply);
      }
    }

    /** The loop of write_n16: it stops at the first register whose high byte is not zero. */
    method StoreRegisters(src: array<byte>, from: nat, addr: nat, num: nat, ghost values: seq<byte>)
      returns (fits: bool)
      requires Valid() && src != bytes
      requires addrBegin <= addr && addr + num <= addrEnd && from + 2 * num <= src.Length
      requires values == src[from..from + 2 * num]
      modifies bytes
      ensures fits == (Fitting(values) == num)
      ensures bytes[..] == Splice(old(bytes[..]), addr - addrBegin, Narrow(values, Fitting(values)))
    {
      hide Splice, Narrow, Fitting;
      ghost var was := bytes[..];
      NoWrap(addr - addrBegin);
      NoWrap(addr - addrBegin + num);
      var offset := (addr - addrBegin) % 65536;
      var offsetEnd := (offset + num) % 65536;
      var curr := from;
      ghost var k := 0;
      NarrowNone(values);
      SpliceNone(was, offset);
      while offset != offsetEnd
        invariant 0 <= k <= num && offset == addr - addrBegin + k && curr == from + 2 * k
        invariant forall i :: 0 <= i < k ==> values[2 * i] == 0
        invariant bytes[..] == Splice(was, addr - addrBegin, Narrow(values, k))
        decreases num - k
      {
        assert src[curr] == values[2 * k] && src[curr + 1] == values[2 * k + 1];
        var high, low := src[curr], src[curr + 1];
        curr := curr + 2;
        if high != 0 {
          FittingIs(values, k);
          return false;
        }
        bytes[offset] := low;
        NarrowNext(values, k);
        SpliceNext(was, addr - addrBegin, Narrow(values, k), low);
        NoWrap(offset + 1);
        offset := (offset + 1) % 65536;
        k := k + 1;
      }
      FittingIs(values, num);
      fits := true;
    }

    method ReadN8(src: array<byte>, begin: nat, end: nat, curr: nat, dst: array<byte>, reply: nat)
      returns (next: nat)
      requires Valid() && dst != src && dst != bytes
      requires curr == begin + 1 && curr <= end <= src.Length && reply + REPLY_MAX <= dst.Length
      modifies dst
      ensures var e := old(Memory.ReadN8(Contents(), src[begin..end]));
        Written(old(dst[..]), dst[..], reply, next, e.reply)
    {
      hide Written, Splice, Exception, Number, Count;
      ghost var was, p := dst[..], src[begin..end];
      ghost var e := Memory.ReadN8(Contents(), p);
      if 4 > end - begin {
        next := Except(WRITE_BYTES, FORMAT_ERROR, dst, reply);
        return;
      }
      var addr := RdField(src, begin, end, curr);
      if !(addrEnd > addr && addrBegin <= addr) {
        next := Except(READ_BYTES, ILLEGAL_ADDRESS, dst, reply);
        return;
      }
      var num := Count(src[curr + 2]);
      assert src[curr + 2] == p[3];
      if !(0 < num && 250 > num) {
        next := Except(READ_BYTES, ILLEGAL_VALUE, dst, reply);
        return;
      }
      if !(addrEnd >= addr + num) {
        next := Except(READ_BYTES, ILLEGAL_ADDRESS, dst, reply);
        return;
      }
      NoWrap(addr - addrBegin);
      var offset := (addr - addrBegin) % 65536;
      assert e.reply == p[..4] + bytes[offset..offset + num];
      hide Memory.ReadN8, NumberAt;
      ByteRequestParts(src[..], begin, end);
      Memcpy(dst, reply, src, begin, 4);
      ghost var between := dst[..];
      next := CopyOut(offset, num, dst, reply + 4);
      WrittenTwice(was, between, dst[..], reply, reply + 4, next, p[..4], bytes[offset..offset + num]);
    }

    /** The loop of read_n8. */
    method CopyOut(offset: nat, num: nat, dst: array<byte>, at: nat) returns (next: nat)
      requires dst != bytes && offset + num <= bytes.Length < 65536 && at + num <= dst.Length
      modifies dst
      ensures Written(old(dst[..]), dst[..], at, next, bytes[offset..offset + num])
    {
      hide Written, Splice;
      ghost var was := dst[..];
      WrittenNothing(was, at);
      assert bytes[offset..offset] == [];
      NoWrap(offset + num);
      var curr := offset;
      var offsetEnd := (offset + num) % 65536;
      next := at;
      while curr != offsetEnd
        invariant offset <= curr <= offset + num
        invariant next == at + (curr - offset)
        invariant Written(was, dst[..], at, next, bytes[offset..curr])
        decreases offset + num - curr
      {
        WrittenByte(was, dst[..], at, next, bytes[offset..curr], bytes[curr]);
        assert bytes[offset..curr] + [bytes[curr]] == bytes[offset..curr + 1];
        dst[next] := bytes[curr];
        next := next + 1;
        NoWrap(curr + 1);
        curr := (curr + 1) % 65536;
      }
    }

    method WriteN8(src: array<byte>, begin: nat, end: nat, curr: nat, dst: array<byte>, reply: nat)
      returns (next: nat)
      requires Valid() && dst != src && dst != bytes && src != bytes
      requires curr == begin + 1 && curr <= end <= src.Length && reply + REPLY_MAX <= dst.Length
      requires WindowN8(Contents(), src[begin..end])
      modifies dst, bytes
      ensures var e := old(Memory.WriteN8(Contents(), src[begin..end]));
        && Inside(old(Contents()), e) && Contents() == Apply(old(Contents()), e)
        && Written(old(dst[..]), dst[..], reply, next, e.reply)
    {
      hide Written, Splice, Exception, Number, Count;
      ghost var p, s := src[begin..end], Contents();
      ghost var e := Memory.WriteN8(s, p);
      if 4 > end - begin {
        next := Except(WRITE_BYTES, FORMAT_ERROR, dst, reply);
        return;
      }
      var addr := RdField(src, begin, end, curr);
      if !(addrEnd > addr) {
        next := Except(WRITE_BYTES, ILLEGAL_ADDRESS, dst, reply);
        return;
      }
      var num := Count(src[curr + 2]);
      assert src[curr + 2] == p[3];
      if !(0 < num && 250 > num) {
        next := Except(WRITE_BYTES, ILLEGAL_VALUE, dst, reply);
        return;
      }
      if num != end - (curr + 3) {
        next := Except(WRITE_BYTES, ILLEGAL_VALUE, dst, reply);
        return;
      }
      assert e == Effect(addr, p[4..], p[..4]);
      ApplySplices(s, e);
      hide Memory.WriteN8, WindowN8, NumberAt, Apply;
      ByteRequestParts(src[..], begin, end);
      assert end == begin + 4 + num;
      next := AcceptBytes(src, begin, addr, num, dst, reply, p[4..]);
    }

    /** The end of write_n8: the loop and the echo. */
    method AcceptBytes(src: array<byte>, begin: nat, addr: nat, num: nat,
                       dst: array<byte>, reply: nat, ghost values: seq<byte>)
      returns (next: nat)
      requires Valid() && dst != src && dst != bytes && src != bytes
      requires addrBegin <= addr && addr + num <= addrEnd && reply + REPLY_MAX <= dst.Length
      requires begin + 4 + num <= src.Length && values == src[begin + 4..begin + 4 + num]
      modifies dst, bytes
      ensures bytes[..] == Splice(old(bytes[..]), addr - addrBegin, values)
      ensures Written(old(dst[..]), dst[..], reply, next, old(src[begin..begin + 4]))
    {
      hide Written, Splice;
      StoreBytes(src, begin + 4, addr, num, values);
      Memcpy(dst, reply, src, begin, 4);
      next := reply + 4;
    }

    /** The loop of write_n8. */
    method StoreBytes(src: array<byte>, from: nat, addr: nat, num: nat, ghost values: seq<byte>)
      requires Valid() && src != bytes
      requires addrBegin <= addr && addr + num <= addrEnd && from + num <= src.Length
      requires values == src[from..from + num]
      modifies bytes
      ensures bytes[..] == Splice(old(bytes[..]), addr - addrBegin, values)
    {
      hide Splice;
      ghost var was := bytes[..];
      NoWrap(addr - addrBegin);
      NoWrap(addr - addrBegin + num);
      var offset := (addr - addrBegin) % 65536;
      var offsetEnd := (offset + num) % 65536;
      var curr := from;
      ghost var k := 0;
      assert values[..0] == [];
      SpliceNone(was, offset);
      while offset != offsetEnd
        invariant 0 <= k <= num && offset == addr - addrBegin + k && curr == from + k
        invariant bytes[..] == Splice(was, addr - addrBegin, values[..k])
        decreases num - k
      {
        assert src[curr] == values[k];
        SpliceNext(was, addr - addrBegin, values[..k], values[k]);
        assert values[..k] + [values[k]] == values[..k + 1];
        bytes[offset] := src[curr];
        curr := curr + 1;
        NoWrap(offset + 1);
        offset := (offset + 1) % 65536;
        k := k + 1;
      }
      assert values[..num] == values;
    }

    /** `begin` is the index of the function code, `end` that of the CRC. */
    method PduCb(fcode: byte, src: array<byte>, begin: nat, end: nat, curr: nat, dst: array<byte>, reply: nat)
      returns (next: nat)
      requires Valid() && dst != src && dst != bytes && src != bytes
      requires curr == begin + 1 && curr <= end < src.Length && reply + REPLY_MAX <= dst.Length
      requires fcode == src[begin] && Window(Contents(), src[begin..end])
      modifies dst, bytes
      ensures var e := old(Handle(Contents(), src[begin..end], src[end]));
        && Inside(old(Contents()), e) && Contents() == Apply(old(Contents()), e)
        && Written(old(dst[..]), dst[..], reply, next, e.reply)
    {
      hide Written, Splice, Exception, Memory.ReadN16, Memory.Write16, Memory.WriteN16, Memory.ReadN8, Memory.WriteN8;
      ghost var p := src[begin..end];
      ReadsStoreNothing(Contents(), p);
      assert p[0] == fcode;
      if READ_REGISTERS == fcode {
        next := ReadN16(src, begin, end, curr, dst, reply);
      } else if WRITE_REGISTER == fcode {
        next := Write16(src, begin, end, curr, dst, reply);
      } else if WRITE_REGISTERS == fcode {
        next := WriteN16(src, begin, end, curr, dst, reply);
      } else if READ_BYTES == fcode {
        next := ReadN8(src, begin, end, curr, dst, reply);
      } else if WRITE_BYTES == fcode {
        next := WriteN8(src, begin, end, curr, dst, reply);
      } else {
        next := Except(fcode, ILLEGAL_FUNCTION, dst, reply);
      }
    }
  }
}
