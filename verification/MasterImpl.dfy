/**
 linux/master_impl.c over a line without noise: the master writes a request, the slave on the
 line hears it in silence and replies, and the master reads as many bytes as it expects.
 */
module MasterImpl {
  import opened Buffers
  import opened Words
  import opened Crc
  import opened Framing
  import opened Splitter
  import opened Eager
  import opened Memory
  import opened MemoryMap
  import opened Devices
  import opened Master
  import opened Telegrams
  import opened Transactions

  function Moments(inputs: seq<Input>, now: int): (trace: seq<Moment>)
    ensures |trace| == |inputs|
  {
    seq(|inputs|, i requires 0 <= i < |inputs| => Moment(now, now, inputs[i]))
  }

  function Flatten(frames: seq<seq<byte>>): seq<byte> {
    if frames == [] then [] else frames[0] + Flatten(frames[1..])
  }

  /** The slave on the line, and what it has sent that the master has not read. */
  class Line {
    var slave: State<Device>
    var inbox: seq<byte>
    var clock: int

    constructor (slave: State<Device>)
      ensures this.slave == slave && inbox == []
    {
      this.slave, inbox, clock := slave, [], 0;
    }

    method Write(data: array<byte>, size: nat) returns (ghost trace: seq<Moment>)
      requires size <= data.Length
      modifies this
      ensures Inputs(trace) == Telegram(data[..size])
      ensures slave == EagerRun(old(slave), trace, Respond)
      ensures |slave.sent| >= |old(slave).sent| ==>
        inbox == old(inbox) + Flatten(slave.sent[|old(slave).sent|..])
    {
      var moments := Moments(Telegram(data[..size]), clock);
      assert Inputs(moments) == Telegram(data[..size]);
      var next := EagerRun(slave, moments, Respond);
      if |next.sent| >= |slave.sent| {
        inbox := inbox + Flatten(next.sent[|slave.sent|..]);
      }
      slave := next;
      trace := moments;
    }

    /** Gives up when fewer bytes come than are asked for. */
    method Read(buffer: array<byte>, size: nat) returns (ok: bool)
      requires size <= buffer.Length
      modifies this`inbox, buffer
      ensures ok == (|old(inbox)| >= size)
      ensures ok ==> buffer[..size] == old(inbox)[..size] && inbox == old(inbox)[size..]
      ensures !ok ==> inbox == []
    {
      var n := if |inbox| < size then |inbox| else size;
      forall i | 0 <= i < n {
        buffer[i] := inbox[i];
      }
      inbox := inbox[n..];
      ok := n == size;
    }
  }

  lemma OneFrame(frame: seq<byte>)
    ensures Flatten([frame]) == frame
  {
    assert [frame][1..] == [];
  }

  /** The line is ready for a request to a slave. */
  ghost predicate LineFree(line: Line, slave: byte)
    reads line
  {
    Serves(line.slave, slave) && line.inbox == []
  }

  /**
   What a transaction has done to the slave, and the reply that waits to be read. Of a write
   outside the window only the reply is known.
   */
  ghost predicate Answered(before: State<Device>, line: Line, slave: byte, q: Query, reply: seq<byte>)
    requires before.user.content.Known?
    reads line
  {
    && line.inbox == reply && Listening(line.slave) && line.slave.user.self == slave
    && (Parses(q, reply) ==> !Empty(q) && |reply| == ReplySize(q))
    && (!Parses(q, reply) ==> |reply| == 5)
    && (Empty(q) ==> line.slave.user == before.user)
    && (!Empty(q) && InWindow(before.user, Adu(slave, q)) ==>
         && Serves(line.slave, slave)
         && StoreOf(line.slave).begin == StoreOf(before).begin && StoreOf(line.slave).end == StoreOf(before).end
         && View(StoreOf(line.slave)) == Asked(before, q).0
         && Carries(q, Asked(before, q).1, reply))
  }

  /** write_impl of a request. */
  method Send(line: Line, slave: byte, adu: array<byte>, size: nat, ghost q: Query) returns (ghost reply: seq<byte>)
    requires LineFree(line, slave) && Buildable(q) && size <= adu.Length && adu[..size] == Adu(slave, q)
    modifies line
    ensures Answered(old(line.slave), line, slave, q, reply)
  {
    ghost var s := line.slave;
    ghost var trace := line.Write(adu, size);
    Transaction(s, trace, slave, q);
    RepliesUnambiguous(slave, StoreOf(s), q, BehindOf(Adu(slave, q)));
    hide Adu, Ask, View, EagerRun, Carries, Buildable, Empty, InWindow, Listening, Parses, Ecode, ReplyTo, ReplySize;
    reply := line.slave.sent[|s.sent|];
    assert line.slave.sent[|s.sent|..] == [reply];
    OneFrame(reply);
  }

  /** read_impl of the reply: a reply that parses is read as a whole, and nothing is left on the line. */
  method Receive(line: Line, slave: byte, rxBuf: array<byte>, ghost before: State<Device>, ghost q: Query,
                 ghost reply: seq<byte>, expectedSize: nat)
    returns (ok: bool)
    requires before.user.content.Known? && Answered(before, line, slave, q, reply) && Buildable(q)
    requires expectedSize == ReplySize(q) <= rxBuf.Length
    modifies line, rxBuf
    ensures line.slave == old(line.slave) && line.inbox == []
    ensures Parses(q, reply) ==> ok
    ensures ok ==> rxBuf[..expectedSize] == reply
  {
    ReplySizes(q);
    hide Carries, Asked, View, ReplySize, Parses, Buildable, Empty, InWindow, Adu;
    ok := line.Read(rxBuf, expectedSize);
    if ok {
      assert reply[..expectedSize] == reply && reply[expectedSize..] == [];
    }
  }

  lemma BuiltPrefix(was: seq<byte>, now: seq<byte>, end: Option<nat>, adu: seq<byte>)
    requires Built(was, now, end, adu)
    ensures end == Some(|adu|) && |adu| <= |now| && now[..|adu|] == adu
  {
  }

  /** What a caller of rtu_master learns: `ok`, and the slave afterwards. */
  ghost predicate Concluded(before: State<Device>, line: Line, slave: byte, q: Query, ok: bool)
    requires before.user.content.Known?
    reads line
  {
    && line.inbox == [] && Listening(line.slave) && line.slave.user.self == slave
    && (Empty(q) ==> !ok && line.slave.user == before.user)
    && (!Empty(q) && InWindow(before.user, Adu(slave, q)) ==>
         && LineFree(line, slave)
         && View(StoreOf(line.slave)) == Asked(before, q).0
         && ok == !Asked(before, q).1.Refused?)
  }

  lemma Concludes(before: State<Device>, line: Line, slave: byte, q: Query, reply: seq<byte>)
    requires before.user.content.Known? && Buildable(q)
    requires Listening(line.slave) && line.slave.user.self == slave && line.inbox == []
    requires Parses(q, reply) ==> !Empty(q)
    requires Empty(q) ==> line.slave.user == before.user
    requires !Empty(q) && InWindow(before.user, Adu(slave, q)) ==>
      && Serves(line.slave, slave)
      && View(StoreOf(line.slave)) == Asked(before, q).0
      && Carries(q, Asked(before, q).1, reply)
    ensures Concluded(before, line, slave, q, Parses(q, reply))
  {
    hide Parses, Ecode, Asked, View, Adu, InWindow, Empty, Buildable, Listening;
  }

  method RtuMasterWrBytes(line: Line, addr: byte, memAddr: Data16, count: byte, bytes: array<byte>) returns (ok: bool)
    requires LineFree(line, addr) && Count(count) <= bytes.Length
    modifies line
    ensures Count(count) > 249 ==> !ok && line.slave == old(line.slave) && line.inbox == []
    ensures Count(count) <= 249 ==>
      Concluded(old(line.slave), line, addr, WrBytes(memAddr, count, old(bytes[..Count(count)])), ok)
  {
    hide Count, InWindow, Asked, Adu, View, Carries, Parses, Built, Listening, Empty, Concluded;
    ghost var before := line.slave;
    var txBuf := new byte[256];
    ghost var was := txBuf[..];
    var reqEnd := MakeRequestWrBytes(addr, memAddr, bytes, count, txBuf, 256);
    if reqEnd.None? {
      return false;
    }
    ghost var q := WrBytes(memAddr, count, bytes[..Count(count)]);
    BuiltPrefix(was, txBuf[..], reqEnd, Adu(addr, q));
    ghost var sent := Send(line, addr, txBuf, reqEnd.value, q);
    var reply := new byte[7];
    ok := Receive(line, addr, reply, before, q, sent, 7);
    Concludes(before, line, addr, q, sent);
    if ok {
      ok := ParseReplyWrBytes(reply, 7);
      assert reply[..7] == sent;
      ParsesAs(q, sent);
    }
  }

  lemma ParsesAs(q: Query, adu: seq<byte>)
    ensures q.WrBytes? ==> (Parses(q, adu) <==> ParsesWrBytes(adu))
    ensures q.WrRegisters? ==> (Parses(q, adu) <==> ParsesWrRegisters(adu))
    ensures q.RdBytes? ==> (Parses(q, adu) <==> ParsesRdBytes(adu))
    ensures q.RdHoldingRegisters? ==> (Parses(q, adu) <==> ParsesRdHoldingRegisters(adu))
  {
  }

  method RtuMasterWrRegisters(line: Line, addr: byte, memAddr: Data16, count: Data16, data: array<Data16>)
    returns (ok: bool)
    requires LineFree(line, addr) && Value(count) <= data.Length
    modifies line
    ensures Value(count) > 0x7B ==> !ok && line.slave == old(line.slave) && line.inbox == []
    ensures Value(count) <= 0x7B ==>
      Concluded(old(line.slave), line, addr, WrRegisters(memAddr, count, old(data[..Value(count)])), ok)
  {
    hide Value, InWindow, Asked, Adu, View, Carries, Parses, Built, Listening, Empty, Concluded;
    ghost var before := line.slave;
    ghost var q := WrRegisters(memAddr, count, data[..Value(count)]);
    var txBuf := new byte[256];
    ghost var was := txBuf[..];
    var reqEnd := MakeRequestWrRegisters(addr, memAddr, data, count, txBuf, 256);
    if reqEnd.None? {
      return false;
    }
    BuiltPrefix(was, txBuf[..], reqEnd, Adu(addr, q));
    ghost var sent := Send(line, addr, txBuf, reqEnd.value, q);
    var reply := new byte[8];
    ok := Receive(line, addr, reply, before, q, sent, 8);
    Concludes(before, line, addr, q, sent);
    if ok {
      ok := ParseReplyWrRegisters(reply, 8);
      assert reply[..8] == sent;
      ParsesAs(q, sent);
    }
  }

  /** A request in a local struct. */
  method FixedRequest(fields: seq<byte>) returns (req: array<byte>)
    ensures fresh(req) && req[..] == Sealed(fields) && req.Length == |fields| + 2
  {
    req := new byte[|fields| + 2];
    forall i | 0 <= i < |fields| {
      req[i] := fields[i];
    }
    assert req[..|fields|] == fields;
    var end := ImplaceCrc(req, |fields| + 2);
  }

  lemma FixedAdu(slave: byte, q: Query)
    ensures match q
      case RdBytes(addr, num) => Adu(slave, q) == Sealed([slave, READ_BYTES, addr.high, addr.low, num])
      case RdHoldingRegisters(addr, count) =>
        Adu(slave, q) == Sealed([slave, READ_REGISTERS, addr.high, addr.low, count.high, count.low])
      case _ => true
  {
    InFront(slave, Pdu(q));
  }

  method RtuMasterRdBytes(line: Line, addr: byte, memAddr: Data16, count: byte, bytes: array<byte>)
    returns (ok: bool)
    requires LineFree(line, addr) && Count(count) <= 249 && Count(count) <= bytes.Length
    modifies line, bytes
    ensures var q := RdBytes(memAddr, count);
      && LineFree(line, addr) && Concluded(old(line.slave), line, addr, q, ok)
      && (ok ==> Asked(old(line.slave), q).1.Bytes?
                 && bytes[..] == Asked(old(line.slave), q).1.data + old(bytes[Count(count)..]))
      && (!ok ==> bytes[..] == old(bytes[..]))
  {
    hide Count, InWindow, Asked, Adu, View, Carries, Parses, ParsesRdBytes, Intact, Sealed, Listening, Empty,
      Concluded, Written;
    ghost var before, was := line.slave, bytes[..];
    ghost var q := RdBytes(memAddr, count);
    FixedAdu(addr, q);
    ReadIsInWindow(before.user, addr, q);
    var req := FixedRequest([addr, READ_BYTES, memAddr.high, memAddr.low, count]);
    assert req[..7] == req[..];
    ghost var sent := Send(line, addr, req, 7, q);
    var rxBuf := new byte[256];
    var expectedSize := 5 + Count(count) + 2;
    ok := Receive(line, addr, rxBuf, before, q, sent, expectedSize);
    Concludes(before, line, addr, q, sent);
    if ok {
      ok := ParseReplyRdBytes(rxBuf, expectedSize);
      assert rxBuf[..expectedSize] == sent;
      ParsesAs(q, sent);
    }
    if ok {
      ReceivedBytes(q, Asked(before, q).1, sent);
      var num := Count(count);
      PartOfReply(rxBuf[..], expectedSize, 5, num);
      ghost var data := rxBuf[5..5 + num];
      assert data == Asked(before, q).1.data;
      Memcpy(bytes, 0, rxBuf, 5, num);
      WrittenInFront(was, bytes[..], num, data);
    }
  }

  lemma PartOfReply(a: seq<byte>, n: nat, from: nat, num: nat)
    requires from + num <= n <= |a|
    ensures a[..n][from..from + num] == a[from..from + num]
  {
  }

  lemma WrittenInFront(was: seq<byte>, now: seq<byte>, n: nat, data: seq<byte>)
    requires Written(was, now, 0, n, data)
    ensures now == data + was[n..]
  {
  }

  lemma ReceivedBytes(q: Query, answer: Answer, adu: seq<byte>)
    requires q.RdBytes? && Carries(q, answer, adu) && Parses(q, adu)
    ensures answer.Bytes? && |adu| == 7 + Count(q.num) && adu[5..5 + Count(q.num)] == answer.data
  {
  }

  method RtuMasterRdHoldingRegisters(line: Line, addr: byte, memAddr: Data16, count: Data16, data: array<Data16>)
    returns (ok: bool)
    requires LineFree(line, addr) && Value(count) <= 0x7D && Value(count) <= data.Length
    modifies line, data
    ensures var q := RdHoldingRegisters(memAddr, count);
      && LineFree(line, addr) && Concluded(old(line.slave), line, addr, q, ok)
      && (ok ==> Asked(old(line.slave), q).1.Registers?
                 && data[..] == Asked(old(line.slave), q).1.values + old(data[Value(count)..]))
      && (!ok ==> data[..] == old(data[..]))
  {
    hide Value, InWindow, Asked, Adu, View, Carries, Parses, ParsesRdHoldingRegisters, Intact, Sealed, Spread,
      Listening, Empty, Concluded;
    ghost var before := line.slave;
    ghost var q := RdHoldingRegisters(memAddr, count);
    FixedAdu(addr, q);
    ReadIsInWindow(before.user, addr, q);
    var req := FixedRequest([addr, READ_REGISTERS, memAddr.high, memAddr.low, count.high, count.low]);
    assert req[..8] == req[..];
    ghost var sent := Send(line, addr, req, 8, q);
    var rxBuf := new byte[256];
    var expectedSize := 3 + 2 * Value(count) + 2;
    ok := Receive(line, addr, rxBuf, before, q, sent, expectedSize);
    Concludes(before, line, addr, q, sent);
    if ok {
      ok := ParseReplyRdHoldingRegisters(rxBuf, expectedSize);
      assert rxBuf[..expectedSize] == sent;
      ParsesAs(q, sent);
    }
    if ok {
      ReceivedRegisters(before, q, sent);
      ghost var values := Asked(before, q).1.values;
      PrefixIs(rxBuf[..], expectedSize, sent);
      FillRegisters(data, rxBuf, Value(count), values);
    }
  }

  lemma PrefixIs(a: seq<byte>, n: nat, sent: seq<byte>)
    requires n <= |a| && a[..n] == sent
    ensures forall i :: 0 <= i < n ==> a[i] == sent[i]
  {
  }

  /** The copy of the registers of a reply to the caller. */
  method FillRegisters(data: array<Data16>, rxBuf: array<byte>, num: nat, ghost values: seq<Data16>)
    requires num == |values| <= data.Length && 3 + 2 * num <= rxBuf.Length
    requires forall i :: 0 <= i < num ==> values[i] == Data16(rxBuf[3 + 2 * i], rxBuf[4 + 2 * i])
    modifies data
    ensures data[..] == values + old(data[num..])
  {
    forall i | 0 <= i < num {
      data[i] := Data16(rxBuf[3 + 2 * i], rxBuf[4 + 2 * i]);
    }
  }

  lemma ReceivedRegisters(before: State<Device>, q: Query, adu: seq<byte>)
    requires before.user.content.Known? && Sendable(q) && q.RdHoldingRegisters?
    requires Carries(q, Asked(before, q).1, adu) && Parses(q, adu)
    ensures var answer := Asked(before, q).1;
      && answer.Registers? && |answer.values| == Value(q.count) && |adu| == 5 + 2 * Value(q.count)
      && forall i :: 0 <= i < Value(q.count) ==> answer.values[i] == Data16(adu[3 + 2 * i], adu[4 + 2 * i])
  {
    AnswerKinds(View(StoreOf(before)), q);
    var values := Asked(before, q).1.values;
    assert adu[3..|adu| - 2] == Spread(values);
    hide Spread, Carries, Asked, View, Value;
    forall i | 0 <= i < Value(q.count) ensures values[i] == Data16(adu[3 + 2 * i], adu[4 + 2 * i]) {
      SpreadAt(values, i);
      assert adu[3..|adu| - 2][2 * i] == adu[3 + 2 * i] && adu[3..|adu| - 2][2 * i + 1] == adu[4 + 2 * i];
    }
  }
}
