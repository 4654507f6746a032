/**
 Whole transactions: a request that master.c builds goes through the framing of a slave, its
 frame check and its memory handler, and the reply back through the parsers of master.c.
 */
module Transactions {
  import opened Words
  import opened Crc
  import opened Framing
  import opened Eager
  import opened Memory
  import MemoryHandler
  import opened MemoryMap
  import opened Devices
  import opened Master
  import opened Telegrams

  // ---- The requests of the master ----

  /** What the builders accept. */
  predicate Buildable(q: Query) {
    match q
    case RdHoldingRegisters(_, count) => Value(count) <= 0x7D
    case WrRegister(_, _) => true
    case WrRegisters(_, count, values) => Value(count) <= 0x7B && |values| == Value(count)
    case RdBytes(_, num) => Count(num) <= 249
    case WrBytes(_, num, data) => Count(num) <= 249 && |data| == Count(num)
  }

  /** A request for no register or byte at all. */
  predicate Empty(q: Query) {
    match q
    case RdHoldingRegisters(_, count) => Value(count) == 0
    case WrRegister(_, _) => false
    case WrRegisters(_, count, _) => Value(count) == 0
    case RdBytes(_, num) => Count(num) == 0
    case WrBytes(_, num, _) => Count(num) == 0
  }

  predicate Sendable(q: Query) {
    Buildable(q) && !Empty(q)
  }

  /** What a request means. */
  function Meaning(q: Query): Request {
    match q
    case RdHoldingRegisters(addr, count) => GetRegisters(Value(addr), Value(count))
    case WrRegister(addr, value) => SetRegister(Value(addr), value)
    case WrRegisters(addr, _, values) => SetRegisters(Value(addr), values)
    case RdBytes(addr, num) => GetBytes(Value(addr), Count(num))
    case WrBytes(addr, _, data) => SetBytes(Value(addr), data)
  }

  /** How many bytes the master waits for. */
  function ReplySize(q: Query): nat {
    match q
    case RdHoldingRegisters(_, count) => 3 + 2 * Value(count) + 2
    case WrRegister(_, _) => 8
    case WrRegisters(_, _, _) => 8
    case RdBytes(_, num) => 5 + Count(num) + 2
    case WrBytes(_, _, _) => 7
  }

  lemma PairsOfSpread(values: seq<Data16>)
    ensures Pairs(Spread(values)) == values
  {
  }

  lemma DoubledByte(b: byte)
    requires b as nat <= 125
    ensures (b << 1) as nat == 2 * (b as nat)
  {
  }

  lemma HighIsZero(d: Data16)
    requires Value(d) < 256
    ensures d.high == 0 && Value(d) == Count(d.low)
  {
  }

  lemma ByteCount(count: Data16)
    requires Value(count) <= 125
    ensures Count(count.low << 1) == 2 * Value(count)
  {
    HighIsZero(count);
    DoubledByte(count.low);
  }

  lemma PduAt(q: Query)
    ensures |Pdu(q)| >= 4 && Pdu(q)[0] in {READ_REGISTERS, WRITE_REGISTER, WRITE_REGISTERS, READ_BYTES, WRITE_BYTES}
    ensures NumberAt(Pdu(q), 1) == Value(q.addr)
  {
    hide Number;
  }

  /** What the slave reads in a request is what the master has meant. */
  lemma PduDecodes(q: Query)
    requires Sendable(q)
    ensures Decode(Pdu(q)) == Some(Meaning(q))
  {
    PduAt(q);
    var p := Pdu(q);
    match q {
      case RdHoldingRegisters(_, count) =>
        hide Number, Count;
        assert NumberAt(p, 3) == Value(count);
      case WrRegister(_, value) =>
        hide Number, Count;
      case WrRegisters(_, count, values) =>
        ByteCount(count);
        PairsOfSpread(values);
        hide Number, Count, Pairs, Spread;
        assert NumberAt(p, 3) == Value(count);
        assert p[6..] == Spread(values);
      case RdBytes(_, num) =>
        hide Number, Count;
      case WrBytes(_, num, data) =>
        hide Number, Count;
        assert p[4..] == data;
    }
  }

  lemma AduShape(slave: byte, q: Query)
    requires Buildable(q)
    ensures var adu := Adu(slave, q);
      && AduOk(adu) && |adu| <= CAPACITY && adu[0] == slave && RequestOf(adu) == Pdu(q)
  {
    hide Number, Count, Spread, Intact, Trailer;
    PduAt(q);
    var body := [slave] + Pdu(q);
    SealedIsIntact(body);
    assert Adu(slave, q)[..|body|] == body;
    assert RequestOf(Adu(slave, q)) == body[1..] == Pdu(q);
  }

  // ---- Replies ----

  /** The frame in which a slave replies to a request, if its memory is `s`. */
  function ReplyTo(slave: byte, s: ValidStore, q: Query, behind: byte): seq<byte> {
    PduAt(q);
    Sealed([slave] + Handle(s, Pdu(q), behind).reply)
  }

  /** A reply that is not an exception: its header, and how much follows. */
  predicate Succeeds(q: Query, reply: seq<byte>) {
    match q
    case RdHoldingRegisters(_, count) =>
      |reply| == 2 + 2 * Value(count) && reply[0] == READ_REGISTERS && Count(reply[1]) == 2 * Value(count)
    case WrRegister(_, _) => reply == Pdu(q)
    case WrRegisters(_, _, _) => reply == Pdu(q)[..5]
    case RdBytes(_, num) => |reply| == 4 + Count(num) && reply[..4] == Pdu(q)
    case WrBytes(_, _, _) => reply == Pdu(q)[..4]
  }

  lemma EcodeValues()
    ensures Count(ILLEGAL_ADDRESS) != 0 && Count(ILLEGAL_VALUE) != 0
  {
  }

  predicate Refuses(q: Query, reply: seq<byte>) {
    PduAt(q);
    reply == Exception(Pdu(q)[0], ILLEGAL_ADDRESS) || reply == Exception(Pdu(q)[0], ILLEGAL_VALUE)
  }

  ghost predicate Forms(s: ValidStore, q: Query, behind: byte) {
    PduAt(q);
    Succeeds(q, Handle(s, Pdu(q), behind).reply) || Refuses(q, Handle(s, Pdu(q), behind).reply)
  }

  lemma ReadFormsRegisters(s: ValidStore, q: Query, behind: byte)
    requires Sendable(q) && q.RdHoldingRegisters?
    ensures Forms(s, q, behind)
  {
    TwiceBack(Value(q.count));
    hide Number, Count, Widen, TwiceAsByte;
    assert NumberAt(Pdu(q), 3) == Value(q.count);
  }

  lemma WriteFormsRegisters(s: ValidStore, q: Query, behind: byte)
    requires Sendable(q) && q.WrRegisters?
    ensures Forms(s, q, behind)
  {
    ByteCount(q.count);
    var p := Pdu(q);
    hide Number, Count, Spread, Fitting, Narrow;
    assert NumberAt(p, 3) == Value(q.count);
    assert (p + [behind])[5] == q.count.low << 1;
  }

  lemma WriteFormsRegister(s: ValidStore, q: Query, behind: byte)
    requires Sendable(q) && q.WrRegister?
    ensures Forms(s, q, behind)
  {
    hide Number, Count;
    assert Pdu(q)[..5] == Pdu(q);
  }

  lemma FormsBytes(s: ValidStore, q: Query, behind: byte)
    requires Sendable(q) && (q.RdBytes? || q.WrBytes?)
    ensures Forms(s, q, behind)
  {
    hide Number, Count;
    if q.RdBytes? {
      assert Pdu(q)[..4] == Pdu(q);
    }
  }

  lemma ReplyForms(s: ValidStore, q: Query, behind: byte)
    requires Sendable(q)
    ensures Forms(s, q, behind)
  {
    hide Forms;
    match q {
      case RdHoldingRegisters(_, _) => ReadFormsRegisters(s, q, behind);
      case WrRegister(_, _) => WriteFormsRegister(s, q, behind);
      case WrRegisters(_, _, _) => WriteFormsRegisters(s, q, behind);
      case RdBytes(_, _) => FormsBytes(s, q, behind);
      case WrBytes(_, _, _) => FormsBytes(s, q, behind);
    }
  }

  /** The parts of a reply frame. */
  lemma ReplyShape(slave: byte, reply: seq<byte>)
    ensures var adu := Sealed([slave] + reply);
      |adu| == |reply| + 3 && Intact(adu) && adu[1..|adu| - 2] == reply
      && forall i :: 0 <= i < |reply| ==> adu[i + 1] == reply[i]
  {
    hide Intact, Trailer;
    SealedIsIntact([slave] + reply);
  }

  lemma SuccessParses(slave: byte, q: Query, reply: seq<byte>)
    requires Sendable(q) && Succeeds(q, reply)
    ensures var adu := Sealed([slave] + reply);
      Parses(q, adu) && Ecode(adu).None? && |adu| == ReplySize(q)
  {
    ReplyShape(slave, reply);
    PduAt(q);
    hide Intact, Sealed, Number, Count, Spread;
    var adu := Sealed([slave] + reply);
    match q {
      case RdHoldingRegisters(_, count) =>
        assert adu[2] == reply[1];
      case WrRegister(_, value) =>
      case WrRegisters(_, count, values) =>
      case RdBytes(_, num) =>
        assert adu[4] == reply[3] == reply[..4][3] == num;
      case WrBytes(_, num, data) =>
    }
  }

  lemma RefusalParses(slave: byte, q: Query, reply: seq<byte>)
    requires Refuses(q, reply)
    ensures var adu := Sealed([slave] + reply);
      !Parses(q, adu) && Ecode(adu) == Some(reply[1]) && |adu| == 5
  {
    ReplyShape(slave, reply);
    EcodeValues();
    hide Intact, Sealed, Number, Count;
    assert Sealed([slave] + reply)[2] == reply[1];
  }

  /** A request for nothing is refused, and changes nothing. */
  lemma EmptyIsRefused(s: ValidStore, q: Query, behind: byte)
    requires Buildable(q) && Empty(q)
    ensures |Pdu(q)| >= 1 && Handle(s, Pdu(q), behind).data == [] && Refuses(q, Handle(s, Pdu(q), behind).reply)
  {
    PduAt(q);
    var p := Pdu(q);
    if q.RdHoldingRegisters? || q.WrRegisters? {
      assert NumberAt(p, 3) == Value(q.count);
    }
    hide Number, Count, Spread, Fitting, Narrow, Widen, TwiceAsByte;
  }

  lemma ReplySizes(q: Query)
    requires Buildable(q)
    ensures ReplySize(q) == 5 <==> q.RdHoldingRegisters? && Empty(q)
    ensures ReplySize(q) >= 5
  {
  }

  /**
   For every request that the builders accept, and every memory, exactly one of find_ecode and the
   matching parser accepts the reply. The parser does exactly if the reply has the size that the
   master waits for, but for a read of no registers, for which the exception has that size.
   */
  lemma RepliesUnambiguous(slave: byte, s: ValidStore, q: Query, behind: byte)
    requires Buildable(q)
    ensures var adu := ReplyTo(slave, s, q, behind);
      && (Parses(q, adu) <==> Ecode(adu).None?)
      && (Ecode(adu).Some? ==> |adu| == 5)
      && (Parses(q, adu) ==> !Empty(q) && |adu| == ReplySize(q))
      && ((Parses(q, adu) <==> |adu| == ReplySize(q)) <==> !(q.RdHoldingRegisters? && Empty(q)))
  {
    hide Handle, Succeeds, Refuses, Parses, Ecode, Buildable, Empty, ReplySize;
    PduAt(q);
    ReplySizes(q);
    var reply := Handle(s, Pdu(q), behind).reply;
    if Empty(q) {
      EmptyIsRefused(s, q, behind);
      RefusalParses(slave, q, reply);
    } else {
      ReplyForms(s, q, behind);
      if Succeeds(q, reply) {
        SuccessParses(slave, q, reply);
      } else {
        RefusalParses(slave, q, reply);
      }
    }
  }

  // ---- Whole transactions ----

  /** A device that listens, with its memory. */
  predicate Serves(s: State<Device>, slave: byte) {
    Listening(s) && s.user.self == slave && s.user.content.Known?
  }

  function StoreOf(s: State<Device>): ValidStore
    requires s.user.content.Known?
  {
    s.user.content.store
  }

  /** What a transaction does to the memory, and the answer. */
  function Asked(s: State<Device>, q: Query): (Cells, Answer)
    requires s.user.content.Known?
  {
    Ask(View(StoreOf(s)), Meaning(q))
  }

  /** The reply carries the answer. */
  ghost predicate Carries(q: Query, answer: Answer, adu: seq<byte>) {
    if answer.Refused? then !Parses(q, adu) && Ecode(adu) == Some(answer.ecode)
    else
      && Parses(q, adu) && Ecode(adu).None? && |adu| == ReplySize(q)
      && (q.RdBytes? ==> answer.Bytes? && adu[5..|adu| - 2] == answer.data)
      && (q.RdHoldingRegisters? ==> answer.Registers? && adu[3..|adu| - 2] == Spread(answer.values))
  }

  /** Which answer a request can get. */
  lemma AnswerKinds(m: Cells, q: Query)
    requires Sendable(q)
    ensures var answer := Ask(m, Meaning(q)).1;
      answer.Refused?
      || match q
         case RdHoldingRegisters(_, count) => answer.Registers? && |answer.values| == Value(count)
         case RdBytes(_, num) => answer.Bytes? && |answer.data| == Count(num)
         case _ => answer.Done?
  {
    match q {
      case WrRegister(addr, value) => StoreEachAnswers(m, Value(addr), [value]);
      case WrRegisters(addr, _, values) => StoreEachAnswers(m, Value(addr), values);
      case _ =>
    }
  }

  lemma {:induction false} StoreEachAnswers(m: Cells, addr: nat, values: seq<Data16>)
    ensures StoreEach(m, addr, values).1 in {Done, Refused(ILLEGAL_VALUE)}
    decreases |values|
  {
    if values != [] {
      StoreEachAnswers(m[addr := values[0].low], addr + 1, values[1..]);
    }
  }

  lemma SuccessCarries(slave: byte, q: Query, answer: Answer, reply: seq<byte>)
    requires Sendable(q) && |Pdu(q)| >= 4 && Succeeds(q, reply)
    requires answer.Registers? ==> |answer.values| < 128
    requires reply == Reply(Pdu(q), answer) && !answer.Refused?
    requires q.RdBytes? ==> answer.Bytes?
    requires q.RdHoldingRegisters? ==> answer.Registers?
    ensures Carries(q, answer, Sealed([slave] + reply))
  {
    SuccessParses(slave, q, reply);
    ReplyShape(slave, reply);
    hide Sealed, Parses, Succeeds, Ecode, Spread, Number, Count, TwiceAsByte;
    var adu := Sealed([slave] + reply);
    if q.RdBytes? {
      assert adu[5..|adu| - 2] == adu[1..|adu| - 2][4..] == answer.data;
    } else if q.RdHoldingRegisters? {
      assert adu[3..|adu| - 2] == adu[1..|adu| - 2][2..] == Spread(answer.values);
    }
  }

  lemma ReplyCarries(slave: byte, s: ValidStore, q: Query, behind: byte)
    requires Sendable(q) && |Pdu(q)| >= 4 && Window(s, Pdu(q))
    ensures var e, (m, answer) := Handle(s, Pdu(q), behind), Ask(View(s), Meaning(q));
      && Inside(s, e) && View(Apply(s, e)) == m
      && Carries(q, answer, Sealed([slave] + e.reply))
  {
    WindowMatches(s, Pdu(q), behind);
    PduDecodes(q);
    AnswerKinds(View(s), q);
    ReplyForms(s, q, behind);
    var reply, answer := Handle(s, Pdu(q), behind).reply, Ask(View(s), Meaning(q)).1;
    hide Handle, Ask, Decode, View, Apply, Window, Pdu, Number, Count, Spread, Parses, Ecode, Sealed, TwiceAsByte;
    if answer.Refused? {
      RefusedLength(q, answer, reply);
      RefusalParses(slave, q, reply);
    } else {
      AnsweredLength(q, answer, reply);
      SuccessCarries(slave, q, answer, reply);
    }
  }

  lemma RefusedLength(q: Query, answer: Answer, reply: seq<byte>)
    requires Sendable(q) && |Pdu(q)| >= 4 && answer.Refused? && reply == Reply(Pdu(q), answer)
    ensures !Succeeds(q, reply) && reply[1] == answer.ecode
  {
    hide Number, Count, Spread;
  }

  lemma AnsweredLength(q: Query, answer: Answer, reply: seq<byte>)
    requires |Pdu(q)| >= 4 && !answer.Refused?
    requires answer.Registers? ==> 0 < |answer.values| < 128
    requires reply == Reply(Pdu(q), answer)
    ensures !Refuses(q, reply)
  {
    hide Number, Count, Spread, TwiceAsByte, Pdu;
  }

  lemma RespondsFromStore(d: Device, frame: seq<byte>)
    requires |frame| >= ADU_MIN_SIZE && frame[0] == d.self && d.content.Known?
    ensures Respond(d, frame).1 == [d.self] + EffectOn(d.content.store, frame).reply
    ensures Respond(d, frame).0.self == d.self
    ensures EffectOn(d.content.store, frame).data == [] ==> Respond(d, frame).0 == d
  {
    hide Handle;
  }

  /** The slave replies once, with what its handler says, and listens again. */
  lemma Exchange(s: State<Device>, trace: seq<Moment>, slave: byte, q: Query)
    requires Serves(s, slave) && Buildable(q) && Inputs(trace) == Telegram(Adu(slave, q))
    ensures var t, adu := EagerRun(s, trace, Respond), Adu(slave, q);
      && |adu| >= ADU_MIN_SIZE && Listening(t) && t.user == Respond(s.user, adu).0
      && t.sent == s.sent + [ReplyTo(slave, StoreOf(s), q, BehindOf(adu))]
  {
    var adu := Adu(slave, q);
    AduShape(slave, q);
    PduAt(q);
    HearsFrame(s, trace, adu, Respond);
    RespondsFromStore(s.user, adu);
    hide Handle, Adu, Pdu, Buildable, EagerRun, Intact, Sealed, Listening;
  }

  /** What a request makes of the device, and that the reply carries the answer. */
  lemma RequestEffect(d: Device, slave: byte, q: Query)
    requires d.self == slave && d.content.Known? && Buildable(q)
    ensures |Adu(slave, q)| >= ADU_MIN_SIZE
    ensures var adu, s, d' := Adu(slave, q), d.content.store, Respond(d, Adu(slave, q)).0;
      && d'.self == slave
      && (Empty(q) ==> d' == d)
      && (InWindow(d, adu) ==>
           && d'.content.Known? && d'.content.store.begin == s.begin && d'.content.store.end == s.end)
      && (!Empty(q) && InWindow(d, adu) ==>
           var (m, answer) := Ask(View(s), Meaning(q));
           View(d'.content.store) == m && Carries(q, answer, ReplyTo(slave, s, q, BehindOf(adu))))
  {
    var adu := Adu(slave, q);
    AduShape(slave, q);
    PduAt(q);
    RespondsFromStore(d, adu);
    if InWindow(d, adu) {
      InWindowKeepsContent(d, adu);
      if !Empty(q) {
        ReplyCarries(slave, d.content.store, q, BehindOf(adu));
      }
    }
    if Empty(q) {
      EmptyIsRefused(d.content.store, q, BehindOf(adu));
    }
    hide Handle, Ask, View, Apply, Window, Adu, Pdu, Carries, Buildable, Empty, Intact, Sealed, Refuses;
  }

  /**
   A transaction without noise, for every request that the builders accept. The slave replies once
   and listens again, and the reply is that of its memory handler. If a request that writes keeps
   to the window, the memory and the answer are those of the map; a request for nothing changes
   nothing.
   */
  lemma Transaction(s: State<Device>, trace: seq<Moment>, slave: byte, q: Query)
    requires Serves(s, slave) && Buildable(q) && Inputs(trace) == Telegram(Adu(slave, q))
    ensures var t, adu := EagerRun(s, trace, Respond), Adu(slave, q);
      && Listening(t) && t.user.self == slave
      && |t.sent| == |s.sent| + 1 && t.sent[..|s.sent|] == s.sent
      && |adu| >= ADU_MIN_SIZE && t.sent[|s.sent|] == ReplyTo(slave, StoreOf(s), q, BehindOf(adu))
      && (Empty(q) ==> t.user == s.user)
      && (InWindow(s.user, adu) ==>
           && t.user.content.Known?
           && StoreOf(t).begin == StoreOf(s).begin && StoreOf(t).end == StoreOf(s).end)
      && (!Empty(q) && InWindow(s.user, adu) ==>
           && View(StoreOf(t)) == Asked(s, q).0 && Carries(q, Asked(s, q).1, t.sent[|s.sent|]))
  {
    hide EagerRun, Adu, InWindow, Respond, Carries, Ask, View, Buildable, Empty, Listening, ReplyTo, Telegram;
    Exchange(s, trace, slave, q);
    RequestEffect(s.user, slave, q);
  }

  // ---- Writing and reading back ----

  lemma BytesWriteIsInWindow(d: Device, slave: byte, q: Query)
    requires Sendable(q) && q.WrBytes? && d.content.Known?
    requires Within(d.content.store, Value(q.addr), Count(q.num))
    ensures InWindow(d, Adu(slave, q))
  {
    AduShape(slave, q);
    PduAt(q);
    hide Adu, Number, Count;
  }

  lemma RegistersWriteIsInWindow(d: Device, slave: byte, q: Query)
    requires Sendable(q) && q.WrRegisters? && d.content.Known?
    requires Within(d.content.store, Value(q.addr), Value(q.count))
    ensures InWindow(d, Adu(slave, q))
  {
    AduShape(slave, q);
    PduAt(q);
    assert NumberAt(Pdu(q), 3) == Value(q.count);
    hide Adu, Number, Count, Spread;
  }

  lemma ReadIsInWindow(d: Device, slave: byte, q: Query)
    requires Buildable(q) && (q.RdBytes? || q.RdHoldingRegisters?)
    ensures InWindow(d, Adu(slave, q))
  {
    AduShape(slave, q);
    PduAt(q);
    hide Adu, Number, Count;
  }

  lemma BytesReadBack(s: ValidStore, addr: nat, data: seq<byte>)
    requires 0 < |data| && Within(s, addr, |data|)
    ensures var (m, answer) := Ask(View(s), SetBytes(addr, data));
      answer == Done && Ask(m, GetBytes(addr, |data|)).1 == Bytes(data)
  {
    PresentIsWindow(s, addr, |data|);
    var m := Overwrite(View(s), addr, data);
    assert Present(m, addr, |data|);
    assert Ask(m, GetBytes(addr, |data|)).1.data == data;
  }

  predicate Plain(values: seq<Data16>) {
    forall i :: 0 <= i < |values| ==> values[i].high == 0
  }

  lemma PlainFits(values: seq<Data16>)
    requires Plain(values)
    ensures Fitting(Spread(values)) == |values|
    ensures forall i :: 0 <= i < |values| ==> Narrow(Spread(values), |values|)[i] == values[i].low
  {
    var p := Spread(values);
    hide Spread, Fitting;
    forall i | 0 <= i < |values| ensures p[2 * i] == 0 && Narrow(p, |values|)[i] == values[i].low {
      SpreadAt(values, i);
    }
    MemoryHandler.FittingIs(p, |values|);
  }

  lemma RegistersAre(m: Cells, addr: nat, values: seq<Data16>)
    requires Present(m, addr, |values|) && Plain(values)
    requires forall i :: 0 <= i < |values| ==> m[addr + i] == values[i].low
    ensures Ask(m, GetRegisters(addr, |values|)).1 == Registers(values)
  {
    assert Ask(m, GetRegisters(addr, |values|)).1.values == values;
  }

  lemma RegistersReadBack(s: ValidStore, addr: nat, values: seq<Data16>)
    requires 0 < |values| && Within(s, addr, |values|) && Plain(values)
    ensures var (m, answer) := Ask(View(s), SetRegisters(addr, values));
      answer == Done && Ask(m, GetRegisters(addr, |values|)).1 == Registers(values)
  {
    var n := |values|;
    PresentIsWindow(s, addr, n);
    PairsOfSpread(values);
    PlainFits(values);
    StoreEachIsPrefix(View(s), addr, Spread(values));
    assert Present(View(s), addr, n);
    hide View, Spread, Narrow, Fitting, StoreEach, Pairs;
    var lows := Narrow(Spread(values), n);
    var m := Overwrite(View(s), addr, lows);
    forall i | 0 <= i < n ensures m[addr + i] == values[i].low {
      assert lows[i] == values[i].low;
    }
    RegistersAre(m, addr, values);
  }

  /** What a reply that carries no refusal looks like. */
  lemma CarriedParses(q: Query, answer: Answer, adu: seq<byte>)
    requires Carries(q, answer, adu) && !answer.Refused?
    ensures q.WrBytes? ==> ParsesWrBytes(adu) && |adu| == 7
    ensures q.WrRegisters? ==> ParsesWrRegisters(adu) && |adu| == 8
    ensures q.RdBytes? && answer.Bytes? ==>
      ParsesRdBytes(adu) && |adu| == 7 + Count(q.num) && adu[5..|adu| - 2] == answer.data
    ensures q.RdHoldingRegisters? && answer.Registers? ==>
      && ParsesRdHoldingRegisters(adu) && |adu| == 5 + 2 * Value(q.count)
      && adu[3..|adu| - 2] == Spread(answer.values)
  {
  }

  /**
   1 to 249 bytes, written to any addresses in the window and read back: both transactions
   succeed, and the second reply holds exactly the data.
   */
  lemma WrittenBytesAreRead(s: State<Device>, writing: seq<Moment>, reading: seq<Moment>,
                            slave: byte, addr: Data16, num: byte, data: seq<byte>)
    requires Serves(s, slave) && 0 < Count(num) == |data| <= 249
    requires Within(StoreOf(s), Value(addr), |data|)
    requires Inputs(writing) == Telegram(Adu(slave, WrBytes(addr, num, data)))
    requires Inputs(reading) == Telegram(Adu(slave, RdBytes(addr, num)))
    ensures var t := EagerRun(EagerRun(s, writing, Respond), reading, Respond);
      && Serves(t, slave) && |t.sent| == |s.sent| + 2
      && var first, second := t.sent[|s.sent|], t.sent[|s.sent| + 1];
         && ParsesWrBytes(first) && |first| == 7
         && ParsesRdBytes(second) && |second| == 7 + |data| && second[5..|second| - 2] == data
  {
    hide View, Ask, EagerRun, Adu, Number, Count, Telegram, Listening, InWindow, Carries, ReplyTo,
      ParsesWrBytes, ParsesRdBytes;
    var write, read := WrBytes(addr, num, data), RdBytes(addr, num);
    BytesWriteIsInWindow(s.user, slave, write);
    Transaction(s, writing, slave, write);
    var between := EagerRun(s, writing, Respond);
    ReadIsInWindow(between.user, slave, read);
    Transaction(between, reading, slave, read);
    BytesReadBack(StoreOf(s), Value(addr), data);
    var t := EagerRun(between, reading, Respond);
    CarriedParses(write, Asked(s, write).1, t.sent[|s.sent|]);
    CarriedParses(read, Asked(between, read).1, t.sent[|s.sent| + 1]);
  }

  /** The same for 1 to 123 registers with zero high bytes. */
  lemma WrittenRegistersAreRead(s: State<Device>, writing: seq<Moment>, reading: seq<Moment>,
                                slave: byte, addr: Data16, count: Data16, values: seq<Data16>)
    requires Serves(s, slave) && 0 < Value(count) == |values| <= 123 && Plain(values)
    requires Within(StoreOf(s), Value(addr), |values|)
    requires Inputs(writing) == Telegram(Adu(slave, WrRegisters(addr, count, values)))
    requires Inputs(reading) == Telegram(Adu(slave, RdHoldingRegisters(addr, count)))
    ensures var t := EagerRun(EagerRun(s, writing, Respond), reading, Respond);
      && Serves(t, slave) && |t.sent| == |s.sent| + 2
      && var first, second := t.sent[|s.sent|], t.sent[|s.sent| + 1];
         && ParsesWrRegisters(first) && |first| == 8
         && ParsesRdHoldingRegisters(second) && |second| == 5 + 2 * |values|
         && second[3..|second| - 2] == Spread(values)
  {
    hide View, Ask, EagerRun, Adu, Number, Count, Telegram, Spread, Listening, InWindow, Carries, ReplyTo,
      ParsesWrRegisters, ParsesRdHoldingRegisters;
    var write, read := WrRegisters(addr, count, values), RdHoldingRegisters(addr, count);
    RegistersWriteIsInWindow(s.user, slave, write);
    Transaction(s, writing, slave, write);
    var between := EagerRun(s, writing, Respond);
    ReadIsInWindow(between.user, slave, read);
    Transaction(between, reading, slave, read);
    RegistersReadBack(StoreOf(s), Value(addr), values);
    var t := EagerRun(between, reading, Respond);
    CarriedParses(write, Asked(s, write).1, t.sent[|s.sent|]);
    CarriedParses(read, Asked(between, read).1, t.sent[|s.sent| + 1]);
  }
}
