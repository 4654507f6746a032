/**
 Safety of the framing machine when its callbacks are interrupts and modbus_rtu_event runs at
 arbitrary later points: what reaches the callback is cut, in order and without overlap, from
 the received bytes.
 */
module Interleaving {
  import opened Words
  import opened Crc
  import opened Framing

  /** A frame given to the callback: the received bytes from `begin` to `end`. */
  datatype Delivery = Delivery(begin: nat, end: nat, flagged: nat)

  /**
   `flagged` holds, for every moment at which an error stood, how many bytes had been received
   by then; a delivery records how many such moments there had been.
   */
  datatype Log = Log(received: seq<byte>, flagged: seq<nat>, deliveries: seq<Delivery>)

  function Observe<M>(log: Log, s: State<M>, t: State<M>, event: Event): Log {
    var received := if event.Byte? then log.received + [event.data] else log.received;
    Log(received,
        if t.status.error then log.flagged + [|received|] else log.flagged,
        if |t.calls| > |s.calls| && |s.rx| <= |log.received|
        then log.deliveries + [Delivery(|log.received| - |s.rx|, |log.received|, |log.flagged|)]
        else log.deliveries)
  }

  function LogOf<M>(s: State<M>, trace: seq<Stamped>, pdu: PduCallback<M>): Log
    decreases |trace|
  {
    if trace == [] then Log([], [], [])
    else
      var init, last := trace[..|trace| - 1], trace[|trace| - 1];
      var t := Run(s, init, pdu);
      Observe(LogOf(s, init, pdu), t, Step(t, last, pdu), last.event)
  }

  /** A frame is an intact segment of the received bytes, and no error stood within it. */
  ghost predicate Clean(log: Log, d: Delivery, frame: seq<byte>) {
    && d.begin <= d.end <= |log.received|
    && d.flagged <= |log.flagged|
    && frame == log.received[d.begin..d.end]
    && |frame| <= CAPACITY && AduOk(frame)
    && (forall i :: 0 <= i < d.flagged ==> log.flagged[i] <= d.begin)
  }

  ghost predicate Ordered(deliveries: seq<Delivery>) {
    forall i, j :: 0 <= i < j < |deliveries| ==> deliveries[i].end <= deliveries[j].begin
  }

  ghost predicate Safe(log: Log, calls: seq<seq<byte>>) {
    && |log.deliveries| == |calls|
    && (forall i :: 0 <= i < |calls| ==> Clean(log, log.deliveries[i], calls[i]))
    && Ordered(log.deliveries)
  }

  /** While no error stands, the receive buffer is the end of the received bytes. */
  ghost predicate Tracked<M>(log: Log, s: State<M>) {
    && (forall i :: 0 <= i < |log.flagged| ==> log.flagged[i] <= |log.received|)
    && (forall i :: 0 <= i < |log.deliveries| ==> log.deliveries[i].end <= |log.received|)
    && (!s.status.error ==>
        && |s.rx| <= |log.received|
        && var begin := |log.received| - |s.rx|;
           && s.rx == log.received[begin..]
           && (forall i :: 0 <= i < |log.flagged| ==> log.flagged[i] <= begin)
           && (forall i :: 0 <= i < |log.deliveries| ==> log.deliveries[i].end <= begin))
  }

  lemma CleanStays(log: Log, log': Log, d: Delivery, frame: seq<byte>)
    requires Clean(log, d, frame)
    requires log.received <= log'.received && log.flagged <= log'.flagged
    ensures Clean(log', d, frame)
  {
    hide AduOk;
    assert log'.received[d.begin..d.end] == log.received[d.begin..d.end];
  }

  lemma SafeStays(log: Log, log': Log, calls: seq<seq<byte>>)
    requires Safe(log, calls)
    requires log.received <= log'.received && log.flagged <= log'.flagged
    requires log'.deliveries == log.deliveries
    ensures Safe(log', calls)
  {
    forall i | 0 <= i < |calls| ensures Clean(log', log'.deliveries[i], calls[i]) {
      CleanStays(log, log', log.deliveries[i], calls[i]);
    }
  }

  /** A callback gives nothing to the callback; it appends a byte, or flags an error, or neither. */
  lemma CallbackEffect<M>(s: State<M>, e: Stamped, pdu: PduCallback<M>)
    requires Inv(s) && !e.event.Event?
    ensures var t := Step(s, e, pdu);
      && t.calls == s.calls
      && (s.status.error ==> t.status.error)
      && (!t.status.error ==> t.rx == if e.event.Byte? then s.rx + [e.event.data] else s.rx)
  {
  }

  /** An event delivers the whole buffer or nothing; it ends with an empty or an unchanged one. */
  lemma PollEffect<M>(s: State<M>, now: int, pdu: PduCallback<M>)
    requires Inv(s)
    ensures var t := Poll(s, now, pdu);
      && (t.calls == s.calls || (t.calls == s.calls + [s.rx] && AduOk(s.rx) && !s.status.error))
      && (t.rx == [] || (t.rx == s.rx && !s.status.error))
      && (t.calls != s.calls ==> t.rx == [] && !t.status.error)
  {
    hide Intact, Sealed;
  }

  lemma TrackedPoll<M>(log: Log, s: State<M>, now: int, pdu: PduCallback<M>)
    requires Inv(s) && Tracked(log, s)
    ensures Tracked(Observe(log, s, Poll(s, now, pdu), Event), Poll(s, now, pdu))
  {
    PollEffect(s, now, pdu);
    var t := Poll(s, now, pdu);
    hide Inv, Poll, AduOk;
    if t.rx == s.rx && t.calls == s.calls {
      assert Observe(log, s, t, Event).received == log.received;
    } else {
      assert t.status.error || t.rx == [];
      assert log.received[|log.received|..] == [];
    }
  }

  lemma NewDelivery<M>(log: Log, log': Log, s: State<M>, t: State<M>, d: Delivery)
    requires |s.rx| <= |log.received|
    requires d == Delivery(|log.received| - |s.rx|, |log.received|, |log.flagged|)
    requires |s.rx| <= CAPACITY && AduOk(s.rx) && !s.status.error && Tracked(log, s)
    requires t.calls == s.calls + [s.rx]
    requires log'.received == log.received && log.flagged <= log'.flagged
    requires log'.deliveries == log.deliveries + [d]
    requires Safe(log'.(deliveries := log.deliveries), s.calls)
    ensures Safe(log', t.calls)
  {
    hide AduOk;
    assert Clean(log', d, s.rx);
    forall i | 0 <= i < |t.calls| ensures Clean(log', log'.deliveries[i], t.calls[i]) {
      if i < |s.calls| {
        assert Clean(log'.(deliveries := log.deliveries), log.deliveries[i], s.calls[i]);
        CleanStays(log'.(deliveries := log.deliveries), log', log.deliveries[i], s.calls[i]);
      }
    }
  }

  lemma SafePoll<M>(log: Log, s: State<M>, now: int, pdu: PduCallback<M>)
    requires Inv(s) && Safe(log, s.calls) && Tracked(log, s)
    ensures var t := Poll(s, now, pdu);
      Safe(Observe(log, s, t, Event), t.calls)
  {
    var t := Poll(s, now, pdu);
    var log' := Observe(log, s, t, Event);
    assert |s.rx| <= CAPACITY;
    PollEffect(s, now, pdu);
    hide Inv, Poll, AduOk, Safe;
    if t.calls == s.calls {
      SafeStays(log, log', s.calls);
    } else {
      var d := Delivery(|log.received| - |s.rx|, |log.received|, |log.flagged|);
      SafeStays(log, log'.(deliveries := log.deliveries), s.calls);
      NewDelivery(log, log', s, t, d);
    }
  }

  lemma SafeCallback<M>(log: Log, s: State<M>, e: Stamped, pdu: PduCallback<M>)
    requires Inv(s) && Safe(log, s.calls) && Tracked(log, s) && !e.event.Event?
    ensures var t := Step(s, e, pdu);
      var log' := Observe(log, s, t, e.event);
      Safe(log', t.calls) && Tracked(log', t)
  {
    CallbackEffect(s, e, pdu);
    hide Inv, Step, Safe;
    SafeStays(log, Observe(log, s, Step(s, e, pdu), e.event), s.calls);
  }

  lemma SafeStep<M>(log: Log, s: State<M>, e: Stamped, pdu: PduCallback<M>)
    requires Inv(s) && Safe(log, s.calls) && Tracked(log, s)
    ensures var t := Step(s, e, pdu);
      var log' := Observe(log, s, t, e.event);
      Safe(log', t.calls) && Tracked(log', t)
  {
    hide Inv, Poll, Safe, Tracked, Observe;
    if e.event.Event? {
      TrackedPoll(log, s, e.time, pdu);
      SafePoll(log, s, e.time, pdu);
    } else {
      SafeCallback(log, s, e, pdu);
    }
  }

  lemma {:induction false} TrackedRun<M>(user: M, trace: seq<Stamped>, pdu: PduCallback<M>)
    ensures var s := Run(Boot(user), trace, pdu);
      Safe(LogOf(Boot(user), trace, pdu), s.calls) && Tracked(LogOf(Boot(user), trace, pdu), s)
    decreases |trace|
  {
    if trace != [] {
      var init, last := trace[..|trace| - 1], trace[|trace| - 1];
      TrackedRun(user, init, pdu);
      RunKeepsInv(user, init, pdu);
      SafeStep(LogOf(Boot(user), init, pdu), Run(Boot(user), init, pdu), last, pdu);
    }
  }

  /** The bytes received in a trace. */
  function Received(trace: seq<Stamped>): seq<byte>
    decreases |trace|
  {
    if trace == [] then []
    else
      var last := trace[|trace| - 1].event;
      Received(trace[..|trace| - 1]) + (if last.Byte? then [last.data] else [])
  }

  lemma {:induction false} LogReceives<M>(s: State<M>, trace: seq<Stamped>, pdu: PduCallback<M>)
    ensures LogOf(s, trace, pdu).received == Received(trace)
    decreases |trace|
  {
    if trace != [] {
      LogReceives(s, trace[..|trace| - 1], pdu);
    }
  }

  /**
   For every interleaving, the frames given to the callback are intact segments of the received
   bytes, of 4 to 256 bytes, in order and disjoint, and none holds a byte after which an error
   stood before the frame was delivered.
   */
  lemma FramesAreSegments<M>(user: M, trace: seq<Stamped>, pdu: PduCallback<M>)
    ensures var calls, log := Run(Boot(user), trace, pdu).calls, LogOf(Boot(user), trace, pdu);
      && log.received == Received(trace)
      && Safe(log, calls)
  {
    TrackedRun(user, trace, pdu);
    LogReceives(Boot(user), trace, pdu);
  }

  /** In numbers: every frame served, in every interleaving, has 4 to 256 bytes. */
  lemma FrameSizes<M>(user: M, trace: seq<Stamped>, pdu: PduCallback<M>, i: nat)
    requires i < |Run(Boot(user), trace, pdu).calls|
    ensures 4 <= |Run(Boot(user), trace, pdu).calls[i]| <= 256
  {
    FramesAreSegments(user, trace, pdu);
    hide Run, LogOf, Intact;
    var log, calls := LogOf(Boot(user), trace, pdu), Run(Boot(user), trace, pdu).calls;
    assert Clean(log, log.deliveries[i], calls[i]);
  }
}
