/**
 The schedule of the Linux adapter: modbus_rtu_event follows every callback, and a reply is
 written before the callback that started it returns. Over whole runs the machine then does to
 its input what a small splitter of the input says.
 */
module Eager {
  import opened Crc
  import opened Framing
  import opened Splitter

  /** An input at time `at`; a reply to it has left the line at time `done`. */
  datatype Moment = Moment(at: int, done: int, input: Input)

  function EagerPoll<M>(s: State<M>, at: int, done: int, pdu: PduCallback<M>): State<M> {
    var t := Poll(s, at, pdu);
    if |t.sent| > |s.sent| then Poll(SerialSent(t), done, pdu) else t
  }

  function EagerStep<M>(s: State<M>, m: Moment, pdu: PduCallback<M>): State<M> {
    match m.input
    case Char(data) => EagerPoll(SerialRecv(s, data, m.at), m.at, m.done, pdu)
    case Fault(_) => EagerPoll(SerialRecvErr(s), m.at, m.done, pdu)
    case Expiry => if s.timer.Running? then EagerPoll(TimerExpiry(s, m.at), m.at, m.done, pdu) else s
  }

  function EagerRun<M>(s: State<M>, trace: seq<Moment>, pdu: PduCallback<M>): State<M>
    decreases |trace|
  {
    if trace == [] then s else EagerRun(EagerStep(s, trace[0], pdu), trace[1..], pdu)
  }

  /** The state in which modbus_rtu_run enters its loop. */
  function EagerBoot<M>(user: M, now: int, pdu: PduCallback<M>): State<M> {
    EagerPoll(Boot(user), now, now, pdu)
  }

  function Inputs(trace: seq<Moment>): (inputs: seq<Input>)
    ensures |inputs| == |trace|
  {
    seq(|trace|, i requires 0 <= i < |trace| => trace[i].input)
  }

  // ---- The machine between two inputs ----

  predicate Waiting<M>(s: State<M>) {
    && !s.status.updated && !s.status.error && s.status.curr == Init
    && s.rx == [] && s.tx == []
    && s.timer.Running? && s.timer.period == T35 && s.callback == SilentInterval
  }

  predicate Ready<M>(s: State<M>) {
    && !s.status.updated && !s.status.error && s.status.curr == Idle
    && s.rx == [] && s.tx == [] && s.timer.Stopped?
  }

  predicate Collecting<M>(s: State<M>) {
    && !s.status.updated && !s.status.error
    && 0 < |s.rx| <= CAPACITY && s.tx == []
    && (if |s.rx| == 1 then s.status.curr == Sof else s.status.curr == Recv)
    && s.timer.Running? && s.timer.period == T15 && s.callback == InterFrame
  }

  predicate Closing<M>(s: State<M>) {
    && !s.status.updated && !s.status.error && s.status.curr == Eof && s.status.prev == Recv
    && 2 <= |s.rx| <= CAPACITY && s.tx == []
    && s.timer.Running? && s.timer.period == T35 && s.callback == SilentInterval
  }

  predicate Dropped<M>(s: State<M>) {
    s.status.updated && s.status.error && s.status.curr == Idle && s.tx == [] && s.timer.Stopped?
  }

  predicate Between<M>(s: State<M>) {
    Waiting(s) || Ready(s) || Collecting(s) || Closing(s) || Dropped(s)
  }

  /** What the splitter makes of the input to come. */
  function Ahead<M>(s: State<M>, t: seq<Input>, pdu: PduCallback<M>): Outcome<M>
    requires Between(s)
  {
    if Waiting(s) then Hunt(t, s.user, pdu, true)
    else if Dropped(s) then Rejected(t, s.user, pdu)
    else if Closing(s) then Listen(Chars(s.rx) + [Expiry] + t, s.user, pdu, true)
    else Listen(Chars(s.rx) + t, s.user, pdu, true)
  }

  /** What the machine has done, followed by what the splitter makes of the input to come. */
  function Total<M>(s: State<M>, t: seq<Input>, pdu: PduCallback<M>): Outcome<M>
    requires Between(s)
  {
    var rest := Ahead(s, t, pdu);
    Outcome(rest.user, s.calls + rest.frames, s.sent + rest.sent)
  }

  lemma Lost<M>(s: State<M>, at: int, done: int, pdu: PduCallback<M>)
    requires s.status.updated && s.status.error && !s.timer.Broken?
    ensures var t := EagerPoll(s, at, done, pdu);
      Waiting(t) && t.timer.since == at && t.user == s.user && t.calls == s.calls && t.sent == s.sent
  {
  }

  lemma WaitingStep<M>(s: State<M>, m: Moment, t: seq<Input>, pdu: PduCallback<M>)
    requires Waiting(s)
    ensures Between(EagerStep(s, m, pdu)) && Total(EagerStep(s, m, pdu), t, pdu) == Total(s, [m.input] + t, pdu)
  {
    assert ([m.input] + t)[1..] == t;
    if m.input.Char? {
      Lost(SerialRecv(s, m.input.data, m.at), m.at, m.done, pdu);
    } else if m.input.Fault? {
      Lost(SerialRecvErr(s), m.at, m.done, pdu);
    } else {
      var u := EagerStep(s, m, pdu);
      assert Ready(u);
      assert Chars(u.rx) + t == t;
    }
  }

  lemma DroppedStep<M>(s: State<M>, m: Moment, t: seq<Input>, pdu: PduCallback<M>)
    requires Dropped(s)
    ensures Between(EagerStep(s, m, pdu)) && Total(EagerStep(s, m, pdu), t, pdu) == Total(s, [m.input] + t, pdu)
  {
    assert ([m.input] + t)[1..] == t;
    if m.input.Char? {
      Lost(SerialRecv(s, m.input.data, m.at), m.at, m.done, pdu);
    } else if m.input.Fault? {
      Lost(SerialRecvErr(s), m.at, m.done, pdu);
    }
  }

  lemma ReadyStep<M>(s: State<M>, m: Moment, t: seq<Input>, pdu: PduCallback<M>)
    requires Ready(s)
    ensures Between(EagerStep(s, m, pdu)) && Total(EagerStep(s, m, pdu), t, pdu) == Total(s, [m.input] + t, pdu)
  {
    hide EagerStep, Hunt, Serve, Rejected;
    FromReady(s, m, pdu);
    var u := [m.input] + t;
    assert u[1..] == t;
    assert Chars(s.rx) + u == u && Chars(s.rx) + t == t;
    if m.input.Char? {
      assert Chars([m.input.data]) + t == u;
      hide Listen;
    }
  }

  lemma CollectingChar<M>(s: State<M>, m: Moment, t: seq<Input>, pdu: PduCallback<M>)
    requires Collecting(s) && m.input.Char?
    ensures Between(EagerStep(s, m, pdu)) && Total(EagerStep(s, m, pdu), t, pdu) == Total(s, [m.input] + t, pdu)
  {
    var u := [m.input] + t;
    var next := EagerStep(s, m, pdu);
    if |s.rx| == CAPACITY {
      Lost(SerialRecv(s, m.input.data, m.at), m.at, m.done, pdu);
      assert u[1..] == t;
      ListenAfter(s.rx, u, Span(u));
      assert u[CAPACITY + 1 - |s.rx|..] == t;
    } else {
      assert next.rx == s.rx + [m.input.data];
      assert Collecting(next);
      assert Chars(next.rx) + t == Chars(s.rx) + u;
    }
  }

  lemma CollectingEnds<M>(s: State<M>, m: Moment, t: seq<Input>, pdu: PduCallback<M>)
    requires Collecting(s) && !m.input.Char?
    ensures Between(EagerStep(s, m, pdu)) && Total(EagerStep(s, m, pdu), t, pdu) == Total(s, [m.input] + t, pdu)
  {
    var u := [m.input] + t;
    var next := EagerStep(s, m, pdu);
    ListenAfter(s.rx, u, 0);
    assert u[1..] == t;
    if m.input.Fault? {
      Lost(SerialRecvErr(s), m.at, m.done, pdu);
      assert (Chars(s.rx) + u)[|s.rx| + 1..] == t;
    } else if |s.rx| == 1 {
      Lost(TimerExpiry(s, m.at), m.at, m.done, pdu);
      assert (Chars(s.rx) + u)[|s.rx| + 1..] == t;
    } else {
      assert Closing(next);
      assert Chars(s.rx) + u == Chars(s.rx) + [Expiry] + t;
    }
  }

  lemma ClosingStep<M>(s: State<M>, m: Moment, t: seq<Input>, pdu: PduCallback<M>)
    requires Closing(s)
    ensures Between(EagerStep(s, m, pdu)) && Total(EagerStep(s, m, pdu), t, pdu) == Total(s, [m.input] + t, pdu)
  {
    var u := [Expiry] + [m.input] + t;
    assert Chars(s.rx) + [Expiry] + ([m.input] + t) == Chars(s.rx) + u;
    ListenAfter(s.rx, u, 0);
    assert (Chars(s.rx) + u)[|s.rx| + 2..] == t by {
      assert u[2..] == t;
    }
    if m.input.Char? {
      Lost(SerialRecv(s, m.input.data, m.at), m.at, m.done, pdu);
    } else if m.input.Fault? {
      Lost(SerialRecvErr(s), m.at, m.done, pdu);
    } else {
      ClosingExpiry(s, m, t, pdu);
    }
  }

  /** The frame is complete: it is served or rejected. */
  lemma ClosingExpiry<M>(s: State<M>, m: Moment, t: seq<Input>, pdu: PduCallback<M>)
    requires Closing(s) && m.input.Expiry?
    ensures var u := EagerStep(s, m, pdu);
      && Between(u)
      && var rest := if AduOk(s.rx) then Serve(s.rx, t, s.user, pdu, true) else Rejected(t, s.user, pdu);
         Total(u, t, pdu) == Outcome(rest.user, s.calls + rest.frames, s.sent + rest.sent)
  {
    var u := EagerStep(s, m, pdu);
    if AduOk(s.rx) {
      var (user, reply) := pdu(s.user, s.rx);
      assert u.calls == s.calls + [s.rx];
      if reply == [] {
        assert Ready(u);
        assert Chars(u.rx) + t == t;
      } else {
        assert Waiting(u);
        assert u.sent == s.sent + [Sealed(reply)];
      }
    } else {
      assert Dropped(u);
    }
  }

  lemma StepAhead<M>(s: State<M>, m: Moment, t: seq<Input>, pdu: PduCallback<M>)
    requires Between(s)
    ensures Between(EagerStep(s, m, pdu)) && Total(EagerStep(s, m, pdu), t, pdu) == Total(s, [m.input] + t, pdu)
  {
    hide EagerStep, Total;
    if Waiting(s) {
      WaitingStep(s, m, t, pdu);
    } else if Ready(s) {
      ReadyStep(s, m, t, pdu);
    } else if Dropped(s) {
      DroppedStep(s, m, t, pdu);
    } else if Closing(s) {
      ClosingStep(s, m, t, pdu);
    } else if m.input.Char? {
      CollectingChar(s, m, t, pdu);
    } else {
      CollectingEnds(s, m, t, pdu);
    }
  }

  lemma NothingAhead<M>(s: State<M>, pdu: PduCallback<M>)
    requires Between(s)
    ensures Total(s, [], pdu) == Outcome(s.user, s.calls, s.sent)
  {
    var t: seq<Input> := if Closing(s) then [Expiry] else [];
    ListenAfter(s.rx, t, 0);
    assert Chars(s.rx) + [Expiry] + [] == Chars(s.rx) + [Expiry];
  }

  /** From every state between two inputs, for every input: the machine does what the splitter says. */
  lemma {:induction false} RunIsSplit<M>(s: State<M>, trace: seq<Moment>, pdu: PduCallback<M>)
    requires Between(s)
    ensures var t := EagerRun(s, trace, pdu);
      Between(t) && Outcome(t.user, t.calls, t.sent) == Total(s, Inputs(trace), pdu)
    decreases |trace|
  {
    hide EagerStep, Total, Between;
    if trace == [] {
      NothingAhead(s, pdu);
      assert Inputs(trace) == [];
    } else {
      assert Inputs(trace) == [trace[0].input] + Inputs(trace[1..]);
      StepAhead(s, trace[0], Inputs(trace[1..]), pdu);
      RunIsSplit(EagerStep(s, trace[0], pdu), trace[1..], pdu);
    }
  }

  lemma BootWaits<M>(user: M, now: int, pdu: PduCallback<M>)
    ensures var s := EagerBoot(user, now, pdu);
      Waiting(s) && s.timer.since == now && s.user == user && s.calls == [] && s.sent == []
  {
  }

  /**
   From start-up on, for every trace of bytes, line errors and expiries: the user data, the frames
   given to the callback and the frames sent are those of the splitter.
   */
  lemma FramingIsSplitting<M>(user: M, now: int, trace: seq<Moment>, pdu: PduCallback<M>)
    ensures var t := EagerRun(EagerBoot(user, now, pdu), trace, pdu);
      Outcome(t.user, t.calls, t.sent) == Hunt(Inputs(trace), user, pdu, true)
  {
    hide EagerBoot, EagerRun;
    BootWaits(user, now, pdu);
    var s := EagerBoot(user, now, pdu);
    RunIsSplit(s, trace, pdu);
    var rest := Hunt(Inputs(trace), user, pdu, true);
    assert [] + rest.frames == rest.frames && [] + rest.sent == rest.sent;
  }

  // ---- The schedule is one of the interleavings ----

  function Callback(input: Input): Event {
    match input
    case Char(data) => Byte(data)
    case Fault(data) => LineError(data)
    case Expiry => Expire
  }

  /** The callbacks and events behind one input. */
  function Steps<M>(s: State<M>, m: Moment, pdu: PduCallback<M>): seq<Stamped> {
    if m.input.Expiry? && !s.timer.Running? then []
    else
      var callback := At(m.at, Callback(m.input));
      var t := Poll(Step(s, callback, pdu), m.at, pdu);
      [callback, At(m.at, Event.Event)]
      + (if |t.sent| > |s.sent| then [At(m.done, Sent), At(m.done, Event.Event)] else [])
  }

  function AllSteps<M>(s: State<M>, trace: seq<Moment>, pdu: PduCallback<M>): seq<Stamped>
    decreases |trace|
  {
    if trace == [] then []
    else Steps(s, trace[0], pdu) + AllSteps(EagerStep(s, trace[0], pdu), trace[1..], pdu)
  }

  lemma RunPair<M>(s: State<M>, a: Stamped, b: Stamped, pdu: PduCallback<M>)
    ensures Run(s, [a, b], pdu) == Step(Step(s, a, pdu), b, pdu)
  {
    hide Step;
    assert [a, b][..1] == [a];
    assert Run(s, [a], pdu) == Step(Run(s, [], pdu), a, pdu);
  }

  lemma CallbackSendsNothing<M>(s: State<M>, e: Stamped, pdu: PduCallback<M>)
    requires !e.event.Event?
    ensures Step(s, e, pdu).sent == s.sent
  {
  }

  lemma StepIsInterleaved<M>(s: State<M>, m: Moment, pdu: PduCallback<M>)
    ensures EagerStep(s, m, pdu) == Run(s, Steps(s, m, pdu), pdu)
  {
    hide Poll, SerialRecv, SerialRecvErr, SerialSent, TimerExpiry, Run;
    if m.input.Expiry? && !s.timer.Running? {
      RunNothing(s, pdu);
    } else {
      var callback := At(m.at, Callback(m.input));
      var event, sent, last := At(m.at, Event.Event), At(m.done, Sent), At(m.done, Event.Event);
      CallbackSendsNothing(s, callback, pdu);
      RunPair(s, callback, event, pdu);
      var t := Run(s, [callback, event], pdu);
      RunPair(t, sent, last, pdu);
      RunConcat(s, [callback, event], [sent, last], pdu);
      assert [callback, event] + [] == [callback, event];
    }
  }

  lemma RunNothing<M>(s: State<M>, pdu: PduCallback<M>)
    ensures Run(s, [], pdu) == s
  {
  }

  /** Every eager run is a run of the interleaved machine, so that what holds there holds here. */
  lemma {:induction false} EagerIsInterleaved<M>(s: State<M>, trace: seq<Moment>, pdu: PduCallback<M>)
    ensures EagerRun(s, trace, pdu) == Run(s, AllSteps(s, trace, pdu), pdu)
    decreases |trace|
  {
    hide EagerStep, Steps;
    if trace != [] {
      StepIsInterleaved(s, trace[0], pdu);
      EagerIsInterleaved(EagerStep(s, trace[0], pdu), trace[1..], pdu);
      RunConcat(s, Steps(s, trace[0], pdu), AllSteps(EagerStep(s, trace[0], pdu), trace[1..], pdu), pdu);
    }
  }

  lemma {:induction false} RunSnoc<M>(s: State<M>, trace: seq<Moment>, m: Moment, pdu: PduCallback<M>)
    ensures EagerRun(s, trace + [m], pdu) == EagerStep(EagerRun(s, trace, pdu), m, pdu)
    decreases |trace|
  {
    hide EagerStep;
    if trace == [] {
      assert trace + [m] == [m];
      assert EagerRun(EagerStep(s, m, pdu), [m][1..], pdu) == EagerStep(s, m, pdu);
    } else {
      RunSnoc(EagerStep(s, trace[0], pdu), trace[1..], m, pdu);
      assert (trace + [m])[1..] == trace[1..] + [m];
    }
  }

  lemma StepKeepsInvariant<M>(s: State<M>, m: Moment, pdu: PduCallback<M>)
    requires Inv(s)
    ensures Inv(EagerStep(s, m, pdu))
  {
    var callback := At(m.at, Callback(m.input));
    StepKeepsInv(s, callback, pdu);
    var t := Step(s, callback, pdu);
    PollKeepsInv(t, m.at, pdu);
    var u := Poll(t, m.at, pdu);
    FlagsKeepInv(u);
    PollKeepsInv(SerialSent(u), m.done, pdu);
    hide Inv, Poll, SerialSent, SerialRecv, SerialRecvErr, TimerExpiry;
  }

  // ---- One input, from each kind of state ----

  lemma FromWaiting<M>(s: State<M>, m: Moment, pdu: PduCallback<M>)
    requires Waiting(s)
    ensures var t := EagerStep(s, m, pdu);
      && t.user == s.user && t.sent == s.sent && t.calls == s.calls
      && (if m.input.Expiry? then Ready(t) else Waiting(t) && t.timer.since == m.at)
  {
  }

  lemma FromReady<M>(s: State<M>, m: Moment, pdu: PduCallback<M>)
    requires Ready(s)
    ensures var t := EagerStep(s, m, pdu);
      && t.user == s.user && t.sent == s.sent && t.calls == s.calls
      && match m.input
         case Char(data) => Collecting(t) && t.rx == [data] && t.timer.since == m.at
         case Fault(_) => Waiting(t) && t.timer.since == m.at
         case Expiry => t == s
  {
  }

  lemma FromCollecting<M>(s: State<M>, m: Moment, pdu: PduCallback<M>)
    requires Collecting(s)
    ensures var t := EagerStep(s, m, pdu);
      && t.user == s.user && t.sent == s.sent && t.calls == s.calls
      && if m.input.Char? && |s.rx| < CAPACITY then
           Collecting(t) && t.rx == s.rx + [m.input.data] && t.timer.since == m.at
         else if m.input.Expiry? && |s.rx| > 1 then
           Closing(t) && t.rx == s.rx && t.timer.since == m.at
         else Waiting(t) && t.timer.since == m.at
  {
  }

  lemma FromClosing<M>(s: State<M>, m: Moment, pdu: PduCallback<M>)
    requires Closing(s)
    ensures var t, (user, reply) := EagerStep(s, m, pdu), pdu(s.user, s.rx);
      if !m.input.Expiry? then
        Waiting(t) && t.timer.since == m.at && t.user == s.user && t.sent == s.sent && t.calls == s.calls
      else if !AduOk(s.rx) then Dropped(t) && t.user == s.user && t.sent == s.sent && t.calls == s.calls
      else
        && t.user == user && t.calls == s.calls + [s.rx]
        && if reply == [] then Ready(t) && t.sent == s.sent
           else Waiting(t) && t.timer.since == m.done && t.sent == s.sent + [Sealed(reply)]
  {
  }

  lemma FromDropped<M>(s: State<M>, m: Moment, pdu: PduCallback<M>)
    requires Dropped(s)
    ensures var t := EagerStep(s, m, pdu);
      && t.user == s.user && t.sent == s.sent && t.calls == s.calls
      && (if m.input.Expiry? then t == s else Waiting(t) && t.timer.since == m.at)
  {
  }
}
