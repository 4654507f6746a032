/**
 Interrupts with modbus_rtu_event in the main loop, as on the microcontrollers. The event may run
 late, but not always: it has to come before the next byte when a frame is complete, and before the
 next expiry when an error stands. Then the machine does what the splitter says.
 */
module Prompt {
  import opened Words
  import opened Crc
  import opened Framing
  import opened Splitter

  // ---- When the event must not be late ----

  /** A complete frame waits for the event. */
  predicate Complete<M>(s: State<M>) {
    s.status.curr == Idle && s.status.prev == Eof && s.status.updated
  }

  /**
   What may come next. Only a complete frame must not wait for the event while anything is heard,
   and an error not while the timer expires. The line is quiet while the slave sends, a timer that
   is stopped does not expire, and only a send that is under way is reported.
   */
  predicate Timely<M>(s: State<M>, event: Event) {
    match event
    case Event => true
    case Byte(_) => (s.status.error || !Complete(s)) && s.status.curr != Busy
    case LineError(_) => (s.status.error || !Complete(s)) && s.status.curr != Busy
    case Expire => !s.status.error && s.timer.Running?
    case Sent => s.status.curr == Busy
  }

  ghost predicate TimelyRun<M>(s: State<M>, trace: seq<Stamped>, pdu: PduCallback<M>) {
    forall k :: 0 <= k < |trace| ==> Timely(Run(s, trace[..k], pdu), trace[k].event)
  }

  /** What the line and the timer contribute to a step. */
  function InputOf(event: Event): seq<Input> {
    match event
    case Byte(data) => [Char(data)]
    case LineError(data) => [Fault(data)]
    case Expire => [Expiry]
    case Sent => []
    case Event => []
  }

  function InputsOf(trace: seq<Stamped>): seq<Input>
    decreases |trace|
  {
    if trace == [] then [] else InputOf(trace[0].event) + InputsOf(trace[1..])
  }

  // ---- The machine against the splitter ----

  /** Besides the invariant: what the buffer holds in each state, as long as no error stands. */
  predicate Sound<M>(s: State<M>) {
    && Inv(s)
    && (s.status.error ||
        match s.status.curr
        case Init => true
        case Idle => if Complete(s) then |s.rx| >= 2 else s.rx == []
        case Sof => |s.rx| == 1
        case Recv => |s.rx| >= 2
        case Eof => |s.rx| >= 2
        case Busy => true)
  }

  /** What the splitter makes of the input to come. */
  function Remaining<M>(s: State<M>, t: seq<Input>, pdu: PduCallback<M>): Outcome<M> {
    if s.status.error then Hunt(t, s.user, pdu, false)
    else match s.status.curr
      case Init => Hunt(t, s.user, pdu, false)
      case Busy => Hunt(t, s.user, pdu, false)
      case Idle => if Complete(s) then Listen(Chars(s.rx) + [Expiry, Expiry] + t, s.user, pdu, false)
                   else Listen(t, s.user, pdu, false)
      case Sof => Listen(Chars(s.rx) + t, s.user, pdu, false)
      case Recv => Listen(Chars(s.rx) + t, s.user, pdu, false)
      case Eof => Listen(Chars(s.rx) + [Expiry] + t, s.user, pdu, false)
  }

  /** What the machine has done, followed by what the splitter makes of the input to come. */
  function Reckoning<M>(s: State<M>, t: seq<Input>, pdu: PduCallback<M>): Outcome<M> {
    var rest := Remaining(s, t, pdu);
    Outcome(rest.user, s.calls + rest.frames, s.sent + rest.sent)
  }

  /** One step of the machine consumes its input. */
  ghost predicate Consumes<M>(s: State<M>, e: Stamped, t: seq<Input>, pdu: PduCallback<M>) {
    && Sound(Step(s, e, pdu))
    && Reckoning(Step(s, e, pdu), t, pdu) == Reckoning(s, InputOf(e.event) + t, pdu)
  }

  lemma LateEvent<M>(s: State<M>, e: Stamped, t: seq<Input>, pdu: PduCallback<M>)
    requires Sound(s) && e.event.Event? && (s.status.error || !Complete(s))
    ensures Consumes(s, e, t, pdu)
  {
    PollKeepsInv(s, e.time, pdu);
    assert [] + t == t;
    assert PairOk(s.status);
    hide AduOk, Sealed, Hunt, Listen, AduProcess, Inv, Chars;
  }

  lemma FrameServed<M>(s: State<M>, t: seq<Input>, pdu: PduCallback<M>)
    requires 2 <= |s.rx| <= CAPACITY
    ensures Listen(Chars(s.rx) + [Expiry, Expiry] + t, s.user, pdu, false)
      == if AduOk(s.rx) then Serve(s.rx, t, s.user, pdu, false) else Hunt(t, s.user, pdu, false)
  {
    hide AduOk, Hunt, Serve;
    var n, tail := |s.rx|, [Expiry, Expiry] + t;
    var u := Chars(s.rx) + tail;
    assert Chars(s.rx) + [Expiry, Expiry] + t == u;
    ListenAfter(s.rx, tail, 0);
    assert |u| == n + |tail| && u[n] == Expiry && u[n + 1] == Expiry && Payload(u, n) == s.rx;
    assert u[n + 2..] == tail[2..] == t;
    hide Chars, Span, Payload;
  }

  /** The event gives a complete frame to the callback, or rejects it. */
  lemma EventOnFrame<M>(s: State<M>, e: Stamped, pdu: PduCallback<M>)
    requires Sound(s) && e.event.Event? && !s.status.error && Complete(s)
    ensures var t, (user, reply) := Step(s, e, pdu), pdu(s.user, s.rx);
      && Sound(t)
      && if !AduOk(s.rx) then t.status.error && t.user == s.user && t.calls == s.calls && t.sent == s.sent
         else
           && !t.status.error && t.user == user && t.calls == s.calls + [s.rx]
           && if reply == [] then t.status.curr == Idle && !t.status.updated && t.sent == s.sent
              else t.status.curr == Busy && t.sent == s.sent + [Sealed(reply)]
  {
    PollKeepsInv(s, e.time, pdu);
    assert TimerOk(s) && BuffersOk(s);
    hide AduOk, Sealed, Inv;
  }

  lemma AppendAgain<T>(a: seq<T>, b: seq<T>, c: seq<T>)
    ensures a + b + c == a + (b + c)
  {
  }

  /** A frame that has been served, with a reply or without. */
  lemma ServedReckoning<M>(s: State<M>, u: State<M>, t: seq<Input>, pdu: PduCallback<M>)
    requires !u.status.error && u.user == pdu(s.user, s.rx).0 && u.calls == s.calls + [s.rx]
    requires if pdu(s.user, s.rx).1 == [] then u.status.curr == Idle && !u.status.updated && u.sent == s.sent
             else u.status.curr == Busy && u.sent == s.sent + [Sealed(pdu(s.user, s.rx).1)]
    ensures var rest := Serve(s.rx, t, s.user, pdu, false);
      Reckoning(u, t, pdu) == Outcome(rest.user, s.calls + rest.frames, s.sent + rest.sent)
  {
    hide Sealed, Hunt, Listen, Chars;
    var reply := pdu(s.user, s.rx).1;
    var rest := if reply == [] then Listen(t, u.user, pdu, false) else Hunt(t, u.user, pdu, false);
    AppendAgain(s.calls, [s.rx], rest.frames);
    AppendAgain(s.sent, if reply == [] then [] else [Sealed(reply)], rest.sent);
    assert s.sent + [] == s.sent;
  }

  lemma FrameEvent<M>(s: State<M>, e: Stamped, t: seq<Input>, pdu: PduCallback<M>)
    requires Sound(s) && e.event.Event? && !s.status.error && Complete(s)
    ensures Consumes(s, e, t, pdu)
  {
    assert 2 <= |s.rx| <= CAPACITY;
    hide Step, AduOk, Sealed, Hunt, Listen, Serve, Chars, Sound;
    FrameServed(s, t, pdu);
    EventOnFrame(s, e, pdu);
    assert [] + t == t;
    if AduOk(s.rx) {
      ServedReckoning(s, Step(s, e, pdu), t, pdu);
      hide Reckoning;
      assert Reckoning(s, t, pdu) == Reckoning(s, [] + t, pdu);
    }
  }

  lemma OneByte<M>(s: State<M>, e: Stamped, t: seq<Input>, pdu: PduCallback<M>)
    requires Sound(s) && Timely(s, e.event) && e.event.Byte?
    ensures Consumes(s, e, t, pdu)
  {
    SerialRecvKeepsInv(s, e.event.data, e.time);
    var u := [Char(e.event.data)] + t;
    assert u[1..] == t;
    var next := Step(s, e, pdu);
    match s.status.curr {
      case Init =>
      case Busy =>
      case Idle =>
        if !s.status.error {
          assert next.rx == [e.event.data];
          assert Chars(next.rx) + t == u;
        }
      case Sof =>
        assert Chars(s.rx + [e.event.data]) + t == Chars(s.rx) + u;
      case Recv =>
        if |s.rx| < CAPACITY {
          assert Chars(s.rx + [e.event.data]) + t == Chars(s.rx) + u;
        } else {
          ListenAfter(s.rx, u, Span(u));
          assert u[CAPACITY + 1 - |s.rx|..] == t;
        }
      case Eof =>
        if !s.status.error {
          EofEnds(s.rx, Char(e.event.data), t, s.user, pdu);
        }
    }
  }

  /** After the first expiry, anything but the second loses the frame. */
  lemma EofEnds<M>(rx: seq<byte>, x: Input, t: seq<Input>, user: M, pdu: PduCallback<M>)
    requires 2 <= |rx| <= CAPACITY && !x.Expiry?
    ensures Listen(Chars(rx) + [Expiry] + ([x] + t), user, pdu, false) == Hunt(t, user, pdu, false)
  {
    var tail := [Expiry, x] + t;
    assert Chars(rx) + [Expiry] + ([x] + t) == Chars(rx) + tail;
    ListenAfter(rx, tail, 0);
    assert tail[2..] == t;
  }

  /** Anything but a byte, and but an expiry after two bytes, loses the bytes before it. */
  lemma RunEnds<M>(rx: seq<byte>, x: Input, t: seq<Input>, user: M, pdu: PduCallback<M>)
    requires |rx| <= CAPACITY && (x.Fault? || (x.Expiry? && |rx| == 1))
    ensures Listen(Chars(rx) + ([x] + t), user, pdu, false) == Hunt(t, user, pdu, false)
  {
    var tail := [x] + t;
    ListenAfter(rx, tail, 0);
    assert tail[1..] == t;
  }

  lemma OneFault<M>(s: State<M>, e: Stamped, t: seq<Input>, pdu: PduCallback<M>)
    requires Sound(s) && Timely(s, e.event) && e.event.LineError?
    ensures Consumes(s, e, t, pdu)
  {
    FlagsKeepInv(s);
    var x := Fault(e.event.data);
    assert ([x] + t)[1..] == t;
    RunEnds(s.rx, x, t, s.user, pdu);
    assert Chars([]) + ([x] + t) == [x] + t;
    if !s.status.error && s.status.curr == Eof {
      EofEnds(s.rx, x, t, s.user, pdu);
    }
    hide Listen, Chars, Inv;
  }

  lemma ExpiryEffect<M>(s: State<M>, e: Stamped, pdu: PduCallback<M>)
    requires Sound(s) && Timely(s, e.event) && e.event.Expire?
    ensures var t := Step(s, e, pdu);
      && Sound(t) && t.rx == s.rx && t.user == s.user && t.calls == s.calls && t.sent == s.sent
      && match s.status.curr
         case Init => !t.status.error && t.status.curr == Idle && !Complete(t)
         case Idle => false
         case Sof => t.status.error
         case Recv => !t.status.error && t.status.curr == Eof
         case Eof => !t.status.error && t.status.curr == Idle && Complete(t)
         case Busy => false
  {
    TimerExpiryKeepsInv(s, e.time);
    assert TimerOk(s) && PairOk(s.status) && BuffersOk(s);
    hide Inv;
  }

  lemma OneExpiry<M>(s: State<M>, e: Stamped, t: seq<Input>, pdu: PduCallback<M>)
    requires Sound(s) && Timely(s, e.event) && e.event.Expire?
    ensures Consumes(s, e, t, pdu)
  {
    ExpiryEffect(s, e, pdu);
    assert |s.rx| <= CAPACITY && (s.status.curr == Sof ==> |s.rx| == 1);
    hide Step, Sound, Serve;
    assert ([Expiry] + t)[1..] == t;
    if s.status.curr == Sof {
      RunEnds(s.rx, Expiry, t, s.user, pdu);
    }
    assert Chars(s.rx) + ([Expiry] + t) == Chars(s.rx) + [Expiry] + t;
    assert Chars(s.rx) + [Expiry] + ([Expiry] + t) == Chars(s.rx) + [Expiry, Expiry] + t;
    hide Listen, Chars;
  }

  lemma OneSent<M>(s: State<M>, e: Stamped, t: seq<Input>, pdu: PduCallback<M>)
    requires Sound(s) && Timely(s, e.event) && e.event.Sent?
    ensures Consumes(s, e, t, pdu)
  {
    FlagsKeepInv(s);
    assert [] + t == t;
  }

  lemma StepConsumes<M>(s: State<M>, e: Stamped, t: seq<Input>, pdu: PduCallback<M>)
    requires Sound(s) && Timely(s, e.event)
    ensures Consumes(s, e, t, pdu)
  {
    hide Consumes, Sound, Timely;
    match e.event {
      case Event =>
        if s.status.error || !Complete(s) {
          LateEvent(s, e, t, pdu);
        } else {
          FrameEvent(s, e, t, pdu);
        }
      case Byte(_) => OneByte(s, e, t, pdu);
      case LineError(_) => OneFault(s, e, t, pdu);
      case Expire => OneExpiry(s, e, t, pdu);
      case Sent => OneSent(s, e, t, pdu);
    }
  }

  lemma {:induction false} RunConsumes<M>(s: State<M>, trace: seq<Stamped>, t: seq<Input>, pdu: PduCallback<M>)
    requires Sound(s) && TimelyRun(s, trace, pdu)
    ensures var u := Run(s, trace, pdu);
      Sound(u) && Reckoning(u, t, pdu) == Reckoning(s, InputsOf(trace) + t, pdu)
    decreases |trace|
  {
    hide Sound, Timely, Reckoning, Step;
    if trace == [] {
      assert InputsOf(trace) + t == t;
    } else {
      var n := |trace| - 1;
      var init, last := trace[..n], trace[n];
      assert TimelyRun(s, init, pdu) by {
        assert forall k :: 0 <= k < n ==> init[..k] == trace[..k] && init[k] == trace[k];
      }
      InputsSnoc(init, last);
      assert trace == init + [last];
      assert InputsOf(trace) + t == InputsOf(init) + (InputOf(last.event) + t);
      RunConsumes(s, init, InputOf(last.event) + t, pdu);
      assert Timely(Run(s, trace[..n], pdu), trace[n].event);
      StepConsumes(Run(s, init, pdu), last, t, pdu);
    }
  }

  lemma {:induction false} InputsSnoc(init: seq<Stamped>, last: Stamped)
    ensures InputsOf(init + [last]) == InputsOf(init) + InputOf(last.event)
    decreases |init|
  {
    if init == [] {
      assert [last][1..] == [];
      assert init + [last] == [last];
    } else {
      assert (init + [last])[1..] == init[1..] + [last];
      InputsSnoc(init[1..], last);
    }
  }

  /** Bytes of a frame that has not ended, or whose end is not confirmed, are not served. */
  lemma UnfinishedFrame<M>(rx: seq<byte>, user: M, pdu: PduCallback<M>)
    requires |rx| <= CAPACITY
    ensures Listen(Chars(rx) + [], user, pdu, false) == Outcome(user, [], [])
    ensures |rx| >= 2 ==> Listen(Chars(rx) + [Expiry] + [], user, pdu, false) == Outcome(user, [], [])
  {
    hide Hunt, Serve, AduOk;
    var n := |rx|;
    ListenAfter(rx, [], 0);
    var u := Chars(rx) + [Expiry];
    assert Chars(rx) + [Expiry] + [] == u;
    ListenAfter(rx, [Expiry], 0);
    assert Span(u) == n && |u| == n + 1 && u[n] == Expiry;
    hide Chars, Span, Payload;
  }

  lemma NothingRemains<M>(s: State<M>, pdu: PduCallback<M>)
    requires Sound(s) && (s.status.error || !Complete(s))
    ensures Reckoning(s, [], pdu) == Outcome(s.user, s.calls, s.sent)
  {
    UnfinishedFrame(s.rx, s.user, pdu);
    UnfinishedFrame([], s.user, pdu);
    assert Chars([]) + [] == [];
    assert Hunt([], s.user, pdu, false) == Outcome(s.user, [], []);
    hide Hunt, Listen, Chars, AduOk, Inv;
    assert s.calls + [] == s.calls && s.sent + [] == s.sent;
  }

  /**
   From start-up on, for every interleaving in which the event is not late when it must not be: the
   user data, the frames served and the frames sent are those of the splitter, which here recovers
   from a rejected frame at once.
   */
  lemma PromptIsSplitting<M>(user: M, trace: seq<Stamped>, pdu: PduCallback<M>)
    requires TimelyRun(Boot(user), trace, pdu)
    requires var t := Run(Boot(user), trace, pdu); t.status.error || !Complete(t)
    ensures var t := Run(Boot(user), trace, pdu);
      Outcome(t.user, t.calls, t.sent) == Hunt(InputsOf(trace), user, pdu, false)
  {
    var t := Run(Boot(user), trace, pdu);
    RunConsumes(Boot(user), trace, [], pdu);
    assert InputsOf(trace) + [] == InputsOf(trace);
    var rest := Hunt(InputsOf(trace), user, pdu, false);
    assert [] + rest.frames == rest.frames && [] + rest.sent == rest.sent;
    hide Run, Hunt;
    NothingRemains(t, pdu);
  }
}
