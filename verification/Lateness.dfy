/**
 Interrupts with modbus_rtu_event at arbitrary later points: what becomes of a complete frame
 whose event has not run when the next frame begins.
 */
module Lateness {
  import opened Words
  import opened Crc
  import opened Framing
  import opened Interleaving

  /** A complete frame is in the buffer, but modbus_rtu_event has not run since. */
  predicate Pending<M>(s: State<M>) {
    s.status == Status(true, false, Eof, Idle) && s.timer.Stopped? && s.tx == [] && 2 <= |s.rx| <= CAPACITY
  }

  /** Bytes, with events at any places between them. */
  ghost predicate Chatter(trace: seq<Stamped>) {
    forall i :: 0 <= i < |trace| ==> trace[i].event.Byte? || trace[i].event.Event?
  }

  ghost predicate OnlyEvents(trace: seq<Stamped>) {
    forall i :: 0 <= i < |trace| ==> trace[i].event.Event?
  }

  // ---- The bytes of the next frame go behind the frame that waits ----

  predicate Joined<M>(s: State<M>, t: State<M>, data: seq<byte>) {
    && t.rx == s.rx + data && |t.rx| <= CAPACITY && t.tx == [] && t.calls == s.calls
    && !t.status.error && t.timer.Running? && t.callback == InterFrame
    && data != []
    && if |data| == 1 then t.status.curr == Sof && t.status.prev == Idle
       else t.status.curr == Recv && (t.status.prev == Sof || t.status.prev == Recv)
  }

  /** Nothing in the buffer will be served: an error stands, or the machine is in INIT. */
  predicate Sunk<M>(s: State<M>) {
    s.status.error || s.status.curr == Init
  }

  lemma JoinedStep<M>(s: State<M>, t: State<M>, data: seq<byte>, e: Stamped, pdu: PduCallback<M>)
    requires Joined(s, t, data) && (e.event.Byte? || e.event.Event?)
    ensures var u := Step(t, e, pdu);
      if e.event.Event? then Joined(s, u, data)
      else if |t.rx| < CAPACITY then Joined(s, u, data + [e.event.data])
      else Sunk(u) && u.calls == t.calls
  {
    hide AduOk, Sealed;
  }

  lemma SunkStep<M>(s: State<M>, e: Stamped, pdu: PduCallback<M>)
    requires Sunk(s) && (e.event.Byte? || e.event.Event?)
    ensures Sunk(Step(s, e, pdu)) && Step(s, e, pdu).calls == s.calls
  {
    hide AduOk, Sealed;
  }

  lemma FirstLateByte<M>(s: State<M>, e: Stamped, pdu: PduCallback<M>)
    requires Pending(s) && e.event.Byte?
    ensures var t := Step(s, e, pdu);
      if |s.rx| < CAPACITY then Joined(s, t, [e.event.data]) else Sunk(t) && t.calls == s.calls
  {
  }

  /** Whatever events run between the bytes: the bytes are appended as long as there is room. */
  lemma {:induction false} LateBytes<M>(s: State<M>, trace: seq<Stamped>, pdu: PduCallback<M>)
    requires Pending(s) && Chatter(trace) && trace != [] && trace[0].event.Byte?
    ensures var t, data := Run(s, trace, pdu), Received(trace);
      if |s.rx| + |data| <= CAPACITY then Joined(s, t, data) else Sunk(t) && t.calls == s.calls
    decreases |trace|
  {
    hide Step, Pending, Joined, Sunk;
    var n := |trace| - 1;
    var init, last := trace[..n], trace[n];
    if n == 0 {
      assert init == [] && Received(init) == [];
      assert Received(trace) == [last.event.data];
      FirstLateByte(s, last, pdu);
    } else {
      assert Chatter(init) && init[0] == trace[0];
      LateBytes(s, init, pdu);
      var t := Run(s, init, pdu);
      if |s.rx| + |Received(init)| <= CAPACITY {
        JoinedLength(s, t, Received(init));
        assert Received(init) + [] == Received(init);
        JoinedStep(s, t, Received(init), last, pdu);
      } else {
        SunkStep(t, last, pdu);
      }
    }
  }

  lemma JoinedLength<M>(s: State<M>, t: State<M>, data: seq<byte>)
    requires Joined(s, t, data)
    ensures |t.rx| == |s.rx| + |data| && t.calls == s.calls
  {
  }

  // ---- The two expiries, and events around them ----

  /** The joined frames wait for the second expiry. */
  predicate JoinedEnds<M>(s: State<M>, t: State<M>, data: seq<byte>) {
    && t.rx == s.rx + data && 2 <= |t.rx| <= CAPACITY && t.tx == [] && t.calls == s.calls
    && !t.status.error && t.status.curr == Eof && t.status.prev == Recv
    && t.timer.Running? && t.callback == SilentInterval
  }

  /** Nothing will be served by expiries and events. */
  predicate Harmless<M>(s: State<M>) {
    Sunk(s) || (s.status.curr == Idle && s.status.prev == Init)
  }

  lemma FirstExpiry<M>(s: State<M>, t: State<M>, data: seq<byte>, e: Stamped, pdu: PduCallback<M>)
    requires Joined(s, t, data) && |data| >= 2 && e.event.Expire?
    ensures JoinedEnds(s, Step(t, e, pdu), data)
  {
  }

  lemma {:induction false} EventsChangeNothing<M>(s: State<M>, t: State<M>, data: seq<byte>, events: seq<Stamped>,
                                                  pdu: PduCallback<M>)
    requires JoinedEnds(s, t, data) && OnlyEvents(events)
    ensures JoinedEnds(s, Run(t, events, pdu), data)
    decreases |events|
  {
    if events != [] {
      EventsChangeNothing(s, t, data, events[..|events| - 1], pdu);
      hide AduOk, Sealed;
    }
  }

  lemma SecondExpiry<M>(s: State<M>, t: State<M>, data: seq<byte>, e: Stamped, pdu: PduCallback<M>)
    requires JoinedEnds(s, t, data) && e.event.Expire?
    ensures var u := Step(t, e, pdu);
      Pending(u) && u.rx == s.rx + data && u.calls == s.calls
  {
  }

  /** No frame waits for its event. */
  predicate Settled<M>(s: State<M>) {
    s.status.updated && !s.status.error && s.status.curr == Idle ==> s.status.prev != Eof
  }

  lemma EventServes<M>(s: State<M>, e: Stamped, pdu: PduCallback<M>)
    requires Pending(s) && e.event.Event?
    ensures var t := Step(s, e, pdu);
      Settled(t) && t.calls == if AduOk(s.rx) then s.calls + [s.rx] else s.calls
  {
    hide Intact, Sealed;
  }

  lemma EventSettles<M>(s: State<M>, e: Stamped, pdu: PduCallback<M>)
    requires Settled(s) && e.event.Event?
    ensures Settled(Step(s, e, pdu)) && Step(s, e, pdu).calls == s.calls
  {
  }

  /** The first event serves what waits, or rejects it; the others find nothing. */
  lemma {:induction false} EventsServeOnce<M>(s: State<M>, events: seq<Stamped>, pdu: PduCallback<M>)
    requires Pending(s) && OnlyEvents(events) && events != []
    ensures var t := Run(s, events, pdu);
      Settled(t) && t.calls == if AduOk(s.rx) then s.calls + [s.rx] else s.calls
    decreases |events|
  {
    hide Step, Pending, Settled, AduOk;
    var n := |events| - 1;
    var init := events[..n];
    if n == 0 {
      assert init == [];
      EventServes(s, events[n], pdu);
    } else {
      EventsServeOnce(s, init, pdu);
      EventSettles(Run(s, init, pdu), events[n], pdu);
    }
  }

  lemma HarmlessStep<M>(s: State<M>, e: Stamped, pdu: PduCallback<M>)
    requires Harmless(s) && (e.event.Expire? || e.event.Event?)
    ensures Harmless(Step(s, e, pdu)) && Step(s, e, pdu).calls == s.calls
  {
  }

  lemma {:induction false} HarmlessRun<M>(s: State<M>, trace: seq<Stamped>, pdu: PduCallback<M>)
    requires Harmless(s) && forall i :: 0 <= i < |trace| ==> trace[i].event.Expire? || trace[i].event.Event?
    ensures Harmless(Run(s, trace, pdu)) && Run(s, trace, pdu).calls == s.calls
    decreases |trace|
  {
    hide Step, Harmless;
    if trace != [] {
      HarmlessRun(s, trace[..|trace| - 1], pdu);
      HarmlessStep(Run(s, trace[..|trace| - 1], pdu), trace[|trace| - 1], pdu);
    }
  }

  /** Two or more bytes with events between them, then two expiries with events after each. */
  datatype Sequel = Sequel(bytes: seq<Stamped>, first: int, pause: seq<Stamped>, second: int, tail: seq<Stamped>)
  {
    ghost predicate Valid() {
      && Chatter(bytes) && bytes != [] && bytes[0].event.Byte? && |Received(bytes)| >= 2
      && OnlyEvents(pause) && OnlyEvents(tail) && tail != []
    }

    function Silence(): seq<Stamped> {
      [At(first, Expire)] + pause + [At(second, Expire)] + tail
    }

    function Trace(): seq<Stamped> {
      bytes + Silence()
    }
  }

  lemma RunOne<M>(s: State<M>, e: Stamped, pdu: PduCallback<M>)
    ensures Run(s, [e], pdu) == Step(s, e, pdu)
  {
    assert [e][..0] == [];
  }

  lemma RunSilence<M>(s: State<M>, q: Sequel, pdu: PduCallback<M>)
    ensures var a := Step(s, At(q.first, Expire), pdu);
      var b := Step(Run(a, q.pause, pdu), At(q.second, Expire), pdu);
      Run(s, q.Silence(), pdu) == Run(b, q.tail, pdu)
  {
    hide Step, Run;
    var first, second := At(q.first, Expire), At(q.second, Expire);
    RunConcat(s, [first] + q.pause + [second], q.tail, pdu);
    RunConcat(s, [first] + q.pause, [second], pdu);
    RunConcat(s, [first], q.pause, pdu);
    RunOne(s, first, pdu);
    RunOne(Run(Step(s, first, pdu), q.pause, pdu), second, pdu);
  }

  /**
   When no event runs between a complete frame and the next byte, that frame and the next one are
   taken for one, whatever events run later: they are served together if they fit into the buffer
   and are intact, and otherwise both are lost.
   */
  lemma LateEventJoins<M>(s: State<M>, q: Sequel, pdu: PduCallback<M>)
    requires Pending(s) && q.Valid()
    ensures var whole := s.rx + Received(q.bytes);
      Run(s, q.Trace(), pdu).calls
        == if |whole| <= CAPACITY && AduOk(whole) then s.calls + [whole] else s.calls
  {
    hide Step, Run, Joined, JoinedEnds, Pending, Sunk, AduOk;
    var data := Received(q.bytes);
    RunConcat(s, q.bytes, q.Silence(), pdu);
    LateBytes(s, q.bytes, pdu);
    var a := Run(s, q.bytes, pdu);
    if |s.rx| + |data| <= CAPACITY {
      RunSilence(a, q, pdu);
      FirstExpiry(s, a, data, At(q.first, Expire), pdu);
      var b := Step(a, At(q.first, Expire), pdu);
      EventsChangeNothing(s, b, data, q.pause, pdu);
      SecondExpiry(s, Run(b, q.pause, pdu), data, At(q.second, Expire), pdu);
      EventsServeOnce(Step(Run(b, q.pause, pdu), At(q.second, Expire), pdu), q.tail, pdu);
    } else {
      HarmlessRun(a, q.Silence(), pdu);
    }
  }

  lemma {:induction false} CallsGrow<M>(s: State<M>, trace: seq<Stamped>, pdu: PduCallback<M>)
    ensures s.calls <= Run(s, trace, pdu).calls
    decreases |trace|
  {
    if trace != [] {
      CallsGrow(s, trace[..|trace| - 1], pdu);
      CallsGrowOneStep(Run(s, trace[..|trace| - 1], pdu), trace[|trace| - 1], pdu);
    }
  }

  lemma CallsGrowOneStep<M>(s: State<M>, e: Stamped, pdu: PduCallback<M>)
    ensures s.calls <= Step(s, e, pdu).calls
  {
    hide AduOk, Sealed;
  }

  /** Before such a sequel an intact frame that waits is the next to be served exactly if an event comes first. */
  lemma ServedBeforeSequel<M>(s: State<M>, early: seq<Stamped>, q: Sequel, pdu: PduCallback<M>)
    requires Pending(s) && AduOk(s.rx) && OnlyEvents(early) && q.Valid()
    ensures var calls := Run(s, early + q.Trace(), pdu).calls;
      early != [] <==> |calls| > |s.calls| && calls[|s.calls|] == s.rx
  {
    hide AduOk, Step;
    RunConcat(s, early, q.Trace(), pdu);
    if early == [] {
      LateEventJoins(s, q, pdu);
      assert |s.rx + Received(q.bytes)| > |s.rx|;
    } else {
      EventsServeOnce(s, early, pdu);
      CallsGrow(Run(s, early, pdu), q.Trace(), pdu);
    }
  }

  /** Two intact frames are never taken for one intact frame: without an event between them both are lost. */
  lemma IntactFramesBothLost<M>(s: State<M>, q: Sequel, pdu: PduCallback<M>)
    requires Pending(s) && q.Valid() && AduOk(s.rx) && AduOk(Received(q.bytes))
    ensures Run(s, q.Trace(), pdu).calls == s.calls
  {
    IntactNeverJoins(s.rx, Received(q.bytes));
    hide Intact, Run;
    LateEventJoins(s, q, pdu);
  }

  // ---- When a frame that waits is served alone ----

  /** The first step that is not an expiry is the event. */
  predicate EventFirst(trace: seq<Stamped>) {
    trace != [] && (trace[0].event.Event? || (trace[0].event.Expire? && EventFirst(trace[1..])))
  }

  /** The steps before the first byte. */
  function BeforeByte(trace: seq<Stamped>): (n: nat)
    ensures n <= |trace| && forall i :: 0 <= i < n ==> !trace[i].event.Byte?
    ensures n < |trace| ==> trace[n].event.Byte?
  {
    if trace == [] || trace[0].event.Byte? then 0 else 1 + BeforeByte(trace[1..])
  }

  /** Without a further byte nothing will be served. */
  predicate Barren<M>(s: State<M>) {
    s.status.error || s.status.curr == Init || s.status.curr == Busy
    || (s.status.curr == Idle && (s.status.prev == Init || !s.status.updated))
  }

  lemma BarrenStep<M>(s: State<M>, e: Stamped, pdu: PduCallback<M>)
    requires Barren(s) && !e.event.Byte?
    ensures Barren(Step(s, e, pdu)) && Step(s, e, pdu).calls == s.calls
  {
  }

  lemma PendingStep<M>(s: State<M>, e: Stamped, pdu: PduCallback<M>)
    requires Pending(s) && !e.event.Byte?
    ensures var t := Step(s, e, pdu);
      match e.event
      case Expire => t == s
      case Event => Barren(t) && t.calls == if AduOk(s.rx) then s.calls + [s.rx] else s.calls
      case _ => Barren(t) && t.calls == s.calls
  {
    hide Intact, Sealed;
  }

  lemma {:induction false} BarrenRun<M>(s: State<M>, trace: seq<Stamped>, pdu: PduCallback<M>)
    requires Barren(s) && forall i :: 0 <= i < |trace| ==> !trace[i].event.Byte?
    ensures Run(s, trace, pdu).calls == s.calls && Barren(Run(s, trace, pdu))
    decreases |trace|
  {
    hide Step, Barren;
    if trace != [] {
      BarrenRun(s, trace[..|trace| - 1], pdu);
      BarrenStep(Run(s, trace[..|trace| - 1], pdu), trace[|trace| - 1], pdu);
    }
  }

  lemma {:induction false} QuietRun<M>(s: State<M>, trace: seq<Stamped>, pdu: PduCallback<M>)
    requires Pending(s) && AduOk(s.rx) && forall i :: 0 <= i < |trace| ==> !trace[i].event.Byte?
    ensures Run(s, trace, pdu).calls == if EventFirst(trace) then s.calls + [s.rx] else s.calls
    decreases |trace|
  {
    hide Step, Pending, Barren, AduOk;
    if trace != [] {
      var first, rest := trace[0], trace[1..];
      assert trace == [first] + rest;
      RunConcat(s, [first], rest, pdu);
      RunOne(s, first, pdu);
      PendingStep(s, first, pdu);
      if first.event.Expire? {
        QuietRun(s, rest, pdu);
      } else {
        BarrenRun(Step(s, first, pdu), rest, pdu);
      }
    }
  }

  lemma {:induction false} EventFirstOfPrefix(trace: seq<Stamped>)
    ensures EventFirst(trace[..BeforeByte(trace)]) == EventFirst(trace)
    decreases |trace|
  {
    var n := BeforeByte(trace);
    if n > 0 {
      assert trace[..n][1..] == trace[1..][..n - 1];
      EventFirstOfPrefix(trace[1..]);
    }
  }

  /**
   Whatever follows: an intact frame that waits is served before a further byte comes exactly if
   the first step that is not an expiry is the event. A byte, a line error or a stray report of a
   sent frame before it loses the frame.
   */
  lemma ServedAloneExactly<M>(s: State<M>, trace: seq<Stamped>, pdu: PduCallback<M>)
    requires Pending(s) && AduOk(s.rx)
    ensures var calls := Run(s, trace[..BeforeByte(trace)], pdu).calls;
      && calls == (if EventFirst(trace) then s.calls + [s.rx] else s.calls)
      && calls <= Run(s, trace, pdu).calls
  {
    var n := BeforeByte(trace);
    hide AduOk, Pending;
    EventFirstOfPrefix(trace);
    QuietRun(s, trace[..n], pdu);
    assert trace == trace[..n] + trace[n..];
    RunConcat(s, trace[..n], trace[n..], pdu);
    CallsGrow(Run(s, trace[..n], pdu), trace[n..], pdu);
  }

  /** So an intact frame is joined to zero bytes that follow it, whatever their number, and accepted with them. */
  lemma LateZerosJoin<M>(s: State<M>, n: nat, q: Sequel, pdu: PduCallback<M>)
    requires Pending(s) && AduOk(s.rx) && q.Valid()
    requires Received(q.bytes) == seq(n, _ => 0) && |s.rx| + n <= CAPACITY
    ensures Run(s, q.Trace(), pdu).calls == s.calls + [s.rx + seq(n, _ => 0)]
  {
    TrailingZeros(s.rx, n);
    hide Intact, Run;
    LateEventJoins(s, q, pdu);
  }
}
