/**
 A frame on the line with silence around it, and what a slave makes of it under the schedule of
 the Linux adapter.
 */
module Telegrams {
  import opened Words
  import opened Crc
  import opened Framing
  import opened Splitter
  import opened Eager

  /** 3.5t of silence, the bytes, 1.5t and 3.5t of silence. */
  function Telegram(frame: seq<byte>): seq<Input> {
    [Expiry] + Chars(frame) + [Expiry, Expiry]
  }

  predicate Listening<M>(s: State<M>) {
    Waiting(s) || Ready(s)
  }

  lemma {:induction false} Gather<M>(s: State<M>, trace: seq<Moment>, bytes: seq<byte>, pdu: PduCallback<M>)
    requires Ready(s) && Inputs(trace) == Chars(bytes) && 1 <= |bytes| <= CAPACITY
    ensures var t := EagerRun(s, trace, pdu);
      Collecting(t) && t.rx == bytes && t.user == s.user && t.calls == s.calls && t.sent == s.sent
    decreases |bytes|
  {
    hide EagerStep, EagerRun, Ready, Collecting;
    var n := |bytes| - 1;
    var init, last := trace[..n], trace[n];
    assert trace == init + [last];
    assert last.input == Inputs(trace)[n] == Char(bytes[n]);
    RunSnoc(s, init, last, pdu);
    if n == 0 {
      RunNone(s, pdu);
      FromReady(s, last, pdu);
    } else {
      assert Inputs(init) == Chars(bytes[..n]) by {
        assert forall i :: 0 <= i < n ==> Inputs(init)[i] == Inputs(trace)[i];
      }
      Gather(s, init, bytes[..n], pdu);
      FromCollecting(EagerRun(s, init, pdu), last, pdu);
    }
  }

  lemma RunNone<M>(s: State<M>, pdu: PduCallback<M>)
    ensures EagerRun(s, [], pdu) == s
  {
  }

  lemma WakeUp<M>(s: State<M>, m: Moment, pdu: PduCallback<M>)
    requires Listening(s) && m.input.Expiry?
    ensures var t := EagerStep(s, m, pdu);
      Ready(t) && t.user == s.user && t.calls == s.calls && t.sent == s.sent
  {
    hide EagerStep;
    if Waiting(s) {
      FromWaiting(s, m, pdu);
    } else {
      FromReady(s, m, pdu);
    }
  }

  lemma RunFirst<M>(s: State<M>, m: Moment, trace: seq<Moment>, pdu: PduCallback<M>)
    ensures EagerRun(s, [m] + trace, pdu) == EagerRun(EagerStep(s, m, pdu), trace, pdu)
  {
    assert ([m] + trace)[1..] == trace;
  }

  lemma TelegramRest(trace: seq<Moment>, frame: seq<byte>)
    requires Inputs(trace) == Telegram(frame)
    ensures |trace| == |frame| + 3 && trace[0].input.Expiry? && trace == [trace[0]] + trace[1..]
    ensures Inputs(trace[1..]) == Chars(frame) + [Expiry, Expiry]
  {
    var t := Telegram(frame);
    assert |Inputs(trace)| == |t| && t[0] == Inputs(trace)[0];
    forall i | 0 <= i < |frame| + 2 ensures Inputs(trace[1..])[i] == (Chars(frame) + [Expiry, Expiry])[i] {
      assert t[i + 1] == (Chars(frame) + [Expiry, Expiry])[i];
      assert Inputs(trace)[i + 1] == trace[i + 1].input;
    }
  }

  lemma GathersAndServes<M>(u: State<M>, trace: seq<Moment>, frame: seq<byte>, pdu: PduCallback<M>)
    requires Ready(u) && AduOk(frame) && |frame| <= CAPACITY && Inputs(trace) == Chars(frame) + [Expiry, Expiry]
    ensures var t, (user, reply) := EagerRun(u, trace, pdu), pdu(u.user, frame);
      && Listening(t) && t.user == user && t.calls == u.calls + [frame]
      && t.sent == if reply == [] then u.sent else u.sent + [Sealed(reply)]
  {
    hide EagerStep, EagerRun, Intact, Waiting, Ready, Collecting, Closing;
    var n := |frame|;
    var bytes, pause, last := trace[..n], trace[n], trace[n + 1];
    assert |trace| == n + 2 && trace == bytes + [pause] + [last];
    assert Inputs(trace)[n] == Expiry && Inputs(trace)[n + 1] == Expiry;
    assert Inputs(bytes) == Chars(frame) by {
      assert forall i :: 0 <= i < n ==> Inputs(bytes)[i] == Inputs(trace)[i] == Chars(frame)[i];
    }
    RunSnoc(u, bytes + [pause], last, pdu);
    RunSnoc(u, bytes, pause, pdu);
    Gather(u, bytes, frame, pdu);
    var collected := EagerRun(u, bytes, pdu);
    FromCollecting(collected, pause, pdu);
    FromClosing(EagerStep(collected, pause, pdu), last, pdu);
  }

  /** A slave that listens serves an intact frame, and listens again. */
  lemma HearsFrame<M>(s: State<M>, trace: seq<Moment>, frame: seq<byte>, pdu: PduCallback<M>)
    requires Listening(s) && Inputs(trace) == Telegram(frame)
    requires AduOk(frame) && |frame| <= CAPACITY
    ensures var t, (user, reply) := EagerRun(s, trace, pdu), pdu(s.user, frame);
      && Listening(t) && t.user == user && t.calls == s.calls + [frame]
      && t.sent == if reply == [] then s.sent else s.sent + [Sealed(reply)]
  {
    hide EagerStep, EagerRun, Intact, Waiting, Ready;
    TelegramRest(trace, frame);
    RunFirst(s, trace[0], trace[1..], pdu);
    WakeUp(s, trace[0], pdu);
    GathersAndServes(EagerStep(s, trace[0], pdu), trace[1..], frame, pdu);
  }

  // ---- Frames that are lost ----

  /** A state from which the next byte leads back to INIT. */
  predicate Deaf<M>(s: State<M>) {
    Waiting(s) || Closing(s) || Dropped(s)
  }

  lemma LosesByte<M>(s: State<M>, m: Moment, pdu: PduCallback<M>)
    requires Deaf(s) && m.input.Char?
    ensures var t := EagerStep(s, m, pdu);
      Waiting(t) && t.user == s.user && t.calls == s.calls && t.sent == s.sent
  {
    hide EagerStep;
    if Waiting(s) {
      FromWaiting(s, m, pdu);
    } else if Closing(s) {
      FromClosing(s, m, pdu);
    } else {
      FromDropped(s, m, pdu);
    }
  }

  lemma {:induction false} LosesBytes<M>(s: State<M>, trace: seq<Moment>, bytes: seq<byte>, pdu: PduCallback<M>)
    requires Deaf(s) && Inputs(trace) == Chars(bytes) && bytes != []
    ensures var t := EagerRun(s, trace, pdu);
      Waiting(t) && t.user == s.user && t.calls == s.calls && t.sent == s.sent
    decreases |bytes|
  {
    hide EagerStep, Waiting, Closing, Dropped;
    var rest := trace[1..];
    assert trace[0].input == Inputs(trace)[0] == Char(bytes[0]);
    assert Inputs(rest) == Chars(bytes[1..]) by {
      assert forall i :: 0 <= i < |rest| ==> Inputs(rest)[i] == Inputs(trace)[i + 1];
    }
    LosesByte(s, trace[0], pdu);
    var t := EagerStep(s, trace[0], pdu);
    if |bytes| > 1 {
      LosesBytes(t, rest, bytes[1..], pdu);
    }
  }

  /** Where the first silence of a telegram leads. */
  lemma FirstSilence<M>(s: State<M>, m: Moment, pdu: PduCallback<M>)
    requires Between(s) && m.input.Expiry?
    ensures var u := EagerStep(s, m, pdu);
      && (Ready(u) || Deaf(u))
      && (Ready(u) <==> Listening(s) || (Closing(s) && AduOk(s.rx) && pdu(s.user, s.rx).1 == []))
  {
    hide EagerStep, AduOk;
    if Waiting(s) {
      FromWaiting(s, m, pdu);
    } else if Ready(s) {
      FromReady(s, m, pdu);
    } else if Collecting(s) {
      FromCollecting(s, m, pdu);
    } else if Closing(s) {
      FromClosing(s, m, pdu);
    } else {
      FromDropped(s, m, pdu);
    }
  }

  lemma MissesFrame<M>(u: State<M>, trace: seq<Moment>, frame: seq<byte>, pdu: PduCallback<M>)
    requires Deaf(u) && frame != [] && Inputs(trace) == Chars(frame) + [Expiry, Expiry]
    ensures var t := EagerRun(u, trace, pdu);
      Ready(t) && t.user == u.user && t.calls == u.calls && t.sent == u.sent
  {
    hide EagerStep, EagerRun, Deaf, Waiting, Ready;
    var n := |frame|;
    var bytes, pause, last := trace[..n], trace[n], trace[n + 1];
    assert |trace| == n + 2 && trace == bytes + [pause] + [last];
    assert Inputs(trace)[n] == Expiry && Inputs(trace)[n + 1] == Expiry;
    assert Inputs(bytes) == Chars(frame) by {
      assert forall i :: 0 <= i < n ==> Inputs(bytes)[i] == Inputs(trace)[i] == Chars(frame)[i];
    }
    RunSnoc(u, bytes + [pause], last, pdu);
    RunSnoc(u, bytes, pause, pdu);
    LosesBytes(u, bytes, frame, pdu);
    FromWaiting(EagerRun(u, bytes, pdu), pause, pdu);
    FromReady(EagerStep(EagerRun(u, bytes, pdu), pause, pdu), last, pdu);
  }

  /**
   From every state between two inputs: an intact frame with silence around it is served exactly
   if the slave listened before, or that silence ends an earlier frame that is served without a
   reply. Served or not, the slave listens afterwards.
   */
  lemma ServedExactly<M>(s: State<M>, trace: seq<Moment>, frame: seq<byte>, pdu: PduCallback<M>)
    requires Between(s) && Inputs(trace) == Telegram(frame) && AduOk(frame) && |frame| <= CAPACITY
    ensures var before, after := EagerStep(s, trace[0], pdu), EagerRun(s, trace, pdu);
      && Listening(after)
      && after.calls == before.calls
         + if Listening(s) || (Closing(s) && AduOk(s.rx) && pdu(s.user, s.rx).1 == []) then [frame] else []
  {
    hide EagerStep, EagerRun, Between, Deaf, Waiting, Closing, Intact;
    TelegramRest(trace, frame);
    RunFirst(s, trace[0], trace[1..], pdu);
    FirstSilence(s, trace[0], pdu);
    var u := EagerStep(s, trace[0], pdu);
    if Ready(u) {
      GathersAndServes(u, trace[1..], frame, pdu);
    } else {
      MissesFrame(u, trace[1..], frame, pdu);
    }
  }

  /** After a rejected frame the next frame is lost, and only that. */
  lemma DroppedLosesOne<M>(s: State<M>, trace: seq<Moment>, frame: seq<byte>, pdu: PduCallback<M>)
    requires (Listening(s) || Dropped(s)) && Inputs(trace) == Telegram(frame) && AduOk(frame) && |frame| <= CAPACITY
    ensures var after := EagerRun(s, trace, pdu);
      && Listening(after)
      && (after.calls == s.calls + [frame] <==> !Dropped(s))
      && (Dropped(s) ==> after.calls == s.calls && after.user == s.user && after.sent == s.sent)
  {
    hide EagerStep, EagerRun, Intact, Deaf;
    TelegramRest(trace, frame);
    RunFirst(s, trace[0], trace[1..], pdu);
    if Dropped(s) {
      FromDropped(s, trace[0], pdu);
      DroppedIsDeaf(s);
      hide Waiting, Ready, Dropped;
      MissesFrame(s, trace[1..], frame, pdu);
    } else {
      hide Waiting, Ready;
      HearsFrame(s, trace, frame, pdu);
    }
  }

  lemma DroppedIsDeaf<M>(s: State<M>)
    requires Dropped(s)
    ensures Deaf(s)
  {
  }

  // ---- When a slave is in the state after a rejected frame ----

  /** The state is one in which a frame has just been complete, and is not intact. */
  predicate Spoilt<M>(s: State<M>) {
    Closing(s) && !AduOk(s.rx)
  }

  lemma DropsOneStep<M>(s: State<M>, m: Moment, pdu: PduCallback<M>)
    requires Between(s)
    ensures Dropped(EagerStep(s, m, pdu)) <==>
      m.input.Expiry? && (Dropped(s) || Spoilt(s))
  {
    hide EagerStep, AduOk;
    if Waiting(s) {
      FromWaiting(s, m, pdu);
    } else if Ready(s) {
      FromReady(s, m, pdu);
    } else if Collecting(s) {
      FromCollecting(s, m, pdu);
    } else if Closing(s) {
      FromClosing(s, m, pdu);
    } else {
      FromDropped(s, m, pdu);
    }
  }

  /** Input `k` ended a frame that was rejected, and only silence has come since. */
  ghost predicate RejectedAt<M>(s: State<M>, trace: seq<Moment>, k: nat, pdu: PduCallback<M>) {
    && k < |trace|
    && Spoilt(EagerRun(s, trace[..k], pdu))
    && forall i :: k <= i < |trace| ==> trace[i].input.Expiry?
  }

  /** One more input: the frame is the one that it ends, or it is silence after an earlier one. */
  lemma RejectedNext<M>(s: State<M>, init: seq<Moment>, last: Moment, k: nat, pdu: PduCallback<M>)
    ensures RejectedAt(s, init + [last], k, pdu) <==>
      last.input.Expiry? && (RejectedAt(s, init, k, pdu) || (k == |init| && Spoilt(EagerRun(s, init, pdu))))
  {
    hide EagerRun, Spoilt;
    var trace := init + [last];
    if k < |init| {
      assert trace[..k] == init[..k];
      assert forall i :: k <= i < |init| ==> trace[i] == init[i];
      assert trace[|init|] == last;
    } else if k == |init| {
      assert trace[..k] == init;
    }
  }

  /** A slave is in that state exactly if its last complete frame was rejected and only silence has come since. */
  lemma {:induction false} DroppedExactly<M>(s: State<M>, trace: seq<Moment>, pdu: PduCallback<M>)
    requires Between(s) && !Dropped(s)
    ensures Between(EagerRun(s, trace, pdu))
    ensures Dropped(EagerRun(s, trace, pdu)) <==> exists k: nat :: RejectedAt(s, trace, k, pdu)
    decreases |trace|
  {
    if trace != [] {
      hide EagerStep, EagerRun, Dropped, Between, Spoilt, RejectedAt;
      var n := |trace| - 1;
      var init, last := trace[..n], trace[n];
      assert trace == init + [last];
      DroppedExactly(s, init, pdu);
      RunSnoc(s, init, last, pdu);
      StepAhead(EagerRun(s, init, pdu), last, [], pdu);
      DropsOneStep(EagerRun(s, init, pdu), last, pdu);
      forall k: nat ensures RejectedAt(s, trace, k, pdu) <==>
        last.input.Expiry? && (RejectedAt(s, init, k, pdu) || (k == n && Spoilt(EagerRun(s, init, pdu))))
      {
        RejectedNext(s, init, last, k, pdu);
      }
      if Spoilt(EagerRun(s, init, pdu)) && last.input.Expiry? {
        assert RejectedAt(s, trace, n, pdu);
      }
    }
  }
}
