/**
 How long the line must be silent for a frame to be served. No input comes later than the running
 period and a latency: by then the expiry has been handled. The slave needs 1.5t and 3.5t, one after
 the other, between two frames; section 2.5.1.1 of "MODBUS over Serial Line Specification and
 Implementation Guide V1.02" asks for 3.5t.
 */
module Gaps {
  import opened Words
  import opened Framing
  import opened Splitter
  import opened Eager
  import opened Telegrams
  import opened Silence

  /** While a timer runs, every input comes within its period and the latency `late`. */
  ghost predicate Alert<M>(h: History<M>, p: Periods, late: nat) {
    forall n :: 0 <= n < |h.trace| ==> InTime(After(h, n).timer, h.trace[n].at, p, late)
  }

  predicate InTime(timer: Timer, time: int, p: Periods, late: nat) {
    timer.Running? ==> time - timer.since <= Duration(timer.period, p) + late
  }

  /** A time lies at most `slack` behind start-up or something that was on the line. */
  ghost predicate Near<M>(h: History<M>, n: nat, time: int, slack: nat)
    requires n <= |h.trace|
  {
    time <= h.boot + slack || exists k :: 0 <= k < n && Active(h, k) && time <= Ended(h, k) + slack
  }

  /** A timer that runs has been started not long after something was on the line. */
  ghost predicate Fresh<M>(h: History<M>, p: Periods, late: nat, n: nat)
    requires n <= |h.trace|
  {
    var s := After(h, n);
    && Between(s)
    && (Waiting(s) || Closing(s) ==> Near(h, n, s.timer.since, p.t15 + late))
    && (Collecting(s) ==> Near(h, n, s.timer.since, 0))
  }

  lemma NearLater<M>(h: History<M>, n: nat, time: int, slack: nat, later: int, wider: nat)
    requires n < |h.trace| && Near(h, n, time, slack) && later - time <= wider - slack
    ensures Near(h, n + 1, later, wider)
  {
    hide After;
    if time > h.boot + slack {
      var k :| 0 <= k < n && Active(h, k) && time <= Ended(h, k) + slack;
      assert Active(h, k) && later <= Ended(h, k) + wider;
    }
  }

  lemma NearNow<M>(h: History<M>, n: nat, slack: nat)
    requires n < |h.trace| && Active(h, n)
    ensures Near(h, n + 1, Ended(h, n), slack)
  {
    hide After;
    assert Active(h, n) && Ended(h, n) <= Ended(h, n) + slack;
  }

  lemma FreshStep<M>(h: History<M>, p: Periods, late: nat, n: nat)
    requires n < |h.trace| && Fresh(h, p, late, n) && InTime(After(h, n).timer, h.trace[n].at, p, late)
    ensures Fresh(h, p, late, n + 1)
  {
    var s, m := After(h, n), h.trace[n];
    AfterNext(h, n);
    StepAhead(s, m, [], h.pdu);
    var t := After(h, n + 1);
    if !m.input.Expiry? {
      hide After, EagerStep, Near;
      NearNow(h, n, 0);
      NearNow(h, n, p.t15 + late);
      HeardSince(s, m, h.pdu);
    } else {
      assert StartsReply(h, n) == (|t.sent| > |s.sent|);
      hide After, EagerStep, Near, StartsReply;
      if Waiting(s) {
        FromWaiting(s, m, h.pdu);
      } else if Ready(s) {
        FromReady(s, m, h.pdu);
      } else if Dropped(s) {
        FromDropped(s, m, h.pdu);
      } else if Collecting(s) {
        FromCollecting(s, m, h.pdu);
        NearLater(h, n, s.timer.since, 0, m.at, p.t15 + late);
      } else {
        FromClosing(s, m, h.pdu);
        if Waiting(t) {
          NearNow(h, n, p.t15 + late);
        }
      }
    }
  }

  /** A byte or a line error starts the timer that runs after it. */
  lemma HeardSince<M>(s: State<M>, m: Moment, pdu: PduCallback<M>)
    requires Between(s) && !m.input.Expiry?
    ensures var t := EagerStep(s, m, pdu);
      (Waiting(t) || Collecting(t)) && t.timer.since == m.at
  {
    hide EagerStep;
    if Waiting(s) {
      FromWaiting(s, m, pdu);
    } else if Ready(s) {
      FromReady(s, m, pdu);
    } else if Dropped(s) {
      FromDropped(s, m, pdu);
    } else if Collecting(s) {
      FromCollecting(s, m, pdu);
    } else {
      FromClosing(s, m, pdu);
    }
  }

  lemma {:induction false} FreshRun<M>(h: History<M>, p: Periods, late: nat, n: nat)
    requires n <= |h.trace| && Alert(h, p, late)
    ensures Fresh(h, p, late, n)
    decreases n
  {
    if n == 0 {
      hide EagerBoot;
      BootWaits(h.user, h.boot, h.pdu);
      assert h.trace[..0] == [];
    } else {
      hide After, Fresh;
      FreshRun(h, p, late, n - 1);
      assert InTime(After(h, n - 1).timer, h.trace[n - 1].at, p, late);
      FreshStep(h, p, late, n - 1);
    }
  }

  lemma SilentSince<M>(h: History<M>, n: nat, time: int, slack: nat, later: int, gap: nat)
    requires n <= |h.trace| && Near(h, n, time, slack) && SilentBefore(h, n, later, gap)
    ensures later - time >= gap - slack
  {
    hide After;
    if time > h.boot + slack {
      var k :| 0 <= k < n && Active(h, k) && time <= Ended(h, k) + slack;
      assert Ended(h, k) + gap <= later;
    }
  }

  /** After 1.5t and 3.5t of silence and the latency of both expiries no timer runs. */
  lemma SilenceStopsTimer<M>(h: History<M>, p: Periods, late: nat, n: nat)
    requires n < |h.trace| && Alert(h, p, late)
    requires SilentBefore(h, n, h.trace[n].at, p.t15 + p.t35 + 2 * late + 1)
    ensures Ready(After(h, n)) || Dropped(After(h, n))
  {
    FreshRun(h, p, late, n);
    var s := After(h, n);
    assert InTime(s.timer, h.trace[n].at, p, late);
    var slack := if Collecting(s) then 0 else p.t15 + late;
    hide After, SilentBefore, Near;
    if s.timer.Running? {
      SilentSince(h, n, s.timer.since, slack, h.trace[n].at, p.t15 + p.t35 + 2 * late + 1);
    }
  }

  // ---- The bytes of a frame ----

  lemma {:induction false} GatherAt<M>(h: History<M>, begin: nat, frame: seq<byte>, n: nat)
    requires begin <= |h.trace| && Ready(After(h, begin)) && Spelled(h, begin, frame)
    requires 1 <= n <= |frame| <= CAPACITY
    ensures var s, t := After(h, begin), After(h, begin + n);
      && Collecting(t) && t.rx == frame[..n] && t.user == s.user && t.calls == s.calls && t.sent == s.sent
      && t.timer.since == h.trace[begin + n - 1].at
    decreases n
  {
    hide After, EagerStep, Ready, Collecting;
    assert h.trace[begin + (n - 1)].input == Char(frame[n - 1]);
    AfterNext(h, begin + n - 1);
    var m := h.trace[begin + n - 1];
    if n == 1 {
      FromReady(After(h, begin), m, h.pdu);
    } else {
      GatherAt(h, begin, frame, n - 1);
      FromCollecting(After(h, begin + n - 1), m, h.pdu);
      assert frame[..n - 1] + [frame[n - 1]] == frame[..n];
    }
  }

  lemma {:induction false} LosesAt<M>(h: History<M>, begin: nat, frame: seq<byte>, n: nat)
    requires begin <= |h.trace| && Deaf(After(h, begin)) && Spelled(h, begin, frame) && 1 <= n <= |frame|
    ensures Waiting(After(h, begin + n)) && After(h, begin + n).calls == After(h, begin).calls
    decreases n
  {
    hide After, EagerStep;
    assert h.trace[begin + (n - 1)].input == Char(frame[n - 1]);
    AfterNext(h, begin + n - 1);
    if n > 1 {
      LosesAt(h, begin, frame, n - 1);
    }
    var s, m := After(h, begin + n - 1), h.trace[begin + n - 1];
    hide Ready, Collecting;
    if Waiting(s) {
      FromWaiting(s, m, h.pdu);
    } else if Closing(s) {
      FromClosing(s, m, h.pdu);
    } else {
      FromDropped(s, m, h.pdu);
    }
  }

  ghost predicate OnlySilence<M>(h: History<M>, start: nat, stop: nat) {
    start <= stop <= |h.trace| && forall i :: start <= i < stop ==> h.trace[i].input.Expiry?
  }

  lemma {:induction false} SilenceServesNothing<M>(h: History<M>, start: nat, stop: nat)
    requires OnlySilence(h, start, stop) && (Waiting(After(h, start)) || Ready(After(h, start)))
    ensures Waiting(After(h, stop)) || Ready(After(h, stop))
    ensures After(h, stop).calls == After(h, start).calls
    decreases stop
  {
    hide After, EagerStep, Waiting, Ready;
    if start < stop {
      SilenceServesNothing(h, start, stop - 1);
      AfterNext(h, stop - 1);
      if Waiting(After(h, stop - 1)) {
        FromWaiting(After(h, stop - 1), h.trace[stop - 1], h.pdu);
      } else {
        FromReady(After(h, stop - 1), h.trace[stop - 1], h.pdu);
      }
    }
  }

  // ---- How much silence serves a frame ----

  lemma CompleteFrame<M>(h: History<M>, p: Periods, late: nat, begin: nat, frame: seq<byte>, n: nat)
    requires Alert(h, p, late) && begin <= |h.trace| && Ready(After(h, begin))
    requires Spelled(h, begin, frame) && AduOk(frame) && |frame| <= CAPACITY
    requires OnlySilence(h, begin + |frame|, n) && n < |h.trace|
    requires h.trace[n].at > h.trace[begin + |frame| - 1].at + p.t15 + p.t35 + 2 * late
    ensures After(h, n).calls == After(h, begin).calls + [frame]
  {
    var e := begin + |frame|;
    hide After, EagerStep, Ready;
    GatherAt(h, begin, frame, |frame|);
    assert frame[..|frame|] == frame;
    assert InTime(After(h, e).timer, h.trace[e].at, p, late);
    assert e < n && h.trace[e].input.Expiry?;
    AfterNext(h, e);
    FromCollecting(After(h, e), h.trace[e], h.pdu);
    assert InTime(After(h, e + 1).timer, h.trace[e + 1].at, p, late);
    assert e + 1 < n && h.trace[e + 1].input.Expiry?;
    AfterNext(h, e + 1);
    FromClosing(After(h, e + 1), h.trace[e + 1], h.pdu);
    SilenceServesNothing(h, e + 2, n);
  }

  /**
   An intact frame with 1.5t and 3.5t of silence before it and after it, and the latency of both
   expiries, is served, but for the frame after a rejected one.
   */
  lemma SilenceServes<M>(h: History<M>, p: Periods, late: nat, begin: nat, frame: seq<byte>, n: nat)
    requires Alert(h, p, late)
    requires Spelled(h, begin, frame) && AduOk(frame) && |frame| <= CAPACITY
    requires OnlySilence(h, begin + |frame|, n) && n < |h.trace|
    requires SilentBefore(h, begin, h.trace[begin].at, p.t15 + p.t35 + 2 * late + 1)
    requires h.trace[n].at > h.trace[begin + |frame| - 1].at + p.t15 + p.t35 + 2 * late
    ensures After(h, n).calls == After(h, begin).calls + if Dropped(After(h, begin)) then [] else [frame]
  {
    SilenceStopsTimer(h, p, late, begin);
    hide After, SilentBefore;
    if Dropped(After(h, begin)) {
      LosesAt(h, begin, frame, |frame|);
      SilenceServesNothing(h, begin + |frame|, n);
    } else {
      CompleteFrame(h, p, late, begin, frame, n);
    }
  }

  /**
   If the next frame begins after the 1.5t expiry, but less than 1.5t and 3.5t after an intact frame,
   both frames are lost, even if the line has been silent for 3.5t between them.
   */
  lemma EarlyFrameLosesBoth<M>(h: History<M>, p: Periods, begin: nat, frame: seq<byte>, n: nat, next: seq<byte>)
    requires Monotone(h) && Punctual(h, p) && begin <= |h.trace| && Ready(After(h, begin))
    requires Spelled(h, begin, frame) && 2 <= |frame| <= CAPACITY && Spelled(h, n, next) && next != []
    requires OnlySilence(h, begin + |frame|, n) && begin + |frame| < n
    requires h.trace[n].at < h.trace[begin + |frame| - 1].at + p.t15 + p.t35
    ensures Waiting(After(h, n + |next|)) && After(h, n + |next|).calls == After(h, begin).calls
  {
    var e := begin + |frame|;
    hide After, EagerStep, Ready, Collecting;
    GatherAt(h, begin, frame, |frame|);
    assert frame[..|frame|] == frame;
    AfterNext(h, e);
    CollectedExpiry(After(h, e), h.trace[e], h.pdu);
    assert Due(After(h, e).timer, h.trace[e], p);
    assert Closing(After(h, e + 1));
    assert Due(After(h, e + 1).timer, h.trace[e + 1], p);
    assert h.trace[e + 1].at <= h.trace[n].at;
    LosesAt(h, n, next, |next|);
  }

  lemma CollectedExpiry<M>(s: State<M>, m: Moment, pdu: PduCallback<M>)
    requires Collecting(s) && |s.rx| >= 2 && m.input.Expiry?
    ensures s.timer.Running? && s.timer.period == T15
    ensures var t := EagerStep(s, m, pdu);
      Closing(t) && t.timer.since == m.at && t.calls == s.calls
  {
    hide EagerStep;
    FromCollecting(s, m, pdu);
  }
}
