/**
 The silence around a frame when the timer of the Linux adapter keeps time: an expiry is handled
 no earlier than the period that is running, counted from the last start or reset.
 */
module Silence {
  import opened Words
  import opened Framing
  import opened Splitter
  import opened Eager

  datatype Periods = Periods(t15: nat, t35: nat)

  function Duration(period: Period, p: Periods): nat {
    match period
    case T15 => p.t15
    case T35 => p.t35
  }

  /** A slave that starts at time `boot` and what happens to it. */
  datatype History<!M> = History(user: M, boot: int, trace: seq<Moment>, pdu: PduCallback<M>)

  /** The state after the first `n` inputs. */
  function After<M>(h: History<M>, n: nat): State<M>
    requires n <= |h.trace|
  {
    EagerRun(EagerBoot(h.user, h.boot, h.pdu), h.trace[..n], h.pdu)
  }

  /** The clock does not run backwards. */
  ghost predicate Monotone<M>(h: History<M>) {
    && (forall i :: 0 <= i < |h.trace| ==> h.boot <= h.trace[i].at <= h.trace[i].done)
    && (forall i, j :: 0 <= i < j < |h.trace| ==> h.trace[i].done <= h.trace[j].at)
  }

  /** The test of timeout_impl: the running period has elapsed. */
  predicate Due(timer: Timer, m: Moment, p: Periods) {
    m.input.Expiry? && timer.Running? ==> m.at - timer.since >= Duration(timer.period, p)
  }

  ghost predicate Punctual<M>(h: History<M>, p: Periods) {
    forall n :: 0 <= n < |h.trace| ==> Due(After(h, n).timer, h.trace[n], p)
  }

  predicate StartsReply<M>(h: History<M>, n: nat)
    requires n < |h.trace|
  {
    |After(h, n + 1).sent| > |After(h, n).sent|
  }

  /** The line carries something at an input: a byte, a damaged byte, or the slave's reply. */
  predicate Active<M>(h: History<M>, n: nat)
    requires n < |h.trace|
  {
    !h.trace[n].input.Expiry? || StartsReply(h, n)
  }

  /** A byte ends when it is received; only an expiry starts a reply, which ends when it is sent. */
  function Ended<M>(h: History<M>, n: nat): int
    requires n < |h.trace|
  {
    if h.trace[n].input.Expiry? then h.trace[n].done else h.trace[n].at
  }

  /** Start-up and everything on the line before input `n` lie at least `gap` before `time`. */
  ghost predicate SilentBefore<M>(h: History<M>, n: nat, time: int, gap: nat)
    requires n <= |h.trace|
  {
    && h.boot + gap <= time
    && forall k :: 0 <= k < n && Active(h, k) ==> Ended(h, k) + gap <= time
  }

  /** The inputs from `begin` on are the bytes of a frame, without anything between them. */
  ghost predicate Spelled<M>(h: History<M>, begin: nat, frame: seq<byte>) {
    && begin + |frame| <= |h.trace|
    && forall i :: 0 <= i < |frame| ==> h.trace[begin + i].input == Char(frame[i])
  }

  /** What the times of the inputs so far say about a state between two inputs. */
  ghost predicate Timed<M>(h: History<M>, p: Periods, n: nat)
    requires n <= |h.trace|
  {
    var s := After(h, n);
    if Waiting(s) then SilentBefore(h, n, s.timer.since, 0)
    else if Ready(s) then n > 0 && SilentBefore(h, n, h.trace[n - 1].done, p.t35)
    else if Collecting(s) then
      var begin := n - |s.rx|;
      && begin >= 0 && Spelled(h, begin, s.rx)
      && SilentBefore(h, begin, h.trace[begin].at, p.t35)
      && s.timer.since == h.trace[n - 1].at
    else if Closing(s) then
      var begin := n - |s.rx| - 1;
      && begin >= 0 && Spelled(h, begin, s.rx)
      && SilentBefore(h, begin, h.trace[begin].at, p.t35)
      && h.trace[n - 1].input.Expiry? && !StartsReply(h, n - 1)
      && h.trace[n - 1].at - h.trace[n - 2].at >= p.t15
      && s.timer.since == h.trace[n - 1].at
    else Dropped(s)
  }

  lemma AfterNext<M>(h: History<M>, n: nat)
    requires n < |h.trace|
    ensures After(h, n + 1) == EagerStep(After(h, n), h.trace[n], h.pdu)
  {
    assert h.trace[..n + 1] == h.trace[..n] + [h.trace[n]];
    RunSnoc(EagerBoot(h.user, h.boot, h.pdu), h.trace[..n], h.trace[n], h.pdu);
  }

  /** Whatever happened before an input has ended by then. */
  lemma EndedBefore<M>(h: History<M>, n: nat)
    requires n < |h.trace| && Monotone(h)
    ensures SilentBefore(h, n, h.trace[n].at, 0)
    ensures SilentBefore(h, n + 1, h.trace[n].done, 0)
  {
    hide After;
  }

  /** The input itself: an expiry without a reply leaves the line silent. */
  lemma OneMore<M>(h: History<M>, n: nat, time: int, gap: nat)
    requires n < |h.trace| && SilentBefore(h, n, time, gap)
    requires Active(h, n) ==> Ended(h, n) + gap <= time
    ensures SilentBefore(h, n + 1, time, gap)
  {
    hide After;
  }

  lemma SilentLonger<M>(h: History<M>, n: nat, time: int, gap: nat, later: int, wider: nat)
    requires n <= |h.trace| && SilentBefore(h, n, time, gap) && later - time >= wider - gap
    ensures SilentBefore(h, n, later, wider)
  {
    hide After;
  }

  lemma NowWaiting<M>(h: History<M>, p: Periods, n: nat)
    requires n < |h.trace| && Monotone(h) && !StartsReply(h, n)
    requires Waiting(After(h, n + 1)) && After(h, n + 1).timer.since == h.trace[n].at
    ensures Timed(h, p, n + 1)
  {
    EndedBefore(h, n);
    hide After, SilentBefore;
    OneMore(h, n, h.trace[n].at, 0);
  }

  lemma TimedWaiting<M>(h: History<M>, p: Periods, n: nat)
    requires n < |h.trace| && Monotone(h) && Due(After(h, n).timer, h.trace[n], p)
    requires Waiting(After(h, n)) && Timed(h, p, n)
    ensures Timed(h, p, n + 1)
  {
    var s, m := After(h, n), h.trace[n];
    AfterNext(h, n);
    FromWaiting(s, m, h.pdu);
    if m.input.Expiry? {
      assert m.at - s.timer.since >= p.t35;
      hide After, EagerStep, SilentBefore;
      SilentLonger(h, n, s.timer.since, 0, m.done, p.t35);
      OneMore(h, n, m.done, p.t35);
    } else {
      NowWaiting(h, p, n);
    }
  }

  lemma TimedReady<M>(h: History<M>, p: Periods, n: nat)
    requires n < |h.trace| && Monotone(h)
    requires Ready(After(h, n)) && Timed(h, p, n)
    ensures Timed(h, p, n + 1)
  {
    var s, m := After(h, n), h.trace[n];
    AfterNext(h, n);
    FromReady(s, m, h.pdu);
    if m.input.Fault? {
      NowWaiting(h, p, n);
    } else {
      var earlier := h.trace[n - 1].done;
      assert earlier <= m.at <= m.done;
      hide After, EagerStep, SilentBefore, Monotone;
      SilentLonger(h, n, earlier, p.t35, m.at, p.t35);
      if m.input.Expiry? {
        SilentLonger(h, n, earlier, p.t35, m.done, p.t35);
        OneMore(h, n, m.done, p.t35);
      }
    }
  }

  lemma TimedDropped<M>(h: History<M>, p: Periods, n: nat)
    requires n < |h.trace| && Monotone(h)
    requires Dropped(After(h, n))
    ensures Timed(h, p, n + 1)
  {
    AfterNext(h, n);
    FromDropped(After(h, n), h.trace[n], h.pdu);
    if !h.trace[n].input.Expiry? {
      NowWaiting(h, p, n);
    }
  }

  lemma AnotherByte<M>(h: History<M>, p: Periods, n: nat)
    requires n < |h.trace|
    requires Collecting(After(h, n)) && Timed(h, p, n)
    requires h.trace[n].input.Char? && |After(h, n).rx| < CAPACITY
    ensures Timed(h, p, n + 1)
  {
    var s, m := After(h, n), h.trace[n];
    AfterNext(h, n);
    FromCollecting(s, m, h.pdu);
    assert n + 1 - |After(h, n + 1).rx| == n - |s.rx|;
    hide After, EagerStep, SilentBefore;
    Append(h, n - |s.rx|, s.rx, m.input.data);
  }

  lemma PauseAfterFrame<M>(h: History<M>, p: Periods, n: nat)
    requires n < |h.trace| && Due(After(h, n).timer, h.trace[n], p)
    requires Collecting(After(h, n)) && Timed(h, p, n)
    requires h.trace[n].input.Expiry? && |After(h, n).rx| > 1
    ensures Timed(h, p, n + 1)
  {
    var s, m := After(h, n), h.trace[n];
    AfterNext(h, n);
    FromCollecting(s, m, h.pdu);
    hide After, EagerStep, SilentBefore;
  }

  lemma TimedCollecting<M>(h: History<M>, p: Periods, n: nat)
    requires n < |h.trace| && Monotone(h) && Due(After(h, n).timer, h.trace[n], p)
    requires Collecting(After(h, n)) && Timed(h, p, n)
    ensures Timed(h, p, n + 1)
  {
    var s, m := After(h, n), h.trace[n];
    AfterNext(h, n);
    FromCollecting(s, m, h.pdu);
    hide After, EagerStep, Timed, Monotone, Due;
    if m.input.Char? && |s.rx| < CAPACITY {
      AnotherByte(h, p, n);
    } else if m.input.Expiry? && |s.rx| > 1 {
      PauseAfterFrame(h, p, n);
    } else {
      NowWaiting(h, p, n);
    }
  }

  lemma Append<M>(h: History<M>, begin: nat, rx: seq<byte>, data: byte)
    requires Spelled(h, begin, rx)
    requires begin + |rx| < |h.trace| && h.trace[begin + |rx|].input == Char(data)
    ensures Spelled(h, begin, rx + [data])
  {
  }

  lemma TimedClosing<M>(h: History<M>, p: Periods, n: nat)
    requires n < |h.trace| && Monotone(h) && Due(After(h, n).timer, h.trace[n], p)
    requires Closing(After(h, n)) && Timed(h, p, n)
    ensures Timed(h, p, n + 1)
  {
    var s, m := After(h, n), h.trace[n];
    AfterNext(h, n);
    FromClosing(s, m, h.pdu);
    var t := After(h, n + 1);
    if Waiting(t) {
      EndedBefore(h, n);
      hide After, EagerStep, SilentBefore, Monotone;
      if !m.input.Expiry? {
        NowWaiting(h, p, n);
      }
    } else if Ready(t) {
      ClosedSilence(h, p, n);
      hide After, EagerStep, SilentBefore, Monotone;
      OneMore(h, n, m.done, p.t35);
    }
  }

  /** Before the expiry that ends a frame, the whole frame has been over for both periods. */
  lemma ClosedSilence<M>(h: History<M>, p: Periods, n: nat)
    requires n < |h.trace| && Monotone(h) && Due(After(h, n).timer, h.trace[n], p)
    requires Closing(After(h, n)) && Timed(h, p, n) && h.trace[n].input.Expiry?
    ensures SilentBefore(h, n, h.trace[n].done, p.t35)
  {
    var s, m := After(h, n), h.trace[n];
    var begin := n - |s.rx| - 1;
    var last := h.trace[n - 2].at;
    assert m.at - last >= p.t15 + p.t35;
    forall k | 0 <= k < n && Active(h, k) ensures Ended(h, k) + p.t35 <= m.done {
      if k < begin {
        assert Ended(h, k) + p.t35 <= h.trace[begin].at <= m.at;
      } else if k < n - 1 {
        assert h.trace[begin + (k - begin)].input == Char(s.rx[k - begin]);
        assert h.trace[k].at <= last;
      }
    }
  }

  lemma TimedStep<M>(h: History<M>, p: Periods, n: nat)
    requires n < |h.trace| && Monotone(h) && Punctual(h, p)
    requires Between(After(h, n)) && Timed(h, p, n)
    ensures Timed(h, p, n + 1)
  {
    assert Due(After(h, n).timer, h.trace[n], p);
    hide After, Timed, Monotone, Punctual, Due, Waiting, Ready, Dropped, Collecting, Closing;
    if Waiting(After(h, n)) {
      TimedWaiting(h, p, n);
    } else if Ready(After(h, n)) {
      TimedReady(h, p, n);
    } else if Dropped(After(h, n)) {
      TimedDropped(h, p, n);
    } else if Collecting(After(h, n)) {
      TimedCollecting(h, p, n);
    } else {
      TimedClosing(h, p, n);
    }
  }

  lemma {:induction false} TimedRun<M>(h: History<M>, p: Periods, n: nat)
    requires n <= |h.trace| && Monotone(h) && Punctual(h, p)
    ensures Between(After(h, n)) && Timed(h, p, n)
    decreases n
  {
    if n == 0 {
      TimedBoot(h, p);
    } else {
      hide After, Timed, Monotone, Punctual, Between;
      TimedRun(h, p, n - 1);
      TimedStep(h, p, n - 1);
      AfterNext(h, n - 1);
      StepAhead(After(h, n - 1), h.trace[n - 1], [], h.pdu);
    }
  }

  lemma TimedBoot<M>(h: History<M>, p: Periods)
    ensures Between(After(h, 0)) && Timed(h, p, 0)
  {
    hide EagerBoot;
    BootWaits(h.user, h.boot, h.pdu);
    assert h.trace[..0] == [];
  }

  /** Only the expiry that ends a frame gives something to the callback. */
  lemma OnlyClosingServes<M>(s: State<M>, m: Moment, pdu: PduCallback<M>)
    requires Between(s) && EagerStep(s, m, pdu).calls != s.calls
    ensures Closing(s) && m.input.Expiry? && EagerStep(s, m, pdu).calls == s.calls + [s.rx]
  {
    hide EagerStep;
    if Waiting(s) {
      FromWaiting(s, m, pdu);
    } else if Ready(s) {
      FromReady(s, m, pdu);
    } else if Dropped(s) {
      FromDropped(s, m, pdu);
    } else if Collecting(s) {
      FromCollecting(s, m, pdu);
    } else {
      FromClosing(s, m, pdu);
    }
  }

  /**
   The inputs up to number `n` end with the adjacent bytes of a frame and two expiries. Before
   the frame nothing was on the line for 3.5t, and after it nothing for 1.5t and 3.5t together.
   */
  ghost predicate Surrounded<M>(h: History<M>, p: Periods, n: nat, frame: seq<byte>)
    requires n < |h.trace|
  {
    var begin := n - |frame| - 1;
    && |frame| > 0 && begin >= 0 && Spelled(h, begin, frame)
    && h.trace[n - 1].input.Expiry? && h.trace[n].input.Expiry?
    && SilentBefore(h, begin, h.trace[begin].at, p.t35)
    && h.trace[n].at - h.trace[n - 2].at >= p.t15 + p.t35
  }

  /** In every run every frame given to the callback is surrounded by silence. */
  lemma SilenceAroundFrames<M>(h: History<M>, p: Periods, n: nat) returns (frame: seq<byte>)
    requires n < |h.trace| && Monotone(h) && Punctual(h, p)
    requires After(h, n + 1).calls != After(h, n).calls
    ensures After(h, n + 1).calls == After(h, n).calls + [frame]
    ensures Surrounded(h, p, n, frame)
  {
    var s := After(h, n);
    TimedRun(h, p, n);
    AfterNext(h, n);
    assert Due(s.timer, h.trace[n], p);
    hide After, EagerStep, Monotone, Punctual, SilentBefore;
    OnlyClosingServes(s, h.trace[n], h.pdu);
    frame := s.rx;
  }
}
