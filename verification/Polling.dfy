/**
 The loop of modbus_rtu_run: it hears bytes, and between them it looks whether the running period
 has elapsed. What it does is a punctual run, and an alert one if it looks often enough.
 */
module Polling {
  import opened Framing
  import opened Splitter
  import opened Eager
  import opened Silence
  import opened Gaps

  /** Something that is heard, or a call of timeout_impl. */
  datatype Tick = Heard(moment: Moment) | Check(at: int, done: int)
  {
    predicate Valid() {
      if Heard? then !moment.input.Expiry? && moment.at <= moment.done else at <= done
    }

    function Time(): int {
      if Heard? then moment.at else at
    }

    function End(): int {
      if Heard? then moment.done else done
    }
  }

  /** A loop that starts at time `boot`, and what it goes through. */
  datatype Loop<!M> = Loop(user: M, boot: int, ticks: seq<Tick>, pdu: PduCallback<M>)

  predicate Elapsed(timer: Timer, now: int, p: Periods) {
    timer.Running? && now - timer.since >= (if timer.period == T15 then p.t15 else p.t35)
  }

  /** The inputs that the machine gets in the first `n` turns: what is heard, and the expiries that are due. */
  function InputsIn<M>(l: Loop<M>, p: Periods, n: nat): seq<Moment>
    requires n <= |l.ticks|
    decreases n, 0
  {
    if n == 0 then []
    else
      var before, tick := InputsIn(l, p, n - 1), l.ticks[n - 1];
      match tick
      case Heard(moment) => before + [moment]
      case Check(at, done) =>
        if Elapsed(StateIn(l, p, n - 1).timer, at, p) then before + [Moment(at, done, Expiry)] else before
  }

  function StateIn<M>(l: Loop<M>, p: Periods, n: nat): State<M>
    requires n <= |l.ticks|
    decreases n, 1
  {
    EagerRun(EagerBoot(l.user, l.boot, l.pdu), InputsIn(l, p, n), l.pdu)
  }

  function HistoryIn<M>(l: Loop<M>, p: Periods, n: nat): History<M>
    requires n <= |l.ticks|
  {
    History(l.user, l.boot, InputsIn(l, p, n), l.pdu)
  }

  /** When the loop looked at the timer last; while it sends a reply it cannot. */
  function LastLook<M>(l: Loop<M>, p: Periods, n: nat): int
    requires n <= |l.ticks|
  {
    if n == 0 then l.boot
    else match l.ticks[n - 1]
      case Heard(_) => LastLook(l, p, n - 1)
      case Check(at, done) => if |StateIn(l, p, n).sent| > |StateIn(l, p, n - 1).sent| then done else at
  }

  function Now<M>(l: Loop<M>, n: nat): int
    requires n <= |l.ticks|
  {
    if n == 0 then l.boot else l.ticks[n - 1].End()
  }

  ghost predicate InOrder<M>(l: Loop<M>) {
    forall n :: 0 <= n < |l.ticks| ==> l.ticks[n].Valid() && Now(l, n) <= l.ticks[n].Time()
  }

  /** The loop never goes on for longer than `late` without a look. */
  ghost predicate LooksEvery<M>(l: Loop<M>, p: Periods, late: nat) {
    forall n :: 0 <= n < |l.ticks| ==> l.ticks[n].Time() - LastLook(l, p, n) <= late
  }

  // ---- One more input ----

  lemma AfterPrefix<M>(h: History<M>, h': History<M>, m: Moment, n: nat)
    requires h' == h.(trace := h.trace + [m]) && n <= |h.trace|
    ensures After(h', n) == After(h, n)
  {
    assert h'.trace[..n] == h.trace[..n];
  }

  lemma Extend<M>(h: History<M>, h': History<M>, m: Moment, p: Periods, late: nat)
    requires h' == h.(trace := h.trace + [m])
    requires Monotone(h) && Punctual(h, p) && Alert(h, p, late)
    requires h.boot <= m.at <= m.done && forall i :: 0 <= i < |h.trace| ==> h.trace[i].done <= m.at
    requires Due(After(h, |h.trace|).timer, m, p) && InTime(After(h, |h.trace|).timer, m.at, p, late)
    ensures Monotone(h') && Punctual(h', p) && Alert(h', p, late)
  {
    hide After, Due, InTime;
    forall n | 0 <= n < |h'.trace|
      ensures Due(After(h', n).timer, h'.trace[n], p) && InTime(After(h', n).timer, h'.trace[n].at, p, late)
    {
      AfterPrefix(h, h', m, n);
      if n < |h.trace| {
        assert h'.trace[n] == h.trace[n];
        assert Due(After(h, n).timer, h.trace[n], p) && InTime(After(h, n).timer, h.trace[n].at, p, late);
      }
    }
  }

  /** An expiry starts the next timer at once, or when its reply has been sent. */
  lemma ExpirySince<M>(s: State<M>, m: Moment, pdu: PduCallback<M>)
    requires Between(s) && s.timer.Running? && m.input.Expiry?
    ensures var t := EagerStep(s, m, pdu);
      t.timer.Running? ==> t.timer.since == if |t.sent| > |s.sent| then m.done else m.at
  {
    hide EagerStep;
    if Waiting(s) {
      FromWaiting(s, m, pdu);
    } else if Collecting(s) {
      FromCollecting(s, m, pdu);
    } else {
      FromClosing(s, m, pdu);
    }
  }

  // ---- Any number of turns ----

  /** The last look saw no period elapsed, or the timer has been started since. */
  predicate Looked(timer: Timer, last: int, p: Periods) {
    timer.Running? ==> last <= timer.since || !Elapsed(timer, last, p)
  }

  ghost predicate Kept<M>(l: Loop<M>, p: Periods, late: nat, n: nat)
    requires n <= |l.ticks|
  {
    var h := HistoryIn(l, p, n);
    && Monotone(h) && Punctual(h, p) && Alert(h, p, late)
    && (forall i :: 0 <= i < |h.trace| ==> h.trace[i].done <= Now(l, n))
    && l.boot <= Now(l, n) && LastLook(l, p, n) <= Now(l, n)
    && Between(StateIn(l, p, n))
    && Looked(StateIn(l, p, n).timer, LastLook(l, p, n), p)
  }

  lemma StateIsAfter<M>(l: Loop<M>, p: Periods, n: nat)
    requires n <= |l.ticks|
    ensures var h := HistoryIn(l, p, n);
      After(h, |h.trace|) == StateIn(l, p, n)
  {
    var t := InputsIn(l, p, n);
    assert t[..|t|] == t;
  }

  /** What is looked at in time is handled in time. */
  lemma LookedInTime(timer: Timer, last: int, time: int, p: Periods, late: nat)
    requires Looked(timer, last, p) && time - last <= late
    ensures InTime(timer, time, p, late)
  {
  }

  lemma TurnAppends<M>(l: Loop<M>, p: Periods, late: nat, n: nat, m: Moment)
    requires n < |l.ticks| && InOrder(l) && LooksEvery(l, p, late) && Kept(l, p, late, n)
    requires InputsIn(l, p, n + 1) == InputsIn(l, p, n) + [m]
    requires m.at == l.ticks[n].Time() && m.done == l.ticks[n].End()
    requires Due(StateIn(l, p, n).timer, m, p)
    ensures var h := HistoryIn(l, p, n + 1);
      && Monotone(h) && Punctual(h, p) && Alert(h, p, late)
      && (forall i :: 0 <= i < |h.trace| ==> h.trace[i].done <= Now(l, n + 1))
      && StateIn(l, p, n + 1) == EagerStep(StateIn(l, p, n), m, l.pdu)
  {
    StateIsAfter(l, p, n);
    LookedInTime(StateIn(l, p, n).timer, LastLook(l, p, n), m.at, p, late);
    assert l.ticks[n].Valid() && Now(l, n) <= l.ticks[n].Time();
    hide After, StateIn, InputsIn, Monotone, Punctual, Alert, Due, InTime, EagerStep, LastLook;
    Extend(HistoryIn(l, p, n), HistoryIn(l, p, n + 1), m, p, late);
    StateAppends(l, p, n, m);
  }

  lemma StateAppends<M>(l: Loop<M>, p: Periods, n: nat, m: Moment)
    requires n < |l.ticks| && InputsIn(l, p, n + 1) == InputsIn(l, p, n) + [m]
    ensures StateIn(l, p, n + 1) == EagerStep(StateIn(l, p, n), m, l.pdu)
  {
    hide InputsIn, EagerStep;
    RunSnoc(EagerBoot(l.user, l.boot, l.pdu), InputsIn(l, p, n), m, l.pdu);
  }

  lemma TurnHeard<M>(l: Loop<M>, p: Periods, late: nat, n: nat)
    requires n < |l.ticks| && InOrder(l) && LooksEvery(l, p, late) && Kept(l, p, late, n) && l.ticks[n].Heard?
    ensures Kept(l, p, late, n + 1)
  {
    var s, m := StateIn(l, p, n), l.ticks[n].moment;
    assert l.ticks[n].Valid() && Now(l, n) <= l.ticks[n].Time();
    TurnAppends(l, p, late, n, m);
    assert LastLook(l, p, n + 1) == LastLook(l, p, n);
    hide StateIn, InputsIn, Monotone, Punctual, Alert, EagerStep, LastLook;
    HeardSince(s, m, l.pdu);
    StepAhead(s, m, [], l.pdu);
  }

  lemma TurnFires<M>(l: Loop<M>, p: Periods, late: nat, n: nat)
    requires n < |l.ticks| && InOrder(l) && LooksEvery(l, p, late) && Kept(l, p, late, n)
    requires l.ticks[n].Check? && Elapsed(StateIn(l, p, n).timer, l.ticks[n].at, p)
    ensures Kept(l, p, late, n + 1)
  {
    var s, tick := StateIn(l, p, n), l.ticks[n];
    var m := Moment(tick.at, tick.done, Expiry);
    assert tick.Valid() && Now(l, n) <= tick.Time();
    TurnAppends(l, p, late, n, m);
    var t := StateIn(l, p, n + 1);
    assert LastLook(l, p, n + 1) == if |t.sent| > |s.sent| then tick.done else tick.at;
    hide StateIn, InputsIn, Monotone, Punctual, Alert, EagerStep, LastLook;
    ExpirySince(s, m, l.pdu);
    StepAhead(s, m, [], l.pdu);
  }

  lemma TurnWaits<M>(l: Loop<M>, p: Periods, late: nat, n: nat)
    requires n < |l.ticks| && InOrder(l) && Kept(l, p, late, n)
    requires l.ticks[n].Check? && !Elapsed(StateIn(l, p, n).timer, l.ticks[n].at, p)
    ensures Kept(l, p, late, n + 1)
  {
    assert l.ticks[n].Valid() && Now(l, n) <= l.ticks[n].Time();
    assert InputsIn(l, p, n + 1) == InputsIn(l, p, n);
    assert StateIn(l, p, n + 1) == StateIn(l, p, n);
    assert LastLook(l, p, n + 1) == l.ticks[n].at;
    hide StateIn, InputsIn, Monotone, Punctual, Alert, Between, LastLook;
  }

  lemma OneTurn<M>(l: Loop<M>, p: Periods, late: nat, n: nat)
    requires n < |l.ticks| && InOrder(l) && LooksEvery(l, p, late) && Kept(l, p, late, n)
    ensures Kept(l, p, late, n + 1)
  {
    hide Kept, StateIn, Elapsed;
    if l.ticks[n].Heard? {
      TurnHeard(l, p, late, n);
    } else if Elapsed(StateIn(l, p, n).timer, l.ticks[n].at, p) {
      TurnFires(l, p, late, n);
    } else {
      TurnWaits(l, p, late, n);
    }
  }

  lemma KeptAtStart<M>(l: Loop<M>, p: Periods, late: nat)
    ensures Kept(l, p, late, 0)
  {
    BootWaits(l.user, l.boot, l.pdu);
    hide EagerBoot;
    assert InputsIn(l, p, 0) == [];
  }

  /**
   A loop that looks at the timer at least every `late` gives a punctual and an alert run: what is
   proved of these holds of modbus_rtu_run.
   */
  lemma {:induction false} LoopIsAlert<M>(l: Loop<M>, p: Periods, late: nat, n: nat)
    requires n <= |l.ticks| && InOrder(l) && LooksEvery(l, p, late)
    ensures var h := HistoryIn(l, p, n);
      Monotone(h) && Punctual(h, p) && Alert(h, p, late)
    ensures Kept(l, p, late, n)
    decreases n
  {
    hide Kept, InOrder, LooksEvery;
    if n == 0 {
      KeptAtStart(l, p, late);
    } else {
      LoopIsAlert(l, p, late, n - 1);
      OneTurn(l, p, late, n - 1);
    }
    KeptSays(l, p, late, n);
  }

  lemma KeptSays<M>(l: Loop<M>, p: Periods, late: nat, n: nat)
    requires n <= |l.ticks| && Kept(l, p, late, n)
    ensures var h := HistoryIn(l, p, n);
      Monotone(h) && Punctual(h, p) && Alert(h, p, late)
  {
  }

  /** When an expiry is due, in numbers. */
  lemma DueIs(a: int, b: int, p: Periods)
    ensures Due(Running(T15, a), Moment(b, b, Expiry), p) <==> a + p.t15 <= b
    ensures Due(Running(T35, a), Moment(b, b, Expiry), p) <==> a + p.t35 <= b
  {
  }

  /** A look handles the expiry exactly if the running period has elapsed, and otherwise changes nothing. */
  lemma LookHandles<M>(l: Loop<M>, p: Periods, n: nat)
    requires n < |l.ticks| && l.ticks[n].Check?
    ensures var s, tick := StateIn(l, p, n), l.ticks[n];
      StateIn(l, p, n + 1) ==
        if s.timer.Running? && tick.at - s.timer.since >= (if s.timer.period == T15 then p.t15 else p.t35)
        then EagerStep(s, Moment(tick.at, tick.done, Expiry), l.pdu) else s
  {
    if Elapsed(StateIn(l, p, n).timer, l.ticks[n].at, p) {
      StateAppends(l, p, n, Moment(l.ticks[n].at, l.ticks[n].done, Expiry));
    }
  }
}
