/**
 The slave framing machine of rtu.c as functions on its state. Each entry point is a total
 function, with every branch of the source, also those that no run takes. The machine is
 generic in the user data `M` and in the callback that serves a frame.

 The adapter's timer is part of the state: it is stopped, or it runs one of the two periods
 since some time. Starting a running timer, or resetting a stopped one, breaks it: those are the
 cases in which the Linux adapter aborts.
 */
module Framing {
  import opened Words
  import opened Crc

  const CAPACITY := 256
  const ADU_MIN_SIZE := 4

  datatype Phase = Init | Idle | Sof | Recv | Eof | Busy

  datatype Status = Status(updated: bool, error: bool, prev: Phase, curr: Phase)

  datatype Period = T15 | T35

  datatype Timer = Stopped | Running(period: Period, since: int) | Broken

  datatype Callback = NoCallback | SilentInterval | InterFrame

  /** Counters of eight bits. */
  datatype Stats = Stats(errors: nat, lineErrors: nat, crcErrors: nat)

  /** `calls` and `sent` record the frames given to the callback and the frames transmitted. */
  datatype State<M> = State(
    status: Status,
    rx: seq<byte>,
    tx: seq<byte>,
    timer: Timer,
    callback: Callback,
    stats: Stats,
    user: M,
    calls: seq<seq<byte>>,
    sent: seq<seq<byte>>)

  /** Serves a frame: the new user data and the reply without its CRC; no reply is empty. */
  type PduCallback<!M> = (M, seq<byte>) -> (M, seq<byte>)

  function Increment(counter: nat): nat {
    (counter + 1) % 256
  }

  function Enter(status: Status, phase: Phase): Status {
    Status(true, status.error, status.curr, phase)
  }

  function Flag<M>(s: State<M>): State<M> {
    s.(status := s.status.(updated := true, error := true))
  }

  function Start(timer: Timer, period: Period, now: int): Timer {
    if timer.Stopped? then Running(period, now) else Broken
  }

  function Stop(timer: Timer): Timer {
    if timer.Broken? then Broken else Stopped
  }

  function Reset(timer: Timer, now: int): Timer {
    if timer.Running? then Running(timer.period, now) else Broken
  }

  // ---- Callbacks of the adapter ----

  function SilentIntervalCb<M>(s: State<M>): State<M> {
    if s.status.curr == Init || (s.status.prev == Recv && s.status.curr == Eof) then
      s.(status := Enter(s.status, Idle), timer := Stop(s.timer))
    else
      Flag(s)
  }

  function InterFrameCb<M>(s: State<M>, now: int): State<M> {
    if s.status.curr == Recv then
      s.(status := Enter(s.status, Eof),
         timer := Start(Stop(s.timer), T35, now),
         callback := SilentInterval)
    else
      Flag(s)
  }

  /** A timer that does not run has nothing to expire. */
  function TimerExpiry<M>(s: State<M>, now: int): State<M> {
    if !s.timer.Running? then s
    else match s.callback
      case NoCallback => s.(timer := Broken)
      case SilentInterval => SilentIntervalCb(s)
      case InterFrame => InterFrameCb(s, now)
  }

  function RxAppend<M>(s: State<M>, data: byte): State<M> {
    if |s.rx| < CAPACITY then s.(rx := s.rx + [data]) else Flag(s)
  }

  function SerialRecv<M>(s: State<M>, data: byte, now: int): State<M> {
    if s.status.curr == Idle then
      var t := RxAppend(s.(status := Enter(s.status, Sof)), data);
      t.(callback := InterFrame, timer := Start(t.timer, T15, now))
    else if s.status.curr == Sof || s.status.curr == Recv then
      var t := RxAppend(s.(status := Enter(s.status, Recv)), data);
      t.(timer := Reset(t.timer, now))
    else
      Flag(s)
  }

  function SerialSent<M>(s: State<M>): State<M> {
    if s.status.curr == Busy then s.(tx := [], status := Enter(s.status, Init)) else Flag(s)
  }

  function SerialRecvErr<M>(s: State<M>): State<M> {
    Flag(s.(stats := s.stats.(lineErrors := Increment(s.stats.lineErrors))))
  }

  // ---- modbus_rtu_event ----

  predicate AduOk(frame: seq<byte>) {
    ADU_MIN_SIZE <= |frame| && Intact(frame)
  }

  function AduProcess<M>(s: State<M>, pdu: PduCallback<M>): State<M> {
    if AduOk(s.rx) then
      var (user, reply) := pdu(s.user, s.rx);
      var t := s.(user := user, calls := s.calls + [s.rx], rx := []);
      if reply == [] then t.(tx := [])
      else t.(tx := Sealed(reply), status := Enter(t.status, Busy), sent := t.sent + [Sealed(reply)])
    else
      Flag(s.(stats := s.stats.(crcErrors :=
        if ADU_MIN_SIZE <= |s.rx| then Increment(s.stats.crcErrors) else s.stats.crcErrors)))
  }

  function Restart<M>(s: State<M>, now: int): State<M> {
    s.(rx := [], tx := [], timer := Start(Stop(s.timer), T35, now), callback := SilentInterval)
  }

  function Recover<M>(s: State<M>, now: int): State<M> {
    Restart(s.(stats := s.stats.(errors := Increment(s.stats.errors)),
               status := Status(false, false, s.status.curr, Init)), now)
  }

  function Poll<M>(s: State<M>, now: int, pdu: PduCallback<M>): State<M> {
    if !s.status.updated then s
    else
      var t := s.(status := s.status.(updated := false));
      if t.status.error then Recover(t, now)
      else match t.status.curr
        case Init => Restart(t, now)
        case Idle =>
          if t.status.prev == Init then t
          else if t.status.prev == Eof then if t.tx != [] then Recover(t, now) else AduProcess(t, pdu)
          else Recover(t, now)
        case Sof => if t.status.prev == Idle then t else Recover(t, now)
        case Recv => t
        case Eof => if t.status.prev == Recv then t else Recover(t, now)
        case Busy => t
  }

  /** The state that modbus_rtu_init leaves. */
  function Boot<M>(user: M): State<M> {
    State(Status(true, false, Init, Init), [], [], Stopped, NoCallback, Stats(0, 0, 0), user, [], [])
  }

  // ---- Runs with any interleaving ----

  datatype Event = Byte(data: byte) | LineError(data: byte) | Expire | Sent | Event

  datatype Stamped = At(time: int, event: Event)

  function Step<M>(s: State<M>, e: Stamped, pdu: PduCallback<M>): State<M> {
    match e.event
    case Byte(data) => SerialRecv(s, data, e.time)
    case LineError(_) => SerialRecvErr(s)
    case Expire => TimerExpiry(s, e.time)
    case Sent => SerialSent(s)
    case Event => Poll(s, e.time, pdu)
  }

  function Run<M>(s: State<M>, trace: seq<Stamped>, pdu: PduCallback<M>): State<M>
    decreases |trace|
  {
    if trace == [] then s else Step(Run(s, trace[..|trace| - 1], pdu), trace[|trace| - 1], pdu)
  }

  lemma {:induction false} RunConcat<M>(s: State<M>, a: seq<Stamped>, b: seq<Stamped>, pdu: PduCallback<M>)
    ensures Run(s, a + b, pdu) == Run(Run(s, a, pdu), b, pdu)
    decreases |b|
  {
    hide Step;
    if b == [] {
      assert a + b == a;
    } else {
      RunConcat(s, a, b[..|b| - 1], pdu);
      assert (a + b)[..|a + b| - 1] == a + b[..|b| - 1];
    }
  }

  // ---- What every interleaving keeps ----

  /** The previous phase that each phase can have. */
  predicate PairOk(status: Status) {
    match status.curr
    case Init => true
    case Idle => status.prev == Init || status.prev == Eof
    case Sof => status.prev == Idle
    case Recv => status.prev == Sof || status.prev == Recv
    case Eof => status.prev == Recv
    case Busy => status.prev == Idle
  }

  /** The timer that each phase has. A machine that waits in Init without timer has an event due. */
  predicate TimerOk<M>(s: State<M>) {
    match s.status.curr
    case Init => (s.timer.Stopped? && s.status.updated)
      || (s.timer.Running? && s.timer.period == T35 && s.callback == SilentInterval)
    case Idle => s.timer.Stopped?
    case Sof => s.timer.Running? && s.timer.period == T15 && s.callback == InterFrame
    case Recv => s.timer.Running? && s.timer.period == T15 && s.callback == InterFrame
    case Eof => s.timer.Running? && s.timer.period == T35 && s.callback == SilentInterval
    case Busy => s.timer.Stopped?
  }

  predicate BuffersOk<M>(s: State<M>) {
    && |s.rx| <= CAPACITY
    && (s.tx != [] <==> s.status.curr == Busy)
    && (s.status.curr == Init || s.status.curr == Busy ==> s.rx == [])
  }

  predicate CountersOk(stats: Stats) {
    stats.errors < 256 && stats.lineErrors < 256 && stats.crcErrors < 256
  }

  predicate Inv<M>(s: State<M>) {
    && (s.status.error ==> s.status.updated)
    && PairOk(s.status)
    && TimerOk(s)
    && BuffersOk(s)
    && CountersOk(s.stats)
  }

  lemma AduProcessKeepsInv<M>(s: State<M>, pdu: PduCallback<M>)
    requires Inv(s) && s.status == Status(false, false, Eof, Idle)
    ensures Inv(AduProcess(s, pdu))
  {
    if AduOk(s.rx) {
      var (user, reply) := pdu(s.user, s.rx);
      assert |Sealed(reply)| == |reply| + 2;
    }
  }

  lemma PollKeepsInv<M>(s: State<M>, now: int, pdu: PduCallback<M>)
    requires Inv(s)
    ensures Inv(Poll(s, now, pdu))
  {
    hide AduProcess;
    var t := s.(status := s.status.(updated := false));
    if t.status == Status(false, false, Eof, Idle) {
      AduProcessKeepsInv(t, pdu);
    }
  }

  lemma SerialRecvKeepsInv<M>(s: State<M>, data: byte, now: int)
    requires Inv(s)
    ensures Inv(SerialRecv(s, data, now))
  {
  }

  lemma TimerExpiryKeepsInv<M>(s: State<M>, now: int)
    requires Inv(s)
    ensures Inv(TimerExpiry(s, now))
  {
  }

  lemma FlagsKeepInv<M>(s: State<M>)
    requires Inv(s)
    ensures Inv(SerialRecvErr(s)) && Inv(SerialSent(s))
  {
  }

  lemma StepKeepsInv<M>(s: State<M>, e: Stamped, pdu: PduCallback<M>)
    requires Inv(s)
    ensures Inv(Step(s, e, pdu))
  {
    hide Poll, Inv, SerialRecv, TimerExpiry, SerialSent, SerialRecvErr;
    match e.event
    case Byte(data) => SerialRecvKeepsInv(s, data, e.time);
    case LineError(_) => FlagsKeepInv(s);
    case Expire => TimerExpiryKeepsInv(s, e.time);
    case Sent => FlagsKeepInv(s);
    case Event => PollKeepsInv(s, e.time, pdu);
  }

  /** Every interleaving, from start-up on. */
  lemma {:induction false} RunKeepsInv<M>(user: M, trace: seq<Stamped>, pdu: PduCallback<M>)
    ensures Inv(Run(Boot(user), trace, pdu))
    decreases |trace|
  {
    if trace != [] {
      RunKeepsInv(user, trace[..|trace| - 1], pdu);
      StepKeepsInv(Run(Boot(user), trace[..|trace| - 1], pdu), trace[|trace| - 1], pdu);
    }
  }

  /**
   In every interleaving the adapter's checks hold: no running timer is started, no stopped one is
   reset, and a timer that can expire has a callback. A broken timer would stay broken.
   */
  lemma TimerNeverBreaks<M>(user: M, trace: seq<Stamped>, pdu: PduCallback<M>)
    ensures !Run(Boot(user), trace, pdu).timer.Broken?
  {
    hide Run;
    RunKeepsInv(user, trace, pdu);
  }

  lemma {:induction false} BrokenStays<M>(s: State<M>, trace: seq<Stamped>, pdu: PduCallback<M>)
    requires s.timer.Broken?
    ensures Run(s, trace, pdu).timer.Broken?
    decreases |trace|
  {
    if trace != [] {
      BrokenStays(s, trace[..|trace| - 1], pdu);
      BrokenStep(Run(s, trace[..|trace| - 1], pdu), trace[|trace| - 1], pdu);
    }
  }

  lemma BrokenStep<M>(s: State<M>, e: Stamped, pdu: PduCallback<M>)
    requires s.timer.Broken?
    ensures Step(s, e, pdu).timer.Broken?
  {
    hide Intact, Sealed;
  }

  /** An expiry flags an error exactly when a frame has only one byte. */
  lemma ExpiryFlagsOnlySof<M>(s: State<M>, now: int)
    requires Inv(s) && !s.status.error
    ensures TimerExpiry(s, now).status.error <==> s.status.curr == Sof
  {
  }

  /** Whenever the silent interval expires, it finds INIT or the end of a frame: its error branch is never taken. */
  lemma SilentIntervalExpected<M>(s: State<M>)
    requires Inv(s) && s.timer.Running? && s.callback == SilentInterval
    ensures s.status.curr == Init || (s.status.prev == Recv && s.status.curr == Eof)
  {
  }

  /** The machine recovers exactly when an error is flagged: no other branch leads there. */
  lemma RecoversOnlyFromError<M>(s: State<M>, now: int, pdu: PduCallback<M>)
    requires Inv(s)
    ensures s.status.error ==> Poll(s, now, pdu) == Recover(s.(status := s.status.(updated := false)), now)
    ensures Poll(s, now, pdu).stats.errors
      == if s.status.error then Increment(s.stats.errors) else s.stats.errors
  {
    hide Intact, Sealed;
  }

  lemma ErrorsCountOneStep<M>(s: State<M>, e: Stamped, pdu: PduCallback<M>)
    requires Inv(s)
    ensures Step(s, e, pdu).stats.errors
      == if e.event.Event? && s.status.error then Increment(s.stats.errors) else s.stats.errors
  {
    if e.event.Event? {
      RecoversOnlyFromError(s, e.time, pdu);
      hide Poll;
    }
  }

  lemma IncrementWraps(k: nat)
    ensures Increment(k % 256) == (k + 1) % 256
  {
  }

  lemma Counted(k: nat, counter: nat, hit: bool)
    requires counter == k % 256
    ensures (if hit then Increment(counter) else counter) == (if hit then k + 1 else k) % 256
  {
    IncrementWraps(k);
  }

  function Recoveries<M>(s: State<M>, trace: seq<Stamped>, pdu: PduCallback<M>): nat
    decreases |trace|
  {
    if trace == [] then 0
    else
      var init, last := trace[..|trace| - 1], trace[|trace| - 1];
      Recoveries(s, init, pdu)
      + (if last.event.Event? && Run(s, init, pdu).status.error then 1 else 0)
  }

  /** The error counter is the number of recoveries modulo 256. */
  lemma {:induction false} ErrorCounter<M>(user: M, trace: seq<Stamped>, pdu: PduCallback<M>)
    ensures Run(Boot(user), trace, pdu).stats.errors == Recoveries(Boot(user), trace, pdu) % 256
    decreases |trace|
  {
    if trace != [] {
      var init, last := trace[..|trace| - 1], trace[|trace| - 1];
      var s := Run(Boot(user), init, pdu);
      ErrorCounter(user, init, pdu);
      RunKeepsInv(user, init, pdu);
      hide Inv, Step, Boot;
      ErrorsCountOneStep(s, last, pdu);
      IncrementWraps(Recoveries(Boot(user), init, pdu));
    }
  }

  lemma OtherCountsOneStep<M>(s: State<M>, e: Stamped, pdu: PduCallback<M>)
    requires Inv(s)
    ensures var t := Step(s, e, pdu);
      && t.stats.lineErrors
         == (if e.event.LineError? then Increment(s.stats.lineErrors) else s.stats.lineErrors)
      && t.stats.crcErrors
         == (if e.event.Event? && Damaged(s) then Increment(s.stats.crcErrors) else s.stats.crcErrors)
  {
    hide Intact, Sealed;
  }

  /** A complete frame of four bytes or more waits for the event, and its CRC is wrong. */
  predicate Damaged<M>(s: State<M>) {
    && s.status == Status(true, false, Eof, Idle)
    && ADU_MIN_SIZE <= |s.rx| && !Intact(s.rx)
  }

  function LineErrors(trace: seq<Stamped>): nat
    decreases |trace|
  {
    if trace == [] then 0
    else LineErrors(trace[..|trace| - 1]) + (if trace[|trace| - 1].event.LineError? then 1 else 0)
  }

  function DamagedFrames<M>(s: State<M>, trace: seq<Stamped>, pdu: PduCallback<M>): nat
    decreases |trace|
  {
    if trace == [] then 0
    else
      var init, last := trace[..|trace| - 1], trace[|trace| - 1];
      DamagedFrames(s, init, pdu) + (if last.event.Event? && Damaged(Run(s, init, pdu)) then 1 else 0)
  }

  /** The counter of line errors, modulo 256. */
  lemma {:induction false} LineErrorCounter<M>(user: M, trace: seq<Stamped>, pdu: PduCallback<M>)
    ensures Run(Boot(user), trace, pdu).stats.lineErrors == LineErrors(trace) % 256
    decreases |trace|
  {
    if trace != [] {
      var init, last := trace[..|trace| - 1], trace[|trace| - 1];
      hide Inv, Step, Boot, Increment;
      var s, k, hit := Run(Boot(user), init, pdu), LineErrors(init), last.event.LineError?;
      assert LineErrors(trace) == if hit then k + 1 else k;
      assert Run(Boot(user), trace, pdu) == Step(s, last, pdu);
      LineErrorCounter(user, init, pdu);
      RunKeepsInv(user, init, pdu);
      hide LineErrors, Run;
      OtherCountsOneStep(s, last, pdu);
      Counted(k, s.stats.lineErrors, hit);
    }
  }

  /** The counter of frames with a wrong CRC, modulo 256. */
  lemma {:induction false} CrcErrorCounter<M>(user: M, trace: seq<Stamped>, pdu: PduCallback<M>)
    ensures Run(Boot(user), trace, pdu).stats.crcErrors == DamagedFrames(Boot(user), trace, pdu) % 256
    decreases |trace|
  {
    if trace != [] {
      var init, last := trace[..|trace| - 1], trace[|trace| - 1];
      hide Inv, Step, Boot, Damaged, Increment;
      var s, k := Run(Boot(user), init, pdu), DamagedFrames(Boot(user), init, pdu);
      var hit := last.event.Event? && Damaged(s);
      assert DamagedFrames(Boot(user), trace, pdu) == if hit then k + 1 else k;
      assert Run(Boot(user), trace, pdu) == Step(s, last, pdu);
      CrcErrorCounter(user, init, pdu);
      RunKeepsInv(user, init, pdu);
      hide DamagedFrames, Run;
      OtherCountsOneStep(s, last, pdu);
      Counted(k, s.stats.crcErrors, hit);
    }
  }

  /** What a callback takes for an error. */
  predicate Unexpected<M>(s: State<M>, event: Event) {
    match event
    case Byte(_) => s.status.curr in {Init, Eof, Busy} || |s.rx| == 256
    case LineError(_) => true
    case Expire => s.status.curr == Sof
    case Sent => s.status.curr != Busy
    case Event => false
  }

  /** A callback flags an error exactly then, in every state that is reached. */
  lemma ErrorFlaggedExactly<M>(s: State<M>, e: Stamped, pdu: PduCallback<M>)
    requires Inv(s) && !e.event.Event?
    ensures Step(s, e, pdu).status.error <==> s.status.error || Unexpected(s, e.event)
    ensures Step(s, e, pdu).status.error ==> Step(s, e, pdu).status.updated
  {
  }

  ghost predicate Callbacks(trace: seq<Stamped>) {
    forall i :: 0 <= i < |trace| ==> !trace[i].event.Event?
  }

  lemma ErrorStaysOneStep<M>(s: State<M>, e: Stamped, pdu: PduCallback<M>)
    requires Inv(s) && s.status.error && !e.event.Event?
    ensures var t := Step(s, e, pdu);
      t.status.error && t.calls == s.calls && t.user == s.user && t.stats.errors == s.stats.errors
  {
  }

  lemma {:induction false} ErrorStays<M>(s: State<M>, trace: seq<Stamped>, pdu: PduCallback<M>)
    requires Inv(s) && s.status.error && Callbacks(trace)
    ensures var t := Run(s, trace, pdu);
      Inv(t) && t.status.error && t.calls == s.calls && t.user == s.user && t.stats.errors == s.stats.errors
    decreases |trace|
  {
    if trace != [] {
      hide Inv, Step;
      var init, last := trace[..|trace| - 1], trace[|trace| - 1];
      assert Callbacks(init);
      ErrorStays(s, init, pdu);
      var t := Run(s, init, pdu);
      StepKeepsInv(t, last, pdu);
      ErrorStaysOneStep(t, last, pdu);
    }
  }

  /**
   From every reachable state with an error flagged, whatever callbacks follow, the next event
   empties both buffers, clears the error and arms the 3.5t timer, and nothing has been given to
   the callback meanwhile; an undisturbed expiry then makes the machine idle.
   */
  lemma SelfStabilises<M>(s: State<M>, trace: seq<Stamped>, polled: int, expired: int, pdu: PduCallback<M>)
    requires Inv(s) && s.status.error && Callbacks(trace)
    ensures var t := Run(s, trace, pdu);
      var p := Poll(t, polled, pdu);
      && p.status == Status(false, false, t.status.curr, Init) && p.rx == [] && p.tx == []
      && p.timer == Running(T35, polled) && p.callback == SilentInterval
      && p.calls == s.calls && p.user == s.user && p.stats.errors == Increment(s.stats.errors)
      && TimerExpiry(p, expired)
         == p.(status := Status(true, false, Init, Idle), timer := Stopped)
  {
    hide Run;
    ErrorStays(s, trace, pdu);
    var t := Run(s, trace, pdu);
    RecoversOnlyFromError(t, polled, pdu);
  }

  /**
   In every interleaving a line error, also one while a reply is sent, is followed by a recovery at
   the next event, whatever callbacks come between: both buffers are empty and 3.5t is armed.
   */
  lemma LineErrorRecovers<M>(user: M, before: seq<Stamped>, e: Stamped, after: seq<Stamped>, now: int,
                             pdu: PduCallback<M>)
    requires e.event.LineError? && Callbacks(after)
    ensures var s := Run(Boot(user), before + [e] + after, pdu);
      var t := Poll(s, now, pdu);
      && s.status.error && t.status == Status(false, false, s.status.curr, Init)
      && t.rx == [] && t.tx == [] && t.timer == Running(T35, now) && t.callback == SilentInterval
      && t.calls == Run(Boot(user), before, pdu).calls
      && t.stats.errors == Increment(Run(Boot(user), before, pdu).stats.errors)
  {
    RunKeepsInv(user, before, pdu);
    var s := Run(Boot(user), before, pdu);
    RunConcat(Boot(user), before + [e], after, pdu);
    assert (before + [e])[..|before|] == before;
    StepKeepsInv(s, e, pdu);
    ErrorFlaggedExactly(s, e, pdu);
    LineErrorOnlyFlags(s, e, pdu);
    hide Run, Poll, Inv, Step;
    ErrorStays(Step(s, e, pdu), after, pdu);
    SelfStabilises(Step(s, e, pdu), after, now, now, pdu);
  }

  lemma LineErrorOnlyFlags<M>(s: State<M>, e: Stamped, pdu: PduCallback<M>)
    requires e.event.LineError?
    ensures Step(s, e, pdu).calls == s.calls && Step(s, e, pdu).stats.errors == s.stats.errors
  {
  }

  // ---- The receive buffer in numbers ----

  ghost predicate OnlyBytes(trace: seq<Stamped>) {
    forall i :: 0 <= i < |trace| ==> trace[i].event.Byte?
  }

  /** Bytes from IDLE on: 256 of them are kept, and exactly one more is an error. */
  lemma {:induction false} BytesFromIdle<M>(s: State<M>, trace: seq<Stamped>, pdu: PduCallback<M>)
    requires s.status.curr == Idle && !s.status.error && s.rx == [] && OnlyBytes(trace)
    ensures var t := Run(s, trace, pdu);
      && (t.status.error <==> |trace| > 256)
      && (|trace| <= 256 ==> |t.rx| == |trace|)
      && (trace != [] ==> t.status.curr in {Sof, Recv})
    decreases |trace|
  {
    if trace != [] {
      assert OnlyBytes(trace[..|trace| - 1]);
      BytesFromIdle(s, trace[..|trace| - 1], pdu);
    }
  }
}
