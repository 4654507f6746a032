/**
 rtu.c and its Linux adapter on their buffers and cursors. Every method is proved against the
 function of the framing machine, so that what is proved of the machine holds of the object.
 The adapter's checks are assertions.
 */
module Slaves {
  import opened Buffers
  import opened Words
  import opened Crc
  import opened Framing
  import opened Splitter
  import opened Eager
  import opened Silence
  import opened Memory
  import opened MemoryHandler
  import opened Devices
  import MemoryMap

  function Arrivals(bytes: seq<byte>, clock: seq<(int, int)>): (trace: seq<Moment>)
    requires |bytes| == |clock|
    ensures |trace| == |bytes|
  {
    seq(|bytes|, i requires 0 <= i < |bytes| => Moment(clock[i].0, clock[i].1, Char(bytes[i])))
  }

  lemma NoArrivals(s: State<Device>)
    ensures EagerRun(s, Arrivals([], []), Respond) == s
  {
  }

  lemma NextArrival(s: State<Device>, bytes: seq<byte>, clock: seq<(int, int)>, k: nat)
    requires |bytes| == |clock| && k < |bytes|
    ensures EagerRun(s, Arrivals(bytes[..k + 1], clock[..k + 1]), Respond)
      == EagerStep(EagerRun(s, Arrivals(bytes[..k], clock[..k]), Respond),
                   Moment(clock[k].0, clock[k].1, Char(bytes[k])), Respond)
  {
    hide EagerRun, EagerStep;
    var m := Moment(clock[k].0, clock[k].1, Char(bytes[k]));
    assert Arrivals(bytes[..k + 1], clock[..k + 1]) == Arrivals(bytes[..k], clock[..k]) + [m];
    RunSnoc(s, Arrivals(bytes[..k], clock[..k]), m, Respond);
  }

  /** A byte gives nothing to the callback. */
  lemma ByteStep(s: State<Device>, m: Moment)
    requires Inv(s) && m.input.Char?
    ensures var t := SerialRecv(s, m.input.data, m.at);
      && Permitted(t) && !t.timer.Broken?
      && Completed(true, t, Poll(t, m.at, Respond), m.done) == EagerStep(s, m, Respond)
  {
    hide Respond, InWindow, AduOk;
  }

  lemma ExpiryStep(s: State<Device>, m: Moment)
    requires Inv(s) && m.input.Expiry? && s.timer.Running?
    requires s.status.curr == Eof && AduOk(s.rx) ==> InWindow(s.user, s.rx)
    ensures var t := TimerExpiry(s, m.at);
      && Permitted(t) && !t.timer.Broken?
      && Completed(true, t, Poll(t, m.at, Respond), m.done) == EagerStep(s, m, Respond)
  {
    hide Respond, InWindow, AduOk;
  }

  lemma SealBuffer(a: seq<byte>, n: nat, low: byte, high: byte)
    requires n + 2 <= |a| && [low, high] == Trailer(a[0..n])
    ensures a[n := low][n + 1 := high][..n + 2] == Sealed(a[..n])
  {
    hide Trailer;
    assert a[0..n] == a[..n];
  }

  /** A send that completes before it returns brings the callback and the event with it. */
  function Completed(synchronous: bool, s: State<Device>, t: State<Device>, done: int): State<Device> {
    if synchronous && |t.sent| > |s.sent| then Poll(SerialSent(t), done, Respond) else t
  }

  /** The event runs on a frame: it will be given to the callback. */
  predicate Serving(s: State<Device>) {
    s.status.updated && !s.status.error && s.status.curr == Idle && s.status.prev == Eof && AduOk(s.rx)
  }

  predicate Permitted(s: State<Device>) {
    Serving(s) ==> InWindow(s.user, s.rx)
  }

  lemma SentRestarts(t: State<Device>, done: int)
    requires t.status.curr == Busy && t.status.updated && !t.status.error
    ensures Permitted(SerialSent(t))
    ensures Poll(SerialSent(t), done, Respond).sent == t.sent
  {
  }

  lemma FrameParts(a: seq<byte>, n: nat)
    requires ADU_MIN_SIZE <= n <= |a|
    ensures RequestOf(a[..n]) == a[1..n - 2] && BehindOf(a[..n]) == a[n - 2]
  {
  }

  lemma SameWord(low: byte, high: byte, low': byte, high': byte)
    ensures Join(high, low) == Join(high', low') <==> [low, high] == [low', high']
  {
    hide Join, Low, High;
    JoinHalves(high, low);
    JoinHalves(high', low');
  }

  lemma ReplyBehindAddress(was: seq<byte>, now: seq<byte>, next: nat, reply: seq<byte>)
    requires Written(was, now, 1, next, reply)
    ensures next == 1 + |reply| && next <= |now| && now[..next] == [was[0]] + reply
  {
  }

  lemma ReplyFits(s: ValidStore, frame: seq<byte>)
    requires |frame| >= ADU_MIN_SIZE
    ensures 1 + |EffectOn(s, frame).reply| <= CAPACITY - 2
  {
    hide Handle;
    MemoryMap.ExactCapacity(s, RequestOf(frame), BehindOf(frame));
  }

  class Slave {
    /** Whether sending completes before it returns, as in the Linux adapter. */
    const synchronous: bool
    const t15: nat
    const t35: nat
    const self: byte
    const memory: RtuMemory
    const rxbuf: array<byte>
    const txbuf: array<byte>
    var rxCurr: nat
    var txCurr: nat
    var status: Status
    var timer: Timer
    var timerCb: Callback
    var stats: Stats
    ghost var calls: seq<seq<byte>>
    ghost var sent: seq<seq<byte>>

    ghost predicate Valid()
      reads this
    {
      && memory.Valid()
      && rxbuf.Length == txbuf.Length == CAPACITY
      && rxbuf != txbuf && rxbuf != memory.bytes && txbuf != memory.bytes
      && rxCurr <= CAPACITY && txCurr <= CAPACITY
    }

    ghost function Abs(): State<Device>
      requires Valid()
      reads this, rxbuf, txbuf, memory.bytes
    {
      State(status, rxbuf[..rxCurr], txbuf[..txCurr], timer, timerCb, stats,
            Device(self, Known(memory.Contents())), calls, sent)
    }

    /** modbus_rtu_init, for buffers and a memory that exist. */
    constructor (synchronous: bool, t15: nat, t35: nat, self: byte,
                 memory: RtuMemory, rxbuf: array<byte>, txbuf: array<byte>)
      requires memory.Valid() && rxbuf.Length == txbuf.Length == CAPACITY
      requires rxbuf != txbuf && rxbuf != memory.bytes && txbuf != memory.bytes
      modifies rxbuf, txbuf
      ensures this.synchronous == synchronous && this.t15 == t15 && this.t35 == t35
      ensures this.self == self && this.memory == memory && this.rxbuf == rxbuf && this.txbuf == txbuf
      ensures Valid() && Abs() == Boot(Device(self, Known(memory.Contents()))) && Inv(Abs())
    {
      this.synchronous, this.t15, this.t35 := synchronous, t15, t35;
      this.self, this.memory, this.rxbuf, this.txbuf := self, memory, rxbuf, txbuf;
      timer, timerCb, stats := Stopped, NoCallback, Stats(0, 0, 0);
      rxCurr, txCurr := 0, 0;
      calls, sent := [], [];
      status := Status(true, false, Init, Init);
      new;
      forall i | 0 <= i < CAPACITY {
        rxbuf[i] := 0;
      }
      forall i | 0 <= i < CAPACITY {
        txbuf[i] := 0;
      }
    }

    // ---- The timer of the adapter ----

    method TimerStart(period: Period, now: int)
      requires timer.Stopped?
      modifies this`timer
      ensures timer == Running(period, now)
    {
      timer := Running(period, now);
    }

    method TimerStop()
      requires !timer.Broken?
      modifies this`timer
      ensures timer == Stopped
    {
      timer := Stopped;
    }

    method TimerReset(now: int)
      requires timer.Running?
      modifies this`timer
      ensures timer == Running(old(timer.period), now)
    {
      timer := Running(timer.period, now);
    }

    // ---- The callbacks ----

    method ResetRxbuf()
      requires Valid()
      modifies this`rxCurr, rxbuf
      ensures Valid() && Abs() == old(Abs()).(rx := [])
    {
      forall i | 0 <= i < CAPACITY {
        rxbuf[i] := 0;
      }
      rxCurr := 0;
    }

    method ResetTxbuf()
      requires Valid()
      modifies this`txCurr, txbuf
      ensures Valid() && Abs() == old(Abs()).(tx := [])
    {
      forall i | 0 <= i < CAPACITY {
        txbuf[i] := 0;
      }
      txCurr := 0;
    }

    /** RTU_STATE_UPDATE. */
    method StateUpdate(phase: Phase)
      requires Valid()
      modifies this`status
      ensures Valid() && Abs() == old(Abs()).(status := Enter(old(status), phase))
    {
      status := Status(true, status.error, status.curr, phase);
    }

    /** RTU_STATE_ERROR. */
    method StateError()
      requires Valid()
      modifies this`status
      ensures Valid() && Abs() == Flag(old(Abs()))
    {
      status := Status(true, true, status.prev, status.curr);
    }

    method TimerSilentIntervalCb()
      requires Valid() && Inv(Abs())
      modifies this`status, this`timer
      ensures Valid() && Abs() == SilentIntervalCb(old(Abs()))
    {
      if status.curr == Init {
        StateUpdate(Idle);
        TimerStop();
      } else if status.prev == Recv && status.curr == Eof {
        StateUpdate(Idle);
        TimerStop();
      } else {
        StateError();
      }
    }

    method TimerInterFrameTimeoutCb(now: int)
      requires Valid() && Inv(Abs())
      modifies this`status, this`timer, this`timerCb
      ensures Valid() && Abs() == InterFrameCb(old(Abs()), now)
    {
      if status.curr == Recv {
        StateUpdate(Eof);
        TimerStop();
        timerCb := SilentInterval;
        TimerStart(T35, now);
      } else {
        StateError();
      }
    }

    method RxbufAppend(data: byte)
      requires Valid()
      modifies this`rxCurr, this`status, rxbuf
      ensures Valid() && Abs() == RxAppend(old(Abs()), data)
    {
      if CAPACITY > rxCurr {
        rxbuf[rxCurr] := data;
        rxCurr := rxCurr + 1;
      } else {
        StateError();
      }
    }

    method SerialRecvCb(data: byte, now: int)
      requires Valid() && Inv(Abs())
      modifies this`rxCurr, this`status, this`timer, this`timerCb, rxbuf
      ensures Valid() && Abs() == SerialRecv(old(Abs()), data, now)
    {
      if status.curr == Idle {
        StateUpdate(Sof);
        RxbufAppend(data);
        timerCb := InterFrame;
        TimerStart(T15, now);
      } else if status.curr == Sof || status.curr == Recv {
        StateUpdate(Recv);
        RxbufAppend(data);
        TimerReset(now);
      } else {
        StateError();
      }
    }

    method SerialSentCb()
      requires Valid()
      modifies this`txCurr, this`status
      ensures Valid() && Abs() == SerialSent(old(Abs()))
    {
      if status.curr == Busy {
        txCurr := 0;
        StateUpdate(Init);
      } else {
        StateError();
      }
    }

    method SerialRecvErrCb(data: byte)
      requires Valid()
      modifies this`status, this`stats
      ensures Valid() && Abs() == SerialRecvErr(old(Abs()))
    {
      stats := stats.(lineErrors := (stats.lineErrors + 1) % 256);
      StateError();
    }

    // ---- modbus_rtu_event ----

    method AduCheck() returns (ok: bool)
      requires Valid()
      modifies this`stats
      ensures Valid() && ok == AduOk(old(Abs()).rx)
      ensures ok <==> old(rxCurr) >= 4 && Intact(old(rxbuf[..rxCurr]))
      ensures Abs() == old(Abs()).(stats := old(stats).(crcErrors :=
        if !ok && ADU_MIN_SIZE <= old(rxCurr) then Increment(old(stats.crcErrors)) else old(stats.crcErrors)))
    {
      hide Trailer;
      if ADU_MIN_SIZE > rxCurr {
        return false;
      }
      ghost var frame := rxbuf[..rxCurr];
      var receivedLow, receivedHigh := rxbuf[rxCurr - 2], rxbuf[rxCurr - 1];
      var low, high := CalcCrc(rxbuf, 0, rxCurr - 2);
      assert rxbuf[0..rxCurr - 2] == frame[..|frame| - 2];
      assert frame[|frame| - 2..] == [receivedLow, receivedHigh];
      SameWord(receivedLow, receivedHigh, low, high);
      if Join(receivedHigh, receivedLow) != Join(high, low) {
        stats := stats.(crcErrors := (stats.crcErrors + 1) % 256);
        return false;
      }
      return true;
    }

    /** rtu_memory_impl_pdu_cb on the frame in rxbuf: a reply of no bytes if it is for another slave. */
    method PduCb(addr: byte, fcode: byte, begin: nat, end: nat, curr: nat) returns (next: nat)
      requires Valid() && ADU_MIN_SIZE <= rxCurr
      requires begin == 0 && end == rxCurr - 2 && curr == 2 && addr == rxbuf[0] && fcode == rxbuf[1]
      requires InWindow(Abs().user, Abs().rx)
      modifies txbuf, memory.bytes
      ensures Valid() && var (user, reply) := Respond(old(Abs()).user, old(Abs()).rx);
        && Device(self, Known(memory.Contents())) == user
        && next == |reply| <= CAPACITY - 2 && txbuf[..next] == reply
    {
      ghost var d, frame := Abs().user, Abs().rx;
      if self != addr {
        return 0;
      }
      hide Handle, Window, Apply, Inside;
      FrameParts(rxbuf[..], rxCurr);
      ghost var e := EffectOn(d.content.store, frame);
      assert Respond(d, frame) == (d.(content := Changed(d.content.store, e)), [self] + e.reply);
      hide Respond, InWindow;
      txbuf[0] := addr;
      ghost var was := txbuf[..];
      next := memory.PduCb(fcode, rxbuf, begin + 1, end, curr, txbuf, 1);
      ReplyBehindAddress(was, txbuf[..], next, e.reply);
      ReplyFits(d.content.store, frame);
    }

    method AduProcess(done: int)
      requires Valid() && !timer.Broken? && status == Status(false, false, Eof, Idle)
      requires AduOk(Abs().rx) ==> InWindow(Abs().user, Abs().rx)
      modifies this, rxbuf, txbuf, memory.bytes
      ensures Valid()
      ensures Abs() == Completed(synchronous, old(Abs()), Framing.AduProcess(old(Abs()), Respond), done)
      decreases 2
    {
      ghost var s := Abs();
      hide AduOk, Respond, InWindow;
      var ok := AduCheck();
      if ok {
        var next := PduCb(rxbuf[0], rxbuf[1], 0, rxCurr - 2, 2);
        calls := calls + [rxbuf[..rxCurr]];
        txCurr := next;
        rxCurr := 0;
        if txCurr != 0 {
          SealReply();
          StateUpdate(Busy);
          SerialSend(done, s);
        }
      } else {
        StateError();
      }
    }

    method SealReply()
      requires Valid() && txCurr <= CAPACITY - 2
      modifies this`txCurr, txbuf
      ensures Valid() && Abs() == old(Abs()).(tx := Sealed(old(Abs()).tx))
    {
      var low, high := CalcCrc(txbuf, 0, txCurr);
      SealBuffer(txbuf[..], txCurr, low, high);
      txbuf[txCurr] := low;
      txbuf[txCurr + 1] := high;
      txCurr := txCurr + 2;
    }

    /** send_impl if sending is synchronous; otherwise the frame is handed over and left to an interrupt. */
    method SerialSend(done: int, ghost s: State<Device>)
      requires Valid() && status.curr == Busy && status.updated && !status.error
      requires !timer.Broken? && |sent| == |s.sent|
      modifies this, rxbuf, txbuf, memory.bytes
      ensures Valid()
      ensures Abs() == Completed(synchronous, s, old(Abs()).(sent := old(sent) + [old(txbuf[..txCurr])]), done)
      decreases 1
    {
      hide Respond, InWindow;
      sent := sent + [txbuf[..txCurr]];
      if synchronous {
        ghost var t := Abs();
        SentRestarts(t, done);
        SerialSentCb();
        Event(done, done);
      }
    }

    method Event(now: int, done: int)
      requires Valid() && !timer.Broken? && Permitted(Abs())
      modifies this, rxbuf, txbuf, memory.bytes
      ensures Valid()
      ensures Abs() == Completed(synchronous, old(Abs()), Poll(old(Abs()), now, Respond), done)
      decreases if status.curr == Idle then 3 else 0
    {
      hide Respond, InWindow, AduOk;
      if !status.updated {
        return;
      }
      status := status.(updated := false);
      if status.error {
        Recovery(now);
      } else if status.curr == Init {
        Restarting(now);
      } else if status.curr == Idle {
        if status.prev == Init {
        } else if status.prev == Eof {
          if txCurr != 0 {
            Recovery(now);
          } else {
            AduProcess(done);
          }
        } else {
          Recovery(now);
        }
      } else if status.curr == Sof {
        if status.prev != Idle {
          Recovery(now);
        }
      } else if status.curr == Recv {
      } else if status.curr == Eof {
        if status.prev != Recv {
          Recovery(now);
        }
      }
    }

    /** The label `error` of modbus_rtu_event. */
    method Recovery(now: int)
      requires Valid() && !timer.Broken?
      modifies this, rxbuf, txbuf
      ensures Valid() && Abs() == Recover(old(Abs()), now)
    {
      stats := stats.(errors := (stats.errors + 1) % 256);
      StateUpdate(Init);
      status := status.(updated := false, error := false);
      Restarting(now);
    }

    /** The label `restart` of modbus_rtu_event. */
    method Restarting(now: int)
      requires Valid() && !timer.Broken?
      modifies this, rxbuf, txbuf
      ensures Valid() && Abs() == Restart(old(Abs()), now)
    {
      ResetRxbuf();
      ResetTxbuf();
      TimerStop();
      timerCb := SilentInterval;
      TimerStart(T35, now);
    }

    // ---- The loop of the Linux adapter ----

    /** The byte loop of recv_impl; `clock` holds what the clock shows at each byte. */
    method RecvImpl(buf: array<byte>, end: nat, clock: seq<(int, int)>)
      requires Valid() && Inv(Abs()) && synchronous
      requires buf != rxbuf && buf != txbuf && buf != memory.bytes && end <= buf.Length && |clock| == end
      modifies this, rxbuf, txbuf, memory.bytes
      ensures Valid() && Inv(Abs())
      ensures Abs() == EagerRun(old(Abs()), Arrivals(buf[..end], clock), Respond)
    {
      hide Respond, Inv, EagerRun, EagerStep;
      ghost var s := Abs();
      NoArrivals(s);
      var begin := 0;
      while begin != end
        invariant begin <= end && Valid() && Inv(Abs())
        invariant Abs() == EagerRun(s, Arrivals(buf[..begin], clock[..begin]), Respond)
        decreases end - begin
      {
        ghost var t := Abs();
        ghost var m := Moment(clock[begin].0, clock[begin].1, Char(buf[begin]));
        assert buf[..end][..begin] == buf[..begin] && buf[..end][..begin + 1] == buf[..begin + 1];
        ByteStep(t, m);
        StepKeepsInvariant(t, m, Respond);
        NextArrival(s, buf[..end], clock, begin);
        SerialRecvCb(buf[begin], clock[begin].0);
        assert Abs() == SerialRecv(t, m.input.data, m.at);
        Event(clock[begin].0, clock[begin].1);
        begin := begin + 1;
      }
      assert clock[..end] == clock;
    }

    /** The expiry of the timer is handled once its period has elapsed. */
    method TimeoutImpl(now: int, done: int)
      requires Valid() && Inv(Abs()) && synchronous
      requires status.curr == Eof && AduOk(Abs().rx) ==> InWindow(Abs().user, Abs().rx)
      modifies this, rxbuf, txbuf, memory.bytes
      ensures Valid() && Inv(Abs())
      ensures old(timer).Stopped? ==> Abs() == old(Abs())
      ensures old(timer).Running? ==>
        Abs() == if now - old(timer).since >= (if old(timer).period == T15 then t15 else t35)
                 then EagerStep(old(Abs()), Moment(now, done, Expiry), Respond) else old(Abs())
    {
      hide Respond, InWindow, AduOk;
      if timer.Stopped? {
        return;
      }
      var elapsed := now - timer.since;
      var timeout := if timer.period == T15 then t15 else t35;
      if elapsed >= timeout {
        ghost var m := Moment(now, done, Expiry);
        ExpiryStep(Abs(), m);
        StepKeepsInvariant(Abs(), m, Respond);
        assert timerCb != NoCallback;
        if timerCb == SilentInterval {
          TimerSilentIntervalCb();
        } else {
          TimerInterFrameTimeoutCb(now);
        }
        Event(now, done);
      }
    }
  }
}
