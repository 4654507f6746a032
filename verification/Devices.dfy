/**
 A slave device: the memory handler behind an address, as the callback that serves frames.
 */
module Devices {
  import opened Words
  import opened Framing
  import opened Crc
  import opened Memory
  import MemoryMap

  type ValidStore = s: Store | s.Valid() witness Store(0, 0, [])

  /** Nothing is known of the memory once something has been stored outside its array. */
  datatype Content = Known(store: ValidStore) | Lost

  datatype Device = Device(self: byte, content: Content)

  /** What the memory handler sees of a frame, and the byte behind it. */
  function RequestOf(frame: seq<byte>): seq<byte>
    requires |frame| >= ADU_MIN_SIZE
  {
    frame[1..|frame| - 2]
  }

  function BehindOf(frame: seq<byte>): byte
    requires |frame| >= ADU_MIN_SIZE
  {
    frame[|frame| - 2]
  }

  function EffectOn(s: ValidStore, frame: seq<byte>): Effect
    requires |frame| >= ADU_MIN_SIZE
  {
    Handle(s, RequestOf(frame), BehindOf(frame))
  }

  function Changed(s: ValidStore, e: Effect): Content {
    if Inside(s, e) then Known(Apply(s, e)) else Lost
  }

  /** Frames for other addresses are ignored; the reply starts with the own address. */
  function Respond(d: Device, frame: seq<byte>): (Device, seq<byte>) {
    if |frame| < ADU_MIN_SIZE || frame[0] != d.self || d.content.Lost? then (d, [])
    else
      var e := EffectOn(d.content.store, frame);
      (d.(content := Changed(d.content.store, e)), [d.self] + e.reply)
  }

  /** A frame for this device that writes, writes into the window. */
  predicate InWindow(d: Device, frame: seq<byte>) {
    |frame| >= ADU_MIN_SIZE && frame[0] == d.self && d.content.Known? ==>
      Window(d.content.store, RequestOf(frame))
  }

  lemma InWindowKeepsContent(d: Device, frame: seq<byte>)
    requires d.content.Known? && InWindow(d, frame)
    ensures var d' := Respond(d, frame).0;
      && d'.self == d.self && d'.content.Known?
      && d'.content.store.begin == d.content.store.begin && d'.content.store.end == d.content.store.end
  {
    if |frame| >= ADU_MIN_SIZE && frame[0] == d.self {
      WindowSuffices(d.content.store, RequestOf(frame), BehindOf(frame));
      hide Handle, Window;
    }
  }

  // ---- The transmit buffer ----

  lemma ResponseFits(d: Device, frame: seq<byte>)
    ensures |Respond(d, frame).1| <= CAPACITY - 2
  {
    if |frame| >= ADU_MIN_SIZE && d.content.Known? {
      MemoryMap.ExactCapacity(d.content.store, RequestOf(frame), BehindOf(frame));
    }
    hide Handle;
  }

  /** Replies, those being sent and those that have been sent, are of at most 256 bytes. */
  ghost predicate TxFits(s: State<Device>) {
    |s.tx| <= CAPACITY && forall i :: 0 <= i < |s.sent| ==> |s.sent[i]| <= CAPACITY
  }

  lemma StepFits(s: State<Device>, e: Stamped)
    requires TxFits(s)
    ensures TxFits(Step(s, e, Respond))
  {
    ResponseFits(s.user, s.rx);
    hide Respond, AduOk, Trailer;
  }

  /** In every interleaving a reply and its CRC fit into the transmit buffer of a device. */
  lemma {:induction false} RepliesFit(d: Device, trace: seq<Stamped>)
    ensures TxFits(Run(Boot(d), trace, Respond))
    decreases |trace|
  {
    if trace != [] {
      hide Step, TxFits, Respond;
      RepliesFit(d, trace[..|trace| - 1]);
      StepFits(Run(Boot(d), trace[..|trace| - 1], Respond), trace[|trace| - 1]);
    } else {
      assert TxFits(Boot(d));
    }
  }
}
