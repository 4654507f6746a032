/**
 What a slave should make of the input on its line, without any state: frames are cut out of the
 bytes by silence.
 */
module Splitter {
  import opened Words
  import opened Crc
  import opened Framing

  /** What can happen to a slave: a byte, a line error, an expiry of its timer. */
  datatype Input = Char(data: byte) | Fault(data: byte) | Expiry

  /** What a run adds: the new user data, the frames served, the frames sent. */
  datatype Outcome<M> = Outcome(user: M, frames: seq<seq<byte>>, sent: seq<seq<byte>>)

  function Chars(bytes: seq<byte>): (inputs: seq<Input>)
    ensures |inputs| == |bytes|
  {
    seq(|bytes|, i requires 0 <= i < |bytes| => Char(bytes[i]))
  }

  /** How many bytes the input starts with. */
  function Span(t: seq<Input>): (n: nat)
    ensures n <= |t| && forall i :: 0 <= i < n ==> t[i].Char?
    ensures n < |t| ==> !t[n].Char?
  {
    if t == [] || !t[0].Char? then 0 else 1 + Span(t[1..])
  }

  function Payload(t: seq<Input>, n: nat): (bytes: seq<byte>)
    requires n <= |t| && forall i :: 0 <= i < n ==> t[i].Char?
    ensures |bytes| == n
  {
    seq(n, i requires 0 <= i < n => t[i].data)
  }

  // `late` says when a rejected frame is recovered from: at once, or only when the next input comes.

  /** Not synchronised: everything before the next 3.5t of silence is lost. */
  function Hunt<M>(t: seq<Input>, user: M, pdu: PduCallback<M>, late: bool): Outcome<M>
    decreases |t|
  {
    if t == [] then Outcome(user, [], [])
    else if t[0].Expiry? then Listen(t[1..], user, pdu, late)
    else Hunt(t[1..], user, pdu, late)
  }

  /**
   Synchronised: a frame is 2 to 256 bytes, then 1.5t and 3.5t of silence. Anything else, and a
   reply, costs the synchronisation.
   */
  function Listen<M>(t: seq<Input>, user: M, pdu: PduCallback<M>, late: bool): Outcome<M>
    decreases |t|
  {
    var n := Span(t);
    if n > CAPACITY then Hunt(t[CAPACITY + 1..], user, pdu, late)
    else if n == |t| then Outcome(user, [], [])
    else if n == 0 then if t[0].Expiry? then Listen(t[1..], user, pdu, late) else Hunt(t[1..], user, pdu, late)
    else if n == 1 || t[n].Fault? then Hunt(t[n + 1..], user, pdu, late)
    else if n + 1 == |t| then Outcome(user, [], [])
    else if !t[n + 1].Expiry? then Hunt(t[n + 2..], user, pdu, late)
    else if AduOk(Payload(t, n)) then Serve(Payload(t, n), t[n + 2..], user, pdu, late)
    else if late then Rejected(t[n + 2..], user, pdu)
    else Hunt(t[n + 2..], user, pdu, late)
  }

  function Serve<M>(frame: seq<byte>, t: seq<Input>, user: M, pdu: PduCallback<M>, late: bool): Outcome<M>
    decreases |t| + 1
  {
    var (user', reply) := pdu(user, frame);
    var rest := if reply == [] then Listen(t, user', pdu, late) else Hunt(t, user', pdu, late);
    Outcome(rest.user, [frame] + rest.frames, (if reply == [] then [] else [Sealed(reply)]) + rest.sent)
  }

  /** After a rejected frame silence is not noticed: the next byte is lost to the recovery. */
  function Rejected<M>(t: seq<Input>, user: M, pdu: PduCallback<M>): Outcome<M>
    decreases |t|
  {
    if t == [] then Outcome(user, [], [])
    else if t[0].Expiry? then Rejected(t[1..], user, pdu)
    else Hunt(t[1..], user, pdu, true)
  }

  lemma SpanOfChars(bytes: seq<byte>, t: seq<Input>)
    ensures Span(Chars(bytes) + t) == |bytes| + Span(t)
    decreases |bytes|
  {
    if bytes == [] {
      assert Chars(bytes) + t == t;
    } else {
      SpanOfChars(bytes[1..], t);
      assert (Chars(bytes) + t)[1..] == Chars(bytes[1..]) + t;
    }
  }

  /** A run of bytes and what ends it, as the splitter sees them. */
  lemma ListenAfter(rx: seq<byte>, t: seq<Input>, n: nat)
    requires Span(t) == n
    ensures var u := Chars(rx) + t;
      && Span(u) == |rx| + n
      && (n == 0 ==> Payload(u, |rx|) == rx && forall k :: |rx| <= k <= |u| ==> u[k..] == t[k - |rx|..])
      && (|rx| <= CAPACITY < |rx| + n ==> u[CAPACITY + 1..] == t[CAPACITY + 1 - |rx|..])
  {
    SpanOfChars(rx, t);
  }

  /** After 3.5t of silence, an intact frame followed by 1.5t and 3.5t of silence is served. */
  lemma IntactFrameIsServed<M>(frame: seq<byte>, t: seq<Input>, user: M, pdu: PduCallback<M>, late: bool)
    requires AduOk(frame) && |frame| <= CAPACITY
    ensures Listen(Chars(frame) + [Expiry, Expiry] + t, user, pdu, late) == Serve(frame, t, user, pdu, late)
    ensures Hunt([Expiry] + Chars(frame) + [Expiry, Expiry] + t, user, pdu, late) == Serve(frame, t, user, pdu, late)
  {
    var tail := [Expiry, Expiry] + t;
    var u := Chars(frame) + tail;
    assert Chars(frame) + [Expiry, Expiry] + t == u;
    assert ([Expiry] + Chars(frame) + [Expiry, Expiry] + t)[1..] == u;
    ListenAfter(frame, tail, 0);
    assert u[|frame| + 2..] == t;
  }

  /** The splitter after a rejected frame: silence, a frame and a silence bring it back to listening. */
  lemma {:induction false} RejectedCostsOne<M>(n: nat, frame: seq<byte>, t: seq<Input>, user: M, pdu: PduCallback<M>)
    requires frame != []
    ensures Rejected(seq(n, _ => Expiry) + Chars(frame) + [Expiry] + t, user, pdu) == Listen(t, user, pdu, true)
    decreases n
  {
    var u := seq(n, _ => Expiry) + Chars(frame) + [Expiry] + t;
    if n > 0 {
      assert u[1..] == seq(n - 1, _ => Expiry) + Chars(frame) + [Expiry] + t;
      RejectedCostsOne(n - 1, frame, t, user, pdu);
    } else {
      assert u[0] == Char(frame[0]);
      assert u[1..] == Chars(frame[1..]) + [Expiry] + t;
      HuntLosesBytes(frame[1..], t, user, pdu, true);
    }
  }

  lemma {:induction false} HuntLosesBytes<M>(bytes: seq<byte>, t: seq<Input>, user: M, pdu: PduCallback<M>, late: bool)
    ensures Hunt(Chars(bytes) + [Expiry] + t, user, pdu, late) == Listen(t, user, pdu, late)
    decreases |bytes|
  {
    var u := Chars(bytes) + [Expiry] + t;
    if bytes == [] {
      assert u[1..] == t;
    } else {
      assert u[1..] == Chars(bytes[1..]) + [Expiry] + t;
      HuntLosesBytes(bytes[1..], t, user, pdu, late);
    }
  }
}
