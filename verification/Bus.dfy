/**
 Several slaves on one line. All of them hear every request, and all but the one that replies
 hear the reply.
 */
module Bus {
  import opened Words
  import opened Crc
  import opened Framing
  import opened Eager
  import opened Memory
  import opened MemoryMap
  import opened Devices
  import opened Telegrams
  import opened Transactions

  type Slaves = seq<State<Device>>

  /** A request, what each slave goes through while it is on the line, and likewise for the reply. */
  datatype Round = Round(request: seq<byte>, heard: seq<seq<Moment>>, overheard: seq<seq<Moment>>)

  function HearAll(slaves: Slaves, heard: seq<seq<Moment>>): (r: Slaves)
    requires |heard| == |slaves|
    ensures |r| == |slaves|
  {
    seq(|slaves|, i requires 0 <= i < |slaves| => EagerRun(slaves[i], heard[i], Respond))
  }

  predicate Responds(slaves: Slaves, after: Slaves, i: nat)
    requires i < |slaves| == |after|
  {
    |after[i].sent| > |slaves[i].sent|
  }

  function Overhear(slaves: Slaves, after: Slaves, overheard: seq<seq<Moment>>): (r: Slaves)
    requires |overheard| == |slaves| == |after|
    ensures |r| == |slaves|
  {
    seq(|slaves|, i requires 0 <= i < |slaves| =>
      if Responds(slaves, after, i) then after[i] else EagerRun(after[i], overheard[i], Respond))
  }

  function Turn(slaves: Slaves, round: Round): (r: Slaves)
    requires |round.heard| == |round.overheard| == |slaves|
    ensures |r| == |slaves|
  {
    Overhear(slaves, HearAll(slaves, round.heard), round.overheard)
  }

  /** Nobody hears anything but the request, surrounded by silence, and then the reply, if there is one. */
  ghost predicate Faithful(slaves: Slaves, round: Round) {
    && |round.heard| == |round.overheard| == |slaves|
    && AduOk(round.request) && |round.request| <= CAPACITY
    && (forall i :: 0 <= i < |slaves| ==> Inputs(round.heard[i]) == Telegram(round.request))
    && var after := HearAll(slaves, round.heard);
       && (forall i, j :: 0 <= i < |slaves| && 0 <= j < |slaves| && i != j && Responds(slaves, after, j) ==>
            Inputs(round.overheard[i]) == Telegram(after[j].sent[|after[j].sent| - 1]))
       && ((forall j :: 0 <= j < |slaves| ==> !Responds(slaves, after, j)) ==>
            forall i :: 0 <= i < |slaves| ==> round.overheard[i] == [])
  }

  /** The slaves listen and their addresses differ. */
  ghost predicate AllListen(slaves: Slaves) {
    && (forall i :: 0 <= i < |slaves| ==> Listening(slaves[i]))
    && (forall i, j :: 0 <= i < j < |slaves| ==> slaves[i].user.self != slaves[j].user.self)
  }

  /**
   A slave answers the requests for its address. One that has stored outside its array counts as
   silent: what it does is not known.
   */
  predicate Answers(d: Device, request: seq<byte>) {
    IsFor(request, d.self) && d.content.Known?
  }

  predicate IsFor(request: seq<byte>, self: byte) {
    request != [] && request[0] == self
  }

  lemma ResponseShape(d: Device, request: seq<byte>)
    requires AduOk(request)
    ensures var (d', reply) := Respond(d, request);
      && d'.self == d.self && (reply != [] <==> Answers(d, request))
      && (reply != [] ==> AduOk(Sealed(reply)) && |Sealed(reply)| <= CAPACITY && Sealed(reply)[0] == d.self)
  {
    if Answers(d, request) {
      var reply := EffectOn(d.content.store, request).reply;
      ExactCapacity(d.content.store, RequestOf(request), BehindOf(request));
      ReplyShape(d.self, reply);
    }
    hide Handle, Apply, Inside, Trailer, Intact;
  }

  /** A slave hears the request: it replies exactly if it is addressed and its memory is known. */
  lemma HearsRequest(s: State<Device>, trace: seq<Moment>, request: seq<byte>)
    requires Listening(s)
    requires Inputs(trace) == Telegram(request) && AduOk(request) && |request| <= CAPACITY
    ensures var t := EagerRun(s, trace, Respond);
      && Listening(t) && t.user == Respond(s.user, request).0 && t.user.self == s.user.self
      && (|t.sent| > |s.sent| <==> Answers(s.user, request))
      && (|t.sent| > |s.sent| ==>
           var reply := t.sent[|t.sent| - 1];
           AduOk(reply) && |reply| <= CAPACITY && reply[0] == s.user.self)
  {
    HearsFrame(s, trace, request, Respond);
    ResponseShape(s.user, request);
    hide EagerRun, Listening, Intact, Telegram, Respond, Sealed, Answers;
  }

  /** A slave hears a frame for somebody else: nothing changes. */
  lemma HearsOther(s: State<Device>, trace: seq<Moment>, frame: seq<byte>)
    requires Listening(s) && AduOk(frame) && |frame| <= CAPACITY && frame[0] != s.user.self
    requires Inputs(trace) == Telegram(frame)
    ensures var t := EagerRun(s, trace, Respond);
      Listening(t) && t.user == s.user && t.sent == s.sent
  {
    HearsFrame(s, trace, frame, Respond);
    hide EagerRun, Listening, Intact, Telegram;
  }

  /** At most one slave replies: the one with the address of the request. */
  ghost predicate OneReply(slaves: Slaves, round: Round)
    requires |round.heard| == |slaves|
  {
    var after := HearAll(slaves, round.heard);
    && (forall i :: 0 <= i < |slaves| ==> (Responds(slaves, after, i) <==> Answers(slaves[i].user, round.request)))
    && (forall i, j :: 0 <= i < |slaves| && 0 <= j < |slaves| ==>
          Responds(slaves, after, i) && Responds(slaves, after, j) ==> i == j)
  }

  lemma HearsAtIndex(slaves: Slaves, round: Round, i: nat)
    requires AllListen(slaves) && Faithful(slaves, round) && i < |slaves|
    ensures var s, t := slaves[i], HearAll(slaves, round.heard)[i];
      && Listening(t) && t.user == Respond(s.user, round.request).0
      && t.user.self == s.user.self
      && (|t.sent| > |s.sent| <==> Answers(s.user, round.request))
      && (|t.sent| > |s.sent| ==>
           var reply := t.sent[|t.sent| - 1];
           AduOk(reply) && |reply| <= CAPACITY && reply[0] == s.user.self)
  {
    hide EagerRun, Listening, Respond, Intact, Telegram;
    HearsRequest(slaves[i], round.heard[i], round.request);
  }

  lemma RoundHasOneReply(slaves: Slaves, round: Round)
    requires AllListen(slaves) && Faithful(slaves, round)
    ensures OneReply(slaves, round)
  {
    hide EagerRun, Listening, Respond, Intact, Telegram, HearAll;
    var after := HearAll(slaves, round.heard);
    forall i | 0 <= i < |slaves|
      ensures Responds(slaves, after, i) <==> Answers(slaves[i].user, round.request)
    {
      HearsAtIndex(slaves, round, i);
    }
  }

  /** After a round every slave is what it would be if it had heard the request alone. */
  lemma TurnAtIndex(slaves: Slaves, round: Round, i: nat)
    requires AllListen(slaves) && Faithful(slaves, round) && i < |slaves|
    ensures var t := Turn(slaves, round)[i];
      && Listening(t) && t.user == Respond(slaves[i].user, round.request).0
      && t.user.self == slaves[i].user.self
  {
    hide EagerRun, Listening, Respond, Intact, Telegram, HearAll;
    var after := HearAll(slaves, round.heard);
    HearsAtIndex(slaves, round, i);
    RoundHasOneReply(slaves, round);
    if !Responds(slaves, after, i) {
      if j :| 0 <= j < |slaves| && Responds(slaves, after, j) {
        HearsAtIndex(slaves, round, j);
        HearsOther(after[i], round.overheard[i], after[j].sent[|after[j].sent| - 1]);
      } else {
        assert round.overheard[i] == [];
        RunNone(after[i], Respond);
      }
    }
  }

  lemma TurnIsReady(slaves: Slaves, round: Round)
    requires AllListen(slaves) && Faithful(slaves, round)
    ensures AllListen(Turn(slaves, round))
  {
    hide Turn, Listening, Respond;
    forall i | 0 <= i < |slaves|
      ensures var t := Turn(slaves, round)[i];
        Listening(t) && t.user.self == slaves[i].user.self
    {
      TurnAtIndex(slaves, round, i);
    }
  }

  // ---- Any number of rounds ----

  function BusRun(slaves: Slaves, rounds: seq<Round>): (r: Slaves)
    requires forall k :: 0 <= k < |rounds| ==> |rounds[k].heard| == |rounds[k].overheard| == |slaves|
    ensures |r| == |slaves|
    decreases |rounds|
  {
    if rounds == [] then slaves else BusRun(Turn(slaves, rounds[0]), rounds[1..])
  }

  ghost predicate AllFaithful(slaves: Slaves, rounds: seq<Round>)
    requires forall k :: 0 <= k < |rounds| ==> |rounds[k].heard| == |rounds[k].overheard| == |slaves|
    decreases |rounds|
  {
    rounds == [] ||
    (Faithful(slaves, rounds[0]) && AllFaithful(Turn(slaves, rounds[0]), rounds[1..]))
  }

  ghost predicate AllOneReply(slaves: Slaves, rounds: seq<Round>)
    requires forall k :: 0 <= k < |rounds| ==> |rounds[k].heard| == |rounds[k].overheard| == |slaves|
    decreases |rounds|
  {
    rounds == [] || (OneReply(slaves, rounds[0]) && AllOneReply(Turn(slaves, rounds[0]), rounds[1..]))
  }

  /** The requests for one address. */
  function RequestsFor(rounds: seq<Round>, self: byte): seq<seq<byte>> {
    if rounds == [] then []
    else
      var rest := RequestsFor(rounds[1..], self);
      if IsFor(rounds[0].request, self) then [rounds[0].request] + rest else rest
  }

  /** A device alone with the requests. */
  function Alone(d: Device, requests: seq<seq<byte>>): Device
    decreases |requests|
  {
    if requests == [] then d else Alone(Respond(d, requests[0]).0, requests[1..])
  }

  /** A device ignores a request for another address. */
  lemma IgnoresOthers(d: Device, request: seq<byte>)
    requires !IsFor(request, d.self)
    ensures Respond(d, request).0 == d
  {
  }

  /**
   Any number of slaves with different addresses, over any number of rounds without noise: to
   every request at most one of them replies, and in the end each has the memory that it would
   have if it had been alone with the requests for its address.
   */
  lemma {:induction false} SlavesAreIndependent(slaves: Slaves, rounds: seq<Round>)
    requires forall k :: 0 <= k < |rounds| ==> |rounds[k].heard| == |rounds[k].overheard| == |slaves|
    requires AllListen(slaves) && AllFaithful(slaves, rounds)
    ensures AllOneReply(slaves, rounds)
    ensures var after := BusRun(slaves, rounds);
      && AllListen(after)
      && forall i :: 0 <= i < |slaves| ==>
           after[i].user == Alone(slaves[i].user, RequestsFor(rounds, slaves[i].user.self))
    decreases |rounds|
  {
    if rounds != [] {
      hide Turn, AllListen, Faithful, OneReply, Respond, IsFor;
      var first, rest := rounds[0], rounds[1..];
      RoundHasOneReply(slaves, first);
      TurnIsReady(slaves, first);
      SlavesAreIndependent(Turn(slaves, first), rest);
      forall i | 0 <= i < |slaves|
        ensures BusRun(slaves, rounds)[i].user == Alone(slaves[i].user, RequestsFor(rounds, slaves[i].user.self))
      {
        TurnAtIndex(slaves, first, i);
        AloneStep(slaves[i].user, first.request, RequestsFor(rest, slaves[i].user.self));
      }
    }
  }

  lemma AloneStep(d: Device, request: seq<byte>, rest: seq<seq<byte>>)
    ensures Alone(d, if IsFor(request, d.self) then [request] + rest else rest)
         == Alone(Respond(d, request).0, rest)
  {
    if IsFor(request, d.self) {
      assert ([request] + rest)[1..] == rest;
    } else {
      IgnoresOthers(d, request);
    }
  }

  // ---- Slaves whose memory is known ----

  ghost predicate AllKnown(slaves: Slaves) {
    forall i :: 0 <= i < |slaves| ==> slaves[i].user.content.Known?
  }

  /** A request that writes, writes into the window of the slave that it is for. */
  ghost predicate Permitted(slaves: Slaves, request: seq<byte>) {
    forall i :: 0 <= i < |slaves| ==> InWindow(slaves[i].user, request)
  }

  /** Exactly the slave with the address of the request replies. */
  ghost predicate AddressedReplies(slaves: Slaves, round: Round)
    requires |round.heard| == |slaves|
  {
    forall i :: 0 <= i < |slaves| ==>
      (Responds(slaves, HearAll(slaves, round.heard), i) <==> IsFor(round.request, slaves[i].user.self))
  }

  ghost predicate AllPermitted(slaves: Slaves, rounds: seq<Round>)
    requires forall k :: 0 <= k < |rounds| ==> |rounds[k].heard| == |rounds[k].overheard| == |slaves|
    decreases |rounds|
  {
    rounds == []
    || (Permitted(slaves, rounds[0].request) && AllPermitted(Turn(slaves, rounds[0]), rounds[1..]))
  }

  ghost predicate AllAddressedReply(slaves: Slaves, rounds: seq<Round>)
    requires forall k :: 0 <= k < |rounds| ==> |rounds[k].heard| == |rounds[k].overheard| == |slaves|
    decreases |rounds|
  {
    rounds == []
    || (AddressedReplies(slaves, rounds[0]) && AllAddressedReply(Turn(slaves, rounds[0]), rounds[1..]))
  }

  lemma RoundOfKnown(slaves: Slaves, round: Round)
    requires AllListen(slaves) && Faithful(slaves, round) && AllKnown(slaves) && Permitted(slaves, round.request)
    ensures AddressedReplies(slaves, round) && AllKnown(Turn(slaves, round))
  {
    hide EagerRun, Listening, Respond, InWindow, Intact, Telegram, HearAll, Turn;
    RoundHasOneReply(slaves, round);
    forall i | 0 <= i < |slaves| ensures Turn(slaves, round)[i].user.content.Known? {
      TurnAtIndex(slaves, round, i);
      InWindowKeepsContent(slaves[i].user, round.request);
    }
  }

  /** As long as every write keeps to the window, to every request exactly the slave with its address replies. */
  lemma {:induction false} KnownSlavesReply(slaves: Slaves, rounds: seq<Round>)
    requires forall k :: 0 <= k < |rounds| ==> |rounds[k].heard| == |rounds[k].overheard| == |slaves|
    requires AllListen(slaves) && AllFaithful(slaves, rounds) && AllKnown(slaves) && AllPermitted(slaves, rounds)
    ensures AllAddressedReply(slaves, rounds) && AllKnown(BusRun(slaves, rounds))
    decreases |rounds|
  {
    if rounds != [] {
      hide Turn, AllListen, Faithful, AddressedReplies, AllKnown, Permitted;
      RoundOfKnown(slaves, rounds[0]);
      TurnIsReady(slaves, rounds[0]);
      KnownSlavesReply(Turn(slaves, rounds[0]), rounds[1..]);
    }
  }
}
