/**
 The memory handler against a plain map from addresses to bytes: over any sequence of requests,
 with writes in the window, the replies and the memory are those of the map.
 */
module MemoryMap {
  import opened Buffers
  import opened Words
  import opened Memory

  type Cells = map<nat, byte>

  /** A 16-bit value as it is sent. */
  datatype Data16 = Data16(high: byte, low: byte)

  datatype Request =
    | GetRegisters(addr: nat, num: nat)
    | SetRegister(addr: nat, value: Data16)
    | SetRegisters(addr: nat, values: seq<Data16>)
    | GetBytes(addr: nat, num: nat)
    | SetBytes(addr: nat, data: seq<byte>)

  datatype Answer = Registers(values: seq<Data16>) | Bytes(data: seq<byte>) | Done | Refused(ecode: byte)

  datatype Option<T> = None | Some(value: T)

  function CellAt(s: Store, a: nat): byte
    requires s.Valid() && Holds(s, a)
  {
    s.bytes[a - s.begin]
  }

  function View(s: Store): Cells
    requires s.Valid()
  {
    map a: nat | s.begin <= a < s.end :: CellAt(s, a)
  }

  // ---- The map machine ----

  predicate Present(m: Cells, addr: nat, num: nat) {
    forall a: nat :: addr <= a < addr + num ==> a in m
  }

  /** The map with the bytes stored from an address on. */
  function Overwrite(m: Cells, addr: nat, data: seq<byte>): Cells {
    map a | a in m :: if addr <= a < addr + |data| then data[a - addr] else m[a]
  }

  /** Registers are stored one after the other, until one does not fit into a byte. */
  function StoreEach(m: Cells, addr: nat, values: seq<Data16>): (Cells, Answer)
    decreases |values|
  {
    if values == [] then (m, Done)
    else if values[0].high != 0 then (m, Refused(ILLEGAL_VALUE))
    else StoreEach(m[addr := values[0].low], addr + 1, values[1..])
  }

  function Ask(m: Cells, r: Request): (Cells, Answer) {
    match r
    case GetRegisters(addr, num) =>
      if Present(m, addr, num) then
        (m, Registers(seq(num, i requires 0 <= i < num => Data16(0, m[addr + i]))))
      else (m, Refused(ILLEGAL_ADDRESS))
    case SetRegister(addr, value) =>
      if Present(m, addr, 1) then StoreEach(m, addr, [value]) else (m, Refused(ILLEGAL_ADDRESS))
    case SetRegisters(addr, values) =>
      if Present(m, addr, |values|) then StoreEach(m, addr, values) else (m, Refused(ILLEGAL_ADDRESS))
    case GetBytes(addr, num) =>
      if Present(m, addr, num) then (m, Bytes(seq(num, i requires 0 <= i < num => m[addr + i])))
      else (m, Refused(ILLEGAL_ADDRESS))
    case SetBytes(addr, data) =>
      if Present(m, addr, |data|) then
        (Overwrite(m, addr, data), Done)
      else (m, Refused(ILLEGAL_ADDRESS))
  }

  // ---- Requests and replies as bytes ----

  /** The 16-bit values in a sequence of bytes. */
  function Pairs(p: seq<byte>): (values: seq<Data16>)
    ensures |values| == |p| / 2
  {
    seq(|p| / 2, i requires 0 <= i < |p| / 2 => Data16(p[2 * i], p[2 * i + 1]))
  }

  function Spread(values: seq<Data16>): (p: seq<byte>)
    ensures |p| == 2 * |values|
  {
    seq(2 * |values|, i requires 0 <= i < 2 * |values| =>
      if i % 2 == 0 then values[i / 2].high else values[i / 2].low)
  }

  lemma SpreadAt(values: seq<Data16>, i: nat)
    requires i < |values|
    ensures Spread(values)[2 * i] == values[i].high && Spread(values)[2 * i + 1] == values[i].low
  {
  }

  /** A request of the right shape; reads may carry more bytes than they need. */
  function Decode(p: seq<byte>): Option<Request>
    requires |p| >= 1
  {
    if p[0] == READ_REGISTERS then
      if |p| >= 5 && 0 < NumberAt(p, 3) < 0x7E then Some(GetRegisters(NumberAt(p, 1), NumberAt(p, 3))) else None
    else if p[0] == WRITE_REGISTER then
      if |p| >= 5 then Some(SetRegister(NumberAt(p, 1), Data16(p[3], p[4]))) else None
    else if p[0] == WRITE_REGISTERS then
      if |p| >= 6 && 0 < NumberAt(p, 3) < 0x7C && Count(p[5]) == 2 * NumberAt(p, 3) == |p| - 6 then
        Some(SetRegisters(NumberAt(p, 1), Pairs(p[6..])))
      else None
    else if p[0] == READ_BYTES then
      if |p| >= 4 && 0 < Count(p[3]) < 250 then Some(GetBytes(NumberAt(p, 1), Count(p[3]))) else None
    else if p[0] == WRITE_BYTES then
      if |p| >= 4 && 0 < Count(p[3]) < 250 && Count(p[3]) == |p| - 4 then
        Some(SetBytes(NumberAt(p, 1), p[4..]))
      else None
    else None
  }

  function Reply(p: seq<byte>, answer: Answer): seq<byte>
    requires |p| >= 4
    requires answer.Registers? ==> |answer.values| < 128
  {
    match answer
    case Registers(values) => [READ_REGISTERS, TwiceAsByte(|values|)] + Spread(values)
    case Bytes(data) => p[..4] + data
    case Done => if p[0] == WRITE_BYTES then p[..4] else p[..if |p| < 5 then |p| else 5]
    case Refused(ecode) => Exception(p[0], ecode)
  }

  ghost predicate IsException(reply: seq<byte>) {
    |reply| == 2 && reply[1] != 0
  }

  // ---- One request ----

  lemma PresentIsWindow(s: Store, addr: nat, num: nat)
    requires s.Valid() && num > 0
    ensures Present(View(s), addr, num) <==> s.begin <= addr && addr + num <= s.end
  {
    if Present(View(s), addr, num) {
      assert addr in View(s) && addr + num - 1 in View(s);
    }
  }

  /** What a request does, in terms of the map. */
  ghost predicate Matches(s: Store, p: seq<byte>, behind: byte)
    requires s.Valid() && |p| >= 1 && Inside(s, Handle(s, p, behind))
  {
    var e := Handle(s, p, behind);
    var decoded := Decode(p);
    if decoded.None? then e.data == [] && IsException(e.reply)
    else
      var (m, answer) := Ask(View(s), decoded.value);
      && View(Apply(s, e)) == m
      && (answer.Registers? ==> |answer.values| < 128)
      && e.reply == Reply(p, answer)
  }

  lemma ViewOfApply(s: Store, e: Effect)
    requires s.Valid() && Inside(s, e)
    ensures View(Apply(s, e)) == Overwrite(View(s), e.addr, e.data)
  {
    var t := Apply(s, e);
    var l, r := View(t), Overwrite(View(s), e.addr, e.data);
    assert l.Keys == View(s).Keys && r.Keys == View(s).Keys;
    hide Splice;
    forall a: nat | s.begin <= a < s.end ensures l[a] == r[a] {
      if e.data != [] {
        SpliceAt(s.bytes, e.addr - s.begin, e.data, a - s.begin);
      }
    }
  }

  lemma GetRegistersReply(s: Store, addr: nat, num: nat)
    requires s.Valid() && 0 < num && s.begin <= addr && addr + num <= s.end
    ensures Ask(View(s), GetRegisters(addr, num)).1.Registers?
    ensures Spread(Ask(View(s), GetRegisters(addr, num)).1.values)
         == Widen(s.bytes[addr - s.begin..addr - s.begin + num])
  {
    PresentIsWindow(s, addr, num);
  }

  lemma MatchReadRegisters(s: Store, p: seq<byte>, behind: byte)
    requires s.Valid() && |p| >= 1 && p[0] == READ_REGISTERS
    ensures Matches(s, p, behind)
  {
    hide Number, Spread, Widen, TwiceAsByte;
    if |p| >= 5 && 0 < NumberAt(p, 3) < 0x7E {
      var addr, num := NumberAt(p, 1), NumberAt(p, 3);
      PresentIsWindow(s, addr, num);
      if s.begin <= addr && addr + num <= s.end {
        GetRegistersReply(s, addr, num);
      }
    }
  }

  lemma GetBytesReply(s: Store, addr: nat, num: nat)
    requires s.Valid() && 0 < num && s.begin <= addr && addr + num <= s.end
    ensures Ask(View(s), GetBytes(addr, num))
         == (View(s), Bytes(s.bytes[addr - s.begin..addr - s.begin + num]))
  {
    PresentIsWindow(s, addr, num);
    assert Ask(View(s), GetBytes(addr, num)).1.data == s.bytes[addr - s.begin..addr - s.begin + num];
  }

  lemma MatchReadBytes(s: Store, p: seq<byte>, behind: byte)
    requires s.Valid() && |p| >= 1 && p[0] == READ_BYTES
    ensures Matches(s, p, behind)
  {
    hide Number, Count, View, Present;
    if |p| >= 4 && 0 < Count(p[3]) < 250 {
      var addr, num := NumberAt(p, 1), Count(p[3]);
      PresentIsWindow(s, addr, num);
      if s.begin <= addr && addr + num <= s.end {
        GetBytesReply(s, addr, num);
      }
    }
  }

  lemma MatchWriteBytes(s: Store, p: seq<byte>, behind: byte)
    requires s.Valid() && |p| >= 1 && p[0] == WRITE_BYTES && Window(s, p)
    ensures Inside(s, Handle(s, p, behind)) && Matches(s, p, behind)
  {
    hide Number, Count;
    if |p| >= 4 && 0 < Count(p[3]) < 250 {
      PresentIsWindow(s, NumberAt(p, 1), Count(p[3]));
      ViewOfApply(s, Handle(s, p, behind));
    }
  }

  lemma StoreOne(m: Cells, addr: nat, value: Data16)
    requires addr in m
    ensures StoreEach(m, addr, [value])
      == if value.high == 0 then (Overwrite(m, addr, [value.low]), Done) else (m, Refused(ILLEGAL_VALUE))
  {
    hide Overwrite;
    assert [value][1..] == [];
    var m' := m[addr := value.low];
    assert StoreEach(m', addr + 1, []) == (m', Done);
    OverwriteOne(m, addr, value.low);
  }

  lemma OverwriteOne(m: Cells, addr: nat, data: byte)
    requires addr in m
    ensures m[addr := data] == Overwrite(m, addr, [data])
  {
    var l, r := m[addr := data], Overwrite(m, addr, [data]);
    assert l.Keys == m.Keys && r.Keys == m.Keys;
    assert forall a | a in m :: l[a] == r[a];
  }

  lemma MatchWriteRegister(s: Store, p: seq<byte>, behind: byte)
    requires s.Valid() && |p| >= 1 && p[0] == WRITE_REGISTER && Window(s, p)
    ensures Inside(s, Handle(s, p, behind)) && Matches(s, p, behind)
  {
    hide Number, Count, StoreEach, Overwrite;
    WindowSuffices(s, p, behind);
    if |p| >= 5 {
      var addr, value := NumberAt(p, 1), Data16(p[3], p[4]);
      PresentIsWindow(s, addr, 1);
      if Holds(s, addr) {
        StoreOne(View(s), addr, value);
        ViewOfApply(s, Handle(s, p, behind));
      }
    }
  }

  // ---- The registers of a write request ----

  /** Storing registers one after the other stores the longest prefix that fits. */
  lemma {:induction false} StoreEachIsPrefix(m: Cells, addr: nat, p: seq<byte>)
    requires |p| % 2 == 0 && Present(m, addr, |p| / 2)
    ensures StoreEach(m, addr, Pairs(p))
      == (Overwrite(m, addr, Narrow(p, Fitting(p))),
          if Fitting(p) == |p| / 2 then Done else Refused(ILLEGAL_VALUE))
    decreases |p|
  {
    if p == [] {
      assert Overwrite(m, addr, []) == m;
    } else {
      var values, rest := Pairs(p), p[2..];
      assert values[0] == Data16(p[0], p[1]);
      if p[0] == 0 {
        assert values[1..] == Pairs(rest);
        var m' := m[addr := p[1]];
        assert Present(m', addr + 1, |rest| / 2);
        StoreEachIsPrefix(m', addr + 1, rest);
        OverwriteFirst(m, addr, p[1], Narrow(rest, Fitting(rest)));
        NarrowFirst(p, Fitting(rest));
      } else {
        assert Overwrite(m, addr, []) == m;
      }
    }
  }

  lemma OverwriteFirst(m: Cells, addr: nat, first: byte, rest: seq<byte>)
    requires addr in m
    ensures Overwrite(m[addr := first], addr + 1, rest) == Overwrite(m, addr, [first] + rest)
  {
    var data := [first] + rest;
    var l, r := Overwrite(m[addr := first], addr + 1, rest), Overwrite(m, addr, data);
    assert l.Keys == m.Keys && r.Keys == m.Keys;
    forall a | a in m ensures l[a] == r[a] {
      if addr < a < addr + |data| {
        assert data[a - addr] == rest[a - (addr + 1)];
      }
    }
  }

  lemma NarrowFirst(p: seq<byte>, n: nat)
    requires 2 * n + 2 <= |p|
    ensures Narrow(p, n + 1) == [p[1]] + Narrow(p[2..], n)
  {
  }

  lemma MatchWriteRegisters(s: Store, p: seq<byte>, behind: byte)
    requires s.Valid() && |p| >= 1 && p[0] == WRITE_REGISTERS && Window(s, p)
    ensures Inside(s, Handle(s, p, behind)) && Matches(s, p, behind)
  {
    hide Number, Count, StoreEach, Overwrite, Fitting, Narrow, View, Present;
    WindowSuffices(s, p, behind);
    if |p| >= 6 && 0 < NumberAt(p, 3) < 0x7C && Count(p[5]) == 2 * NumberAt(p, 3) == |p| - 6 {
      var addr, num := NumberAt(p, 1), NumberAt(p, 3);
      PresentIsWindow(s, addr, num);
      if s.begin <= addr && addr + num <= s.end {
        StoreEachIsPrefix(View(s), addr, p[6..]);
        ViewOfApply(s, Handle(s, p, behind));
      }
    }
  }

  /** In the window every request does what it does to the map; one of no right shape does everywhere. */
  lemma WindowMatches(s: Store, p: seq<byte>, behind: byte)
    requires s.Valid() && |p| >= 1 && (Window(s, p) || Decode(p).None?)
    ensures Inside(s, Handle(s, p, behind)) && Matches(s, p, behind)
  {
    if Window(s, p) {
      WindowSuffices(s, p, behind);
      if p[0] == READ_REGISTERS {
        MatchReadRegisters(s, p, behind);
      } else if p[0] == WRITE_REGISTER {
        MatchWriteRegister(s, p, behind);
      } else if p[0] == WRITE_REGISTERS {
        MatchWriteRegisters(s, p, behind);
      } else if p[0] == READ_BYTES {
        MatchReadBytes(s, p, behind);
      } else if p[0] == WRITE_BYTES {
        MatchWriteBytes(s, p, behind);
      }
    } else {
      Undecodable(s, p, behind);
    }
  }

  lemma Undecodable(s: Store, p: seq<byte>, behind: byte)
    requires s.Valid() && |p| >= 1 && Decode(p).None?
    ensures Handle(s, p, behind).data == [] && IsException(Handle(s, p, behind).reply)
  {
    hide Number, Count, Fitting, Narrow, Widen, TwiceAsByte;
  }

  /** The map refuses what leaves the window; the handler answers otherwise, once the first address has passed. */
  lemma OutsideDiffers(s: Store, p: seq<byte>, behind: byte)
    requires s.Valid() && |p| >= 1 && Decode(p).Some? && !Window(s, p)
    ensures Ask(View(s), Decode(p).value).1 == Refused(ILLEGAL_ADDRESS)
    ensures |Handle(s, p, behind).reply| > 2 || Handle(s, p, behind).reply[1] == ILLEGAL_VALUE
  {
    var r := Decode(p).value;
    PresentIsWindow(s, r.addr,
      match r case SetRegister(_, _) => 1 case SetRegisters(_, values) => |values| case SetBytes(_, data) => |data|
      case _ => 1);
    hide Number, Count, Fitting, Narrow, View, Present, StoreEach;
  }

  /**
   A request does to the memory what it does to the map, and gets the same answer, exactly if it
   has no right shape or keeps to the window: reads always do.
   */
  lemma HandlerIsMap(s: Store, p: seq<byte>, behind: byte)
    requires s.Valid() && |p| >= 1
    ensures Inside(s, Handle(s, p, behind)) && Matches(s, p, behind) <==> Decode(p).None? || Window(s, p)
  {
    if Decode(p).None? || Window(s, p) {
      WindowMatches(s, p, behind);
    } else {
      OutsideDiffers(s, p, behind);
      hide Handle, Decode, Ask, View, Window;
    }
  }

  // ---- Any sequence of requests ----

  /** A request and the byte behind it. */
  datatype Received = Received(p: seq<byte>, behind: byte)

  ghost predicate Acceptable(s: Store, requests: seq<Received>) {
    forall i :: 0 <= i < |requests| ==> |requests[i].p| >= 1 && Window(s, requests[i].p)
  }

  /** The handler, one request after the other: the memory and the replies. */
  ghost function ServeAll(s: Store, requests: seq<Received>): (r: (Store, seq<seq<byte>>))
    requires s.Valid() && Acceptable(s, requests)
    ensures r.0.Valid() && r.0.begin == s.begin && r.0.end == s.end && |r.1| == |requests|
    decreases |requests|
  {
    if requests == [] then (s, [])
    else
      var init, last := requests[..|requests| - 1], requests[|requests| - 1];
      var (t, replies) := ServeAll(s, init);
      assert Window(t, last.p);
      WindowSuffices(t, last.p, last.behind);
      var e := Handle(t, last.p, last.behind);
      (Apply(t, e), replies + [e.reply])
  }

  /** The map, one request after the other; requests of no right shape leave it as it is. */
  function AskAll(m: Cells, requests: seq<Option<Request>>): (r: (Cells, seq<Option<Answer>>))
    ensures |r.1| == |requests|
    decreases |requests|
  {
    if requests == [] then (m, [])
    else
      var (m', answers) := AskAll(m, requests[..|requests| - 1]);
      var last := requests[|requests| - 1];
      if last.None? then (m', answers + [None])
      else
        var (m'', answer) := Ask(m', last.value);
        (m'', answers + [Some(answer)])
  }

  ghost function DecodeAll(requests: seq<Received>): (r: seq<Option<Request>>)
    requires forall i :: 0 <= i < |requests| ==> |requests[i].p| >= 1
    ensures |r| == |requests|
  {
    seq(|requests|, i requires 0 <= i < |requests| => Decode(requests[i].p))
  }

  /** The reply in bytes is the answer of the map, or an exception to a request of no right shape. */
  ghost predicate Agrees(p: seq<byte>, reply: seq<byte>, answer: Option<Answer>) {
    if answer.None? then IsException(reply)
    else
      && |p| >= 4 && (answer.value.Registers? ==> |answer.value.values| < 128)
      && reply == Reply(p, answer.value)
  }

  lemma OneAgrees(s: Store, r: Received)
    requires s.Valid() && |r.p| >= 1 && Window(s, r.p)
    ensures var e, decoded := Handle(s, r.p, r.behind), Decode(r.p);
      && Inside(s, e)
      && View(Apply(s, e)) == (if decoded.None? then View(s) else Ask(View(s), decoded.value).0)
      && Agrees(r.p, e.reply, if decoded.None? then None else Some(Ask(View(s), decoded.value).1))
  {
    WindowMatches(s, r.p, r.behind);
    hide Handle, Ask, View;
  }

  /** Over any requests with writes in the window the memory is the map, and so are the replies. */
  lemma {:induction false} MemoryIsMap(s: Store, requests: seq<Received>)
    requires s.Valid() && Acceptable(s, requests)
    ensures var (t, replies) := ServeAll(s, requests);
      var (m, answers) := AskAll(View(s), DecodeAll(requests));
      && View(t) == m
      && forall i :: 0 <= i < |requests| ==> Agrees(requests[i].p, replies[i], answers[i])
    decreases |requests|
  {
    hide View, Handle, Ask, Decode, Agrees, Apply, Window;
    if requests != [] {
      var n := |requests| - 1;
      var init, last := requests[..n], requests[n];
      assert DecodeAll(requests)[..n] == DecodeAll(init);
      MemoryIsMap(s, init);
      var t := ServeAll(s, init).0;
      SameWindow(s, t, last.p);
      WindowSuffices(t, last.p, last.behind);
      OneAgrees(t, last);
    }
  }

  lemma SameWindow(s: Store, t: Store, p: seq<byte>)
    requires |p| >= 1 && s.begin == t.begin && s.end == t.end
    ensures Window(s, p) == Window(t, p)
  {
  }

  // ---- Writes outside the window ----

  lemma ReplyLength(s: Store, p: seq<byte>, behind: byte)
    requires s.Valid() && |p| >= 1
    ensures 2 <= |Handle(s, p, behind).reply| <= 253
    ensures p[0] != READ_BYTES ==> |Handle(s, p, behind).reply| <= 252
  {
    hide Number, Count, Fitting, TwiceAsByte, Narrow;
  }

  predicate Writes(p: seq<byte>) {
    |p| >= 3 && p[0] in {WRITE_REGISTER, WRITE_REGISTERS, WRITE_BYTES}
  }

  /** How many addresses a request of the right shape names. */
  function Extent(p: seq<byte>): nat
    requires Writes(p) && Decode(p).Some?
  {
    if p[0] == WRITE_REGISTER then 1 else if p[0] == WRITE_REGISTERS then NumberAt(p, 3) else Count(p[3])
  }

  /** How many bytes a request stores if its first address passes, read off the request alone. */
  function Stored(p: seq<byte>): nat
    requires Writes(p)
  {
    if Decode(p).None? then 0
    else if p[0] == WRITE_REGISTER then if p[3] == 0 then 1 else 0
    else if p[0] == WRITE_REGISTERS then Fitting(p[6..])
    else Count(p[3])
  }

  /** A range that lies in the window. */
  predicate Within(s: Store, addr: nat, num: nat) {
    s.begin <= addr && addr + num <= s.end
  }

  lemma StoredLength(s: Store, p: seq<byte>, behind: byte)
    requires s.Valid() && Writes(p)
    ensures var e := Handle(s, p, behind);
      if NumberAt(p, 1) < s.end then |e.data| == Stored(p) && (e.data != [] ==> e.addr == NumberAt(p, 1))
      else e.data == []
  {
    hide Number, Count, Fitting, Narrow;
  }

  /** When what a request stores lies inside the array, acknowledged or not. */
  lemma StoredInside(s: Store, p: seq<byte>, behind: byte)
    requires s.Valid() && Writes(p)
    ensures StoresInside(s, Handle(s, p, behind))
      <==> Stored(p) == 0 || s.end <= NumberAt(p, 1) || Within(s, NumberAt(p, 1), Stored(p))
  {
    StoredLength(s, p, behind);
    hide Handle, Stored, NumberAt;
    var e := Handle(s, p, behind);
    if e.data != [] {
      WindowExact(s, e);
    }
  }

  /** When a write is acknowledged. */
  lemma Acknowledged(s: Store, p: seq<byte>, behind: byte)
    requires s.Valid() && Writes(p)
    ensures |Handle(s, p, behind).reply| > 2
      <==> Decode(p).Some? && NumberAt(p, 1) < s.end && Stored(p) == Extent(p)
  {
    hide Number, Count, Fitting, Narrow;
  }

  /** README.md: an access outside the window returns an exception, and so does not reach the array. */
  ghost predicate KeepsPromise(s: Store, p: seq<byte>, behind: byte)
    requires s.Valid() && Writes(p)
  {
    Decode(p).Some? && !Within(s, NumberAt(p, 1), Extent(p)) ==>
      |Handle(s, p, behind).reply| == 2 && StoresInside(s, Handle(s, p, behind))
  }

  /**
   The promise holds exactly for requests that have no right shape, or stay in the window, or
   start behind it, or hold a register that does not fit and the registers before it stay in the
   window.
   */
  lemma WindowPromise(s: Store, p: seq<byte>, behind: byte)
    requires s.Valid() && Writes(p)
    ensures KeepsPromise(s, p, behind) <==>
      || Decode(p).None?
      || Within(s, NumberAt(p, 1), Extent(p))
      || s.end <= NumberAt(p, 1)
      || (Stored(p) < Extent(p) && (Stored(p) == 0 || Within(s, NumberAt(p, 1), Stored(p))))
  {
    StoredInside(s, p, behind);
    Acknowledged(s, p, behind);
    ReplyLength(s, p, behind);
    if Decode(p).Some? {
      StoredAtMost(p);
    }
    hide Handle, Decode, Stored, NumberAt, Extent;
  }

  lemma StoredAtMost(p: seq<byte>)
    requires Writes(p) && Decode(p).Some?
    ensures Stored(p) <= Extent(p)
  {
    hide Number, Count;
  }

  // ---- What single replies promise ----

  lemma LowNumber(low: byte)
    ensures Number(0, low) == Count(low)
  {
  }

  /** Read as registers or as bytes, a range holds the same. */
  lemma ViewsAgree(s: Store, high: byte, low: byte, num: byte)
    requires s.Valid() && 0 < Count(num) < 0x7E
    requires s.begin <= Number(high, low) && Number(high, low) + Count(num) <= s.end
    ensures var registers := Handle(s, [READ_REGISTERS, high, low, 0, num], 0).reply;
      var bytes := Handle(s, [READ_BYTES, high, low, num], 0).reply;
      |bytes| == 4 + Count(num) && |registers| == 2 + 2 * Count(num) && registers[2..] == Widen(bytes[4..])
  {
    LowNumber(num);
    hide Number, Count, Widen, TwiceAsByte;
    var addr, n := Number(high, low), Count(num);
    var data := s.bytes[addr - s.begin..addr - s.begin + n];
    var p := [READ_REGISTERS, high, low, 0, num];
    assert NumberAt(p, 1) == addr && NumberAt(p, 3) == n;
    assert Handle(s, p, 0).reply == [READ_REGISTERS, TwiceAsByte(n)] + Widen(data);
    var q := [READ_BYTES, high, low, num];
    assert NumberAt(q, 1) == addr && Count(q[3]) == n;
    assert Handle(s, q, 0).reply == q[..4] + data;
  }

  /** The bytes outside the addresses of a request are kept. */
  lemma OthersKept(s: Store, e: Effect, a: nat)
    requires s.Valid() && Inside(s, e) && Holds(s, a)
    requires !(e.addr <= a < e.addr + |e.data|)
    ensures CellAt(Apply(s, e), a) == CellAt(s, a)
  {
    if e.data != [] {
      SpliceAt(s.bytes, e.addr - s.begin, e.data, a - s.begin);
    }
  }

  lemma BytesReplyLength(s: Store, p: seq<byte>)
    requires s.Valid() && |p| >= 1 && p[0] == READ_BYTES
    ensures |ReadN8(s, p).reply| == 253 <==>
      |p| >= 4 && Count(p[3]) == 249 && s.begin <= NumberAt(p, 1) && NumberAt(p, 1) + 249 <= s.end
  {
    hide Number, Count;
  }

  /**
   With the address byte before it and the CRC behind it, every reply fits into 256 bytes; the
   bound is met exactly by a read of 249 bytes.
   */
  lemma ExactCapacity(s: Store, p: seq<byte>, behind: byte)
    requires s.Valid() && |p| >= 1
    ensures var reply := Handle(s, p, behind).reply;
      && 2 <= |reply| && 1 + |reply| + 2 <= 256
      && (1 + |reply| + 2 == 256 <==>
          Decode(p).Some? && Decode(p).value.GetBytes? && Decode(p).value.num == 249
          && Present(View(s), Decode(p).value.addr, 249))
  {
    hide Number, Count, View, Present, ReadN8;
    ReplyLength(s, p, behind);
    if p[0] == READ_BYTES {
      BytesReplyLength(s, p);
      if |p| >= 4 {
        PresentIsWindow(s, NumberAt(p, 1), 249);
      }
    }
  }

  /**
   The write of registers stores exactly the longest prefix with zero high bytes, and the reply
   is the echo exactly when that is all of them.
   */
  lemma RegistersOutcome(s: Store, p: seq<byte>, behind: byte)
    requires s.Valid() && |p| >= 1 && p[0] == WRITE_REGISTERS
    requires Decode(p).Some? && NumberAt(p, 1) < s.end
    ensures var e, values, n := Handle(s, p, behind), Decode(p).value.values, |Handle(s, p, behind).data|;
      && e.addr == NumberAt(p, 1) && n <= |values|
      && (forall i :: 0 <= i < n ==> values[i].high == 0 && e.data[i] == values[i].low)
      && (n < |values| ==> values[n].high != 0)
      && (e.reply == p[..5] <==> n == |values|)
      && (e.reply != p[..5] <==> e.reply == Exception(WRITE_REGISTERS, ILLEGAL_VALUE))
  {
    var values := p[6..];
    assert forall i :: 0 <= i < Fitting(values) ==> values[2 * i] == 0;
    assert p[..5][0] == WRITE_REGISTERS;
  }

  predicate Known(fcode: byte) {
    fcode in {READ_REGISTERS, WRITE_REGISTER, WRITE_REGISTERS, READ_BYTES, WRITE_BYTES}
  }

  /** The first address is refused: reads test both ends of the window, writes only its end. */
  predicate AddressRefused(s: Store, p: seq<byte>)
    requires |p| >= 3
  {
    if p[0] == READ_REGISTERS || p[0] == READ_BYTES then !Holds(s, NumberAt(p, 1)) else s.end <= NumberAt(p, 1)
  }

  /**
   Of several faults the address is named first. Every other fault of a request that is long
   enough is an illegal value, but for registers whose number and byte count agree with each other
   and not with the length of the request.
   */
  lemma FaultsInOrder(s: Store, p: seq<byte>, behind: byte)
    requires s.Valid() && |p| >= 3 && Known(p[0]) && |p| >= RequestSize(p[0])
    ensures var reply := Handle(s, p, behind).reply;
      && (AddressRefused(s, p) ==> reply == Exception(p[0], ILLEGAL_ADDRESS))
      && (!AddressRefused(s, p) && Decode(p).None? ==>
           reply == Exception(p[0],
             if p[0] == WRITE_REGISTERS && 0 < NumberAt(p, 3) < 0x7C
                && Count((p + [behind])[5]) == 2 * NumberAt(p, 3)
             then FORMAT_ERROR else ILLEGAL_VALUE))
  {
    hide Number, Count, Fitting, Narrow, Widen, TwiceAsByte, Exception;
  }

  /** An exception other than that one leaves the memory as it is. */
  lemma ExceptionsChangeNothing(s: Store, p: seq<byte>, behind: byte)
    requires s.Valid() && |p| >= 1
    requires |Handle(s, p, behind).reply| == 2
    ensures Handle(s, p, behind).data == [] || (p[0] == WRITE_REGISTERS && Decode(p).Some?)
  {
    hide Number, Count, Fitting, Narrow;
  }
}
