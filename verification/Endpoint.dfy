/**
 One end of the link as a value: counters per type, what it does with each frame,
 and the calls it makes to the outside. The class Comm is proved against this.
 */
module Endpoint {
  import opened Bytes
  import opened Frames
  import opened Codec

  const TYPE_COUNT := 11

  // Type byte -> slot in the per-type arrays, -1 if unknown
  function Slot(typ: byte): (i: int)
    ensures -1 <= i < TYPE_COUNT
    ensures i < 0 <==> KindOf(typ) == Unknown
  {
    if typ == 0x01 then 0
    else if typ == 0x02 then 1
    else if typ == 0x03 then 2
    else if typ == 0x04 then 3
    else if typ == 0x05 then 4
    else if typ == 0x06 then 5
    else if typ == 0x07 then 6
    else if typ == 0x81 then 7
    else if typ == 0x82 then 8
    else if typ == 0x83 then 9
    else if typ == 0x84 then 10
    else -1
  }

  const TEXT_SLOT := 5
  const ACK_SLOT := 10

  datatype Error = Crc | Lost | Length | Type

  // Calls to the outside, in the order they are made.
  datatype Call =
    | Sent(frame: seq<byte>)
    | Delivered(typ: byte, message: Message)
    | Reported(error: Error, typ: byte)

  type Counters = s: seq<byte> | |s| == TYPE_COUNT witness seq(TYPE_COUNT, _ => 0)
  type Switches = s: seq<bool> | |s| == TYPE_COUNT witness seq(TYPE_COUNT, _ => false)

  // handled: a handler is registered; onError: so is an error handler;
  // heap: memory can be allocated.
  datatype State = State(tx: Counters, rx: Counters, seen: Switches,
                         handled: Switches, onError: bool, heap: bool)

  datatype Outcome = Outcome(st: State, calls: seq<Call>)

  // ---- Sending ----

  datatype SendResult = SendResult(rc: int, st: State, calls: seq<Call>)

  function Count(c: byte): byte {
    c + 1
  }

  // The counter of the message, or -1 and nothing sent.
  function Send(st: State, typ: byte, m: Message): (r: SendResult)
    requires Fits(KindOf(typ), m)
  {
    var data := Pack(typ, m);
    if Slot(typ) < 0 || data.None? || |data.value| > DATA_MAX || !st.heap then SendResult(-1, st, [])
    else
      var i := Slot(typ);
      SendResult(Val(st.tx[i]), st.(tx := st.tx[i := Count(st.tx[i])]),
                 [Sent(Encode(Packet(typ, st.tx[i], data.value)))])
  }

  function TextPacket(counter: byte, severity: byte, source: byte, text: seq<byte>): Packet {
    Packet(0x06, counter, [severity, source] + text)
  }

  // A text goes out again with the counter it had.
  function Resend(st: State, counter: byte, severity: byte, source: byte, text: seq<byte>): (r: SendResult)
    ensures r.st == st
  {
    var p := TextPacket(counter, severity, source, text);
    if !Sendable(p) || !st.heap then SendResult(-1, st, []) else SendResult(0, st, [Sent(Encode(p))])
  }

  // ---- Receiving ----

  function Report(st: State, error: Error, typ: byte): seq<Call> {
    if st.onError then [Reported(error, typ)] else []
  }

  function Ack(st: State, counter: byte): SendResult {
    Send(st, 0x84, TextAck(counter))
  }

  predicate IsRepeat(st: State, p: Packet)
    requires Slot(p.typ) >= 0
  {
    p.typ == 0x06 && st.seen[Slot(p.typ)] && p.counter == st.rx[Slot(p.typ)]
  }

  function Note(st: State, p: Packet): Outcome
    requires Slot(p.typ) >= 0
  {
    var i := Slot(p.typ);
    Outcome(st.(rx := st.rx[i := p.counter], seen := st.seen[i := true]),
            if st.seen[i] && p.counter != Count(st.rx[i]) then Report(st, Lost, p.typ) else [])
  }

  // The frame's message goes to its handler; a text is confirmed first.
  function Deliver(st: State, p: Packet): Outcome
    requires Slot(p.typ) >= 0
  {
    var m := Unpack(p.typ, p.data);
    if m.None? then Outcome(st, Report(st, Length, p.typ))
    else
      var acked := if p.typ == 0x06 then Ack(st, p.counter) else SendResult(0, st, []);
      Outcome(acked.st,
              acked.calls + if st.handled[Slot(p.typ)] then [Delivered(p.typ, m.value)] else [])
  }

  function Handle(st: State, p: Packet): Outcome {
    if Slot(p.typ) < 0 then Outcome(st, Report(st, Type, p.typ))
    else if IsRepeat(st, p) then Outcome(Ack(st, p.counter).st, Ack(st, p.counter).calls)
    else
      var noted := Note(st, p);
      var delivered := Deliver(noted.st, p);
      Outcome(delivered.st, noted.calls + delivered.calls)
  }

  function React(st: State, e: Event): Outcome {
    match e
    case Corrupt(typ) => Outcome(st, Report(st, Crc, typ))
    case Got(p) => Handle(st, p)
  }

  function Run(st: State, events: seq<Event>): Outcome
    decreases |events|
  {
    if events == [] then Outcome(st, [])
    else
      var first := React(st, events[0]);
      var more := Run(first.st, events[1..]);
      Outcome(more.st, first.calls + more.calls)
  }

  // Everything that happens when `buf` is the receive buffer.
  datatype Received = Received(st: State, calls: seq<Call>, rest: seq<byte>)

  function Receive(st: State, buf: seq<byte>): Received {
    var s := Scan(buf);
    var o := Run(st, s.events);
    Received(o.st, o.calls, s.rest)
  }

  function After(calls: seq<Call>, r: Received): Received {
    r.(calls := calls + r.calls)
  }

  lemma {:induction false} RunSplit(st: State, a: seq<Event>, b: seq<Event>)
    ensures var first := Run(st, a);
            var more := Run(first.st, b);
            Run(st, a + b) == Outcome(more.st, first.calls + more.calls)
    decreases |a|
  {
    hide React;
    if a == [] {
      assert a + b == b;
      assert [] + Run(st, b).calls == Run(st, b).calls;
    } else {
      var r := React(st, a[0]);
      assert (a + b)[1..] == a[1..] + b;
      RunSplit(r.st, a[1..], b);
      var x, y := Run(r.st, a[1..]).calls, Run(Run(r.st, a[1..]).st, b).calls;
      assert r.calls + x + y == r.calls + (x + y);
    }
  }

  // Receiving bytes in two instalments is receiving them at once.
  lemma ReceiveResumes(st: State, a: seq<byte>, b: seq<byte>)
    ensures var first := Receive(st, a);
            Receive(st, a + b) == After(first.calls, Receive(first.st, first.rest + b))
  {
    ScanResumes(a, b);
    RunSplit(st, Scan(a).events, Scan(Scan(a).rest + b).events);
    hide Scan; hide Run;
  }

  // One round of the receiver's loop.
  lemma ReceiveStep(st: State, buf: seq<byte>)
    ensures Receive(st, buf) ==
            match Judge(buf)
            case Wait => Received(st, [], buf)
            case Skip => Receive(st, buf[1..])
            case Bad(typ) => After(Report(st, Crc, typ), Receive(st, buf[1..]))
            case Good(p, total) => After(Handle(st, p).calls, Receive(Handle(st, p).st, buf[total..]))
  {
    hide Judge; hide Handle; hide Report;
    match Judge(buf)
    case Wait =>
    case Skip =>
    case Bad(typ) =>
      assert Scan(buf).events[1..] == Scan(buf[1..]).events;
    case Good(p, total) =>
      assert Scan(buf).events[1..] == Scan(buf[total..]).events;
  }

  // Sending a text fails only for its length or for lack of memory.
  lemma TextPacks(st: State, severity: byte, source: byte, text: seq<byte>)
    ensures var p := TextPacket(st.tx[TEXT_SLOT], severity, source, text);
            Send(st, 0x06, Text(severity, source, text)) ==
            if Sendable(p) && st.heap
            then SendResult(Val(st.tx[TEXT_SLOT]), st.(tx := st.tx[TEXT_SLOT := Count(st.tx[TEXT_SLOT])]), [Sent(Encode(p))])
            else SendResult(-1, st, [])
  {
    hide Encode; hide Count; hide Val;
  }

  // ---- Counters ----

  function Ctr(n: nat): byte {
    OfNat(n % 256)
  }

  lemma CountVal(c: byte)
    ensures Val(Count(c)) == (Val(c) + 1) % 256
  {}

  lemma CtrNext(n: nat)
    ensures Ctr(n + 1) == Count(Ctr(n))
    ensures Ctr(n + 1) != Ctr(n)
  {
    CountVal(Ctr(n));
    hide OfNat; hide Val; hide Count;
    assert Val(Ctr(n + 1)) == (Val(Ctr(n)) + 1) % 256;
    ValInjective(Count(Ctr(n)), Ctr(n + 1));
  }

  lemma OfNatZero()
    ensures OfNat(0) == 0
  {}

  lemma CtrSame(a: nat, b: nat)
    ensures Ctr(a) == Ctr(b) <==> a % 256 == b % 256
  {
    assert Val(Ctr(a)) == a % 256 && Val(Ctr(b)) == b % 256;
  }

  lemma ModSame(n: nat, g: nat, r: nat)
    requires r < 256
    ensures (n + g) % 256 == (n + r) % 256 <==> g % 256 == r
  {}

  // The gap is noticed unless a multiple of 256 messages is missing; a text that comes
  // a multiple of 256 later is taken for the same text and not delivered.
  lemma LossNoticedIff(st: State, p: Packet, n: nat, g: nat)
    requires Slot(p.typ) >= 0 && st.seen[Slot(p.typ)]
    requires st.rx[Slot(p.typ)] == Ctr(n) && p.counter == Ctr(n + g)
    ensures Reported(Lost, p.typ) in Handle(st, p).calls <==>
            st.onError && g % 256 != 1 && !(p.typ == 0x06 && g % 256 == 0)
    ensures p.typ == 0x06 && g % 256 == 0 ==>
              Handle(st, p) == Outcome(Ack(st, p.counter).st, Ack(st, p.counter).calls)
  {
    hide Ctr; hide Slot; hide Ack; hide Deliver; hide Note; hide Count;
    GapCounters(n, g);
    HandleLost(st, p);
  }

  lemma GapCounters(n: nat, g: nat)
    ensures Ctr(n + g) == Ctr(n) <==> g % 256 == 0
    ensures Ctr(n + g) == Count(Ctr(n)) <==> g % 256 == 1
  {
    CtrNext(n);
    CtrSame(n + g, n);
    CtrSame(n + g, n + 1);
    ModSame(n, g, 0);
    ModSame(n, g, 1);
    hide Ctr; hide Count;
  }

  lemma HandleLost(st: State, p: Packet)
    requires Slot(p.typ) >= 0 && st.seen[Slot(p.typ)]
    ensures Reported(Lost, p.typ) in Handle(st, p).calls <==>
            st.onError && !IsRepeat(st, p) && p.counter != Count(st.rx[Slot(p.typ)])
  {
    hide Slot; hide Ack; hide Deliver; hide Note; hide Count;
    NoteLost(st, p);
    DeliverLost(Note(st, p).st, p);
    AckLost(st, p);
  }

  lemma NoteLost(st: State, p: Packet)
    requires Slot(p.typ) >= 0
    ensures Reported(Lost, p.typ) in Note(st, p).calls <==>
            st.onError && st.seen[Slot(p.typ)] && p.counter != Count(st.rx[Slot(p.typ)])
  {
    hide Slot; hide Count;
  }

  lemma AckLost(st: State, p: Packet)
    ensures Reported(Lost, p.typ) !in Ack(st, p.counter).calls
  {
    hide Encode; hide Pack; hide Slot; hide KindOf;
  }

  lemma DeliverLost(st: State, p: Packet)
    requires Slot(p.typ) >= 0
    ensures Reported(Lost, p.typ) !in Deliver(st, p).calls
  {
    AckLost(st, p);
    hide Ack; hide Slot; hide Unpack; hide KindOf;
  }
}
