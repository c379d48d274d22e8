/**
 From one endpoint's sends to the other's deliveries: any sequence of messages
 of any types, through counter wrap-around.
 */
module Link {
  import opened Bytes
  import opened Frames
  import opened Codec
  import opened Endpoint

  datatype Item = Item(typ: byte, message: Message)

  // What comm_send accepts: a known type with its structure, a CAN length of at
  // most 8, a text of at most DATA_MAX - 2 bytes.
  predicate Accepted(item: Item) {
    && Slot(item.typ) >= 0
    && Fits(KindOf(item.typ), item.message)
    && Pack(item.typ, item.message).Some?
    && |Pack(item.typ, item.message).value| <= DATA_MAX
  }

  // The packet a message becomes, and the sender after it.
  function PacketOf(st: State, item: Item): (p: Packet)
    requires Accepted(item)
    ensures Sendable(p)
  {
    hide Pack; hide Fits; hide KindOf;
    Packet(item.typ, st.tx[Slot(item.typ)], Pack(item.typ, item.message).value)
  }

  function Counted(st: State, typ: byte): State
    requires Slot(typ) >= 0
  {
    var i := Slot(typ);
    st.(tx := st.tx[i := Count(st.tx[i])])
  }

  lemma SendIs(st: State, item: Item)
    requires Accepted(item) && st.heap
    ensures Send(st, item.typ, item.message) ==
            SendResult(Val(st.tx[Slot(item.typ)]), Counted(st, item.typ), [Sent(Encode(PacketOf(st, item)))])
  {
    hide Pack; hide Fits; hide KindOf; hide Slot; hide Count; hide Val; hide Encode;
  }

  function SendAll(st: State, items: seq<Item>): (r: (State, seq<Packet>))
    requires forall it :: it in items ==> Accepted(it)
    ensures forall p :: p in r.1 ==> Sendable(p)
    decreases |items|
  {
    hide Accepted; hide Sendable; hide PacketOf; hide Counted; hide Slot;
    if items == [] then (st, [])
    else
      assert items[0] in items;
      AcceptedSlot(items[0]);
      var more := SendAll(Counted(st, items[0].typ), items[1..]);
      (more.0, [PacketOf(st, items[0])] + more.1)
  }

  lemma AcceptedSlot(item: Item)
    requires Accepted(item)
    ensures Slot(item.typ) >= 0
  {
    hide Pack; hide Fits; hide KindOf; hide Slot;
  }

  function Arrivals(calls: seq<Call>): seq<Call> {
    if calls == [] then []
    else if calls[0].Delivered? then [calls[0]] + Arrivals(calls[1..])
    else Arrivals(calls[1..])
  }

  function Reports(calls: seq<Call>): seq<Call> {
    if calls == [] then []
    else if calls[0].Reported? then [calls[0]] + Reports(calls[1..])
    else Reports(calls[1..])
  }

  function Expected(items: seq<Item>): seq<Call> {
    if items == [] then []
    else [Delivered(items[0].typ, Normal(items[0].message))] + Expected(items[1..])
  }

  // Every type the receiver has seen continues where the sender is.
  ghost predicate InStep(a: State, b: State) {
    forall i :: 0 <= i < TYPE_COUNT && b.seen[i] ==> a.tx[i] == Count(b.rx[i])
  }

  predicate AllHandled(b: State) {
    b.heap && forall i :: 0 <= i < TYPE_COUNT ==> b.handled[i]
  }

  lemma CountMoves(c: byte)
    ensures Count(c) != c
  {}

  lemma {:induction false} ArrivalsSplit(x: seq<Call>, y: seq<Call>)
    ensures Arrivals(x + y) == Arrivals(x) + Arrivals(y)
    decreases |x|
  {
    if x == [] {
      assert x + y == y;
    } else {
      assert (x + y)[1..] == x[1..] + y;
      ArrivalsSplit(x[1..], y);
    }
  }

  lemma {:induction false} ReportsSplit(x: seq<Call>, y: seq<Call>)
    ensures Reports(x + y) == Reports(x) + Reports(y)
    decreases |x|
  {
    if x == [] {
      assert x + y == y;
    } else {
      assert (x + y)[1..] == x[1..] + y;
      ReportsSplit(x[1..], y);
    }
  }

  // The calls deliver exactly `d` and report nothing.
  predicate Quiet(calls: seq<Call>, d: seq<Call>) {
    Arrivals(calls) == d && Reports(calls) == []
  }

  lemma QuietSplit(x: seq<Call>, d: seq<Call>, y: seq<Call>, e: seq<Call>)
    requires Quiet(x, d) && Quiet(y, e)
    ensures Quiet(x + y, d + e)
  {
    ArrivalsSplit(x, y);
    ReportsSplit(x, y);
    hide Arrivals; hide Reports;
  }

  lemma QuietDelivery(typ: byte, m: Message)
    ensures Quiet([Delivered(typ, m)], [Delivered(typ, m)])
  {}

  lemma QuietSend(frame: seq<byte>)
    ensures Quiet([Sent(frame)], [])
  {}

  lemma AckAccepted(counter: byte)
    ensures Accepted(Item(0x84, TextAck(counter)))
    ensures Slot(0x84) == ACK_SLOT
  {}

  // A text that arrives is confirmed with its counter.
  lemma AckIs(b: State, counter: byte)
    requires b.heap
    ensures var item := Item(0x84, TextAck(counter));
            Accepted(item) && Slot(0x84) == ACK_SLOT &&
            Ack(b, counter) == SendResult(Val(b.tx[ACK_SLOT]), Counted(b, 0x84), [Sent(Encode(PacketOf(b, item)))])
  {
    AckAccepted(counter);
    hide PacketOf; hide Counted; hide Encode; hide Send; hide Val; hide Accepted; hide Slot; hide KindOf; hide Fits;
    SendIs(b, Item(0x84, TextAck(counter)));
  }

  // Confirming a text sends one frame and moves no counter but that of its type.
  lemma AckOk(b: State, counter: byte)
    requires b.heap
    ensures Quiet(Ack(b, counter).calls, []) && Ack(b, counter).st.(tx := b.tx) == b
  {
    AckIs(b, counter);
    hide Ack; hide Slot; hide Encode; hide PacketOf; hide Accepted; hide Val; hide Quiet;
    QuietSend(Encode(PacketOf(b, Item(0x84, TextAck(counter)))));
  }

  lemma DeliverOk(b: State, p: Packet, m: Message)
    requires AllHandled(b) && Slot(p.typ) >= 0 && Unpack(p.typ, p.data) == Some(m)
    ensures Quiet(Deliver(b, p).calls, [Delivered(p.typ, m)])
    ensures Deliver(b, p).st.(tx := b.tx) == b
  {
    hide Ack; hide Unpack; hide Slot; hide Quiet;
    var d := [Delivered(p.typ, m)];
    AckOk(b, p.counter);
    QuietDelivery(p.typ, m);
    QuietSplit(Ack(b, p.counter).calls, [], d, d);
    assert [] + d == d;
  }

  lemma NoteOk(a: State, b: State, p: Packet)
    requires AllHandled(b) && Slot(p.typ) >= 0
    requires InStep(a, b) && p.counter == a.tx[Slot(p.typ)]
    ensures !IsRepeat(b, p)
    ensures Note(b, p).calls == []
    ensures AllHandled(Note(b, p).st) && InStep(Counted(a, p.typ), Note(b, p).st)
    ensures Note(b, p).st.seen[Slot(p.typ)] && Note(b, p).st.rx[Slot(p.typ)] == p.counter
  {
    CountMoves(b.rx[Slot(p.typ)]);
    hide Slot; hide Count; hide KindOf;
  }

  lemma HandleOk(a: State, b: State, p: Packet, m: Message)
    requires AllHandled(b) && Slot(p.typ) >= 0 && Unpack(p.typ, p.data) == Some(m)
    requires InStep(a, b) && p.counter == a.tx[Slot(p.typ)]
    ensures Quiet(Handle(b, p).calls, [Delivered(p.typ, m)])
    ensures AllHandled(Handle(b, p).st) && InStep(Counted(a, p.typ), Handle(b, p).st)
  {
    NoteOk(a, b, p);
    var noted := Note(b, p);
    DeliverOk(noted.st, p, m);
    hide Deliver; hide Note; hide Unpack; hide Slot; hide Counted; hide KindOf; hide IsRepeat; hide Quiet;
    var d := Deliver(noted.st, p);
    assert [] + d.calls == d.calls;
    assert d.st.rx == noted.st.rx && d.st.seen == noted.st.seen && d.st.handled == noted.st.handled;
  }

  lemma AcceptedUnpacks(st: State, item: Item)
    requires Accepted(item)
    ensures Slot(item.typ) >= 0
    ensures var p := PacketOf(st, item);
            p.typ == item.typ && p.counter == st.tx[Slot(p.typ)] &&
            Unpack(p.typ, p.data) == Some(Normal(item.message))
  {
    hide KindOf; hide Fits; hide Pack; hide Slot; hide Normal; hide Unpack;
    PackUnpack(item.typ, item.message);
  }

  // Any messages, in any mix of types: the receiver's handlers are called with
  // exactly those messages in order, no error is reported, no byte is left over,
  // and the counters agree again.
  lemma {:induction false} EndToEnd(a: State, b: State, items: seq<Item>)
    requires AllHandled(b) && InStep(a, b)
    requires forall it :: it in items ==> Accepted(it)
    ensures var sent := SendAll(a, items);
            var r := Receive(b, Wire(sent.1));
            Quiet(r.calls, Expected(items)) && r.rest == [] &&
            AllHandled(r.st) && InStep(sent.0, r.st)
    decreases |items|
  {
    hide Encode; hide Wire; hide Scan; hide Handle; hide Slot; hide Unpack; hide Accepted; hide Normal; hide KindOf;
    hide AllHandled; hide InStep; hide PacketOf; hide Counted; hide Quiet; hide Sendable;
    var sent := SendAll(a, items);
    ScanWire(sent.1);
    if items == [] {
      assert Gots(sent.1) == [];
      QuietNothing();
    } else {
      var it := items[0];
      assert it in items;
      AcceptedUnpacks(a, it);
      var p := PacketOf(a, it);
      HandleOk(a, b, p, Normal(it.message));
      var h := Handle(b, p);
      var a2 := Counted(a, it.typ);
      EndToEnd(a2, h.st, items[1..]);
      var tail := SendAll(a2, items[1..]).1;
      ScanWire(tail);
      assert sent.1 == [p] + tail;
      assert Gots(sent.1)[0] == Got(p) && Gots(sent.1)[1..] == Gots(tail);
      QuietSplit(h.calls, [Delivered(it.typ, Normal(it.message))],
                 Run(h.st, Gots(tail)).calls, Expected(items[1..]));
    }
  }

  lemma QuietNothing()
    ensures Quiet([], [])
  {}

  // A freshly opened pair.
  function Fresh(handled: bool): State {
    State(seq(TYPE_COUNT, _ => 0), seq(TYPE_COUNT, _ => 0), seq(TYPE_COUNT, _ => false),
          seq(TYPE_COUNT, _ => handled), true, true)
  }

  lemma FreshEndToEnd(items: seq<Item>)
    requires forall it :: it in items ==> Accepted(it)
    ensures var r := Receive(Fresh(true), Wire(SendAll(Fresh(false), items).1));
            Arrivals(r.calls) == Expected(items) && Reports(r.calls) == [] && r.rest == []
  {
    hide Receive; hide SendAll; hide Wire; hide Arrivals; hide Reports; hide Expected; hide Accepted; hide Sendable;
    EndToEnd(Fresh(false), Fresh(true), items);
  }

  // ---- What can be sent, and what arrives unchanged ----

  // Every message of its type can be sent, but for a CAN frame of over eight bytes and a
  // text of over 65533.
  lemma AcceptedIff(item: Item)
    requires KindOf(item.typ) != Unknown && Fits(KindOf(item.typ), item.message)
    ensures Accepted(item) <==>
            (item.message.Can? ==> Val(item.message.frame.dlc) <= 8) &&
            (item.message.Text? ==> |item.message.text| <= 65533)
  {
    hide PackImu; hide PackGps; hide U16; hide U32; hide Val; hide Slot; hide KindOf; hide Flags;
  }

  function AsSent(items: seq<Item>): (calls: seq<Call>)
    ensures |calls| == |items|
    ensures forall i :: 0 <= i < |items| ==> calls[i] == Delivered(items[i].typ, items[i].message)
  {
    seq(|items|, i requires 0 <= i < |items| => Delivered(items[i].typ, items[i].message))
  }

  lemma {:induction false} ExpectedAsSent(items: seq<Item>)
    requires forall it :: it in items ==> Plain(it.message)
    ensures Expected(items) == AsSent(items)
    decreases |items|
  {
    hide Plain; hide Normal;
    if items != [] {
      assert items[0] in items;
      PlainIff(items[0].message);
      ExpectedAsSent(items[1..]);
    }
  }

  // Such messages arrive exactly as they were sent.
  lemma ArrivesAsSent(a: State, b: State, items: seq<Item>)
    requires AllHandled(b) && InStep(a, b)
    requires forall it :: it in items ==> Accepted(it) && Plain(it.message)
    ensures Arrivals(Receive(b, Wire(SendAll(a, items).1)).calls) == AsSent(items)
  {
    hide Receive; hide SendAll; hide Wire; hide Arrivals; hide Reports; hide Expected; hide Accepted; hide Sendable;
    hide AllHandled; hide InStep; hide Plain; hide AsSent;
    EndToEnd(a, b, items);
    ExpectedAsSent(items);
  }

  // A gyro calibration is carried out with the number of samples that was asked for.
  lemma GyroCalArrives(a: State, b: State, n: bv16)
    requires AllHandled(b) && InStep(a, b)
    ensures var item := Item(0x81, Command(3, n));
            Accepted(item) &&
            Arrivals(Receive(b, Wire(SendAll(a, [item]).1)).calls) == [Delivered(0x81, Command(3, n))]
  {
    hide Receive; hide SendAll; hide Wire; hide Arrivals; hide Accepted; hide Sendable; hide AllHandled; hide InStep;
    var item := Item(0x81, Command(3, n));
    AcceptedIff(item);
    ArrivesAsSent(a, b, [item]);
    assert AsSent([item]) == [Delivered(0x81, Command(3, n))];
  }
}
