/**
 What an endpoint does with whatever arrives, read off type, counter and data: which
 errors it reports, what it confirms and what it hands over.
 */
module Reactions {
  import opened Bytes
  import opened Frames
  import opened Codec
  import opened Endpoint

  // ---- Types and lengths ----

  predicate Known(typ: byte) {
    0x01 <= typ <= 0x07 || 0x81 <= typ <= 0x84
  }

  // Data that is no message of its type.
  predicate WrongLength(typ: byte, data: seq<byte>) {
    if typ == 0x01 || typ == 0x02 || typ == 0x03 then |data| != 84
    else if typ == 0x04 then |data| != 30
    else if typ == 0x05 || typ == 0x82 then |data| < 6 || Val(data[5]) > 8 || |data| != 6 + Val(data[5])
    else if typ == 0x06 then |data| < 2
    else if typ == 0x07 then |data| != 6
    else if typ == 0x81 then |data| != 1 && |data| != 3
    else if typ == 0x83 then |data| != 5
    else |data| != 1
  }

  lemma KnownIs(typ: byte)
    ensures Slot(typ) >= 0 <==> Known(typ)
  {}

  // Every type has its own counters.
  lemma SlotsDiffer(a: byte, b: byte)
    requires Known(a) && Known(b) && a != b
    ensures Slot(a) != Slot(b)
  {}

  lemma LengthIs(typ: byte, data: seq<byte>)
    requires Known(typ)
    ensures KindOf(typ) != Unknown && (Unpack(typ, data).None? <==> WrongLength(typ, data))
  {
    hide ToU16; hide ToU32; hide ToU64; hide ReadWords; hide Val; hide HasExt; hide HasRtr;
  }

  // ---- One frame ----

  // A text that has the counter of the last one.
  predicate Again(st: State, p: Packet) {
    p.typ == 0x06 && st.seen[TEXT_SLOT] && p.counter == st.rx[TEXT_SLOT]
  }

  // Not the message after the last one of its type.
  predicate Gap(st: State, p: Packet)
    requires Known(p.typ)
  {
    KnownIs(p.typ);
    var i := Slot(p.typ);
    st.seen[i] && Val(p.counter) != (Val(st.rx[i]) + 1) % 256
  }

  function Only(on: bool, c: Call): seq<Call> {
    if on then [c] else []
  }

  // The confirmation of a text.
  function Confirmation(st: State, counter: byte): Call {
    Sent(Encode(Packet(0x84, st.tx[ACK_SLOT], [counter])))
  }

  // Once confirmed, the confirmations' counter has moved on.
  function Confirmed(st: State): State {
    if st.heap then st.(tx := st.tx[ACK_SLOT := st.tx[ACK_SLOT] + 1]) else st
  }

  // The counter of the message is noted for its type, and for no other.
  function Noted(st: State, p: Packet): State
    requires Known(p.typ)
  {
    KnownIs(p.typ);
    var i := Slot(p.typ);
    st.(rx := st.rx[i := p.counter], seen := st.seen[i := true])
  }

  lemma AckIs(st: State, counter: byte)
    ensures Ack(st, counter).st == Confirmed(st)
    ensures Ack(st, counter).calls == Only(st.heap, Confirmation(st, counter))
  {
    assert Pack(0x84, TextAck(counter)) == Some([counter]);
    hide Encode; hide Val; hide Pack;
  }

  lemma NoteIs(st: State, p: Packet)
    requires Known(p.typ)
    ensures Slot(p.typ) >= 0
    ensures Note(st, p) == Outcome(Noted(st, p), Only(Gap(st, p) && st.onError, Reported(Lost, p.typ)))
  {
    KnownIs(p.typ);
    NotNext(st.rx[Slot(p.typ)], p.counter);
    hide Slot; hide Count; hide Val;
  }

  lemma NotNext(last: byte, counter: byte)
    ensures counter != Count(last) <==> Val(counter) != (Val(last) + 1) % 256
  {
    CountVal(last);
    hide Val; hide Count;
    if Val(counter) == Val(Count(last)) { ValInjective(counter, Count(last)); }
  }

  // A type outside the eleven is reported, and nothing else happens.
  lemma UnknownReported(st: State, p: Packet)
    requires !Known(p.typ)
    ensures Handle(st, p) == Outcome(st, Only(st.onError, Reported(Type, p.typ)))
  {
    KnownIs(p.typ);
    hide Slot; hide Note; hide Deliver; hide IsRepeat; hide Ack;
  }

  // A text that comes again is confirmed again and not handed over again.
  lemma RepeatConfirmed(st: State, p: Packet)
    requires Again(st, p)
    ensures Handle(st, p) == Outcome(Confirmed(st), Only(st.heap, Confirmation(st, p.counter)))
  {
    AckIs(st, p.counter);
    hide Ack; hide Note; hide Deliver; hide Encode; hide Confirmation;
  }

  // Any other message counts, and a gap before it is reported. Data of a wrong length
  // is reported after that, and neither confirmed nor handed over.
  lemma LengthReported(st: State, p: Packet)
    requires Known(p.typ) && !Again(st, p) && WrongLength(p.typ, p.data)
    ensures Handle(st, p) ==
            Outcome(Noted(st, p), Only(Gap(st, p) && st.onError, Reported(Lost, p.typ)) +
                                  Only(st.onError, Reported(Length, p.typ)))
  {
    AgainIs(st, p);
    NoteIs(st, p);
    LengthIs(p.typ, p.data);
    hide Slot; hide Note; hide Ack; hide IsRepeat; hide Unpack; hide WrongLength; hide Again; hide KindOf;
  }

  // A message is handed over, if anyone asked for its type, and a text is confirmed
  // before that.
  lemma MessageHandled(st: State, p: Packet)
    requires Known(p.typ) && !Again(st, p) && !WrongLength(p.typ, p.data)
    ensures KindOf(p.typ) != Unknown && Unpack(p.typ, p.data).Some? && Slot(p.typ) >= 0
    ensures var text := p.typ == 0x06;
            Handle(st, p) ==
            Outcome(if text then Confirmed(Noted(st, p)) else Noted(st, p),
                    Only(Gap(st, p) && st.onError, Reported(Lost, p.typ)) +
                    (Only(text && st.heap, Confirmation(st, p.counter)) +
                     Only(st.handled[Slot(p.typ)], Delivered(p.typ, Unpack(p.typ, p.data).value))))
  {
    hide Slot; hide Note; hide Deliver; hide Ack; hide Unpack; hide WrongLength; hide Again; hide KindOf;
    hide Confirmation; hide Gap; hide Noted; hide Confirmed; hide IsRepeat;
    AgainIs(st, p);
    NoteIs(st, p);
    LengthIs(p.typ, p.data);
    NotedKeeps(st, p);
    DeliverIs(Noted(st, p), p);
  }

  lemma DeliverIs(st: State, p: Packet)
    requires Known(p.typ) && KindOf(p.typ) != Unknown && Slot(p.typ) >= 0 && Unpack(p.typ, p.data).Some?
    ensures var text := p.typ == 0x06;
            Deliver(st, p) ==
            Outcome(if text then Confirmed(st) else st,
                    Only(text && st.heap, Confirmation(st, p.counter)) +
                    Only(st.handled[Slot(p.typ)], Delivered(p.typ, Unpack(p.typ, p.data).value)))
  {
    hide Ack; hide Unpack; hide KindOf; hide Slot; hide Confirmation; hide Confirmed;
    AckIs(st, p.counter);
  }

  lemma NotedKeeps(st: State, p: Packet)
    requires Known(p.typ)
    ensures Noted(st, p).heap == st.heap && Noted(st, p).handled == st.handled && Noted(st, p).onError == st.onError
    ensures Confirmation(Noted(st, p), p.counter) == Confirmation(st, p.counter)
  {
    hide Encode; hide Slot;
  }

  lemma AgainIs(st: State, p: Packet)
    requires Known(p.typ)
    ensures Slot(p.typ) >= 0 && IsRepeat(st, p) == Again(st, p)
  {
    KnownIs(p.typ);
  }

  // ---- Whole streams ----

  // The types of the checksum errors reported, and of those found.
  function CrcReports(calls: seq<Call>): seq<byte> {
    if calls == [] then []
    else if calls[0].Reported? && calls[0].error.Crc? then [calls[0].typ] + CrcReports(calls[1..])
    else CrcReports(calls[1..])
  }

  function Damaged(events: seq<Event>): seq<byte> {
    if events == [] then []
    else if events[0].Corrupt? then [events[0].typ] + Damaged(events[1..])
    else Damaged(events[1..])
  }

  predicate Silent(calls: seq<Call>) {
    forall c :: c in calls ==> !c.Reported?
  }

  lemma {:induction false} CrcReportsSplit(x: seq<Call>, y: seq<Call>)
    ensures CrcReports(x + y) == CrcReports(x) + CrcReports(y)
    decreases |x|
  {
    if x == [] {
      assert x + y == y;
    } else {
      assert (x + y)[1..] == x[1..] + y;
      CrcReportsSplit(x[1..], y);
    }
  }

  // Only with an error handler is anything reported, and no checksum error.
  predicate Tame(calls: seq<Call>, on: bool) {
    forall c :: c in calls && c.Reported? ==> on && !c.error.Crc?
  }

  lemma {:induction false} TameReports(calls: seq<Call>, on: bool)
    requires Tame(calls, on)
    ensures CrcReports(calls) == [] && (!on ==> Silent(calls))
    decreases |calls|
  {
    if calls != [] {
      assert calls[0] in calls;
      assert forall c :: c in calls[1..] ==> c in calls;
      TameReports(calls[1..], on);
    }
  }

  lemma TameOnly(has: bool, c: Call, on: bool)
    requires has && c.Reported? ==> on && !c.error.Crc?
    ensures Tame(Only(has, c), on)
  {}

  lemma TameBoth(x: seq<Call>, y: seq<Call>, on: bool)
    requires Tame(x, on) && Tame(y, on)
    ensures Tame(x + y, on)
  {}

  // A frame that passed its check reports no checksum error.
  lemma HandleTame(st: State, p: Packet)
    ensures Tame(Handle(st, p).calls, st.onError) && Handle(st, p).st.onError == st.onError
  {
    hide Handle; hide Slot; hide Unpack; hide KindOf; hide Gap; hide WrongLength; hide Again; hide Tame; hide Only;
    hide Confirmation; hide Noted;
    var on := st.onError;
    if !Known(p.typ) {
      UnknownReported(st, p);
      TameOnly(on, Reported(Type, p.typ), on);
    } else if Again(st, p) {
      RepeatConfirmed(st, p);
      ConfirmationIsSent(st, p.counter);
      TameOnly(st.heap, Confirmation(st, p.counter), on);
    } else {
      NotedKeeps(st, p);
      var lost := Only(Gap(st, p) && on, Reported(Lost, p.typ));
      TameOnly(Gap(st, p) && on, Reported(Lost, p.typ), on);
      if WrongLength(p.typ, p.data) {
        LengthReported(st, p);
        TameOnly(on, Reported(Length, p.typ), on);
        TameBoth(lost, Only(on, Reported(Length, p.typ)), on);
      } else {
        MessageHandled(st, p);
        ConfirmationIsSent(st, p.counter);
        var ack := Only(p.typ == 0x06 && st.heap, Confirmation(st, p.counter));
        var given := Only(st.handled[Slot(p.typ)], Delivered(p.typ, Unpack(p.typ, p.data).value));
        TameOnly(p.typ == 0x06 && st.heap, Confirmation(st, p.counter), on);
        TameOnly(st.handled[Slot(p.typ)], Delivered(p.typ, Unpack(p.typ, p.data).value), on);
        TameBoth(ack, given, on);
        TameBoth(lost, ack + given, on);
      }
    }
  }

  lemma ConfirmationIsSent(st: State, counter: byte)
    ensures Confirmation(st, counter).Sent?
  {
    hide Encode;
  }

  lemma {:induction false} RunReports(st: State, events: seq<Event>)
    ensures var calls := Run(st, events).calls;
            && (st.onError ==> CrcReports(calls) == Damaged(events))
            && (!st.onError ==> Silent(calls))
    decreases |events|
  {
    if events == [] {
    } else {
      hide Handle;
      var first := React(st, events[0]);
      if events[0].Got? {
        HandleTame(st, events[0].packet);
        TameReports(first.calls, st.onError);
      }
      if events[0].Corrupt? { CorruptReports(st, events[0]); }
      RunReports(first.st, events[1..]);
      CrcReportsSplit(first.calls, Run(first.st, events[1..]).calls);
    }
  }

  lemma CorruptReports(st: State, e: Event)
    requires e.Corrupt?
    ensures React(st, e) == Outcome(st, Only(st.onError, Reported(Crc, e.typ)))
  {}

  // Whatever arrives: with an error handler the checksum errors reported are exactly
  // the damaged frames found, in order and with their types; without one nothing is
  // reported at all.
  lemma DamageReported(st: State, stream: seq<byte>)
    ensures var calls := Receive(st, stream).calls;
            && (st.onError ==> CrcReports(calls) == Damaged(Scan(stream).events))
            && (!st.onError ==> Silent(calls))
  {
    RunReports(st, Scan(stream).events);
    hide Run; hide Scan;
  }

  lemma HandleKeepsMemory(st: State, p: Packet)
    ensures Handle(st, p).st.heap == st.heap
  {
    hide Handle; hide Slot; hide Unpack; hide KindOf; hide Gap; hide WrongLength; hide Again; hide Only;
    hide Confirmation; hide Noted;
    if !Known(p.typ) {
      UnknownReported(st, p);
    } else if Again(st, p) {
      RepeatConfirmed(st, p);
    } else {
      NotedKeeps(st, p);
      if WrongLength(p.typ, p.data) { LengthReported(st, p); } else { MessageHandled(st, p); }
    }
  }

  lemma {:induction false} RunKeepsMemory(st: State, events: seq<Event>)
    ensures Run(st, events).st.heap == st.heap
    decreases |events|
  {
    hide Handle;
    if events != [] {
      if events[0].Got? { HandleKeepsMemory(st, events[0].packet); }
      RunKeepsMemory(React(st, events[0]).st, events[1..]);
    }
  }

  // Receiving leaves it to others whether there is memory.
  lemma ReceiveKeepsMemory(st: State, stream: seq<byte>)
    ensures Receive(st, stream).st.heap == st.heap
  {
    RunKeepsMemory(st, Scan(stream).events);
    hide Run; hide Scan;
  }
}
