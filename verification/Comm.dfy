/**
 The link endpoint as the code keeps it: receive buffer and counters updated in
 place. Its methods are proved against Endpoint. The callbacks of the code are
 recorded in `calls`, in the order they are made.
 */
module Comm {
  import opened Bytes
  import Crc16
  import opened Frames
  import opened Codec
  import opened Endpoint
  import E = Endpoint
  import Cursor

  function Appended(before: seq<Call>, r: SendResult): SendResult {
    r.(calls := before + r.calls)
  }

  function Made(before: seq<Call>, o: Outcome): Outcome {
    o.(calls := before + o.calls)
  }

  // Text has variable length, everything else a fixed one.
  method DataOf(typ: byte, m: Message) returns (data: Option<seq<byte>>)
    requires Fits(KindOf(typ), m)
    ensures data == Pack(typ, m)
  {
    hide KindOf; hide PackImu; hide PackGps; hide PackCan; hide U16; hide U32; hide CarriesSamples;
    if KindOf(typ) == TextKind {
      return Some([m.severity, m.source] + m.text);
    }
    data := Cursor.PackData(typ, m);
  }

  class Comm {
    const txCounter: array<byte>
    const rxCounter: array<byte>
    const rxSeen: array<bool>
    const handler: array<bool>
    var onError: bool
    var heap: bool
    const rxBuf: array<byte>
    var rxPos: nat
    var calls: seq<Call>

    ghost const Repr: set<object>

    // The buffer may be full only while a byte is being taken in.
    ghost predicate Shaped()
      reads this, Repr
    {
      && Repr == {txCounter, rxCounter, rxSeen, handler, rxBuf}
      && txCounter != rxCounter && txCounter != rxBuf && rxCounter != rxBuf && rxSeen != handler
      && {txCounter as object, rxCounter, rxBuf} !! {rxSeen as object, handler}
      && txCounter.Length == rxCounter.Length == rxSeen.Length == handler.Length == TYPE_COUNT
      && rxBuf.Length == FRAME_MAX
      && rxPos <= FRAME_MAX
    }

    ghost predicate Valid()
      reads this, Repr
    {
      Shaped() && Judge(Buffer()).Wait?
    }

    ghost function Buffer(): seq<byte>
      requires Shaped()
      reads this, Repr
    {
      rxBuf[..rxPos]
    }

    ghost function State(): E.State
      requires Shaped()
      reads this, Repr
    {
      E.State.State(txCounter[..], rxCounter[..], rxSeen[..], handler[..], onError, heap)
    }

    constructor ()
      ensures Valid() && fresh(Repr)
      ensures Buffer() == [] && calls == []
      ensures State() == E.State.State(seq(TYPE_COUNT, _ => 0), seq(TYPE_COUNT, _ => 0), seq(TYPE_COUNT, _ => false),
                                        seq(TYPE_COUNT, _ => false), false, true)
    {
      txCounter := new byte[TYPE_COUNT](_ => 0);
      rxCounter := new byte[TYPE_COUNT](_ => 0);
      rxSeen := new bool[TYPE_COUNT](_ => false);
      handler := new bool[TYPE_COUNT](_ => false);
      onError := false;
      heap := true;
      rxBuf := new byte[FRAME_MAX](_ => 0);
      rxPos := 0;
      calls := [];
      Repr := {txCounter, rxCounter, rxSeen, handler, rxBuf};
      new;
      assert Buffer() == [];
      assert txCounter[..] == seq(TYPE_COUNT, _ => 0);
      assert rxCounter[..] == seq(TYPE_COUNT, _ => 0);
      assert rxSeen[..] == seq(TYPE_COUNT, _ => false);
      assert handler[..] == seq(TYPE_COUNT, _ => false);
    }

    // ---- Sending ----

    method SendFrame(typ: byte, counter: byte, data: seq<byte>) returns (ok: bool)
      requires Shaped()
      modifies this`calls
      ensures ok == (|data| <= DATA_MAX && heap)
      ensures calls == old(calls) + if ok then [Sent(Encode(Packet(typ, counter, data)))] else []
    {
      hide Encode;
      if |data| > DATA_MAX || !heap {
        return false;
      }
      var frame := BuildFrame(typ, counter, data);
      calls := calls + [Sent(frame[..])];
      return true;
    }

    // The counter the message was sent with, -1 on error.
    method Send(typ: byte, m: Message) returns (rc: int)
      requires Shaped() && Fits(KindOf(typ), m)
      modifies this`calls, txCounter
      ensures Shaped() && Buffer() == old(Buffer())
      ensures SendResult(rc, State(), calls) == Appended(old(calls), E.Send(old(State()), typ, m))
    {
      hide Encode; hide Pack; hide Slot; hide Count; hide Val; hide Fits; hide KindOf; hide Judge;
      var i := Slot(typ);
      if i < 0 {
        return -1;
      }
      var data := DataOf(typ, m);
      if data.None? {
        return -1;
      }
      var counter := txCounter[i];
      var ok := SendFrame(typ, counter, data.value);
      if !ok {
        return -1;
      }
      txCounter[i] := Count(txCounter[i]);
      assert txCounter[..] == old(txCounter[..])[i := Count(counter)];
      return Val(counter);
    }

    // A log line sent for the first time, and the same line sent again.
    method SendText(severity: byte, source: byte, text: seq<byte>) returns (rc: int)
      requires Shaped()
      modifies this`calls, txCounter
      ensures Shaped() && Buffer() == old(Buffer())
      ensures SendResult(rc, State(), calls) ==
              Appended(old(calls), E.Send(old(State()), 0x06, Text(severity, source, text)))
    {
      hide Encode; hide Count; hide Val; hide Judge;
      TextPacks(old(State()), severity, source, text);
      var counter := txCounter[TEXT_SLOT];
      var ok := VSendText(counter, severity, source, text);
      if !ok {
        return -1;
      }
      txCounter[TEXT_SLOT] := Count(txCounter[TEXT_SLOT]);
      assert txCounter[..] == old(txCounter[..])[TEXT_SLOT := Count(counter)];
      return Val(counter);
    }

    method ResendText(counter: byte, severity: byte, source: byte, text: seq<byte>) returns (rc: int)
      requires Shaped()
      modifies this`calls
      ensures Shaped() && Buffer() == old(Buffer())
      ensures SendResult(rc, State(), calls) ==
              Appended(old(calls), E.Resend(old(State()), counter, severity, source, text))
    {
      hide Encode; hide Judge;
      var ok := VSendText(counter, severity, source, text);
      return if ok then 0 else -1;
    }

    method VSendText(counter: byte, severity: byte, source: byte, text: seq<byte>) returns (ok: bool)
      requires Shaped()
      modifies this`calls
      ensures ok == (Sendable(TextPacket(counter, severity, source, text)) && heap)
      ensures calls == old(calls) + if ok then [Sent(Encode(TextPacket(counter, severity, source, text)))] else []
    {
      hide Encode;
      if |text| + 2 > DATA_MAX || !heap {
        return false;
      }
      ok := SendFrame(0x06, counter, [severity, source] + text);
    }

    // ---- Receiving ----

    method Report(error: Error, typ: byte)
      requires Shaped()
      modifies this`calls
      ensures calls == old(calls) + E.Report(old(State()), error, typ)
    {
      if onError {
        calls := calls + [Reported(error, typ)];
      }
    }

    method SendTextAck(counter: byte)
      requires Shaped()
      modifies this`calls, txCounter
      ensures Shaped() && Buffer() == old(Buffer())
      ensures var r := E.Ack(old(State()), counter);
              State() == r.st && calls == old(calls) + r.calls
    {
      hide E.Send; hide Judge;
      var rc := Send(0x84, TextAck(counter));
    }

    method HandleFrame(typ: byte, counter: byte, data: seq<byte>)
      requires Shaped()
      modifies this`calls, txCounter, rxCounter, rxSeen
      ensures Shaped() && Buffer() == old(Buffer())
      ensures Outcome(State(), calls) == Made(old(calls), Handle(old(State()), Packet(typ, counter, data)))
    {
      hide E.Deliver; hide Slot; hide KindOf; hide Ack; hide Count; hide Judge; hide E.Report;
      var i := Slot(typ);
      if i < 0 {
        Report(Type, typ);
        return;
      }

      // A resent text keeps its counter: confirm again, don't deliver twice
      if typ == 0x06 && rxSeen[i] && counter == rxCounter[i] {
        SendTextAck(counter);
        return;
      }
      if rxSeen[i] && counter != Count(rxCounter[i]) {
        Report(Lost, typ);
      }
      rxCounter[i] := counter;
      rxSeen[i] := true;
      ghost var noted := Note(old(State()), Packet(typ, counter, data));
      assert rxCounter[..] == noted.st.rx && rxSeen[..] == noted.st.seen;
      assert State() == noted.st && calls == old(calls) + noted.calls;
      Deliver(typ, counter, data);
    }

    method Deliver(typ: byte, counter: byte, data: seq<byte>)
      requires Shaped() && Slot(typ) >= 0
      modifies this`calls, txCounter
      ensures Shaped() && Buffer() == old(Buffer())
      ensures Outcome(State(), calls) == Made(old(calls), E.Deliver(old(State()), Packet(typ, counter, data)))
    {
      hide Unpack; hide Slot; hide KindOf; hide Ack; hide Judge; hide E.Report;
      var m := Cursor.UnpackData(typ, data);
      if m.None? {
        Report(Length, typ);
        return;
      }
      if typ == 0x06 {
        SendTextAck(counter);
      }
      if handler[Slot(typ)] {
        calls := calls + [Delivered(typ, m.value)];
      }
    }

    // The first n bytes leave the buffer, the rest moves to its front.
    method Drop(n: nat)
      requires Shaped() && n <= rxPos
      modifies this`rxPos, rxBuf
      ensures Shaped() && Buffer() == old(Buffer())[n..]
      ensures State() == old(State())
    {
      hide Judge;
      ghost var st, buf := State(), rxBuf[..];
      var left := rxPos - n;
      for i := 0 to left
        invariant Shaped() && rxPos == old(rxPos) && State() == st
        invariant rxBuf[..i] == buf[n..n + i]
        invariant rxBuf[i..] == buf[i..]
      {
        assert rxBuf[i + n] == rxBuf[i..][n] == buf[i..][n];
        rxBuf[i] := rxBuf[i + n];
        assert rxBuf[..i + 1] == rxBuf[..i] + [rxBuf[i]];
        assert rxBuf[i + 1..] == rxBuf[i..][1..] == buf[i..][1..];
      }
      rxPos := left;
    }

    ghost function Now(): Received
      requires Shaped()
      reads this, Repr
    {
      Received(State(), calls, Buffer())
    }

    // What has been done and what the buffer will still bring about.
    ghost function Whole(): Received
      requires Shaped()
      reads this, Repr
    {
      Came(calls, Receive(State(), Buffer()))
    }

    // Take every complete frame out of rxBuf
    method Parse()
      requires Shaped()
      modifies this`calls, this`rxPos, txCounter, rxCounter, rxSeen, rxBuf
      ensures Valid()
      ensures Now() == Came(old(calls), Receive(old(State()), old(Buffer())))
    {
      hide Judge; hide Receive;
      var more := true;
      while more
        invariant Shaped() && Whole() == old(Whole())
        invariant !more ==> Judge(Buffer()).Wait?
        decreases more, rxPos
      {
        SkipToMarker();
        more := TakeOne();
      }
      ReceiveStep(State(), Buffer());
      assert calls + [] == calls;
    }

    method SkipToMarker()
      requires Shaped()
      modifies this`rxPos, rxBuf
      ensures Shaped() && Whole() == old(Whole()) && calls == old(calls)
      ensures rxPos > 0 ==> rxBuf[0] == 0xAA
      ensures rxPos <= old(rxPos)
    {
      hide Judge; hide Receive;
      ghost var st, buf := State(), Buffer();
      var skip := 0;
      while skip < rxPos && rxBuf[skip] != 0xAA
        invariant Shaped() && State() == st && Buffer() == buf && rxPos == old(rxPos)
        invariant skip <= |buf| && Receive(st, buf[skip..]) == Receive(st, buf)
      {
        ReceiveStep(st, buf[skip..]);
        JudgeSteps(buf[skip..]);
        assert buf[skip..][1..] == buf[skip + 1..];
        skip := skip + 1;
      }
      if skip > 0 {
        Drop(skip);
        assert rxPos > 0 ==> rxBuf[0] == Buffer()[0] == buf[skip];
      }
    }

    // One frame, or one byte that starts none, leaves the front of the buffer.
    method TakeOne() returns (more: bool)
      requires Shaped() && (rxPos > 0 ==> rxBuf[0] == 0xAA)
      modifies this`calls, this`rxPos, txCounter, rxCounter, rxSeen, rxBuf
      ensures Shaped() && Whole() == old(Whole())
      ensures if more then rxPos < old(rxPos) else Judge(Buffer()).Wait?
    {
      hide Judge; hide Receive; hide LenOf; hide ToU16; hide Crc16.Crc;
      ghost var st, buf := State(), Buffer();
      ReceiveStep(st, buf);
      JudgeSteps(buf);
      if rxPos < 2 {
        return false;
      }
      if rxBuf[1] != 0x55 {
        Drop(1);
        assert Receive(st, buf) == Receive(st, buf[1..]);
        return true;
      }
      if rxPos < HEADER_LEN {
        return false;
      }
      var total := HEADER_LEN + LenOf(rxBuf[2], rxBuf[3]) + CRC_LEN;
      if rxPos < total {
        return false;
      }
      TakeFrame(total);
      return true;
    }

    // A complete frame: its message if the checksum is right, else one byte goes.
    method TakeFrame(total: nat)
      requires Shaped() && HEADER_LEN <= rxPos && rxBuf[0] == 0xAA && rxBuf[1] == 0x55
      requires total == HEADER_LEN + LenOf(rxBuf[2], rxBuf[3]) + CRC_LEN <= rxPos
      modifies this`calls, this`rxPos, txCounter, rxCounter, rxSeen, rxBuf
      ensures Shaped() && Whole() == old(Whole()) && rxPos < old(rxPos)
    {
      hide Judge; hide Receive; hide Handle; hide LenOf; hide ToU16; hide Crc16.Crc; hide E.Report; hide Came;
      ghost var st, buf := State(), Buffer();
      var typ, counter, data := rxBuf[4], rxBuf[5], rxBuf[HEADER_LEN..total - CRC_LEN];
      var want := Crc16.Compute(rxBuf[2..total - CRC_LEN]);
      var got := ToU16(rxBuf[total - 2], rxBuf[total - 1]);
      SliceOfPrefix(rxBuf[..], rxPos, 2, total - CRC_LEN);
      SliceOfPrefix(rxBuf[..], rxPos, HEADER_LEN, total - CRC_LEN);
      assert buf == rxBuf[..][..rxPos];
      FrameReceived(st, buf, total);
      if want != got {
        // Rescan the same bytes starting after this marker
        Report(Crc, typ);
        Drop(1);
        CameAfter(old(calls), E.Report(st, Crc, typ), Receive(st, buf[1..]));
      } else {
        HandleFrame(typ, counter, data);
        Drop(total);
        ghost var h := Handle(st, Packet(typ, counter, data));
        CameAfter(old(calls), h.calls, Receive(h.st, buf[total..]));
      }
    }

    method Read(src: seq<byte>)
      requires Valid()
      modifies this`calls, this`rxPos, txCounter, rxCounter, rxSeen, rxBuf
      ensures Valid()
      ensures Now() == Came(old(calls), Receive(old(State()), old(Buffer()) + src))
    {
      hide Judge; hide Receive;
      ghost var st, before, buf := State(), calls, Buffer();
      ReceiveStep(st, buf);
      assert buf + src[..0] == buf && before + [] == before;
      for i := 0 to |src|
        invariant Valid()
        invariant Now() == Came(before, Receive(st, buf + src[..i]))
      {
        ghost var b := Buffer();
        ghost var so := Receive(st, buf + src[..i]);
        rxBuf[rxPos] := src[i];
        rxPos := rxPos + 1;
        assert Buffer() == b + [src[i]];
        // A frame is at most FRAME_MAX, Parse keeps rxPos below that
        Parse();
        ReadByte(before, st, buf + src[..i], src[i]);
        assert buf + src[..i] + [src[i]] == buf + src[..i + 1];
      }
      assert src[..|src|] == src;
    }
  }

  function Came(before: seq<Call>, r: Received): Received {
    r.(calls := before + r.calls)
  }

  lemma SliceOfPrefix(s: seq<byte>, n: nat, i: nat, j: nat)
    requires i <= j <= n <= |s|
    ensures s[..n][i..j] == s[i..j]
  {}

  lemma CameAfter(before: seq<Call>, out: seq<Call>, r: Received)
    ensures Came(before, After(out, r)) == Came(before + out, r)
  {
    assert before + (out + r.calls) == before + out + r.calls;
  }

  lemma ReadByte(before: seq<Call>, st: E.State, bytes: seq<byte>, x: byte)
    ensures var so := Receive(st, bytes);
            Came(before, Receive(st, bytes + [x])) == Came(before + so.calls, Receive(so.st, so.rest + [x]))
  {
    ReceiveResumes(st, bytes, [x]);
    hide Receive;
    var so := Receive(st, bytes);
    var next := Receive(so.st, so.rest + [x]);
    assert before + so.calls + next.calls == before + (so.calls + next.calls);
  }

  // What a complete frame at the front brings about.
  lemma FrameReceived(st: E.State, buf: seq<byte>, total: nat)
    requires |buf| >= HEADER_LEN && buf[0] == 0xAA && buf[1] == 0x55
    requires total == HEADER_LEN + LenOf(buf[2], buf[3]) + CRC_LEN <= |buf|
    ensures Receive(st, buf) ==
            if Crc16.Crc(buf[2..total - CRC_LEN]) != ToU16(buf[total - 2], buf[total - 1])
            then After(E.Report(st, Crc, buf[4]), Receive(st, buf[1..]))
            else
              var h := Handle(st, Packet(buf[4], buf[5], buf[HEADER_LEN..total - CRC_LEN]));
              After(h.calls, Receive(h.st, buf[total..]))
  {
    ReceiveStep(st, buf);
    JudgeSteps(buf);
    hide Judge; hide Receive; hide Handle; hide E.Report;
  }

  // The buffer tests of the loop, one after the other.
  lemma JudgeSteps(buf: seq<byte>)
    ensures buf == [] ==> Judge(buf) == Wait
    ensures buf != [] && buf[0] != 0xAA ==> Judge(buf) == Skip
    ensures |buf| == 1 && buf[0] == 0xAA ==> Judge(buf) == Wait
    ensures |buf| >= 2 && buf[0] == 0xAA && buf[1] != 0x55 ==> Judge(buf) == Skip
    ensures 2 <= |buf| < HEADER_LEN && buf[0] == 0xAA && buf[1] == 0x55 ==> Judge(buf) == Wait
    ensures |buf| >= HEADER_LEN && buf[0] == 0xAA && buf[1] == 0x55 ==>
              var total := HEADER_LEN + LenOf(buf[2], buf[3]) + CRC_LEN;
              Judge(buf) == if |buf| < total then Wait
                            else if Crc16.Crc(buf[2..total - CRC_LEN]) != ToU16(buf[total - 2], buf[total - 1])
                            then Bad(buf[4])
                            else Good(Packet(buf[4], buf[5], buf[HEADER_LEN..total - CRC_LEN]), total)
  {
    hide LenOf; hide ToU16; hide Crc16.Crc;
  }

  // Marker, length, type, counter, data, then the checksum of all but the marker.
  method BuildFrame(typ: byte, counter: byte, data: seq<byte>) returns (frame: array<byte>)
    requires |data| <= DATA_MAX
    ensures fresh(frame) && frame[..] == Encode(Packet(typ, counter, data))
  {
    hide Crc16.Crc; hide LenOf; hide LenBytes; hide U16; hide Encode;
    var n := |data|;
    var total := HEADER_LEN + n + CRC_LEN;
    frame := new byte[total];
    var len := LenBytes(n);
    frame[0], frame[1] := 0xAA, 0x55;
    frame[2], frame[3] := len[0], len[1];
    frame[4], frame[5] := typ, counter;
    assert frame[..HEADER_LEN] == [0xAA, 0x55] + (len + [typ, counter]);
    Put(frame, HEADER_LEN, data);
    ghost var built := frame[..HEADER_LEN + n];
    EncodeParts(typ, counter, data);
    assert frame[2..total - CRC_LEN] == built[2..];
    var crc := Crc16.Compute(frame[2..total - CRC_LEN]);
    Put(frame, total - CRC_LEN, U16(crc));
    assert frame[..] == frame[..total];
  }

  // A frame is the head and the data, and the checksum of all but the marker.
  lemma EncodeParts(typ: byte, counter: byte, data: seq<byte>)
    requires |data| <= DATA_MAX
    ensures var built := [0xAA, 0x55] + (LenBytes(|data|) + [typ, counter]) + data;
            Encode(Packet(typ, counter, data)) == built + U16(Crc16.Crc(built[2..]))
  {
    hide Crc16.Crc; hide LenBytes; hide U16;
    var p := Packet(typ, counter, data);
    var built := [0xAA, 0x55] + (LenBytes(|data|) + [typ, counter]) + data;
    assert built == [0xAA, 0x55] + Covered(p);
    assert built[2..] == Covered(p);
  }
}
