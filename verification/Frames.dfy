/**
 The link's frame format, AA 55 | length | type | counter | data | checksum, and
 the scan that takes frames out of a byte stream.
 */
module Frames {
  import opened Bytes
  import Crc16

  const HEADER_LEN := 6
  const CRC_LEN := 2
  const DATA_MAX := 65535
  const FRAME_MAX := HEADER_LEN + DATA_MAX + CRC_LEN

  datatype Packet = Packet(typ: byte, counter: byte, data: seq<byte>)

  predicate Sendable(p: Packet) {
    |p.data| <= DATA_MAX
  }

  // What the checksum covers.
  function Covered(p: Packet): (b: seq<byte>)
    requires Sendable(p)
    ensures |b| == 4 + |p.data|
  {
    LenBytes(|p.data|) + [p.typ, p.counter] + p.data
  }

  function Encode(p: Packet): (b: seq<byte>)
    requires Sendable(p)
    ensures |b| == HEADER_LEN + |p.data| + CRC_LEN
  {
    [0xAA, 0x55] + Covered(p) + U16(Crc16.Crc(Covered(p)))
  }

  // A frame byte by byte: marker, length, type, counter, data, and the checksum of all
  // but the marker, numbers low byte first.
  lemma FrameBytes(p: Packet)
    requires Sendable(p)
    ensures var f, n := Encode(p), |p.data|;
            && |f| == n + 8 && f[0] == 0xAA && f[1] == 0x55
            && Val(f[2]) == n % 256 && Val(f[3]) == n / 256
            && f[4] == p.typ && f[5] == p.counter && f[6..6 + n] == p.data
            && f[6 + n] == (Crc16.Crc(f[2..6 + n]) % 256) as byte
            && f[7 + n] == (Crc16.Crc(f[2..6 + n]) / 256) as byte
  {
    hide LenBytes; hide Val; hide Crc16.Crc; hide U16;
    var f, n, body := Encode(p), |p.data|, Covered(p);
    LenDigits(n);
    U16Digits(Crc16.Crc(body));
    assert f[2..6 + n] == body && body[4..] == p.data;
    assert f[6..6 + n] == body[4..];
    assert f[2] == body[0] && f[3] == body[1] && f[4] == body[2] && f[5] == body[3];
  }

  // ---- Taking frames out of a stream ----

  // What the first bytes of the receive buffer are.
  datatype Verdict =
    | Wait                           // may still become a frame
    | Skip                           // no frame starts here
    | Bad(typ: byte)                 // a complete frame whose checksum is wrong
    | Good(packet: Packet, total: nat)

  predicate CrcMatches(buf: seq<byte>, total: nat)
    requires HEADER_LEN + CRC_LEN <= total <= |buf|
  {
    Crc16.Crc(buf[2..total - 2]) == ToU16(buf[total - 2], buf[total - 1])
  }

  function FrameLen(buf: seq<byte>): (n: nat)
    requires |buf| >= HEADER_LEN
    ensures HEADER_LEN + CRC_LEN <= n <= FRAME_MAX
  {
    HEADER_LEN + LenOf(buf[2], buf[3]) + CRC_LEN
  }

  function Judge(buf: seq<byte>): (v: Verdict)
    ensures v.Good? ==> HEADER_LEN + CRC_LEN <= v.total <= |buf|
    ensures v.Wait? ==> |buf| < FRAME_MAX
    ensures !v.Wait? ==> buf != []
  {
    if |buf| == 0 then Wait
    else if buf[0] != 0xAA then Skip
    else if |buf| < 2 then Wait
    else if buf[1] != 0x55 then Skip
    else if |buf| < HEADER_LEN then Wait
    else
      var total := FrameLen(buf);
      if |buf| < total then Wait
      else if !CrcMatches(buf, total) then Bad(buf[4])
      else Good(Packet(buf[4], buf[5], buf[HEADER_LEN..total - CRC_LEN]), total)
  }

  datatype Event = Got(packet: Packet) | Corrupt(typ: byte)
  datatype Scanned = Scanned(events: seq<Event>, rest: seq<byte>)

  function Before(e: Event, s: Scanned): Scanned {
    Scanned([e] + s.events, s.rest)
  }

  // The reference: one greedy scan from the left over the whole stream.
  function Scan(buf: seq<byte>): (s: Scanned)
    ensures Judge(s.rest).Wait?
    decreases |buf|
  {
    match Judge(buf)
    case Wait => Scanned([], buf)
    case Skip => Scan(buf[1..])
    case Bad(typ) => Before(Corrupt(typ), Scan(buf[1..]))
    case Good(packet, total) => Before(Got(packet), Scan(buf[total..]))
  }

  // ---- Streaming refines batch ----

  lemma FrameStable(a: seq<byte>, b: seq<byte>)
    requires |a| >= HEADER_LEN
    ensures FrameLen(a + b) == FrameLen(a)
    ensures FrameLen(a) <= |a| ==> CrcMatches(a + b, FrameLen(a)) == CrcMatches(a, FrameLen(a))
  {
    hide Crc16.Crc; hide ToU16; hide LenOf;
    var total := FrameLen(a);
    if total <= |a| {
      assert (a + b)[2..total - 2] == a[2..total - 2];
    }
  }

  lemma JudgeStable(a: seq<byte>, b: seq<byte>)
    requires !Judge(a).Wait?
    ensures Judge(a + b) == Judge(a)
  {
    hide CrcMatches; hide FrameLen;
    if |a| >= HEADER_LEN {
      FrameStable(a, b);
      var total := FrameLen(a);
      if total <= |a| {
        assert (a + b)[HEADER_LEN..total - CRC_LEN] == a[HEADER_LEN..total - CRC_LEN];
      }
    }
  }

  function Then(s: Scanned, t: Scanned): Scanned {
    Scanned(s.events + t.events, t.rest)
  }

  // Scanning in two instalments gives the events and the leftover of one scan.
  lemma {:induction false} ScanResumes(a: seq<byte>, b: seq<byte>)
    ensures Scan(a + b) == Then(Scan(a), Scan(Scan(a).rest + b))
    decreases |a|
  {
    hide Judge;
    var v := Judge(a);
    if v.Wait? {
      var s := Scan(a + b);
      assert [] + s.events == s.events;
    } else {
      JudgeStable(a, b);
      var n := if v.Good? then v.total else 1;
      assert (a + b)[n..] == a[n..] + b;
      ScanResumes(a[n..], b);
      BeforeThen(if v.Good? then Got(v.packet) else if v.Bad? then Corrupt(v.typ) else Corrupt(0),
                 Scan(a[n..]), Scan(Scan(a[n..]).rest + b));
    }
  }

  lemma BeforeThen(e: Event, s: Scanned, t: Scanned)
    ensures Before(e, Then(s, t)) == Then(Before(e, s), t)
  {
    assert [e] + (s.events + t.events) == [e] + s.events + t.events;
  }

  lemma ThenThen(s: Scanned, t: Scanned, u: Scanned)
    ensures Then(s, Then(t, u)) == Then(Then(s, t), u)
  {
    assert s.events + (t.events + u.events) == s.events + t.events + u.events;
  }

  lemma ThenNothing(s: Scanned)
    ensures Then(s, Scanned([], s.rest)) == s
  {}

  lemma NothingThen(s: Scanned, rest: seq<byte>)
    ensures Then(Scanned([], rest), s) == s
  {}

  // The receive buffer's content after a stream that came in chunks.
  function Feed(s: Scanned, chunks: seq<seq<byte>>): Scanned
    decreases |chunks|
  {
    if chunks == [] then s else Feed(Then(s, Scan(s.rest + chunks[0])), chunks[1..])
  }

  function Flatten(chunks: seq<seq<byte>>): seq<byte> {
    if chunks == [] then [] else chunks[0] + Flatten(chunks[1..])
  }

  lemma {:induction false} FeedIsScan(s: Scanned, chunks: seq<seq<byte>>)
    requires Judge(s.rest).Wait?
    ensures Feed(s, chunks) == Then(s, Scan(s.rest + Flatten(chunks)))
    decreases |chunks|
  {
    hide Judge;
    if chunks == [] {
      assert s.rest + [] == s.rest;
      ScanWaiting(s.rest);
      ThenNothing(s);
    } else {
      var t := Scan(s.rest + chunks[0]);
      FeedIsScan(Then(s, t), chunks[1..]);
      ScanResumes(s.rest + chunks[0], Flatten(chunks[1..]));
      assert s.rest + chunks[0] + Flatten(chunks[1..]) == s.rest + Flatten(chunks);
      ThenThen(s, t, Scan(t.rest + Flatten(chunks[1..])));
      hide Then; hide Scan;
    }
  }

  lemma ScanWaiting(rest: seq<byte>)
    requires Judge(rest).Wait?
    ensures Scan(rest) == Scanned([], rest)
  {
    hide Judge;
  }

  // However a stream is cut into chunks, it gives the events and the leftover of one scan.
  lemma ChunksDoNotMatter(chunks: seq<seq<byte>>)
    ensures Feed(Scanned([], []), chunks) == Scan(Flatten(chunks))
  {
    FeedIsScan(Scanned([], []), chunks);
    NothingThen(Scan(Flatten(chunks)), []);
    assert [] + Flatten(chunks) == Flatten(chunks);
  }

  // ---- Sent frames are found again ----

  // A frame with the right length field stands or falls with its checksum.
  lemma JudgeSealed(body: seq<byte>, lo: byte, hi: byte, rest: seq<byte>)
    requires |body| >= 4 && LenOf(body[0], body[1]) == |body| - 4
    ensures Judge([0xAA, 0x55] + body + [lo, hi] + rest) ==
            if Crc16.Crc(body) == ToU16(lo, hi)
            then Good(Packet(body[2], body[3], body[4..]), |body| + 4)
            else Bad(body[2])
  {
    hide Crc16.Crc; hide ToU16; hide LenOf;
    var f := [0xAA, 0x55] + body + [lo, hi] + rest;
    var total := |body| + 4;
    assert f[2] == body[0] && f[3] == body[1] && f[4] == body[2] && f[5] == body[3];
    assert FrameLen(f) == total;
    assert f[2..total - 2] == body;
    assert f[HEADER_LEN..total - CRC_LEN] == body[4..];
    assert f[total - 2] == lo && f[total - 1] == hi;
  }

  lemma JudgeEncoded(p: Packet, rest: seq<byte>)
    requires Sendable(p)
    ensures Judge(Encode(p) + rest) == Good(p, |Encode(p)|)
  {
    hide Crc16.Crc; hide U16; hide ToU16; hide LenOf; hide LenBytes;
    var c := Covered(p);
    var crc := U16(Crc16.Crc(c));
    U16RoundTrip(Crc16.Crc(c));
    assert crc == [crc[0], crc[1]];
    JudgeSealed(c, crc[0], crc[1], rest);
    assert c[4..] == p.data;
    hide Judge;
  }

  lemma ScanEncoded(p: Packet, rest: seq<byte>)
    requires Sendable(p)
    ensures Scan(Encode(p) + rest) == Before(Got(p), Scan(rest))
  {
    JudgeEncoded(p, rest);
    assert (Encode(p) + rest)[|Encode(p)|..] == rest;
    hide Judge; hide Encode;
  }

  function Wire(packets: seq<Packet>): seq<byte>
    requires forall p :: p in packets ==> Sendable(p)
  {
    if packets == [] then [] else Encode(packets[0]) + Wire(packets[1..])
  }

  function Gots(packets: seq<Packet>): (e: seq<Event>)
    ensures |e| == |packets| && forall i :: 0 <= i < |e| ==> e[i] == Got(packets[i])
  {
    seq(|packets|, i requires 0 <= i < |packets| => Got(packets[i]))
  }

  // What was sent back to back is received exactly, with nothing left over.
  lemma {:induction false} ScanWire(packets: seq<Packet>)
    requires forall p :: p in packets ==> Sendable(p)
    ensures Scan(Wire(packets)) == Scanned(Gots(packets), [])
    decreases |packets|
  {
    hide Encode; hide Judge;
    if packets == [] {
      ScanNothing();
    } else {
      ScanEncoded(packets[0], Wire(packets[1..]));
      ScanWire(packets[1..]);
      assert Gots(packets) == [Got(packets[0])] + Gots(packets[1..]);
    }
  }

  lemma ScanNothing()
    ensures Scan([]) == Scanned([], [])
  {}

  // ---- Everything received was sent as a frame ----

  // A delivered packet is, byte for byte, the frame at the front of the buffer.
  lemma GoodIsEncoded(buf: seq<byte>)
    requires Judge(buf).Good?
    ensures Sendable(Judge(buf).packet)
    ensures Encode(Judge(buf).packet) == buf[..Judge(buf).total]
  {
    hide Crc16.Crc; hide U16; hide ToU16; hide LenOf; hide LenBytes;
    var p, total := Judge(buf).packet, Judge(buf).total;
    assert |p.data| == LenOf(buf[2], buf[3]);
    LenOnto(buf[2], buf[3]);
    var c := buf[2..total - 2];
    assert Covered(p) == c by {
      assert c == [buf[2], buf[3]] + [buf[4], buf[5]] + buf[HEADER_LEN..total - CRC_LEN];
    }
    U16Onto(buf[total - 2], buf[total - 1]);
    assert buf[..total] == [0xAA, 0x55] + c + [buf[total - 2], buf[total - 1]];
    hide Judge; hide Covered;
  }

  // The frames occur in the stream one after the other, without overlap.
  ghost predicate OccurInOrder(stream: seq<byte>, events: seq<Event>)
    decreases |events|
  {
    if events == [] then true
    else if events[0].Corrupt? then OccurInOrder(stream, events[1..])
    else
      Sendable(events[0].packet) &&
      exists at: nat :: OccursAt(stream, events[0].packet, at) &&
                   OccurInOrder(stream[at + |Encode(events[0].packet)|..], events[1..])
  }

  ghost predicate OccursAt(stream: seq<byte>, p: Packet, at: nat)
    requires Sendable(p)
  {
    at + |Encode(p)| <= |stream| && stream[at..at + |Encode(p)|] == Encode(p)
  }

  lemma {:induction false} OccurLater(x: byte, stream: seq<byte>, events: seq<Event>)
    requires OccurInOrder(stream, events)
    ensures OccurInOrder([x] + stream, events)
    decreases |events|
  {
    hide Encode;
    if events != [] {
      if events[0].Corrupt? {
        OccurLater(x, stream, events[1..]);
      } else {
        var p := events[0].packet;
        var n := |Encode(p)|;
        var at: nat :| OccursAt(stream, p, at) && OccurInOrder(stream[at + n..], events[1..]);
        assert ([x] + stream)[at + 1..at + 1 + n] == stream[at..at + n];
        assert ([x] + stream)[at + 1 + n..] == stream[at + n..];
        assert OccursAt([x] + stream, p, at + 1);
      }
    }
  }

  lemma {:induction false} ScanIsSound(stream: seq<byte>)
    ensures OccurInOrder(stream, Scan(stream).events)
    decreases |stream|
  {
    hide Judge; hide Encode;
    match Judge(stream)
    case Wait =>
    case Skip =>
      ScanIsSound(stream[1..]);
      OccurLater(stream[0], stream[1..], Scan(stream[1..]).events);
      assert [stream[0]] + stream[1..] == stream;
    case Bad(typ) =>
      ScanIsSound(stream[1..]);
      var tail := Scan(stream[1..]).events;
      OccurLater(stream[0], stream[1..], tail);
      assert [stream[0]] + stream[1..] == stream;
      assert ([Corrupt(typ)] + tail)[1..] == tail;
    case Good(p, total) =>
      GoodIsEncoded(stream);
      ScanIsSound(stream[total..]);
      var tail := Scan(stream[total..]).events;
      assert ([Got(p)] + tail)[1..] == tail;
      assert stream[0..0 + total] == stream[..total];
      assert OccursAt(stream, p, 0);
  }

  // ---- Damage and recovery ----

  // A frame damaged by a burst of at most 16 bits between its length and its
  // checksum is reported and not delivered.
  lemma BurstRejected(p: Packet, body: seq<byte>, from: nat, rest: seq<byte>)
    requires Sendable(p)
    requires |body| == |Covered(p)| && body[..2] == Covered(p)[..2]
    requires Crc16.Burst(Crc16.Bits(Covered(p)), Crc16.Bits(body), from)
    ensures Judge([0xAA, 0x55] + body + U16(Crc16.Crc(Covered(p))) + rest) == Bad(body[2])
  {
    hide Judge; hide Crc16.Crc; hide Crc16.Burst; hide Crc16.Bits;
    hide U16; hide ToU16; hide LenOf; hide LenBytes;
    var c := Covered(p);
    var crc := U16(Crc16.Crc(c));
    assert body[0] == body[..2][0] == c[0] && body[1] == body[..2][1] == c[1];
    Crc16.BurstDetected(c, body, from);
    U16RoundTrip(Crc16.Crc(c));
    assert crc == [crc[0], crc[1]];
    JudgeSealed(body, crc[0], crc[1], rest);
  }

  // So is one with an odd number of flipped bits, checksum bytes included.
  lemma OddFlipsRejected(p: Packet, body: seq<byte>, lo: byte, hi: byte, rest: seq<byte>)
    requires Sendable(p)
    requires |body| == |Covered(p)| && body[..2] == Covered(p)[..2]
    requires Crc16.Flips(Crc16.Bits(Covered(p) + U16(Crc16.Crc(Covered(p)))),
                         Crc16.Bits(body + [lo, hi])) % 2 == 1
    ensures Judge([0xAA, 0x55] + body + [lo, hi] + rest) == Bad(body[2])
  {
    hide Judge; hide Crc16.Crc; hide Crc16.Flips; hide Crc16.Bits;
    hide U16; hide ToU16; hide LenOf; hide LenBytes;
    var c := Covered(p);
    var crc := U16(Crc16.Crc(c));
    assert body[0] == body[..2][0] == c[0] && body[1] == body[..2][1] == c[1];
    U16RoundTrip(Crc16.Crc(c));
    assert crc == [crc[0], crc[1]];
    Crc16.OddFlipsDetected(c, crc[0], crc[1], body, lo, hi);
    JudgeSealed(body, lo, hi, rest);
  }

  // Damage within two adjacent bytes behind the length, in whatever order their bits
  // travel, is reported and not delivered.
  lemma AdjacentBytesRejected(p: Packet, body: seq<byte>, at: nat, rest: seq<byte>)
    requires Sendable(p) && 2 <= at
    requires |body| == |Covered(p)| && body != Covered(p)
    requires forall i :: 0 <= i < |body| && !(at <= i < at + 2) ==> body[i] == Covered(p)[i]
    ensures Judge([0xAA, 0x55] + body + U16(Crc16.Crc(Covered(p))) + rest) == Bad(body[2])
  {
    hide Judge; hide Crc16.Crc; hide U16; hide ToU16; hide LenOf; hide LenBytes;
    var c := Covered(p);
    var crc := U16(Crc16.Crc(c));
    Crc16.TwoBytesDetected(c, body, at);
    U16RoundTrip(Crc16.Crc(c));
    assert crc == [crc[0], crc[1]];
    JudgeSealed(body, crc[0], crc[1], rest);
  }

  // The checksum travels low byte first, so its guarantee ends at its edge: of all
  // changes of the last covered byte and the low checksum byte exactly one goes
  // unnoticed, in every frame.
  lemma EdgeDamageIff(p: Packet, d: byte, e: byte, rest: seq<byte>)
    requires Sendable(p)
    ensures var c := Covered(p);
            var body := c[|c| - 1 := Crc16.XorByte(c[|c| - 1], d)];
            var crc := U16(Crc16.Crc(c));
            Judge([0xAA, 0x55] + body + [Crc16.XorByte(crc[0], e), crc[1]] + rest).Good? <==>
            (d == 0 && e == 0) || (d == 0x89 && e == 0xA1)
  {
    hide Judge; hide Crc16.Crc; hide U16; hide ToU16; hide LenOf; hide LenBytes; hide Crc16.XorByte;
    var c := Covered(p);
    var k := |c| - 1;
    var body := c[k := Crc16.XorByte(c[k], d)];
    var crc := U16(Crc16.Crc(c));
    U16RoundTrip(Crc16.Crc(c));
    assert c == c[..k] + [c[k]] && body == c[..k] + [Crc16.XorByte(c[k], d)];
    Crc16.EdgeChangeIff(c[..k], c[k], crc[0], crc[1], d, e);
    JudgeSealed(body, Crc16.XorByte(crc[0], e), crc[1], rest);
  }

  // Noise in which no valid frame starts costs only error reports: the frame
  // behind it is delivered once FRAME_MAX - 1 bytes have come from its start.
  lemma {:induction false} Resynchronises(noise: seq<byte>, p: Packet, rest: seq<byte>) returns (k: nat)
    requires Sendable(p)
    requires forall i :: 0 <= i < |noise| ==> !Judge((noise + Encode(p) + rest)[i..]).Good?
    requires |Encode(p) + rest| >= FRAME_MAX - 1
    ensures var s, t := Scan(noise + Encode(p) + rest), Scan(rest);
            k <= |noise| && k <= |s.events| && s.rest == t.rest &&
            s.events[k..] == [Got(p)] + t.events &&
            forall i :: 0 <= i < k ==> s.events[i].Corrupt?
    decreases |noise|
  {
    hide Judge; hide Encode;
    var stream := noise + Encode(p) + rest;
    if noise == [] {
      k := 0;
      assert stream == Encode(p) + rest;
      ScanEncoded(p, rest);
    } else {
      assert stream[0..] == stream;
      assert stream[1..] == noise[1..] + Encode(p) + rest;
      forall i | 0 <= i < |noise[1..]|
        ensures !Judge((noise[1..] + Encode(p) + rest)[i..]).Good?
      {
        assert (noise[1..] + Encode(p) + rest)[i..] == stream[i + 1..];
      }
      k := Resynchronises(noise[1..], p, rest);
      var tail := Scan(stream[1..]).events;
      if Judge(stream).Bad? {
        k := k + 1;
        assert Scan(stream).events[k..] == tail[k - 1..];
      }
    }
  }
}
