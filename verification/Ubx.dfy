/**
 UBX frames of the GPS: B5 62 | class | id | length | payload | checksum, the
 byte-at-a-time parser and the builder.
 */
module Ubx {
  import opened Bytes

  const HEADER_LEN := 6
  const CHECKSUM_LEN := 2
  const MAX_PAYLOAD := 100
  const LEN_MAX := 0xFFFF

  // ---- Checksum: two running 8-bit sums ----

  datatype Sums = Sums(a: byte, b: byte)

  // 8-bit addition
  function Plus(x: byte, y: byte): byte {
    x + y
  }

  function Add(s: Sums, x: byte): Sums {
    Sums(Plus(s.a, x), Plus(s.b, Plus(s.a, x)))
  }

  function From(s: Sums, data: seq<byte>): Sums
    decreases |data|
  {
    if data == [] then s else From(Add(s, data[0]), data[1..])
  }

  function Checksum(data: seq<byte>): Sums {
    From(Sums(0, 0), data)
  }

  method ComputeChecksum(data: seq<byte>) returns (ckA: byte, ckB: byte)
    ensures Sums(ckA, ckB) == Checksum(data)
  {
    hide Add;
    var s := Sums(0, 0);
    for i := 0 to |data|
      invariant From(s, data[i..]) == Checksum(data)
    {
      assert data[i..][1..] == data[i + 1..];
      s := Add(s, data[i]);
    }
    ckA, ckB := s.a, s.b;
  }

  // ---- Frames ----

  datatype Message = Message(cls: byte, id: byte, payload: seq<byte>)

  // What the checksum covers.
  function Body(m: Message): (b: seq<byte>)
    requires |m.payload| <= LEN_MAX
    ensures |b| == 4 + |m.payload|
  {
    [m.cls, m.id] + LenBytes(|m.payload|) + m.payload
  }

  function Frame(m: Message): (b: seq<byte>)
    requires |m.payload| <= LEN_MAX
    ensures |b| == HEADER_LEN + |m.payload| + CHECKSUM_LEN
  {
    [0xB5, 0x62] + Body(m) + [Checksum(Body(m)).a, Checksum(Body(m)).b]
  }

  method Build(out: array<byte>, cls: byte, id: byte, payload: seq<byte>) returns (n: nat)
    requires |payload| <= LEN_MAX && HEADER_LEN + |payload| + CHECKSUM_LEN <= out.Length
    modifies out
    ensures n == HEADER_LEN + |payload| + CHECKSUM_LEN
    ensures out[..n] == Frame(Message(cls, id, payload))
    ensures forall i :: n <= i < out.Length ==> out[i] == old(out[i])
  {
    hide LenBytes; hide Checksum; hide Body;
    n := HEADER_LEN + |payload| + CHECKSUM_LEN;
    var start, head := [0xB5, 0x62], [cls, id] + LenBytes(|payload|);
    ghost var body := Body(Message(cls, id, payload));
    Put(out, 0, start + head);
    Put(out, HEADER_LEN, payload);
    BodyIs(cls, id, payload);
    Assoc(start, head, payload);
    assert out[..HEADER_LEN + |payload|] == start + body by {
      NothingFirst(start + head);
    }
    BodyInBuffer(out[..], body);
    var a, b := ComputeChecksum(out[2..HEADER_LEN + |payload|]);
    Put(out, HEADER_LEN + |payload|, [a, b]);
  }

  lemma BodyIs(cls: byte, id: byte, payload: seq<byte>)
    requires |payload| <= LEN_MAX
    ensures Body(Message(cls, id, payload)) == [cls, id] + LenBytes(|payload|) + payload
  {}

  lemma NothingFirst(s: seq<byte>)
    ensures [] + s == s
  {}

  lemma BodyInBuffer(out: seq<byte>, body: seq<byte>)
    requires 2 + |body| <= |out| && out[..2 + |body|] == [0xB5, 0x62] + body
    ensures out[2..2 + |body|] == body
  {
    assert out[2..2 + |body|] == out[..2 + |body|][2..];
  }

  // ---- The parser ----

  datatype Phase = Sync1 | Sync2 | Class | Id | Len1 | Len2 | Payload | CkA | CkB

  datatype Parser = Parser(phase: Phase, cls: byte, id: byte, len: nat, pos: nat,
                           sums: Sums, payload: seq<byte>)

  // The fields stay in bounds: a payload position is inside the payload buffer.
  predicate InBounds(p: Parser) {
    && |p.payload| == MAX_PAYLOAD
    && (p.phase == Len2 ==> p.len < 256)
    && (p.phase == Payload ==> p.pos < p.len <= MAX_PAYLOAD)
    && (p.phase == CkA || p.phase == CkB ==> p.pos == p.len <= MAX_PAYLOAD)
  }

  // One byte; the result says whether it completed a frame.
  function Take(p: Parser, x: byte): (r: (Parser, bool))
    requires InBounds(p)
    ensures InBounds(r.0)
  {
    hide Val; hide Add;
    match p.phase
    case Sync1 => (if x == 0xB5 then p.(phase := Sync2) else p, false)
    case Sync2 => (p.(phase := if x == 0x62 then Class else Sync1, sums := Sums(0, 0)), false)
    case Class => (p.(phase := Id, cls := x, sums := Add(p.sums, x)), false)
    case Id => (p.(phase := Len1, id := x, sums := Add(p.sums, x)), false)
    case Len1 => (p.(phase := Len2, len := Val(x), sums := Add(p.sums, x)), false)
    case Len2 =>
      var len := p.len + 256 * Val(x);
      (p.(phase := if len > MAX_PAYLOAD then Sync1 else if len > 0 then Payload else CkA,
          len := len, pos := 0, sums := Add(p.sums, x)), false)
    case Payload =>
      (p.(phase := if p.pos + 1 >= p.len then CkA else Payload,
          payload := p.payload[p.pos := x], pos := p.pos + 1, sums := Add(p.sums, x)), false)
    case CkA => (p.(phase := if x == p.sums.a then CkB else Sync1), false)
    case CkB => (p.(phase := Sync1), x == p.sums.b)
  }

  // The message of the frame that has just been completed.
  function Got(p: Parser): Message
    requires InBounds(p) && p.len <= MAX_PAYLOAD
  {
    Message(p.cls, p.id, p.payload[..p.len])
  }

  // Any number of bytes, and for each whether it completed a frame.
  function Run(p: Parser, bytes: seq<byte>): (r: (Parser, seq<bool>))
    requires InBounds(p)
    ensures InBounds(r.0) && |r.1| == |bytes|
    decreases |bytes|
  {
    hide Take; hide InBounds;
    if bytes == [] then (p, [])
    else
      var (next, done) := Take(p, bytes[0]);
      var (last, more) := Run(next, bytes[1..]);
      (last, [done] + more)
  }

  // ---- As the code keeps it ----

  class UbxParser {
    var phase: Phase
    var cls: byte
    var id: byte
    var len: nat
    var pos: nat
    var ckA: byte
    var ckB: byte
    const payload: array<byte>

    ghost predicate Valid()
      reads this, payload
    {
      payload.Length == MAX_PAYLOAD && InBounds(Value())
    }

    ghost function Value(): Parser
      reads this, payload
    {
      Parser(phase, cls, id, len, pos, Sums(ckA, ckB), payload[..])
    }

    constructor ()
      ensures Valid() && fresh(payload)
      ensures Value() == Parser(Sync1, 0, 0, 0, 0, Sums(0, 0), seq(MAX_PAYLOAD, _ => 0))
    {
      phase := Sync1;
      cls, id, len, pos, ckA, ckB := 0, 0, 0, 0, 0, 0;
      payload := new byte[MAX_PAYLOAD](_ => 0);
      new;
      assert payload[..] == seq(MAX_PAYLOAD, _ => 0);
    }

    method CkAdd(x: byte)
      modifies this`ckA, this`ckB
      ensures Sums(ckA, ckB) == Add(Sums(old(ckA), old(ckB)), x)
    {
      hide Plus;
      ckA := Plus(ckA, x);
      ckB := Plus(ckB, ckA);
    }

    method Parse(x: byte) returns (done: bool)
      requires Valid()
      modifies this, payload
      ensures Valid() && (Value(), done) == Take(old(Value()), x)
    {
      hide Take; hide InBounds;
      done := false;
      match phase
      case Sync1 => ParseSync(x);
      case Sync2 => ParseSync(x);
      case Class => ParseHeader(x);
      case Id => ParseHeader(x);
      case Len1 => ParseLen(x);
      case Len2 => ParseLen(x);
      case Payload => done := ParseBody(x);
      case CkA => done := ParseBody(x);
      case CkB => done := ParseBody(x);
    }

    method ParseSync(x: byte)
      requires Valid() && (phase == Sync1 || phase == Sync2)
      modifies this`phase, this`ckA, this`ckB
      ensures Valid() && (Value(), false) == Take(old(Value()), x)
    {
      if phase == Sync1 {
        if x == 0xB5 {
          phase := Sync2;
        }
      } else {
        phase := if x == 0x62 then Class else Sync1;
        ckA, ckB := 0, 0;
      }
    }

    method ParseHeader(x: byte)
      requires Valid() && (phase == Class || phase == Id)
      modifies this`phase, this`cls, this`id, this`ckA, this`ckB
      ensures Valid() && (Value(), false) == Take(old(Value()), x)
    {
      hide Add;
      if phase == Class {
        cls := x;
        CkAdd(x);
        phase := Id;
      } else {
        id := x;
        CkAdd(x);
        phase := Len1;
      }
    }

    method ParseLen(x: byte)
      requires Valid() && (phase == Len1 || phase == Len2)
      modifies this`phase, this`len, this`pos, this`ckA, this`ckB
      ensures Valid() && (Value(), false) == Take(old(Value()), x)
    {
      hide Val; hide Add; hide Plus;
      if phase == Len1 {
        len := Val(x);
        CkAdd(x);
        phase := Len2;
      } else {
        len := len + 256 * Val(x);
        CkAdd(x);
        pos := 0;
        if len > MAX_PAYLOAD {
          phase := Sync1;  // too long for us, drop
        } else {
          phase := if len > 0 then Payload else CkA;
        }
      }
    }

    method ParseBody(x: byte) returns (done: bool)
      requires Valid() && (phase == Payload || phase == CkA || phase == CkB)
      modifies this, payload
      ensures Valid() && (Value(), done) == Take(old(Value()), x)
    {
      hide Val; hide Add;
      done := false;
      match phase
      case Payload =>
        payload[pos] := x;
        pos := pos + 1;
        CkAdd(x);
        if pos >= len {
          phase := CkA;
        }
      case CkA =>
        phase := if x == ckA then CkB else Sync1;
      case CkB =>
        phase := Sync1;
        done := x == ckB;
    }
  }

  // ---- Every state is back at the start within 107 bytes ----

  function Left(p: Parser): nat
    requires InBounds(p)
  {
    match p.phase
    case Sync1 => 0
    case Sync2 => 107
    case Class => 106
    case Id => 105
    case Len1 => 104
    case Len2 => 103
    case Payload => p.len - p.pos + CHECKSUM_LEN
    case CkA => 2
    case CkB => 1
  }

  lemma LeftFalls(p: Parser, x: byte)
    requires InBounds(p) && p.phase != Sync1
    ensures Left(Take(p, x).0) < Left(p) <= 107
  {
    hide Add; hide Val;
  }

  lemma {:induction false} BackAtStart(p: Parser, bytes: seq<byte>) returns (n: nat)
    requires InBounds(p) && |bytes| >= Left(p)
    ensures n <= Left(p) <= 107 && Run(p, bytes[..n]).0.phase == Sync1
    decreases |bytes|
  {
    hide Take; hide InBounds;
    if p.phase == Sync1 {
      n := 0;
      assert bytes[..0] == [];
      AtStart(p);
    } else {
      LeftFalls(p, 0);
      LeftFalls(p, bytes[0]);
      n := BackAtStart(Take(p, bytes[0]).0, bytes[1..]);
      n := n + 1;
      assert bytes[..n][0] == bytes[0] && bytes[..n][1..] == bytes[1..][..n - 1];
    }
    hide Left;
  }

  lemma AtStart(p: Parser)
    requires InBounds(p) && p.phase == Sync1
    ensures Left(p) == 0
  {}

  // ---- One frame ----

  // A run in two parts.
  lemma {:induction false} RunSplit(p: Parser, a: seq<byte>, b: seq<byte>)
    requires InBounds(p)
    ensures var first := Run(p, a);
            var more := Run(first.0, b);
            Run(p, a + b) == (more.0, first.1 + more.1)
    decreases |a|
  {
    hide Take; hide InBounds;
    if a == [] {
      assert a + b == b;
      assert [] + Run(p, b).1 == Run(p, b).1;
    } else {
      var (next, done) := Take(p, a[0]);
      assert (a + b)[1..] == a[1..] + b;
      RunSplit(next, a[1..], b);
      var x, y := Run(next, a[1..]).1, Run(Run(next, a[1..]).0, b).1;
      assert [done] + x + y == [done] + (x + y);
    }
  }

  lemma RunOne(p: Parser, x: byte)
    requires InBounds(p)
    ensures Run(p, [x]) == (Take(p, x).0, [Take(p, x).1])
  {
    hide Take; hide InBounds;
    assert [x][1..] == [];
    var (next, done) := Take(p, x);
    assert Run(next, [x][1..]) == (next, []);
    assert [done] + [] == [done];
  }

  function Nones(n: nat): (r: seq<bool>)
    ensures |r| == n
  {
    seq(n, _ => false)
  }

  // The run passes through `bytes` without completing a frame, and the running
  // checksum is that of the bytes.
  ghost predicate Passes(p: Parser, bytes: seq<byte>, q: Parser)
    requires InBounds(p)
  {
    Run(p, bytes) == (q, Nones(|bytes|))
  }

  lemma PassesThen(p: Parser, a: seq<byte>, q: Parser, b: seq<byte>, r: Parser)
    requires InBounds(p) && InBounds(q) && Passes(p, a, q) && Passes(q, b, r)
    ensures Passes(p, a + b, r)
  {
    RunSplit(p, a, b);
    assert Nones(|a|) + Nones(|b|) == Nones(|a + b|);
    hide Run; hide InBounds;
  }

  lemma PassesOne(p: Parser, x: byte)
    requires InBounds(p) && !Take(p, x).1
    ensures Passes(p, [x], Take(p, x).0)
  {
    RunOne(p, x);
    hide Run; hide Take; hide InBounds;
    assert [false] == Nones(1);
  }

  // The header of a frame that is not too long, from the start.
  lemma HeaderPasses(p: Parser, cls: byte, id: byte, lo: byte, hi: byte)
    requires InBounds(p) && p.phase == Sync1 && LenOf(lo, hi) <= MAX_PAYLOAD
    ensures var q := p.(phase := if LenOf(lo, hi) > 0 then Payload else CkA, cls := cls, id := id, len := LenOf(lo, hi),
                        pos := 0, sums := Checksum([cls, id, lo, hi]));
            InBounds(q) && Passes(p, [0xB5, 0x62, cls, id, lo, hi], q)
  {
    hide Val; hide Add; hide Run; hide Passes;
    var p3 := p.(phase := Id, cls := cls, sums := Add(Sums(0, 0), cls));
    var q := p.(phase := if LenOf(lo, hi) > 0 then Payload else CkA, cls := cls, id := id, len := LenOf(lo, hi),
                pos := 0, sums := Checksum([cls, id, lo, hi]));
    FourSums(cls, id, lo, hi);
    FirstPasses(p, cls);
    LastPasses(p3, id, lo, hi);
    PassesThen(p, [0xB5] + [0x62] + [cls], p3, [id] + [lo] + [hi], q);
    assert [0xB5] + [0x62] + [cls] + ([id] + [lo] + [hi]) == [0xB5, 0x62, cls, id, lo, hi];
  }

  lemma FirstPasses(p: Parser, cls: byte)
    requires InBounds(p) && p.phase == Sync1
    ensures Passes(p, [0xB5] + [0x62] + [cls], p.(phase := Id, cls := cls, sums := Add(Sums(0, 0), cls)))
  {
    hide Val; hide Add; hide Run; hide Passes;
    var p1 := p.(phase := Sync2);
    var p2 := p1.(phase := Class, sums := Sums(0, 0));
    PassesOne(p, 0xB5);
    PassesOne(p1, 0x62);
    PassesThen(p, [0xB5], p1, [0x62], p2);
    PassesOne(p2, cls);
    PassesThen(p, [0xB5] + [0x62], p2, [cls], Take(p2, cls).0);
  }

  lemma LastPasses(p: Parser, id: byte, lo: byte, hi: byte)
    requires InBounds(p) && p.phase == Id && LenOf(lo, hi) <= MAX_PAYLOAD
    ensures Passes(p, [id] + [lo] + [hi],
                   p.(phase := if LenOf(lo, hi) > 0 then Payload else CkA, id := id, len := LenOf(lo, hi), pos := 0,
                      sums := Add(Add(Add(p.sums, id), lo), hi)))
  {
    hide Val; hide Add; hide Run; hide Passes;
    var p4 := p.(phase := Len1, id := id, sums := Add(p.sums, id));
    var p5 := p4.(phase := Len2, len := Val(lo), sums := Add(p4.sums, lo));
    PassesOne(p, id);
    PassesOne(p4, lo);
    PassesThen(p, [id], p4, [lo], p5);
    PassesOne(p5, hi);
    PassesThen(p, [id] + [lo], p5, [hi], Take(p5, hi).0);
  }

  lemma {:induction false} FromSplit(s: Sums, a: seq<byte>, b: seq<byte>)
    ensures From(s, a + b) == From(From(s, a), b)
    decreases |a|
  {
    hide Add;
    if a == [] {
      assert a + b == b;
    } else {
      assert (a + b)[1..] == a[1..] + b;
      FromSplit(Add(s, a[0]), a[1..], b);
    }
  }

  lemma FromTwo(s: Sums, x: byte, y: byte)
    ensures From(s, [x, y]) == Add(Add(s, x), y)
  {
    hide Add;
    assert [x, y][1..] == [y] && [y][1..] == [];
    assert From(Add(s, x), [y]) == Add(Add(s, x), y);
  }

  lemma FourSums(w: byte, x: byte, y: byte, z: byte)
    ensures Checksum([w, x, y, z]) == Add(Add(Add(Add(Sums(0, 0), w), x), y), z)
  {
    hide Add; hide From;
    assert [w, x, y, z] == [w, x] + [y, z];
    FromSplit(Sums(0, 0), [w, x], [y, z]);
    FromTwo(Sums(0, 0), w, x);
    FromTwo(From(Sums(0, 0), [w, x]), y, z);
  }

  // The payload from position pos on.
  lemma {:induction false} PayloadPasses(p: Parser, rest: seq<byte>)
    requires InBounds(p) && p.phase == Payload && |rest| == p.len - p.pos
    ensures var q := p.(phase := CkA, pos := p.len, sums := From(p.sums, rest),
                        payload := p.payload[..p.pos] + rest + p.payload[p.len..]);
            InBounds(q) && Passes(p, rest, q)
    decreases |rest|
  {
    hide Add; hide Run; hide Passes; hide Val;
    var x, tail := rest[0], rest[1..];
    var p1 := Take(p, x).0;
    PassesOne(p, x);
    assert rest == [x] + tail;
    if tail == [] {
      assert p1.payload == p.payload[..p.pos] + rest + p.payload[p.len..];
      assert From(p.sums, rest) == From(Add(p.sums, x), rest[1..]) == Add(p.sums, x);
      assert rest == [x];
    } else {
      PayloadPasses(p1, tail);
      var q := p1.(phase := CkA, pos := p1.len, sums := From(p1.sums, tail),
                   payload := p1.payload[..p1.pos] + tail + p1.payload[p1.len..]);
      PassesThen(p, [x], p1, tail, q);
      assert p1.payload[..p1.pos] == p.payload[..p.pos] + [x];
      assert p1.payload[p1.len..] == p.payload[p.len..];
      assert q.payload == p.payload[..p.pos] + rest + p.payload[p.len..];
    }
  }

  // Header and payload together: the checksum bytes come next, the running sums
  // are the checksum of everything since the second sync byte, and the message is
  // in place.
  lemma BodyPasses(p: Parser, m: Message) returns (q: Parser)
    requires InBounds(p) && p.phase == Sync1 && |m.payload| <= MAX_PAYLOAD
    ensures InBounds(q) && q.phase == CkA && q.sums == Checksum(Body(m)) && Got(q) == m
    ensures Passes(p, [0xB5, 0x62] + Body(m), q)
  {
    hide Add; hide Run; hide Passes; hide Val; hide LenBytes; hide LenOf; hide From;
    var len := LenBytes(|m.payload|);
    var head := [m.cls, m.id, len[0], len[1]];
    HeaderPasses(p, m.cls, m.id, len[0], len[1]);
    var h := p.(phase := if |m.payload| > 0 then Payload else CkA, cls := m.cls, id := m.id, len := |m.payload|,
                pos := 0, sums := Checksum(head));
    assert Body(m) == head + m.payload;
    FromSplit(Sums(0, 0), head, m.payload);
    var start := [0xB5, 0x62, m.cls, m.id, len[0], len[1]];
    assert [0xB5, 0x62] + Body(m) == start + m.payload;
    if m.payload == [] {
      q := h;
      assert start + m.payload == start;
      FromNothing(Checksum(head));
    } else {
      PayloadPasses(h, m.payload);
      q := h.(phase := CkA, pos := h.len, sums := From(h.sums, m.payload),
              payload := h.payload[..0] + m.payload + h.payload[h.len..]);
      PassesThen(p, start, h, m.payload, q);
      assert q.payload[..q.len] == m.payload;
    }
  }

  lemma FromNothing(s: Sums)
    ensures From(s, []) == s
  {}

  // Any body and any two checksum bytes: nothing is completed before the last byte,
  // and that byte completes the message exactly if both match.
  lemma SealedBody(p: Parser, m: Message, a: byte, b: byte)
    requires InBounds(p) && p.phase == Sync1 && |m.payload| <= MAX_PAYLOAD
    ensures var (q, done) := Run(p, [0xB5, 0x62] + Body(m) + [a, b]);
            var good := Checksum(Body(m)) == Sums(a, b);
            done == Nones(|Body(m)| + 3) + [good] &&
            (good ==> q.phase == Sync1 && q.len <= MAX_PAYLOAD && Got(q) == m)
  {
    hide Add; hide Val; hide From; hide LenBytes; hide LenOf; hide Run; hide Body;
    var q := BodyPasses(p, m);
    var pre := [0xB5, 0x62] + Body(m);
    RunSplit(p, pre, [a, b]);
    RunOne(q, a);
    var q1 := Take(q, a).0;
    RunOne(q1, b);
    RunSplit(q, [a], [b]);
    assert [a] + [b] == [a, b];
    assert Nones(|pre|) + ([false] + [Take(q1, b).1]) == Nones(|Body(m)| + 3) + [Take(q1, b).1];
  }

  // A built frame is completed by its last byte and by no other, with its message.
  lemma FrameRoundTrip(p: Parser, m: Message)
    requires InBounds(p) && p.phase == Sync1 && |m.payload| <= MAX_PAYLOAD
    ensures var (q, done) := Run(p, Frame(m));
            done == Nones(|Frame(m)| - 1) + [true] && q.phase == Sync1 && q.len <= MAX_PAYLOAD && Got(q) == m
  {
    hide Run; hide Checksum; hide Body;
    SealedBody(p, m, Checksum(Body(m)).a, Checksum(Body(m)).b);
  }

  // ---- A stream of frames ----

  function Stream(ms: seq<Message>): seq<byte>
    requires forall m :: m in ms ==> |m.payload| <= MAX_PAYLOAD
  {
    if ms == [] then [] else Frame(ms[0]) + Stream(ms[1..])
  }

  // The messages picked up by a caller that looks after every completed frame.
  function Received(p: Parser, bytes: seq<byte>): seq<Message>
    requires InBounds(p)
    decreases |bytes|
  {
    hide Take; hide InBounds; hide Got;
    if bytes == [] then []
    else
      var (next, done) := Take(p, bytes[0]);
      (if done && next.len <= MAX_PAYLOAD then [Got(next)] else []) + Received(next, bytes[1..])
  }

  lemma {:induction false} ReceivedSplit(p: Parser, a: seq<byte>, b: seq<byte>)
    requires InBounds(p)
    ensures Received(p, a + b) == Received(p, a) + Received(Run(p, a).0, b)
    decreases |a|
  {
    hide Take; hide InBounds; hide Got;
    if a == [] {
      assert a + b == b;
    } else {
      assert (a + b)[1..] == a[1..] + b;
      ReceivedSplit(Take(p, a[0]).0, a[1..], b);
    }
  }

  lemma {:induction false} ReceivedNone(p: Parser, bytes: seq<byte>)
    requires InBounds(p) && Run(p, bytes).1 == Nones(|bytes|)
    ensures Received(p, bytes) == []
    decreases |bytes|
  {
    hide Take; hide InBounds; hide Got;
    if bytes != [] {
      var next := Take(p, bytes[0]).0;
      assert Run(p, bytes).1[0] == false;
      assert Run(p, bytes).1[1..] == Run(next, bytes[1..]).1;
      assert Nones(|bytes|)[1..] == Nones(|bytes| - 1);
      ReceivedNone(next, bytes[1..]);
    }
  }

  lemma FrameReceived(p: Parser, m: Message)
    requires InBounds(p) && p.phase == Sync1 && |m.payload| <= MAX_PAYLOAD
    ensures Received(p, Frame(m)) == [m] && Run(p, Frame(m)).0.phase == Sync1
  {
    hide Take; hide InBounds; hide Got; hide Frame; hide Run; hide Received;
    FrameRoundTrip(p, m);
    var f := Frame(m);
    var pre, last := f[..|f| - 1], f[|f| - 1];
    assert f == pre + [last];
    RunSplit(p, pre, [last]);
    var q := Run(p, pre).0;
    RunOne(q, last);
    assert Run(p, f).1[..|pre|] == Run(p, pre).1 == Nones(|pre|);
    assert Run(p, f).1[|pre|] == true;
    ReceivedSplit(p, pre, [last]);
    ReceivedNone(p, pre);
    ReceivedOne(q, last);
    assert [] + [m] == [m];
  }

  lemma ReceivedOne(p: Parser, x: byte)
    requires InBounds(p)
    ensures var (next, done) := Take(p, x);
            Received(p, [x]) == if done && next.len <= MAX_PAYLOAD then [Got(next)] else []
  {
    hide Take; hide InBounds; hide Got;
    assert [x][1..] == [];
    var next := Take(p, x).0;
    assert Received(next, [x][1..]) == [];
  }

  // Frames sent one after the other are received one after the other.
  lemma {:induction false} StreamReceived(p: Parser, ms: seq<Message>)
    requires InBounds(p) && p.phase == Sync1
    requires forall m :: m in ms ==> |m.payload| <= MAX_PAYLOAD
    ensures Received(p, Stream(ms)) == ms && Run(p, Stream(ms)).0.phase == Sync1
    decreases |ms|
  {
    hide Take; hide InBounds; hide Got; hide Frame;
    if ms != [] {
      FrameReceived(p, ms[0]);
      var q := Run(p, Frame(ms[0])).0;
      StreamReceived(q, ms[1..]);
      RunSplit(p, Frame(ms[0]), Stream(ms[1..]));
      ReceivedSplit(p, Frame(ms[0]), Stream(ms[1..]));
    }
  }

  // ---- When a frame is received ----

  // Bytes since the frame in hand began.
  function Age(p: Parser): nat {
    match p.phase
    case Sync1 => 0
    case Sync2 => 1
    case Class => 2
    case Id => 3
    case Len1 => 4
    case Len2 => 5
    case Payload => 6 + p.pos
    case CkA => 6 + p.len
    case CkB => 7 + p.len
  }

  lemma AgeGrows(p: Parser, x: byte)
    requires InBounds(p)
    ensures var q := Take(p, x).0; Age(q) == 0 || Age(q) == Age(p) + 1
  {
    hide Add; hide Val;
  }

  lemma {:induction false} AgeOverRun(p: Parser, bytes: seq<byte>)
    requires InBounds(p)
    ensures var q := Run(p, bytes).0; Age(q) == Age(p) + |bytes| || Age(q) < |bytes|
    decreases |bytes|
  {
    hide Take; hide InBounds; hide Age;
    if bytes != [] {
      AgeGrows(p, bytes[0]);
      AgeOverRun(Take(p, bytes[0]).0, bytes[1..]);
    }
  }

  lemma DoneIsOld(p: Parser, x: byte)
    requires InBounds(p) && Take(p, x).1
    ensures Age(p) == 7 + Take(p, x).0.len
  {
    hide Add; hide Val;
  }

  lemma AgeZero(p: Parser)
    ensures Age(p) == 0 <==> p.phase == Sync1
  {}

  // The last byte of a frame delivers its message.
  predicate DeliveredBy(p: Parser, m: Message)
    requires InBounds(p) && |m.payload| <= MAX_PAYLOAD
  {
    hide Run; hide InBounds;
    var f := Frame(m);
    var (q, done) := Run(p, f);
    done[|f| - 1] && q.len <= MAX_PAYLOAD && Got(q) == m
  }

  lemma GotLength(p: Parser)
    requires InBounds(p) && p.len <= MAX_PAYLOAD
    ensures |Got(p).payload| == p.len
  {}

  // Not every frame is received: in any other state than the first the parser
  // misses it, whatever its content.
  lemma DeliveredIff(p: Parser, m: Message)
    requires InBounds(p) && |m.payload| <= MAX_PAYLOAD
    ensures DeliveredBy(p, m) <==> p.phase == Sync1
  {
    hide Take; hide InBounds; hide Frame; hide Run; hide Age;
    AgeZero(p);
    if p.phase == Sync1 {
      FrameRoundTrip(p, m);
    } else if DeliveredBy(p, m) {
      var f := Frame(m);
      var pre, last := f[..|f| - 1], f[|f| - 1];
      assert f == pre + [last];
      RunSplit(p, pre, [last]);
      var q := Run(p, pre).0;
      RunOne(q, last);
      DoneIsOld(q, last);
      AgeOverRun(p, pre);
      GotLength(Take(q, last).0);
    }
  }

  // So a stray first sync byte costs the frame behind it.
  lemma StraySyncLosesFrame(p: Parser, m: Message)
    requires InBounds(p) && p.phase == Sync1 && |m.payload| <= MAX_PAYLOAD
    ensures !DeliveredBy(Take(p, 0xB5).0, m)
  {
    hide DeliveredBy;
    DeliveredIff(Take(p, 0xB5).0, m);
  }

  // ---- Damage ----

  lemma PlusInjective(x: byte, y: byte, z: byte)
    requires Plus(x, z) == Plus(y, z)
    ensures x == y
  {}

  lemma PlusCommutes(x: byte, y: byte)
    ensures Plus(x, y) == Plus(y, x)
  {}

  lemma AddInjective(s: Sums, t: Sums, x: byte)
    requires Add(s, x) == Add(t, x)
    ensures s == t
  {
    PlusInjective(s.a, t.a, x);
    PlusInjective(s.b, t.b, Plus(s.a, x));
    hide Plus;
  }

  lemma {:induction false} Apart(s: Sums, t: Sums, data: seq<byte>)
    requires s != t
    ensures From(s, data) != From(t, data)
    decreases |data|
  {
    hide Add;
    if data != [] {
      if Add(s, data[0]) == Add(t, data[0]) {
        AddInjective(s, t, data[0]);
      }
      Apart(Add(s, data[0]), Add(t, data[0]), data[1..]);
    }
  }

  // Two steps from one state tell any two pairs of bytes apart.
  lemma PairSplits(s: Sums, w: byte, x: byte, y: byte, z: byte)
    requires Add(Add(s, w), x) == Add(Add(s, y), z)
    ensures w == y && x == z
  {
    var b := Plus(Plus(s.a, w), x);
    PlusInjective(Plus(s.b, Plus(s.a, w)), Plus(s.b, Plus(s.a, y)), b);
    PlusCommutes(s.b, Plus(s.a, w));
    PlusCommutes(s.b, Plus(s.a, y));
    PlusInjective(Plus(s.a, w), Plus(s.a, y), s.b);
    PlusCommutes(s.a, w);
    PlusCommutes(s.a, y);
    PlusInjective(w, y, s.a);
    PlusCommutes(Plus(s.a, w), x);
    PlusCommutes(Plus(s.a, w), z);
    PlusInjective(x, z, Plus(s.a, w));
    hide Plus;
  }

  // Data changed only within two adjacent bytes has another checksum.
  lemma TwoBytesDetected(x: seq<byte>, y: seq<byte>, at: nat)
    requires |x| == |y| && x != y && at + 2 <= |x|
    requires forall i :: 0 <= i < |x| && !(at <= i < at + 2) ==> x[i] == y[i]
    ensures Checksum(x) != Checksum(y)
  {
    hide Add; hide From;
    var pre, tail := x[..at], x[at + 2..];
    assert x == pre + ([x[at], x[at + 1]] + tail);
    assert y == pre + ([y[at], y[at + 1]] + tail);
    var s := From(Sums(0, 0), pre);
    FromSplit(Sums(0, 0), pre, [x[at], x[at + 1]] + tail);
    FromSplit(Sums(0, 0), pre, [y[at], y[at + 1]] + tail);
    FromSplit(s, [x[at], x[at + 1]], tail);
    FromSplit(s, [y[at], y[at + 1]], tail);
    FromTwo(s, x[at], x[at + 1]);
    FromTwo(s, y[at], y[at + 1]);
    var u, v := Add(Add(s, x[at]), x[at + 1]), Add(Add(s, y[at]), y[at + 1]);
    if u == v {
      PairSplits(s, x[at], x[at + 1], y[at], y[at + 1]);
    } else {
      Apart(u, v, tail);
    }
  }

  // A frame whose class, id or payload was changed within two adjacent bytes is
  // not completed at any of its bytes.
  lemma DamagedFrameRejected(p: Parser, m: Message, d: Message, at: nat)
    requires InBounds(p) && p.phase == Sync1 && |m.payload| == |d.payload| <= MAX_PAYLOAD && m != d
    requires at + 2 <= |Body(m)| && forall i :: 0 <= i < |Body(m)| && !(at <= i < at + 2) ==> Body(m)[i] == Body(d)[i]
    ensures Run(p, [0xB5, 0x62] + Body(d) + [Checksum(Body(m)).a, Checksum(Body(m)).b]).1 == Nones(|Frame(m)|)
  {
    hide Checksum; hide Run; hide Body; hide InBounds; hide Got;
    var x, y := Body(m), Body(d);
    if x == y {
      BodyInjective(m, d);
    }
    TwoBytesDetected(x, y, at);
    SealedBody(p, d, Checksum(x).a, Checksum(x).b);
    assert Nones(|y| + 3) + [false] == Nones(|Frame(m)|);
  }

  lemma BodyInjective(m: Message, d: Message)
    requires |m.payload| == |d.payload| <= MAX_PAYLOAD && Body(m) == Body(d)
    ensures m == d
  {
    hide LenBytes;
    var x, y := Body(m), Body(d);
    assert x[0] == m.cls && x[1] == m.id && x[4..] == m.payload;
    assert y[0] == d.cls && y[1] == d.id && y[4..] == d.payload;
  }

  // ---- The checksum as sums ----

  // The sum of the bytes, and the sum weighted by how many bytes are left, each byte
  // counting itself.
  function Total(data: seq<byte>): nat {
    if data == [] then 0 else Val(data[0]) + Total(data[1..])
  }

  function Weighted(data: seq<byte>): nat {
    if data == [] then 0 else |data| * Val(data[0]) + Weighted(data[1..])
  }

  function Succ(x: byte): byte {
    x + 1
  }

  function Pred(x: byte): byte {
    x - 1
  }

  lemma SuccVal(x: byte)
    ensures Val(Succ(x)) == (Val(x) + 1) % 256
  {}

  lemma SuccPred(x: byte)
    ensures Succ(Pred(x)) == x
  {}

  lemma PlusZero(x: byte)
    ensures Plus(x, 0) == x
  {}

  lemma PlusSucc(x: byte, y: byte)
    ensures Plus(x, Succ(y)) == Succ(Plus(x, y))
  {}

  lemma PredVal(x: byte)
    requires x != 0
    ensures Val(Pred(x)) + 1 == Val(x)
  {
    SuccPred(x);
    SuccVal(Pred(x));
    ValZero(x);
    hide Val; hide Succ; hide Pred;
  }

  lemma ValZero(x: byte)
    ensures Val(x) == 0 <==> x == 0
  {}

  lemma {:induction false} PlusVal(x: byte, y: byte)
    ensures Val(Plus(x, y)) == (Val(x) + Val(y)) % 256
    decreases Val(y)
  {
    hide Plus; hide Val; hide Succ; hide Pred;
    ValZero(y);
    if y == 0 {
      PlusZero(x);
    } else {
      PredVal(y);
      PlusVal(x, Pred(y));
      SuccPred(y);
      PlusSucc(x, Pred(y));
      SuccVal(Plus(x, Pred(y)));
    }
  }

  lemma Residue(x: nat, y: nat)
    ensures (x % 256 + y) % 256 == (x + y) % 256
  {}

  lemma Multiples(q: nat, y: nat)
    ensures (256 * q + y) % 256 == y % 256
  {}

  function Scale(k: nat, x: nat): nat {
    k * x
  }

  lemma ScaleAdd(k: nat, x: nat, y: nat)
    ensures Scale(k, x + y) == Scale(k, x) + Scale(k, y)
  {}

  lemma ScaleLess(k: nat, x: nat)
    requires k > 0
    ensures Scale(k, x) == Scale(k - 1, x) + x
  {}

  lemma ScaleWhole(k: nat, q: nat)
    ensures Scale(k, 256 * q) == 256 * Scale(k, q)
  {}

  lemma ResidueScaled(k: nat, x: nat, y: nat)
    ensures (Scale(k, x % 256) + y) % 256 == (Scale(k, x) + y) % 256
  {
    hide Scale;
    var q, r := x / 256, x % 256;
    ScaleAdd(k, 256 * q, r);
    ScaleWhole(k, q);
    Multiples(Scale(k, q), Scale(k, r) + y);
  }

  // For n bytes with values d(0), ..., d(n-1) the first checksum byte is the sum of all
  // d(i) and the second the sum of all (n - i) d(i), both modulo 256.
  lemma ChecksumIs(data: seq<byte>)
    ensures Val(Checksum(data).a) == Total(data) % 256
    ensures Val(Checksum(data).b) == Weighted(data) % 256
  {
    ValZero(0);
    hide From; hide Total; hide Weighted; hide Val;
    FromIs(Sums(0, 0), data);
    assert Scale(|data|, 0) == 0;
  }

  lemma SumsCons(data: seq<byte>)
    requires data != []
    ensures Total(data) == Val(data[0]) + Total(data[1..])
    ensures Weighted(data) == Scale(|data|, Val(data[0])) + Weighted(data[1..])
  {
    hide Val;
  }

  lemma FromCons(s: Sums, data: seq<byte>)
    requires data != []
    ensures From(s, data) == From(Add(s, data[0]), data[1..])
  {
    hide Add;
  }

  lemma {:induction false} FromIs(s: Sums, data: seq<byte>)
    ensures Val(From(s, data).a) == (Val(s.a) + Total(data)) % 256
    ensures Val(From(s, data).b) == (Val(s.b) + Scale(|data|, Val(s.a)) + Weighted(data)) % 256
    decreases |data|
  {
    hide Plus; hide Val; hide Scale; hide From; hide Total; hide Weighted;
    if data == [] {
      NoSums(s, data);
    } else {
      var d, rest, t := data[0], data[1..], Add(s, data[0]);
      FromIs(t, rest);
      PlusVal(s.a, d);
      PlusVal(s.b, t.a);
      FromCons(s, data);
      SumsCons(data);
      StepSums(Val(s.a), Val(s.b), Val(d), Val(t.a), Val(t.b), |data|, Total(rest), Weighted(rest));
    }
  }

  lemma NoSums(s: Sums, data: seq<byte>)
    requires data == []
    ensures Val(From(s, data).a) == (Val(s.a) + Total(data)) % 256
    ensures Val(From(s, data).b) == (Val(s.b) + Scale(|data|, Val(s.a)) + Weighted(data)) % 256
  {
    hide Val;
  }

  lemma StepSums(a: nat, b: nat, d: nat, a': nat, b': nat, n: nat, total: nat, weighted: nat)
    requires n > 0 && a' == (a + d) % 256 && b' == (b + a') % 256
    ensures (a' + total) % 256 == (a + (d + total)) % 256
    ensures (b' + Scale(n - 1, a') + weighted) % 256 == (b + Scale(n, a) + (Scale(n, d) + weighted)) % 256
  {
    hide Scale;
    Residue(a + d, total);
    Residue(b + a', Scale(n - 1, a') + weighted);
    ScaleLess(n, a');
    ResidueScaled(n, a + d, b + weighted);
    ScaleAdd(n, a, d);
  }

  // A built frame byte by byte: sync, class, id, length low byte first, payload and the
  // two sums over all from the class on.
  lemma FrameBytes(m: Message)
    requires |m.payload| <= LEN_MAX
    ensures var f, n := Frame(m), |m.payload|;
            && |f| == n + 8 && f[0] == 0xB5 && f[1] == 0x62 && f[2] == m.cls && f[3] == m.id
            && Val(f[4]) == n % 256 && Val(f[5]) == n / 256 && f[6..6 + n] == m.payload
            && Val(f[6 + n]) == Total(f[2..6 + n]) % 256
            && Val(f[7 + n]) == Weighted(f[2..6 + n]) % 256
  {
    hide Checksum; hide LenBytes; hide Val; hide Total; hide Weighted;
    var f, n, body := Frame(m), |m.payload|, Body(m);
    ChecksumIs(body);
    LenDigits(n);
    assert f == [0xB5, 0x62] + body + [Checksum(body).a, Checksum(body).b];
    assert f[2..6 + n] == body;
    assert body[4..] == m.payload;
    assert f[6..6 + n] == body[4..];
    assert f[4] == body[2] && f[5] == body[3];
  }
}
