/**
 The UBX parser makes no message up: what it completes is a whole frame of the bytes it
 has just seen.
 */
module UbxSound {
  import opened Bytes
  import opened Ubx

  predicate EndsWith(all: seq<byte>, end: seq<byte>) {
    |end| <= |all| && all[|all| - |end|..] == end
  }

  // What was checksummed of the frame under way.
  function SoFar(p: Parser): seq<byte>
    requires InBounds(p)
  {
    match p.phase
    case Sync1 => []
    case Sync2 => []
    case Class => []
    case Id => [p.cls]
    case Len1 => [p.cls, p.id]
    case Len2 => [p.cls, p.id, OfNat(p.len)]
    case _ => [p.cls, p.id] + LenBytes(p.len) + p.payload[..p.pos]
  }

  // The bytes of the frame under way, from its first sync byte on.
  function Seen(p: Parser): seq<byte>
    requires InBounds(p)
  {
    match p.phase
    case Sync1 => []
    case Sync2 => [0xB5]
    case CkB => [0xB5, 0x62] + SoFar(p) + [p.sums.a]
    case _ => [0xB5, 0x62] + SoFar(p)
  }

  // The running sums are those of what was checksummed.
  predicate Summed(p: Parser) {
    InBounds(p) && (p.phase == Sync1 || p.phase == Sync2 || p.sums == Checksum(SoFar(p)))
  }

  lemma SumsNext(b: seq<byte>, x: byte)
    ensures Checksum(b + [x]) == Add(Checksum(b), x)
  {
    FromSplit(Sums(0, 0), b, [x]);
    hide Add;
    assert [x][1..] == [];
    assert From(Checksum(b), [x]) == From(Add(Checksum(b), x), []);
  }

  // One byte of the head: it is added to what was seen, and to the sums.
  lemma HeadSeen(p: Parser, x: byte)
    requires Summed(p) && (p.phase == Class || p.phase == Id || p.phase == Len1)
    ensures var (q, done) := Take(p, x);
            Summed(q) && !done && q.phase != Sync1 && q.phase != Sync2 && Seen(q) == Seen(p) + [x]
  {
    SumsNext(SoFar(p), x);
    OfNatVal(x);
    hide Checksum; hide Add; hide Val; hide OfNat;
    var q := Take(p, x).0;
    assert SoFar(q) == SoFar(p) + [x];
  }

  // The two length bytes, the first of them noted as a number.
  lemma LengthIs(n: nat, x: byte)
    requires n < 256
    ensures n + 256 * Val(x) < 0x1_0000 && LenBytes(n + 256 * Val(x)) == [OfNat(n), x]
  {
    hide Val; hide OfNat; hide LenBytes;
    LenOnto(OfNat(n), x);
    assert LenOf(OfNat(n), x) == n + 256 * Val(x);
    hide LenOf;
  }

  lemma LengthSeen(p: Parser, x: byte)
    requires Summed(p) && p.phase == Len2
    ensures var (q, done) := Take(p, x);
            Summed(q) && !done && q.phase != Sync2 && (q.phase != Sync1 ==> Seen(q) == Seen(p) + [x])
  {
    hide Checksum; hide Add; hide Val; hide OfNat; hide LenBytes;
    LengthIs(p.len, x);
    SumsNext(SoFar(p), x);
    var q := Take(p, x).0;
    if q.phase != Sync1 {
      assert q.payload[..0] == [];
      assert [p.cls, p.id] + [OfNat(p.len), x] + [] == [p.cls, p.id, OfNat(p.len)] + [x];
    }
  }

  lemma PayloadSeen(p: Parser, x: byte)
    requires Summed(p) && p.phase == Payload
    ensures var (q, done) := Take(p, x);
            Summed(q) && !done && q.phase != Sync1 && q.phase != Sync2 && Seen(q) == Seen(p) + [x]
  {
    SumsNext(SoFar(p), x);
    hide Checksum; hide Add; hide Val; hide LenBytes;
    var q := Take(p, x).0;
    assert q.payload[..q.pos] == p.payload[..p.pos] + [x];
    assert SoFar(q) == SoFar(p) + [x];
  }

  lemma EndSeen(p: Parser, x: byte)
    requires Summed(p) && (p.phase == CkA || p.phase == CkB)
    ensures var (q, done) := Take(p, x);
            && Summed(q) && q.phase != Sync2 && (q.phase != Sync1 ==> Seen(q) == Seen(p) + [x])
            && (done ==> q.len <= MAX_PAYLOAD && Seen(p) + [x] == Frame(Got(q)))
  {
    hide Checksum; hide Add; hide Val; hide LenBytes;
  }

  lemma SyncSeen(p: Parser, x: byte)
    requires InBounds(p) && (p.phase == Sync1 || p.phase == Sync2)
    ensures var (q, done) := Take(p, x);
            && Summed(q) && !done
            && (q.phase != Sync1 ==> EndsWith(Seen(p) + [x], Seen(q)))
  {}

  lemma EndsMore(past: seq<byte>, seen: seq<byte>, x: byte)
    requires EndsWith(past, seen)
    ensures EndsWith(past + [x], seen + [x])
  {}

  lemma EndsShort(past: seq<byte>, long: seq<byte>, short: seq<byte>)
    requires EndsWith(past, long) && EndsWith(long, short)
    ensures EndsWith(past, short)
  {}

  // Any byte: what is seen stays the end of all that came, and a completed message is a
  // frame at that end.
  lemma TakeSeen(p: Parser, past: seq<byte>, x: byte)
    requires Summed(p) && EndsWith(past, Seen(p))
    ensures var (q, done) := Take(p, x);
            && Summed(q) && EndsWith(past + [x], Seen(q))
            && (done ==> q.len <= MAX_PAYLOAD && EndsWith(past + [x], Frame(Got(q))))
  {
    EndsMore(past, Seen(p), x);
    hide Take; hide Seen; hide Summed; hide EndsWith; hide Frame;
    var q := Take(p, x).0;
    match p.phase {
      case Sync1 => SyncSeen(p, x);
      case Sync2 => SyncSeen(p, x);
      case Class => HeadSeen(p, x);
      case Id => HeadSeen(p, x);
      case Len1 => HeadSeen(p, x);
      case Len2 => LengthSeen(p, x);
      case Payload => PayloadSeen(p, x);
      case CkA => EndSeen(p, x);
      case CkB => EndSeen(p, x);
    }
    if q.phase == Sync1 {
      NothingSeen(q, past + [x]);
    } else if EndsWith(Seen(p) + [x], Seen(q)) {
      EndsShort(past + [x], Seen(p) + [x], Seen(q));
    }
  }

  lemma NothingSeen(q: Parser, past: seq<byte>)
    requires InBounds(q) && q.phase == Sync1
    ensures EndsWith(past, Seen(q))
  {}

  lemma {:induction false} RunSeen(p: Parser, past: seq<byte>, bytes: seq<byte>)
    requires Summed(p) && EndsWith(past, Seen(p))
    ensures var q := Run(p, bytes).0; Summed(q) && EndsWith(past + bytes, Seen(q))
    decreases |bytes|
  {
    hide Take; hide Seen; hide Summed; hide EndsWith; hide InBounds;
    SummedBounds(p);
    if bytes == [] {
      assert past + bytes == past;
    } else {
      TakeSeen(p, past, bytes[0]);
      var next := Take(p, bytes[0]).0;
      RunSeen(next, past + [bytes[0]], bytes[1..]);
      assert past + [bytes[0]] + bytes[1..] == past + bytes;
    }
  }

  lemma SummedBounds(p: Parser)
    requires Summed(p)
    ensures InBounds(p)
  {}

  // From its start, whatever comes: when the parser completes a message at a byte, the
  // bytes up to there end with the frame of that message, checksum and all.
  lemma CompletedIsFrame(p: Parser, bytes: seq<byte>, x: byte)
    requires InBounds(p) && p.phase == Sync1
    ensures var (q, done) := Run(p, bytes + [x]);
            done[|bytes|] ==> q.len <= MAX_PAYLOAD && EndsWith(bytes + [x], Frame(Got(q)))
  {
    NothingSeen(p, []);
    assert Summed(p);
    RunSeen(p, [], bytes);
    assert [] + bytes == bytes;
    RunSplit(p, bytes, [x]);
    var before := Run(p, bytes).0;
    RunOne(before, x);
    TakeSeen(before, bytes, x);
    hide Run; hide Take; hide Seen; hide Summed; hide EndsWith; hide InBounds;
  }

  // Bytes without a first sync byte leave the parser at its start.
  lemma {:induction false} NoiseSkipped(p: Parser, noise: seq<byte>)
    requires InBounds(p) && p.phase == Sync1 && 0xB5 !in noise
    ensures Run(p, noise) == (p, Nones(|noise|))
    decreases |noise|
  {
    hide InBounds;
    if noise != [] {
      assert noise[0] in noise && forall x :: x in noise[1..] ==> x in noise;
      NoiseSkipped(p, noise[1..]);
      assert [false] + Nones(|noise| - 1) == Nones(|noise|);
    }
  }
}
