/**
 Packing and unpacking as the code does it: a writer and a reader that advance over
 the data bytes of a frame. They are proved against the functions of Codec.
 */
module Cursor {
  import opened Bytes
  import opened Codec

  const FIXED_MAX := IMU_LEN

  // ---- Words in pieces ----

  lemma {:induction false} WordsConcat(a: seq<bv32>, b: seq<bv32>)
    ensures Words(a + b) == Words(a) + Words(b)
    decreases |a|
  {
    hide U32;
    if a == [] {
      assert a + b == b;
    } else {
      WordsConcat(a[1..], b);
      assert (a + b)[1..] == a[1..] + b;
      Assoc(U32(a[0]), Words(a[1..]), Words(b));
    }
  }

  lemma WordsOne(w: bv32)
    ensures Words([w]) == U32(w)
  {
    hide U32;
    assert Words([w]) == U32(w) + Words([]);
  }

  lemma {:induction false} ReadWordsSplit(b: seq<byte>, n: nat, k: nat)
    requires k <= n && |b| == 4 * n
    ensures ReadWords(b, n) == ReadWords(b[..4 * k], k) + ReadWords(b[4 * k..], n - k)
    decreases k
  {
    hide ToU32;
    if k == 0 {
      assert b[4 * k..] == b;
    } else {
      ReadWordsSplit(b[4..], n - 1, k - 1);
      FirstWord(b, 4 * k);
    }
  }

  lemma FirstWord(b: seq<byte>, m: nat)
    requires 4 <= m <= |b|
    ensures b[..m][..4] == b[..4] && b[..m][4..] == b[4..][..m - 4] && b[4..][m - 4..] == b[m..]
  {}

  // ---- The writer ----

  class Writer {
    const buf: array<byte>
    var pos: nat

    ghost predicate Valid()
      reads this
    {
      pos <= buf.Length
    }

    ghost function Written(): seq<byte>
      requires Valid()
      reads this, buf
    {
      buf[..pos]
    }

    constructor (size: nat)
      ensures Valid() && fresh(buf) && buf.Length == size && pos == 0 && Written() == []
    {
      buf := new byte[size];
      pos := 0;
    }

    method PutU8(v: byte)
      requires Valid() && pos + 1 <= buf.Length
      modifies this, buf
      ensures Valid() && pos == old(pos) + 1 && Written() == old(Written()) + [v]
    {
      buf[pos] := v;
      pos := pos + 1;
    }

    method PutU16(v: bv16)
      requires Valid() && pos + 2 <= buf.Length
      modifies this, buf
      ensures Valid() && pos == old(pos) + 2 && Written() == old(Written()) + U16(v)
    {
      ghost var was := Written();
      PutU8((v & 0xFF) as byte);
      PutU8((v >> 8) as byte);
      assert Written() == was + U16(v);
    }

    method PutU32(v: bv32)
      requires Valid() && pos + 4 <= buf.Length
      modifies this, buf
      ensures Valid() && pos == old(pos) + 4 && Written() == old(Written()) + U32(v)
    {
      hide U16;
      ghost var was := Written();
      PutU16((v & 0xFFFF) as bv16);
      PutU16((v >> 16) as bv16);
      Assoc(was, U16((v & 0xFFFF) as bv16), U16((v >> 16) as bv16));
    }

    method PutU64(v: bv64)
      requires Valid() && pos + 8 <= buf.Length
      modifies this, buf
      ensures Valid() && pos == old(pos) + 8 && Written() == old(Written()) + U64(v)
    {
      hide U32;
      ghost var was := Written();
      PutU32((v & 0xFFFF_FFFF) as bv32);
      PutU32((v >> 32) as bv32);
      Assoc(was, U32((v & 0xFFFF_FFFF) as bv32), U32((v >> 32) as bv32));
    }

    // Floats and signed integers go as their 32 bits.
    method PutWords(ws: seq<bv32>)
      requires Valid() && pos + 4 * |ws| <= buf.Length
      modifies this, buf
      ensures Valid() && pos == old(pos) + 4 * |ws| && Written() == old(Written()) + Words(ws)
    {
      hide U32;
      ghost var was := Written();
      for i := 0 to |ws|
        invariant Valid() && pos == old(pos) + 4 * i
        invariant Written() == was + Words(ws[..i])
      {
        PutU32(ws[i]);
        assert ws[..i + 1] == ws[..i] + [ws[i]];
        WordsConcat(ws[..i], [ws[i]]);
        WordsOne(ws[i]);
        Assoc(was, Words(ws[..i]), U32(ws[i]));
      }
      assert ws[..|ws|] == ws;
    }

    method PackImu(s: ImuSample)
      requires Valid() && pos == 0 && IMU_LEN <= buf.Length
      modifies this, buf
      ensures Valid() && Written() == Codec.PackImu(s)
    {
      hide U32; hide U64; hide Words; hide ImuWords; hide Codec.PackImu;
      PutU64(s.timestampUs);
      PutWords(s.accel);
      PutWords(s.gyro);
      PutWords(s.mag);
      PutU32(s.temp);
      PutWords(s.quat);
      PutU32(s.roll);
      PutU32(s.pitch);
      PutU32(s.yaw);
      PutU32(s.valid);
      PutU8(s.cal.sys);
      PutU8(s.cal.accel);
      PutU8(s.cal.gyro);
      PutU8(s.cal.mag);
      ImuPieces(s);
    }

    method PackGps(f: GpsFix)
      requires Valid() && pos == 0 && GPS_LEN <= buf.Length
      modifies this, buf
      ensures Valid() && Written() == Codec.PackGps(f)
    {
      hide U16; hide U32; hide Words; hide Codec.PackGps;
      PutU32(f.lat);
      PutU32(f.lon);
      PutU32(f.heightMm);
      PutU32(f.gspeedMmS);
      PutU32(f.heading1e5);
      PutU8(f.fixType);
      PutU8(f.numSv);
      PutU16(f.year);
      PutU8(f.month);
      PutU8(f.day);
      PutU8(f.hour);
      PutU8(f.min);
      PutU8(f.sec);
      PutU8(f.valid);
      GpsPieces(f);
    }

    method PackCan(f: CanFrame) returns (ok: bool)
      requires Valid() && pos == 0 && CAN_HEAD_LEN + 8 <= buf.Length
      modifies this, buf
      ensures Valid() && ok == Codec.PackCan(f).Some?
      ensures ok ==> Written() == Codec.PackCan(f).value
    {
      hide U32; hide Flags;
      if Val(f.dlc) > 8 {
        return false;
      }
      hide Val; hide Codec.PackCan;
      PutU32(f.id);
      PutU8(Flags(f.ext, f.rtr));
      PutU8(f.dlc);
      CanPieces(f);
      Put(buf, pos, f.data[..Val(f.dlc)]);
      pos := pos + Val(f.dlc);
      return true;
    }
  }

  // The pieces as they are put, one after the other.

  lemma Regroup(t: seq<byte>, a: seq<byte>, g: seq<byte>, m: seq<byte>, x: seq<byte>, q: seq<byte>,
                r: seq<byte>, p: seq<byte>, y: seq<byte>, v: seq<byte>)
    ensures [] + t + a + g + m + x + q + r + p + y + v == t + (a + g + m + x + q + (r + p + y + v))
  {
    assert [] + t == t;
    Assoc(t, a, g);
    Assoc(t, a + g, m);
    Assoc(t, a + g + m, x);
    Assoc(t, a + g + m + x, q);
    var h := t + (a + g + m + x + q);
    Assoc(h, r, p);
    Assoc(h, r + p, y);
    Assoc(h, r + p + y, v);
    Assoc(t, a + g + m + x + q, r + p + y + v);
  }

  lemma FourBytes(h: seq<byte>, a: byte, b: byte, c: byte, d: byte)
    ensures h + [a] + [b] + [c] + [d] == h + [a, b, c, d]
  {}

  lemma ImuPieces(s: ImuSample)
    ensures [] + U64(s.timestampUs) + Words(s.accel) + Words(s.gyro) + Words(s.mag) + U32(s.temp) + Words(s.quat)
            + U32(s.roll) + U32(s.pitch) + U32(s.yaw) + U32(s.valid)
            + [s.cal.sys] + [s.cal.accel] + [s.cal.gyro] + [s.cal.mag] == PackImu(s)
  {
    hide U32; hide U64; hide Words;
    var t, w := U64(s.timestampUs), Words(ImuWords(s));
    ImuWordPieces(s);
    Regroup(t, Words(s.accel), Words(s.gyro), Words(s.mag), U32(s.temp), Words(s.quat),
            U32(s.roll), U32(s.pitch), U32(s.yaw), U32(s.valid));
    FourBytes(t + w, s.cal.sys, s.cal.accel, s.cal.gyro, s.cal.mag);
    hide ImuWords;
  }

  lemma ImuWordPieces(s: ImuSample)
    ensures Words(ImuWords(s)) == Words(s.accel) + Words(s.gyro) + Words(s.mag) + U32(s.temp) + Words(s.quat)
            + (U32(s.roll) + U32(s.pitch) + U32(s.yaw) + U32(s.valid))
  {
    hide U32; hide Words;
    var last := [s.roll, s.pitch, s.yaw, s.valid];
    WordsConcat(s.accel, s.gyro);
    WordsConcat(s.accel + s.gyro, s.mag);
    WordsConcat(s.accel + s.gyro + s.mag, [s.temp]);
    WordsConcat(s.accel + s.gyro + s.mag + [s.temp], s.quat);
    WordsConcat(s.accel + s.gyro + s.mag + [s.temp] + s.quat, last);
    WordsOne(s.temp);
    FourWords(s.roll, s.pitch, s.yaw, s.valid);
  }

  lemma FourWords(a: bv32, b: bv32, c: bv32, d: bv32)
    ensures Words([a, b, c, d]) == U32(a) + U32(b) + U32(c) + U32(d)
  {
    hide U32; hide Words;
    WordsOne(a);
    WordsOne(b);
    WordsOne(c);
    WordsOne(d);
    WordsConcat([a], [b]);
    WordsConcat([a] + [b], [c]);
    WordsConcat([a] + [b] + [c], [d]);
    assert [a, b, c, d] == [a] + [b] + [c] + [d];
  }

  lemma FiveWords(a: bv32, b: bv32, c: bv32, d: bv32, e: bv32)
    ensures Words([a, b, c, d, e]) == U32(a) + U32(b) + U32(c) + U32(d) + U32(e)
  {
    hide U32; hide Words;
    FourWords(a, b, c, d);
    WordsOne(e);
    WordsConcat([a, b, c, d], [e]);
    assert [a, b, c, d] + [e] == [a, b, c, d, e];
  }

  lemma SixBytes(h: seq<byte>, a: byte, b: byte, c: byte, d: byte, e: byte, f: byte)
    ensures h + [a] + [b] + [c] + [d] + [e] + [f] == h + [a, b, c, d, e, f]
  {
    FourBytes(h, a, b, c, d);
    Assoc(h, [a, b, c, d], [e]);
    Assoc(h, [a, b, c, d] + [e], [f]);
    assert [a, b, c, d] + [e] + [f] == [a, b, c, d, e, f];
  }

  lemma GpsPieces(f: GpsFix)
    ensures [] + U32(f.lat) + U32(f.lon) + U32(f.heightMm) + U32(f.gspeedMmS) + U32(f.heading1e5)
            + [f.fixType] + [f.numSv] + U16(f.year) + [f.month] + [f.day] + [f.hour] + [f.min] + [f.sec] + [f.valid]
            == PackGps(f)
  {
    hide U16; hide U32; hide Words;
    var w := Words([f.lat, f.lon, f.heightMm, f.gspeedMmS, f.heading1e5]);
    FiveWords(f.lat, f.lon, f.heightMm, f.gspeedMmS, f.heading1e5);
    assert [] + U32(f.lat) == U32(f.lat);
    Assoc(w, [f.fixType], [f.numSv]);
    assert [f.fixType] + [f.numSv] == [f.fixType, f.numSv];
    SixBytes(w + [f.fixType, f.numSv] + U16(f.year), f.month, f.day, f.hour, f.min, f.sec, f.valid);
  }

  lemma CanPieces(f: CanFrame)
    requires Val(f.dlc) <= 8
    ensures [] + U32(f.id) + [Flags(f.ext, f.rtr)] + [f.dlc] + f.data[..Val(f.dlc)] == PackCan(f).value
  {
    hide U32; hide Flags; hide Val;
  }

  // The data of a message, in a buffer of the largest fixed length. Text is not packed
  // here.
  method PackData(typ: byte, m: Message) returns (data: Option<seq<byte>>)
    requires Fits(KindOf(typ), m) && KindOf(typ) != TextKind
    ensures data == Pack(typ, m)
  {
    hide U16; hide U32; hide PackImu; hide PackGps; hide PackCan; hide KindOf; hide CarriesSamples;
    var w := new Writer(FIXED_MAX);
    match KindOf(typ) {
      case ImuKind => w.PackImu(m.sample);
      case GpsKind => w.PackGps(m.fix);
      case CanKind =>
        var ok := w.PackCan(m.frame);
        if !ok {
          return None;
        }
      case ReplyKind =>
        w.PutU8(m.what);
        w.PutU32(m.replyId);
        w.PutU8(m.result);
        assert [] + [m.what] + U32(m.replyId) + [m.result] == [m.what] + U32(m.replyId) + [m.result];
      case CommandKind =>
        w.PutU8(m.commandId);
        assert [] + [m.commandId] == [m.commandId];
        if CarriesSamples(m.commandId, m.samples) {
          w.PutU16(m.samples);
        }
      case SettingKind =>
        w.PutU8(m.settingId);
        w.PutU32(m.bits);
        assert [] + [m.settingId] == [m.settingId];
      case AckKind =>
        w.PutU8(m.counter);
        assert [] + [m.counter] == [m.counter];
      case Unknown => return None;
    }
    return Some(w.buf[..w.pos]);
  }

  // ---- The reader ----

  function Join16(lo: bv16, hi: bv16): bv32 {
    (lo as bv32) | ((hi as bv32) << 16)
  }

  function Join32(lo: bv32, hi: bv32): bv64 {
    (lo as bv64) | ((hi as bv64) << 32)
  }

  lemma JoinsU32(b: seq<byte>)
    requires |b| == 4
    ensures ToU32(b) == Join16(ToU16(b[0], b[1]), ToU16(b[2], b[3]))
  {
    hide ToU16;
  }

  lemma JoinsU64(b: seq<byte>)
    requires |b| == 8
    ensures ToU64(b) == Join32(ToU32(b[..4]), ToU32(b[4..]))
  {
    hide ToU32;
  }

  // The next n bytes, with zeros past the end, and what is left after them.
  function Upto(b: seq<byte>, n: nat): (p: seq<byte>)
    ensures |p| == n
  {
    if n <= |b| then b[..n] else b + Zeros(n - |b|)
  }

  function Past(b: seq<byte>, n: nat): seq<byte> {
    if n <= |b| then b[n..] else []
  }

  lemma UptoSplit(b: seq<byte>, n: nat, m: nat)
    ensures Upto(b, n + m) == Upto(b, n) + Upto(Past(b, n), m)
    ensures Past(b, n + m) == Past(Past(b, n), m)
  {
    if n > |b| {
      assert Zeros(n + m - |b|) == Zeros(n - |b|) + Zeros(m);
    }
  }

  // The bytes that are left; past the end it gives zeros.
  class Reader {
    var rest: seq<byte>

    constructor (data: seq<byte>)
      ensures rest == data
    {
      rest := data;
    }

    method GetU8() returns (v: byte)
      modifies this
      ensures old(rest) == [] ==> v == 0 && rest == []
      ensures old(rest) != [] ==> v == old(rest)[0] && rest == old(rest)[1..]
    {
      if |rest| == 0 {
        return 0;
      }
      v := rest[0];
      rest := rest[1..];
    }

    method GetU16() returns (v: bv16)
      modifies this
      ensures var p := Upto(old(rest), 2); v == ToU16(p[0], p[1])
      ensures rest == Past(old(rest), 2)
    {
      hide ToU16;
      var lo := GetU8();
      var hi := GetU8();
      v := ToU16(lo, hi);
    }

    method GetU32() returns (v: bv32)
      modifies this
      ensures v == ToU32(Upto(old(rest), 4)) && rest == Past(old(rest), 4)
    {
      hide ToU16; hide ToU32; hide Join16; hide Upto; hide Past;
      JoinsU32(Upto(rest, 4));
      UptoSplit(rest, 2, 2);
      var lo := GetU16();
      var hi := GetU16();
      v := Join16(lo, hi);
    }

    method GetU64() returns (v: bv64)
      modifies this
      ensures v == ToU64(Upto(old(rest), 8)) && rest == Past(old(rest), 8)
    {
      hide ToU32; hide ToU64; hide Join32; hide Upto; hide Past;
      ghost var p := Upto(rest, 8);
      JoinsU64(p);
      UptoSplit(rest, 4, 4);
      assert p[..4] == Upto(rest, 4) && p[4..] == Upto(Past(rest, 4), 4);
      var lo := GetU32();
      var hi := GetU32();
      v := Join32(lo, hi);
    }

    method GetWords(n: nat) returns (ws: seq<bv32>)
      modifies this
      ensures ws == ReadWords(Upto(old(rest), 4 * n), n) && rest == Past(old(rest), 4 * n)
    {
      ghost var b := rest;
      ws := [];
      EmptyWords(Upto(b, 0));
      assert rest == Past(b, 0);
      hide ToU32; hide ReadWords; hide Upto; hide Past;
      for i := 0 to n
        invariant rest == Past(b, 4 * i) && ws == ReadWords(Upto(b, 4 * i), i)
      {
        var w := GetU32();
        ws := ws + [w];
        WordAfter(b, i);
      }
    }

    method UnpackImu() returns (s: Option<ImuSample>)
      modifies this
      ensures s == Codec.UnpackImu(old(rest))
    {
      if |rest| != IMU_LEN {
        return None;
      }
      hide ToU64; hide ReadWords; hide Upto; hide Past; hide Codec.UnpackImu;
      ghost var b := rest;
      ImuSteps(b);
      ImuPiecesOf(b);
      var timestampUs := GetU64();
      var accel := GetWords(3);
      var gyro := GetWords(3);
      var mag := GetWords(3);
      var temp := GetWords(1);
      var quat := GetWords(4);
      var angles := GetWords(3);
      var valid := GetWords(1);
      var sys := GetU8();
      var accelCal := GetU8();
      var gyroCal := GetU8();
      var magCal := GetU8();
      return Some(ImuSample(timestampUs, accel, gyro, mag, temp[0], quat, angles[0], angles[1], angles[2], valid[0],
                            CalStatus(sys, accelCal, gyroCal, magCal)));
    }

    method UnpackGps() returns (f: Option<GpsFix>)
      modifies this
      ensures f == Codec.UnpackGps(old(rest))
    {
      if |rest| != GPS_LEN {
        return None;
      }
      hide ToU16; hide ReadWords;
      ghost var b := rest;
      var ws := GetWords(5);
      var fixType := GetU8();
      var numSv := GetU8();
      var year := GetU16();
      var month := GetU8();
      var day := GetU8();
      var hour := GetU8();
      var min := GetU8();
      var sec := GetU8();
      var valid := GetU8();
      return Some(GpsFix(ws[0], ws[1], ws[2], ws[3], ws[4], fixType, numSv, year, month, day, hour, min, sec, valid));
    }

    method UnpackCan() returns (f: Option<CanFrame>)
      modifies this
      ensures f == Codec.UnpackCan(old(rest))
    {
      hide ToU32; hide HasExt; hide HasRtr; hide Val; hide Zeros;
      if |rest| < CAN_HEAD_LEN {
        return None;
      }
      ghost var b := rest;
      var id := GetU32();
      var flags := GetU8();
      var dlc := GetU8();
      var n := Val(dlc);
      if n > 8 || |rest| != n {
        return None;
      }
      var data := Zeros(8);
      assert data == b[6..6] + Zeros(8);
      for i := 0 to n
        invariant rest == b[6 + i..] && |data| == 8
        invariant data == b[6..6 + i] + Zeros(8 - i)
      {
        var v := GetU8();
        data := data[i := v];
        CanByte(b, i);
      }
      assert b[6..6 + n] == b[6..];
      return Some(CanFrame(id, HasExt(flags), HasRtr(flags), dlc, data));
    }
  }

  lemma CanByte(b: seq<byte>, i: nat)
    requires i < 8 && 6 + i < |b|
    ensures (b[6..6 + i] + Zeros(8 - i))[i := b[6 + i]] == b[6..6 + i + 1] + Zeros(8 - i - 1)
  {}

  // Where the reads of a sample begin.
  lemma ImuSteps(b: seq<byte>)
    requires |b| == IMU_LEN
    ensures Upto(b, 8) == b[..8] && Past(Past(b, 8), 12) == Past(b, 20) && Past(Past(b, 20), 12) == Past(b, 32)
    ensures Past(Past(b, 32), 12) == Past(b, 44) && Past(Past(b, 44), 4) == Past(b, 48)
    ensures Past(Past(b, 48), 16) == Past(b, 64) && Past(Past(b, 64), 12) == Past(b, 76)
    ensures Past(Past(b, 76), 4) == b[80..]
  {
    assert Upto(b, 8) == b[..8] && Past(b, 80) == b[80..];
    hide Upto; hide Past;
    UptoSplit(b, 8, 12);
    UptoSplit(b, 20, 12);
    UptoSplit(b, 32, 12);
    UptoSplit(b, 44, 4);
    UptoSplit(b, 48, 16);
    UptoSplit(b, 64, 12);
    UptoSplit(b, 76, 4);
  }

  lemma ImuPiecesOf(b: seq<byte>)
    requires |b| == IMU_LEN
    ensures Codec.UnpackImu(b) ==
            Some(ImuSample(ToU64(Upto(b, 8)),
                           ReadWords(Upto(Past(b, 8), 12), 3),
                           ReadWords(Upto(Past(b, 20), 12), 3),
                           ReadWords(Upto(Past(b, 32), 12), 3),
                           ReadWords(Upto(Past(b, 44), 4), 1)[0],
                           ReadWords(Upto(Past(b, 48), 16), 4),
                           ReadWords(Upto(Past(b, 64), 12), 3)[0],
                           ReadWords(Upto(Past(b, 64), 12), 3)[1],
                           ReadWords(Upto(Past(b, 64), 12), 3)[2],
                           ReadWords(Upto(Past(b, 76), 4), 1)[0],
                           CalStatus(b[80], b[81], b[82], b[83])))
  {
    hide ToU64; hide ReadWords; hide Upto; hide Past;
    ImuSteps(b);
    ImuSlices(b);
  }

  // The words of a sample as they are read, piece by piece.
  lemma ImuSlices(b: seq<byte>)
    requires |b| == IMU_LEN
    ensures var ws := ReadWords(b[8..80], IMU_WORDS);
            && ws[0..3] == ReadWords(Upto(Past(b, 8), 12), 3)
            && ws[3..6] == ReadWords(Upto(Past(b, 20), 12), 3)
            && ws[6..9] == ReadWords(Upto(Past(b, 32), 12), 3)
            && ws[9..10] == ReadWords(Upto(Past(b, 44), 4), 1)
            && ws[10..14] == ReadWords(Upto(Past(b, 48), 16), 4)
            && ws[14..17] == ReadWords(Upto(Past(b, 64), 12), 3)
            && ws[17..18] == ReadWords(Upto(Past(b, 76), 4), 1)
  {
    hide ReadWords; hide Upto; hide Past;
    ImuSlice(b, 0, 3);
    ImuSlice(b, 3, 3);
    ImuSlice(b, 6, 3);
    ImuSlice(b, 9, 1);
    ImuSlice(b, 10, 4);
    ImuSlice(b, 14, 3);
    ImuSlice(b, 17, 1);
  }

  lemma ImuSlice(b: seq<byte>, i: nat, k: nat)
    requires |b| == IMU_LEN && i + k <= IMU_WORDS
    ensures ReadWords(b[8..80], IMU_WORDS)[i..i + k] == ReadWords(Upto(Past(b, 8 + 4 * i), 4 * k), k)
  {
    hide ReadWords;
    WordsAt(b[8..80], IMU_WORDS, i, k);
    SliceOfSlice(b, 8, 80, 4 * i, 4 * (i + k));
    assert Upto(Past(b, 8 + 4 * i), 4 * k) == b[8 + 4 * i..8 + 4 * (i + k)];
  }

  lemma WordsAt(b: seq<byte>, n: nat, i: nat, k: nat)
    requires |b| == 4 * n && i + k <= n
    ensures ReadWords(b, n)[i..i + k] == ReadWords(b[4 * i..4 * (i + k)], k)
  {
    hide ReadWords;
    ReadWordsSplit(b, n, i);
    ReadWordsSplit(b[4 * i..], n - i, k);
    assert b[4 * i..][..4 * k] == b[4 * i..4 * (i + k)];
  }

  lemma EmptyWords(b: seq<byte>)
    requires b == []
    ensures ReadWords(b, 0) == []
  {}

  lemma WordAfter(b: seq<byte>, i: nat)
    ensures ReadWords(Upto(b, 4 * (i + 1)), i + 1) ==
            ReadWords(Upto(b, 4 * i), i) + [ToU32(Upto(Past(b, 4 * i), 4))]
    ensures Past(b, 4 * (i + 1)) == Past(Past(b, 4 * i), 4)
  {
    hide ToU32; hide Upto; hide Past;
    UptoSplit(b, 4 * i, 4);
    var c, d := Upto(b, 4 * (i + 1)), Upto(Past(b, 4 * i), 4);
    ReadWordsSplit(c, i + 1, i);
    assert c[..4 * i] == Upto(b, 4 * i) && c[4 * i..] == d;
    assert d[..4] == d;
    assert ReadWords(d, 1) == [ToU32(d[..4])] + ReadWords(d[4..], 0);
  }

  // The message in the data of a frame of a known type.
  method UnpackData(typ: byte, data: seq<byte>) returns (m: Option<Message>)
    requires KindOf(typ) != Unknown
    ensures m == Unpack(typ, data)
  {
    hide ToU16; hide ToU32; hide UnpackImu; hide UnpackGps; hide UnpackCan; hide KindOf;
    var r := new Reader(data);
    match KindOf(typ) {
      case ImuKind =>
        var s := r.UnpackImu();
        return if s.Some? then Some(Imu(s.value)) else None;
      case GpsKind =>
        var f := r.UnpackGps();
        return if f.Some? then Some(Gps(f.value)) else None;
      case CanKind =>
        var f := r.UnpackCan();
        return if f.Some? then Some(Can(f.value)) else None;
      case TextKind =>
        if |data| < 2 {
          return None;
        }
        var severity := r.GetU8();
        var source := r.GetU8();
        return Some(Text(severity, source, r.rest));
      case ReplyKind =>
        if |data| != 6 {
          return None;
        }
        var what := r.GetU8();
        var id := r.GetU32();
        var result := r.GetU8();
        assert data[1..][..4] == data[1..5];
        return Some(Reply(what, id, result));
      case CommandKind =>
        if |data| != 1 && |data| != 3 {
          return None;
        }
        var id := r.GetU8();
        if |data| == 1 {
          return Some(Command(id, 0));
        }
        var samples := r.GetU16();
        return Some(Command(id, samples));
      case SettingKind =>
        if |data| != 5 {
          return None;
        }
        var id := r.GetU8();
        var bits := r.GetU32();
        assert data[1..][..4] == data[1..5];
        return Some(Setting(id, bits));
      case AckKind =>
        if |data| != 1 {
          return None;
        }
        var counter := r.GetU8();
        return Some(TextAck(counter));
    }
  }
}
