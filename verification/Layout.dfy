/**
 The data of every message byte by byte: each number at its place, low byte first.
 */
module Layout {
  import opened Bytes
  import opened Codec

  // The four bytes of a word, and the eight of a time.
  predicate WordAt(b: seq<byte>, at: nat, w: bv32) {
    && at + 4 <= |b|
    && b[at] == (w % 256) as byte && b[at + 1] == (w / 0x100 % 256) as byte
    && b[at + 2] == (w / 0x1_0000 % 256) as byte && b[at + 3] == (w / 0x100_0000) as byte
  }

  predicate TimeAt(b: seq<byte>, t: bv64) {
    && 8 <= |b|
    && b[0] == (t % 256) as byte && b[1] == (t / 0x100 % 256) as byte
    && b[2] == (t / 0x1_0000 % 256) as byte && b[3] == (t / 0x100_0000 % 256) as byte
    && b[4] == (t / 0x1_0000_0000 % 256) as byte && b[5] == (t / 0x100_0000_0000 % 256) as byte
    && b[6] == (t / 0x1_0000_0000_0000 % 256) as byte && b[7] == (t / 0x100_0000_0000_0000) as byte
  }

  lemma U32At(b: seq<byte>, at: nat, w: bv32)
    requires at + 4 <= |b| && b[at..at + 4] == U32(w)
    ensures WordAt(b, at, w)
  {
    U32Digits(w);
    hide U32;
    assert b[at..at + 4][0] == b[at] && b[at..at + 4][1] == b[at + 1];
    assert b[at..at + 4][2] == b[at + 2] && b[at..at + 4][3] == b[at + 3];
  }

  lemma U64At(b: seq<byte>, t: bv64)
    requires 8 <= |b| && b[..8] == U64(t)
    ensures TimeAt(b, t)
  {
    U64Digits(t);
    hide U64;
  }

  // Words in a row, wherever they start.
  lemma {:induction false} WordsAt(b: seq<byte>, at: nat, ws: seq<bv32>, i: nat)
    requires at + 4 * |ws| <= |b| && b[at..at + 4 * |ws|] == Words(ws) && i < |ws|
    ensures WordAt(b, at + 4 * i, ws[i])
    decreases i
  {
    hide U32; hide WordAt;
    var all := b[at..at + 4 * |ws|];
    assert Words(ws) == U32(ws[0]) + Words(ws[1..]);
    if i == 0 {
      SliceOfSlice(b, at, at + 4 * |ws|, 0, 4);
      assert all[..4] == U32(ws[0]);
      U32At(b, at, ws[0]);
    } else {
      SliceOfSlice(b, at, at + 4 * |ws|, 4, 4 * |ws|);
      assert all[4..] == Words(ws[1..]);
      WordsAt(b, at + 4, ws[1..], i - 1);
    }
  }

  // ---- The messages ----

  lemma ImuBytes(s: ImuSample)
    ensures var b := PackImu(s);
            && |b| == 84 && TimeAt(b, s.timestampUs)
            && WordAt(b, 8, s.accel[0]) && WordAt(b, 12, s.accel[1]) && WordAt(b, 16, s.accel[2])
            && WordAt(b, 20, s.gyro[0]) && WordAt(b, 24, s.gyro[1]) && WordAt(b, 28, s.gyro[2])
            && WordAt(b, 32, s.mag[0]) && WordAt(b, 36, s.mag[1]) && WordAt(b, 40, s.mag[2])
            && WordAt(b, 44, s.temp)
            && WordAt(b, 48, s.quat[0]) && WordAt(b, 52, s.quat[1])
            && WordAt(b, 56, s.quat[2]) && WordAt(b, 60, s.quat[3])
            && WordAt(b, 64, s.roll) && WordAt(b, 68, s.pitch) && WordAt(b, 72, s.yaw)
            && WordAt(b, 76, s.valid)
            && b[80] == s.cal.sys && b[81] == s.cal.accel && b[82] == s.cal.gyro && b[83] == s.cal.mag
  {
    hide WordAt; hide TimeAt; hide U64; hide Words;
    var b, ws := PackImu(s), ImuWords(s);
    assert b[..8] == U64(s.timestampUs);
    assert b[8..80] == Words(ws);
    U64At(b, s.timestampUs);
    forall i | 0 <= i < 18 ensures WordAt(b, 8 + 4 * i, ws[i]) { WordsAt(b, 8, ws, i); }
    assert WordAt(b, 8 + 4 * 0, ws[0]) && WordAt(b, 8 + 4 * 1, ws[1]) && WordAt(b, 8 + 4 * 2, ws[2]);
    assert WordAt(b, 8 + 4 * 3, ws[3]) && WordAt(b, 8 + 4 * 4, ws[4]) && WordAt(b, 8 + 4 * 5, ws[5]);
    assert WordAt(b, 8 + 4 * 6, ws[6]) && WordAt(b, 8 + 4 * 7, ws[7]) && WordAt(b, 8 + 4 * 8, ws[8]);
    assert WordAt(b, 8 + 4 * 9, ws[9]) && WordAt(b, 8 + 4 * 10, ws[10]) && WordAt(b, 8 + 4 * 11, ws[11]);
    assert WordAt(b, 8 + 4 * 12, ws[12]) && WordAt(b, 8 + 4 * 13, ws[13]) && WordAt(b, 8 + 4 * 14, ws[14]);
    assert WordAt(b, 8 + 4 * 15, ws[15]) && WordAt(b, 8 + 4 * 16, ws[16]) && WordAt(b, 8 + 4 * 17, ws[17]);
  }

  lemma GpsBytes(f: GpsFix)
    ensures var b := PackGps(f);
            && |b| == 30
            && WordAt(b, 0, f.lat) && WordAt(b, 4, f.lon) && WordAt(b, 8, f.heightMm)
            && WordAt(b, 12, f.gspeedMmS) && WordAt(b, 16, f.heading1e5)
            && b[20] == f.fixType && b[21] == f.numSv
            && b[22] == (f.year % 256) as byte && b[23] == (f.year / 256) as byte
            && b[24] == f.month && b[25] == f.day && b[26] == f.hour && b[27] == f.min && b[28] == f.sec
            && b[29] == f.valid
  {
    U16Digits(f.year);
    hide WordAt; hide U16; hide Words;
    var b, ws := PackGps(f), [f.lat, f.lon, f.heightMm, f.gspeedMmS, f.heading1e5];
    assert b[0..20] == Words(ws);
    forall i | 0 <= i < 5 ensures WordAt(b, 4 * i, ws[i]) { WordsAt(b, 0, ws, i); }
    assert WordAt(b, 4 * 0, ws[0]) && WordAt(b, 4 * 1, ws[1]) && WordAt(b, 4 * 2, ws[2]);
    assert WordAt(b, 4 * 3, ws[3]) && WordAt(b, 4 * 4, ws[4]);
  }

  // A CAN frame of at most eight bytes; a longer one is not sent.
  lemma CanBytes(f: CanFrame)
    ensures PackCan(f).Some? <==> Val(f.dlc) <= 8
    ensures PackCan(f).Some? ==>
              var b := PackCan(f).value;
              && |b| == 6 + Val(f.dlc) && WordAt(b, 0, f.id)
              && b[4] == (if f.ext && f.rtr then 3 else if f.ext then 1 else if f.rtr then 2 else 0)
              && b[5] == f.dlc && b[6..] == f.data[..Val(f.dlc)]
  {
    FlagValues(f.ext, f.rtr);
    hide WordAt; hide U32; hide Val; hide Flags;
    if PackCan(f).Some? {
      var b := PackCan(f).value;
      assert b[0..4] == U32(f.id);
      U32At(b, 0, f.id);
    }
  }

  lemma FlagValues(ext: bool, rtr: bool)
    ensures Flags(ext, rtr) == if ext && rtr then 3 else if ext then 1 else if rtr then 2 else 0
  {
    if ext {} else if rtr {}
  }

  lemma TextBytes(severity: byte, source: byte, text: seq<byte>)
    ensures Pack(0x06, Text(severity, source, text)) == Some([severity, source] + text)
  {}

  lemma ReplyBytes(what: byte, id: bv32, result: byte)
    ensures var p := Pack(0x07, Reply(what, id, result));
            p.Some? && |p.value| == 6 && p.value[0] == what && WordAt(p.value, 1, id) && p.value[5] == result
  {
    hide WordAt; hide U32;
    var b := Pack(0x07, Reply(what, id, result)).value;
    assert b[1..5] == U32(id);
    U32At(b, 1, id);
  }

  lemma SettingBytes(id: byte, bits: bv32)
    ensures var p := Pack(0x83, Setting(id, bits));
            p.Some? && |p.value| == 5 && p.value[0] == id && WordAt(p.value, 1, bits)
  {
    hide WordAt; hide U32;
    var b := Pack(0x83, Setting(id, bits)).value;
    assert b[1..5] == U32(bits);
    U32At(b, 1, bits);
  }

  lemma AckBytes(counter: byte)
    ensures Pack(0x84, TextAck(counter)) == Some([counter])
  {}

  // A command is its id, and only for a gyro calibration, which is command 3, the
  // sample count follows if there is one.
  lemma CommandBytes(id: byte, n: bv16)
    ensures Pack(0x81, Command(id, n)) ==
            Some(if id == 3 && n != 0 then [3, (n % 256) as byte, (n / 256) as byte] else [id])
  {
    U16Digits(n);
    hide U16;
    assert [id] + U16(n) == [id, (n % 256) as byte, (n / 256) as byte];
  }

  // So a gyro calibration arrives with its sample count, whatever that is, and any
  // other command with none.
  lemma CommandArrives(id: byte, n: bv16)
    ensures var p := Pack(0x81, Command(id, n));
            p.Some? && (|p.value| == 3 <==> id == 3 && n != 0) &&
            Unpack(0x81, p.value) == Some(Command(id, if id == 3 then n else 0))
  {
    U16RoundTrip(n);
    hide U16; hide ToU16;
  }
}
