/**
 The messages of the link and their data bytes. Floats travel as their 32 bits
 (a bv32), signed integers as their two's-complement bits.
 */
module Codec {
  import opened Bytes

  type Vec3 = v: seq<bv32> | |v| == 3 witness [0, 0, 0]
  type Quat = v: seq<bv32> | |v| == 4 witness [0, 0, 0, 0]
  type Data8 = v: seq<byte> | |v| == 8 witness [0, 0, 0, 0, 0, 0, 0, 0]

  datatype Option<+T> = None | Some(value: T)

  datatype CalStatus = CalStatus(sys: byte, accel: byte, gyro: byte, mag: byte)

  datatype ImuSample = ImuSample(
    timestampUs: bv64, accel: Vec3, gyro: Vec3, mag: Vec3, temp: bv32, quat: Quat,
    roll: bv32, pitch: bv32, yaw: bv32, valid: bv32, cal: CalStatus)

  datatype GpsFix = GpsFix(
    lat: bv32, lon: bv32, heightMm: bv32, gspeedMmS: bv32, heading1e5: bv32,
    fixType: byte, numSv: byte, year: bv16, month: byte, day: byte,
    hour: byte, min: byte, sec: byte, valid: byte)

  datatype CanFrame = CanFrame(id: bv32, ext: bool, rtr: bool, dlc: byte, data: Data8)

  datatype Message =
    | Imu(sample: ImuSample)
    | Gps(fix: GpsFix)
    | Can(frame: CanFrame)
    | Text(severity: byte, source: byte, text: seq<byte>)
    | Reply(what: byte, replyId: bv32, result: byte)
    | Command(commandId: byte, samples: bv16)
    | Setting(settingId: byte, bits: bv32)
    | TextAck(counter: byte)

  // The message a type byte stands for.
  datatype Kind = ImuKind | GpsKind | CanKind | TextKind | ReplyKind | CommandKind | SettingKind | AckKind | Unknown

  function KindOf(typ: byte): Kind {
    if typ == 0x01 || typ == 0x02 || typ == 0x03 then ImuKind
    else if typ == 0x04 then GpsKind
    else if typ == 0x05 || typ == 0x82 then CanKind
    else if typ == 0x06 then TextKind
    else if typ == 0x07 then ReplyKind
    else if typ == 0x81 then CommandKind
    else if typ == 0x83 then SettingKind
    else if typ == 0x84 then AckKind
    else Unknown
  }

  // The caller passes the structure that belongs to the type.
  predicate Fits(kind: Kind, m: Message) {
    match kind
    case ImuKind => m.Imu?
    case GpsKind => m.Gps?
    case CanKind => m.Can?
    case TextKind => m.Text?
    case ReplyKind => m.Reply?
    case CommandKind => m.Command?
    case SettingKind => m.Setting?
    case AckKind => m.TextAck?
    case Unknown => true
  }

  // ---- Words ----

  function Words(ws: seq<bv32>): (b: seq<byte>)
    ensures |b| == 4 * |ws|
  {
    if ws == [] then [] else U32(ws[0]) + Words(ws[1..])
  }

  function ReadWords(b: seq<byte>, n: nat): (ws: seq<bv32>)
    requires |b| == 4 * n
    ensures |ws| == n
    decreases n
  {
    if n == 0 then [] else [ToU32(b[..4])] + ReadWords(b[4..], n - 1)
  }

  lemma {:induction false} WordsRoundTrip(ws: seq<bv32>)
    ensures ReadWords(Words(ws), |ws|) == ws
  {
    hide U32; hide ToU32;
    if ws != [] {
      U32RoundTrip(ws[0]);
      WordsRoundTrip(ws[1..]);
      assert Words(ws)[..4] == U32(ws[0]) && Words(ws)[4..] == Words(ws[1..]);
    }
  }

  lemma {:induction false} WordsOnto(b: seq<byte>, n: nat)
    requires |b| == 4 * n
    ensures Words(ReadWords(b, n)) == b
    decreases n
  {
    hide U32; hide ToU32;
    if n > 0 {
      U32Onto(b[..4]);
      WordsOnto(b[4..], n - 1);
      var ws := ReadWords(b, n);
      assert ws[1..] == ReadWords(b[4..], n - 1);
      assert b == b[..4] + b[4..];
    }
  }

  // ---- IMU sample: 84 bytes ----

  const IMU_LEN := 84
  const IMU_WORDS := 18

  function ImuWords(s: ImuSample): (ws: seq<bv32>)
    ensures |ws| == IMU_WORDS
  {
    s.accel + s.gyro + s.mag + [s.temp] + s.quat + [s.roll, s.pitch, s.yaw, s.valid]
  }

  function PackImu(s: ImuSample): (b: seq<byte>)
    ensures |b| == IMU_LEN
  {
    U64(s.timestampUs) + Words(ImuWords(s)) + [s.cal.sys, s.cal.accel, s.cal.gyro, s.cal.mag]
  }

  function ImuOf(time: bv64, ws: seq<bv32>, cal: seq<byte>): ImuSample
    requires |ws| == IMU_WORDS && |cal| == 4
  {
    ImuSample(time, ws[0..3], ws[3..6], ws[6..9], ws[9], ws[10..14], ws[14], ws[15], ws[16], ws[17],
              CalStatus(cal[0], cal[1], cal[2], cal[3]))
  }

  function UnpackImu(b: seq<byte>): Option<ImuSample> {
    if |b| != IMU_LEN then None
    else Some(ImuOf(ToU64(b[..8]), ReadWords(b[8..80], IMU_WORDS), b[80..]))
  }

  lemma ImuRoundTrip(s: ImuSample)
    ensures UnpackImu(PackImu(s)) == Some(s)
  {
    hide U64; hide ToU64; hide Words; hide ReadWords;
    var b := PackImu(s);
    assert b[..8] == U64(s.timestampUs) && b[8..80] == Words(ImuWords(s));
    assert b[80..] == [s.cal.sys, s.cal.accel, s.cal.gyro, s.cal.mag];
    U64RoundTrip(s.timestampUs);
    WordsRoundTrip(ImuWords(s));
    ImuFields(s);
    hide ImuOf; hide ImuWords; hide PackImu;
  }

  lemma ImuFields(s: ImuSample)
    ensures ImuOf(s.timestampUs, ImuWords(s), [s.cal.sys, s.cal.accel, s.cal.gyro, s.cal.mag]) == s
  {
    var ws := ImuWords(s);
    assert ws[0..3] == s.accel && ws[3..6] == s.gyro && ws[6..9] == s.mag && ws[10..14] == s.quat;
  }

  lemma ImuOnto(b: seq<byte>)
    requires |b| == IMU_LEN
    ensures PackImu(UnpackImu(b).value) == b
  {
    hide U64; hide ToU64; hide Words; hide ReadWords;
    var ws := ReadWords(b[8..80], IMU_WORDS);
    var s := ImuOf(ToU64(b[..8]), ws, b[80..]);
    assert ImuWords(s) == ws;
    U64Onto(b[..8]);
    WordsOnto(b[8..80], IMU_WORDS);
    assert b == b[..8] + b[8..80] + b[80..];
    assert b[80..] == [b[80], b[81], b[82], b[83]];
  }

  // ---- GPS fix: 30 bytes ----

  const GPS_LEN := 30

  function PackGps(f: GpsFix): (b: seq<byte>)
    ensures |b| == GPS_LEN
  {
    Words([f.lat, f.lon, f.heightMm, f.gspeedMmS, f.heading1e5]) + [f.fixType, f.numSv] + U16(f.year)
    + [f.month, f.day, f.hour, f.min, f.sec, f.valid]
  }

  function UnpackGps(b: seq<byte>): Option<GpsFix> {
    if |b| != GPS_LEN then None
    else
      var ws := ReadWords(b[..20], 5);
      Some(GpsFix(ws[0], ws[1], ws[2], ws[3], ws[4], b[20], b[21], ToU16(b[22], b[23]),
                  b[24], b[25], b[26], b[27], b[28], b[29]))
  }

  lemma GpsRoundTrip(f: GpsFix)
    ensures UnpackGps(PackGps(f)) == Some(f)
  {
    hide U16; hide ToU16; hide Words; hide ReadWords;
    var ws := [f.lat, f.lon, f.heightMm, f.gspeedMmS, f.heading1e5];
    assert PackGps(f)[..20] == Words(ws);
    WordsRoundTrip(ws);
    U16RoundTrip(f.year);
  }

  lemma GpsOnto(b: seq<byte>)
    requires |b| == GPS_LEN
    ensures PackGps(UnpackGps(b).value) == b
  {
    hide U16; hide ToU16; hide Words; hide ReadWords;
    var ws := ReadWords(b[..20], 5);
    assert ws == [ws[0], ws[1], ws[2], ws[3], ws[4]];
    WordsOnto(b[..20], 5);
    U16Onto(b[22], b[23]);
    assert b == b[..20] + [b[20], b[21]] + [b[22], b[23]] + b[24..];
    assert b[24..] == [b[24], b[25], b[26], b[27], b[28], b[29]];
  }

  // ---- CAN frame: 6 bytes and the data ----

  const CAN_HEAD_LEN := 6

  function Flags(ext: bool, rtr: bool): byte {
    (if ext then 0x01 else 0) | (if rtr then 0x02 else 0)
  }

  predicate HasExt(flags: byte) {
    flags & 0x01 != 0
  }

  predicate HasRtr(flags: byte) {
    flags & 0x02 != 0
  }

  function PackCan(f: CanFrame): Option<seq<byte>> {
    if Val(f.dlc) > 8 then None
    else Some(U32(f.id) + [Flags(f.ext, f.rtr), f.dlc] + f.data[..Val(f.dlc)])
  }

  function Zeros(n: nat): (b: seq<byte>)
    ensures |b| == n
  {
    seq(n, _ => 0)
  }

  function UnpackCan(b: seq<byte>): Option<CanFrame> {
    if |b| < CAN_HEAD_LEN then None
    else
      var dlc := Val(b[5]);
      if dlc > 8 || |b| != CAN_HEAD_LEN + dlc then None
      else Some(CanFrame(ToU32(b[..4]), HasExt(b[4]), HasRtr(b[4]), b[5], b[6..] + Zeros(8 - dlc)))
  }

  // Data bytes past the length are not sent; they arrive as zero.
  function Trimmed(f: CanFrame): CanFrame
    requires Val(f.dlc) <= 8
  {
    f.(data := f.data[..Val(f.dlc)] + Zeros(8 - Val(f.dlc)))
  }

  lemma FlagsExt(ext: bool, rtr: bool)
    ensures HasExt(Flags(ext, rtr)) == ext
  {
    if ext {} else if rtr {}
  }

  lemma FlagsRtr(ext: bool, rtr: bool)
    ensures HasRtr(Flags(ext, rtr)) == rtr
  {
    if ext {} else if rtr {}
  }

  lemma FlagsOnto(flags: byte)
    ensures Flags(HasExt(flags), HasRtr(flags)) == flags <==> flags <= 3
  {}

  lemma CanRoundTrip(f: CanFrame)
    requires Val(f.dlc) <= 8
    ensures UnpackCan(PackCan(f).value) == Some(Trimmed(f))
  {
    hide U32; hide ToU32; hide Flags; hide HasExt; hide HasRtr; hide Val;
    var b := PackCan(f).value;
    assert b[..4] == U32(f.id) && b[6..] == f.data[..Val(f.dlc)];
    U32RoundTrip(f.id);
    FlagsExt(f.ext, f.rtr);
    FlagsRtr(f.ext, f.rtr);
  }

  // The only received frames that sending back would change have stray flag bits.
  lemma CanOnto(b: seq<byte>)
    requires UnpackCan(b).Some?
    ensures PackCan(UnpackCan(b).value) == Some(b) <==> b[4] <= 3
  {
    hide U32; hide ToU32; hide Flags; hide HasExt; hide HasRtr; hide Val;
    U32Onto(b[..4]);
    FlagsOnto(b[4]);
    var back := PackCan(UnpackCan(b).value).value;
    var flags := Flags(HasExt(b[4]), HasRtr(b[4]));
    assert back == b[..4] + [flags, b[5]] + b[6..];
    assert b == b[..4] + [b[4], b[5]] + b[6..];
    assert back[4] == flags;
  }

  // ---- Every type ----

  // A sample count travels only with a gyro calibration, command 3.
  predicate CarriesSamples(id: byte, samples: bv16) {
    id == 3 && samples != 0
  }

  function Pack(typ: byte, m: Message): Option<seq<byte>>
    requires Fits(KindOf(typ), m)
  {
    match KindOf(typ)
    case ImuKind => Some(PackImu(m.sample))
    case GpsKind => Some(PackGps(m.fix))
    case CanKind => PackCan(m.frame)
    case TextKind => Some([m.severity, m.source] + m.text)
    case ReplyKind => Some([m.what] + U32(m.replyId) + [m.result])
    case CommandKind =>
      Some(if CarriesSamples(m.commandId, m.samples) then [m.commandId] + U16(m.samples) else [m.commandId])
    case SettingKind => Some([m.settingId] + U32(m.bits))
    case AckKind => Some([m.counter])
    case Unknown => None
  }

  // None is the length error of the receiver.
  function Unpack(typ: byte, b: seq<byte>): (m: Option<Message>)
    requires KindOf(typ) != Unknown
    ensures m.Some? ==> Fits(KindOf(typ), m.value)
  {
    match KindOf(typ)
    case ImuKind => if UnpackImu(b).None? then None else Some(Imu(UnpackImu(b).value))
    case GpsKind => if UnpackGps(b).None? then None else Some(Gps(UnpackGps(b).value))
    case CanKind => if UnpackCan(b).None? then None else Some(Can(UnpackCan(b).value))
    case TextKind => if |b| < 2 then None else Some(Text(b[0], b[1], b[2..]))
    case ReplyKind => if |b| != 6 then None else Some(Reply(b[0], ToU32(b[1..5]), b[5]))
    case CommandKind =>
      if |b| == 1 then Some(Command(b[0], 0))
      else if |b| == 3 then Some(Command(b[0], ToU16(b[1], b[2])))
      else None
    case SettingKind => if |b| != 5 then None else Some(Setting(b[0], ToU32(b[1..5])))
    case AckKind => if |b| != 1 then None else Some(TextAck(b[0]))
  }

  // What arrives of a message that can be packed.
  function Normal(m: Message): Message {
    match m
    case Can(f) => if Val(f.dlc) <= 8 then Can(Trimmed(f)) else m
    case Command(id, samples) => if CarriesSamples(id, samples) then m else Command(id, 0)
    case _ => m
  }

  // A CAN frame with zeros behind its data, a command with a sample count only if it is
  // a gyro calibration, which is command 3, and any message of another type.
  predicate Plain(m: Message) {
    && (m.Can? && Val(m.frame.dlc) <= 8 ==> forall i :: Val(m.frame.dlc) <= i < 8 ==> m.frame.data[i] == 0)
    && (m.Command? && m.commandId != 3 ==> m.samples == 0)
  }

  lemma PlainIff(m: Message)
    ensures Normal(m) == m <==> Plain(m)
  {
    hide Val;
    if m.Can? && Val(m.frame.dlc) <= 8 {
      var d, n := m.frame.data, Val(m.frame.dlc);
      var t := d[..n] + Zeros(8 - n);
      assert t == d <==> forall i :: n <= i < 8 ==> d[i] == 0;
    }
  }

  // Every message arrives in its normal form; so it arrives as it was exactly if it is
  // plain.
  lemma PackUnpack(typ: byte, m: Message)
    requires KindOf(typ) != Unknown && Fits(KindOf(typ), m)
    requires Pack(typ, m).Some?
    ensures Unpack(typ, Pack(typ, m).value) == Some(Normal(m))
    ensures Unpack(typ, Pack(typ, m).value) == Some(m) <==> Plain(m)
  {
    PlainIff(m);
    hide Plain;
    hide U16; hide U32; hide ToU16; hide ToU32; hide KindOf; hide Val;
    hide PackImu; hide UnpackImu; hide PackGps; hide UnpackGps; hide UnpackCan; hide Trimmed;
    var b := Pack(typ, m).value;
    match m
    case Imu(s) => ImuRoundTrip(s);
    case Gps(f) => GpsRoundTrip(f);
    case Can(f) => CanRoundTrip(f);
    case Text(severity, source, text) => assert b[2..] == text;
    case Reply(what, id, result) => U32RoundTrip(id); assert b[1..5] == U32(id);
    case Command(id, samples) => U16RoundTrip(samples); hide CarriesSamples;
    case Setting(id, bits) => U32RoundTrip(bits); assert b[1..5] == U32(bits);
    case TextAck(counter) =>
  }

  // Received data that sending back would not reproduce: stray CAN flag bits,
  // and a sample count that is zero or belongs to another command.
  predicate Canonical(typ: byte, b: seq<byte>)
    requires KindOf(typ) != Unknown && Unpack(typ, b).Some?
  {
    match KindOf(typ)
    case CanKind => b[4] <= 3
    case CommandKind => |b| == 3 ==> b[0] == 3 && !(b[1] == 0 && b[2] == 0)
    case _ => true
  }

  // The encoding is one to one on everything else.
  lemma UnpackPack(typ: byte, b: seq<byte>)
    requires KindOf(typ) != Unknown && Unpack(typ, b).Some?
    ensures Pack(typ, Unpack(typ, b).value) == Some(b) <==> Canonical(typ, b)
  {
    hide U16; hide U32; hide ToU16; hide ToU32; hide KindOf; hide Val; hide CarriesSamples;
    hide PackImu; hide UnpackImu; hide PackGps; hide UnpackGps; hide UnpackCan; hide PackCan;
    match KindOf(typ)
    case ImuKind => ImuLength(b); ImuOnto(b);
    case GpsKind => GpsLength(b); GpsOnto(b);
    case CanKind => CanOnto(b);
    case TextKind => assert b == [b[0], b[1]] + b[2..];
    case ReplyKind => U32Onto(b[1..5]); assert b == [b[0]] + b[1..5] + [b[5]];
    case CommandKind =>
      if |b| == 3 {
        SamplesAre(b[0], b[1], b[2]);
        U16Onto(b[1], b[2]);
        assert b == [b[0]] + [b[1], b[2]];
      } else {
        NoSamples(b[0]);
        assert b == [b[0]];
      }
    case SettingKind => U32Onto(b[1..5]); assert b == [b[0]] + b[1..5];
    case AckKind => assert b == [b[0]];
  }

  lemma SamplesAre(id: byte, lo: byte, hi: byte)
    ensures CarriesSamples(id, ToU16(lo, hi)) <==> id == 3 && !(lo == 0 && hi == 0)
  {}

  lemma NoSamples(id: byte)
    ensures !CarriesSamples(id, 0)
  {}

  lemma ImuLength(b: seq<byte>)
    ensures UnpackImu(b).Some? <==> |b| == IMU_LEN
  {}

  lemma GpsLength(b: seq<byte>)
    ensures UnpackGps(b).Some? <==> |b| == GPS_LEN
  {}

  lemma PackedLength(typ: byte, m: Message)
    requires Fits(KindOf(typ), m) && Pack(typ, m).Some? && !m.Text?
    ensures |Pack(typ, m).value| <= IMU_LEN
  {
    hide U16; hide U32; hide KindOf; hide PackImu; hide PackGps;
  }
}
