/**
 Which answer a settings request gets, in numbers and guards a caller can see.
 */
module SettingResults {
  import opened Bytes
  import opened StoreSpec
  import StoreProofs
  import Storage
  import opened Settings

  // The word of setting 1, 2 or 3 can be stored under tag 3, 4 or 5: it fits beside the
  // entries of the other tags, and memory and flash are available.
  predicate Storable(p: Pico, tag: bv16, w: World)
    requires |p.img| >= HEADER_LEN
  {
    8 + |Join(Others(Existing(p.img), Tag(tag)))| + 12 <= |p.img| && w.heap && w.flashOk
  }

  lemma StoredIff(p: Pico, tag: bv16, bits: bv32, w: World)
    requires |p.img| >= HEADER_LEN && tag != 0xFFFF
    ensures TrySave(p.img, Tag(tag), U32(bits), w).Some? <==> Storable(p, tag, w)
  {
    assert AlignUp(12) == 12;
    hide U32; hide Existing; hide Others; hide Join; hide Save;
  }

  lemma ImuResult(p: Pico, bits: bv32, w: World)
    requires |p.img| >= HEADER_LEN
    ensures var r := SetImu(p, bits, w).0;
            && (r == OutOfRange <==> !(1 <= bits <= 100))
            && (r == Ok <==> 1 <= bits <= 100 && (p.icm ==> w.imuSet.Worked?) && Storable(p, 3, w))
            && (r == Failed <==> 1 <= bits <= 100 && !((p.icm ==> w.imuSet.Worked?) && Storable(p, 3, w)))
  {
    StoredIff(p, 3, bits, w);
    hide TrySave; hide Storable; hide U32; hide TellImu;
  }

  lemma GpsResult(p: Pico, bits: bv32, w: World)
    requires |p.img| >= HEADER_LEN
    ensures var r := SetGps(p, bits, w).0;
            && (r == OutOfRange <==> !(1 <= bits <= 10))
            && (r == NoDevice <==> 1 <= bits <= 10 && !p.gps)
            && (r == Ok <==> 1 <= bits <= 10 && p.gps && w.gpsSet.Worked? && Storable(p, 4, w))
            && (r == Failed <==> 1 <= bits <= 10 && p.gps && !(w.gpsSet.Worked? && Storable(p, 4, w)))
  {
    StoredIff(p, 4, bits, w);
    hide TrySave; hide Storable; hide U32; hide TellGps;
  }

  lemma BetaResult(p: Pico, bits: bv32, w: World)
    requires |p.img| >= HEADER_LEN
    ensures var r := SetBeta(p, bits, w).0;
            && (r == OutOfRange <==> !(0 < bits <= 0x3F800000))
            && (r == Ok <==> 0 < bits <= 0x3F800000 && Storable(p, 5, w))
            && (r == Failed <==> 0 < bits <= 0x3F800000 && !Storable(p, 5, w))
  {
    StoredIff(p, 5, bits, w);
    hide TrySave; hide Storable; hide U32;
  }

  // A setting outside 1 to 3 is unknown. A value is tested before anything else, then
  // the GPS receiver must be there; the request succeeds exactly when the device took
  // the value and the store can take it, and otherwise fails.
  lemma ResultIff(p: Pico, id: byte, bits: bv32, w: World)
    requires |p.img| >= HEADER_LEN
    ensures var r := Set(p, id, bits, w).0;
            && (r == Unknown <==> id != 1 && id != 2 && id != 3)
            && (r == OutOfRange <==>
                (id == 1 && !(1 <= bits <= 100)) || (id == 2 && !(1 <= bits <= 10)) ||
                (id == 3 && !(0 < bits <= 0x3F800000)))
            && (r == NoDevice <==> id == 2 && 1 <= bits <= 10 && !p.gps)
            && (r == Ok <==>
                (id == 1 && 1 <= bits <= 100 && (p.icm ==> w.imuSet.Worked?) && Storable(p, 3, w)) ||
                (id == 2 && 1 <= bits <= 10 && p.gps && w.gpsSet.Worked? && Storable(p, 4, w)) ||
                (id == 3 && 0 < bits <= 0x3F800000 && Storable(p, 5, w)))
            && (r == Failed <==>
                (id == 1 && 1 <= bits <= 100 && !((p.icm ==> w.imuSet.Worked?) && Storable(p, 3, w))) ||
                (id == 2 && 1 <= bits <= 10 && p.gps && !(w.gpsSet.Worked? && Storable(p, 4, w))) ||
                (id == 3 && 0 < bits <= 0x3F800000 && !Storable(p, 5, w)))
  {
    hide SetImu; hide SetGps; hide SetBeta; hide Storable;
    ImuResult(p, bits, w);
    GpsResult(p, bits, w);
    BetaResult(p, bits, w);
  }

  // What a request that succeeds leaves in the flash: four bytes under tag 3, 4 or 5,
  // low byte first.
  lemma StoredWord(p: Pico, id: byte, bits: bv32, w: World)
    requires |p.img| >= HEADER_LEN && Set(p, id, bits, w).0 == Ok
    ensures var tag := Tag(if id == 1 then 3 else if id == 2 then 4 else 5);
            StoreProofs.Lookup(Contents(Set(p, id, bits, w).1.img), tag) ==
            Some([(bits % 256) as byte, (bits / 0x100 % 256) as byte, (bits / 0x1_0000 % 256) as byte,
                  (bits / 0x100_0000) as byte])
  {
    SetChanges(p, id, bits, w);
    U32Digits(bits);
    hide U32; hide Contents; hide Set;
    StoreProofs.MapPut(Contents(p.img), SettingTag(id), U32(bits), SettingTag(id));
  }

  // The word stored under a tag, low byte first, or the default if there is none of four
  // bytes.
  predicate ReadFrom(m: Map, tag: Tag, bits: bv32, default: bv32) {
    if tag in m && |m[tag]| == 4 then
      m[tag] == [(bits % 256) as byte, (bits / 0x100 % 256) as byte, (bits / 0x1_0000 % 256) as byte,
                 (bits / 0x100_0000) as byte]
    else bits == default
  }

  lemma WordRead(m: Map, tag: Tag, default: bv32)
    ensures ReadFrom(m, tag, ReadWord(m, tag, default), default)
  {
    hide ToU32; hide U32;
    if tag in m && |m[tag]| == 4 {
      U32Onto(m[tag]);
      U32Digits(ToU32(m[tag]));
    }
  }

  // What a device that is there holds after it was told a value.
  predicate Told(holds: bv32, was: bv32, value: bv32, a: Attempt) {
    holds == if a == Refused then was else value
  }

  // A restart reads the settings from flash, without a stored word of four bytes 100 Hz,
  // 5 Hz and a gain of 0.1; then it tells the devices it finds.
  lemma RestartIs(p: Pico, f: Found)
    requires |p.img| >= HEADER_LEN
    ensures var m, p' := Contents(p.img), Step(p, Reboot(f));
            && p'.img == p.img && p'.icm == f.icm && p'.gps == f.gps
            && ReadFrom(m, Tag(3), p'.values.imuRate, 100)
            && ReadFrom(m, Tag(4), p'.values.gpsRate, 5)
            && ReadFrom(m, Tag(5), p'.values.beta, 0x3DCCCCCD)
            && (if f.icm then Told(p'.holds.imuRate, f.holds.imuRate, p'.values.imuRate, f.imuSet)
                else p'.holds.imuRate == f.holds.imuRate)
            && (if f.gps then Told(p'.holds.gpsRate, f.holds.gpsRate, p'.values.gpsRate, f.gpsSet)
                else p'.holds.gpsRate == f.holds.gpsRate)
            && p'.holds.beta == p'.values.beta
  {
    hide Contents; hide ReadWord; hide ReadFrom;
    WordRead(Contents(p.img), Tag(3), 100);
    WordRead(Contents(p.img), Tag(4), 5);
    WordRead(Contents(p.img), Tag(5), 0x3DCCCCCD);
  }

  // A calibration of the ICM-20948 goes under tag 1, that of the other IMU under tag 2.
  // It is stored exactly when it fits and memory and flash are available; memory and the
  // devices do not change.
  lemma CalibrationStored(p: Pico, chip: bool, data: seq<byte>, w: World)
    requires |p.img| >= HEADER_LEN && |data| <= 0xFFFF
    ensures var tag := Tag(if chip then 1 else 2);
            var p' := Step(p, SaveCal(chip, data, w));
            && p'.(img := p.img) == p
            && (if 8 + |Join(Others(Existing(p.img), tag))| + (8 + |data| + 3) / 4 * 4 <= |p.img| && w.heap && w.flashOk
                then Contents(p'.img) == Contents(p.img)[tag := data]
                else p'.img == p.img)
  {
    var tag := Tag(if chip then 1 else 2);
    assert AlignUp(8 + |data|) == (8 + |data| + 3) / 4 * 4;
    assert CalTag(chip) == tag && !Erased(tag);
    if TrySave(p.img, tag, data, w).Some? { TrySaveStores(p.img, tag, data, w); }
    hide Contents; hide Existing; hide Others; hide Join; hide Save; hide AlignUp;
  }
}
