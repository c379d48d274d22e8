/**
 The Pico's settings: in memory, in flash, and across restarts.
 */
module Settings {
  import opened Bytes
  import opened StoreSpec
  import StoreProofs
  import Storage

  // Rates in Hz; beta is the 32 bits of a float.
  datatype Values = Values(imuRate: bv32, gpsRate: bv32, beta: bv32)

  // 100 Hz, 5 Hz, 0.1
  function Defaults(): Values {
    Values(100, 5, 0x3DCCCCCD)
  }

  function ImuRateTag(): Tag { Tag(3) }
  function GpsRateTag(): Tag { Tag(4) }
  function BetaTag(): Tag { Tag(5) }

  predicate ImuRateOk(hz: bv32) {
    1 <= hz <= 100
  }

  predicate GpsRateOk(hz: bv32) {
    1 <= hz <= 10
  }

  // More than 0 and at most 1. Positive floats are ordered as their bits, 1.0 is
  // 0x3F800000; negative numbers, infinities and NaNs have larger bits.
  predicate BetaOk(bits: bv32) {
    0 < bits <= 0x3F800000
  }

  datatype Result = Ok | Unknown | OutOfRange | NoDevice | Failed

  // How a device answers when it is told a value: it takes it and says so, it refuses,
  // or it takes it but its answer is lost. Only the first is a success to the caller.
  datatype Attempt = Worked | Refused | Unanswered

  // How the devices, memory and flash behave during a request. The restoring call after
  // a failure is an attempt of its own.
  datatype World = World(imuSet: Attempt, imuRestore: Attempt, gpsSet: Attempt, gpsRestore: Attempt,
                         heap: bool, flashOk: bool)

  // ---- Reading the settings back ----

  function ReadWord(m: Map, tag: Tag, default: bv32): bv32 {
    if tag in m && |m[tag]| == 4 then ToU32(m[tag]) else default
  }

  function ReadBack(m: Map): Values {
    Values(ReadWord(m, ImuRateTag(), Defaults().imuRate),
           ReadWord(m, GpsRateTag(), Defaults().gpsRate),
           ReadWord(m, BetaTag(), Defaults().beta))
  }

  // ---- One request ----

  // The flash, the settings in memory, what the devices hold, and which of the two
  // devices that can refuse there are.
  datatype Pico = Pico(img: seq<byte>, values: Values, holds: Values, icm: bool, gps: bool)

  // A device's value after an attempt to set it.
  function After(was: bv32, hz: bv32, a: Attempt): bv32 {
    if a.Refused? then was else hz
  }

  function TrySave(img: seq<byte>, tag: Tag, data: seq<byte>, w: World): Option<seq<byte>>
    requires |img| >= HEADER_LEN
  {
    if Storage.Accepts(img, tag, data) && w.heap && w.flashOk then Some(Save(img, tag, data)) else None
  }

  // Every IMU is told the rate; only the ICM-20948 holds one or can refuse it.
  function TellImu(p: Pico, hz: bv32, a: Attempt): Pico {
    if p.icm then p.(holds := p.holds.(imuRate := After(p.holds.imuRate, hz, a))) else p
  }

  function TellGps(p: Pico, hz: bv32, a: Attempt): Pico {
    p.(holds := p.holds.(gpsRate := After(p.holds.gpsRate, hz, a)))
  }

  // The value goes to the device, then to flash, then to memory. After a failure the old
  // value goes to the device again, unless it is the GPS receiver that failed.

  function SetImu(p: Pico, bits: bv32, w: World): (r: (Result, Pico))
    requires |p.img| >= HEADER_LEN
    ensures |r.1.img| == |p.img|
  {
    if !ImuRateOk(bits) then (OutOfRange, p)
    else
      var q := TellImu(p, bits, w.imuSet);
      var saved := TrySave(p.img, ImuRateTag(), U32(bits), w);
      if (p.icm && !w.imuSet.Worked?) || saved.None? then (Failed, TellImu(q, p.values.imuRate, w.imuRestore))
      else (Ok, q.(img := saved.value, values := p.values.(imuRate := bits)))
  }

  function SetGps(p: Pico, bits: bv32, w: World): (r: (Result, Pico))
    requires |p.img| >= HEADER_LEN
    ensures |r.1.img| == |p.img|
  {
    if !GpsRateOk(bits) then (OutOfRange, p)
    else if !p.gps then (NoDevice, p)
    else
      var q := TellGps(p, bits, w.gpsSet);
      var saved := TrySave(p.img, GpsRateTag(), U32(bits), w);
      if !w.gpsSet.Worked? then (Failed, q)
      else if saved.None? then (Failed, TellGps(q, p.values.gpsRate, w.gpsRestore))
      else (Ok, q.(img := saved.value, values := p.values.(gpsRate := bits)))
  }

  function SetBeta(p: Pico, bits: bv32, w: World): (r: (Result, Pico))
    requires |p.img| >= HEADER_LEN
    ensures |r.1.img| == |p.img|
  {
    if !BetaOk(bits) then (OutOfRange, p)
    else
      match TrySave(p.img, BetaTag(), U32(bits), w)
      case None => (Failed, p.(holds := p.holds.(beta := p.values.beta)))
      case Some(img) => (Ok, p.(img := img, values := p.values.(beta := bits), holds := p.holds.(beta := bits)))
  }

  function Set(p: Pico, id: byte, bits: bv32, w: World): (r: (Result, Pico))
    requires |p.img| >= HEADER_LEN
    ensures |r.1.img| == |p.img|
  {
    if id == 1 then SetImu(p, bits, w)
    else if id == 2 then SetGps(p, bits, w)
    else if id == 3 then SetBeta(p, bits, w)
    else (Unknown, p)
  }

  // ---- Starts ----

  // What a start finds: the devices, what they hold, and how they answer.
  datatype Found = Found(icm: bool, gps: bool, holds: Values, imuSet: Attempt, gpsSet: Attempt)

  // A start reads the settings back and tells the devices.
  function Boot(img: seq<byte>, f: Found): (p: Pico)
    requires |img| >= HEADER_LEN
    ensures p.img == img
  {
    var v := ReadBack(Contents(img));
    var p := TellImu(Pico(img, v, f.holds.(beta := v.beta), f.icm, f.gps), v.imuRate, f.imuSet);
    if f.gps then TellGps(p, v.gpsRate, f.gpsSet) else p
  }

  // ---- As the code keeps it ----

  class PicoSettings {
    const st: Storage.Storage
    const icm: bool
    const gps: bool
    var imuRate: bv32
    var gpsRate: bv32
    var beta: bv32
    var imuHolds: bv32
    var gpsHolds: bv32
    var betaHolds: bv32

    ghost function Value(): Pico
      reads this, st.region
    {
      Pico(st.region[..], Values(imuRate, gpsRate, beta), Values(imuHolds, gpsHolds, betaHolds), icm, gps)
    }

    constructor (st: Storage.Storage, icm: bool, gps: bool, holds: Values)
      ensures this.st == st && this.icm == icm && this.gps == gps
      ensures Value() == Pico(st.region[..], Values(0, 0, 0), holds, icm, gps)
    {
      this.st, this.icm, this.gps := st, icm, gps;
      imuRate, gpsRate, beta := 0, 0, 0;
      imuHolds, gpsHolds, betaHolds := holds.imuRate, holds.gpsRate, holds.beta;
    }

    method LoadSettings()
      requires st.Valid()
      modifies this
      ensures Value() == old(Value()).(values := ReadBack(Contents(old(st.region[..]))))
    {
      hide Load; hide Contents;
      imuRate, gpsRate, beta := Defaults().imuRate, Defaults().gpsRate, Defaults().beta;
      ghost var img := st.region[..];
      StoreProofs.LoadIsLookup(img, ImuRateTag(), 4);
      StoreProofs.LoadIsLookup(img, GpsRateTag(), 4);
      StoreProofs.LoadIsLookup(img, BetaTag(), 4);
      var rc, data := st.Load(ImuRateTag(), 4);
      if rc == 0 {
        imuRate := ToU32(data);
      }
      rc, data := st.Load(GpsRateTag(), 4);
      if rc == 0 {
        gpsRate := ToU32(data);
      }
      rc, data := st.Load(BetaTag(), 4);
      if rc == 0 {
        beta := ToU32(data);
      }
    }

    // What the main program does with the settings before its loop.
    method Start(imuSet: Attempt, gpsSet: Attempt)
      requires st.Valid()
      modifies this
      ensures Value() == Boot(old(st.region[..]), Found(icm, gps, old(Value()).holds, imuSet, gpsSet))
    {
      hide ReadBack; hide Contents; hide After;
      LoadSettings();
      var rc := ApplyImuRate(imuRate, imuSet);
      ApplyBeta(beta);
      if gps {
        rc := GpsSetRate(gpsRate, gpsSet);
      }
    }

    method ApplyImuRate(hz: bv32, a: Attempt) returns (rc: int)
      modifies this`imuHolds
      ensures Value() == TellImu(old(Value()), hz, a)
      ensures rc == if icm && !a.Worked? then -1 else 0
    {
      if !icm {
        return 0;
      }
      imuHolds := After(imuHolds, hz, a);
      return if a.Worked? then 0 else -1;
    }

    method GpsSetRate(hz: bv32, a: Attempt) returns (rc: int)
      modifies this`gpsHolds
      ensures Value() == TellGps(old(Value()), hz, a)
      ensures rc == if a.Worked? then 0 else -1
    {
      gpsHolds := After(gpsHolds, hz, a);
      return if a.Worked? then 0 else -1;
    }

    method ApplyBeta(b: bv32)
      modifies this`betaHolds
      ensures betaHolds == b
    {
      betaHolds := b;
    }

    method DoSetting(id: byte, bits: bv32, w: World) returns (r: Result)
      requires st.Valid()
      modifies this, st.region
      ensures (r, Value()) == Set(old(Value()), id, bits, w)
    {
      hide Save; hide Storage.Accepts; hide U32; hide ImuRateOk; hide GpsRateOk; hide BetaOk; hide After;
      if id == 1 {
        var before := imuRate;
        if !ImuRateOk(bits) {
          return OutOfRange;
        }
        var rc := ApplyImuRate(bits, w.imuSet);
        if rc != 0 {
          rc := ApplyImuRate(before, w.imuRestore);
          return Failed;
        }
        rc := st.Save(ImuRateTag(), U32(bits), w.heap, w.flashOk);
        if rc != 0 {
          rc := ApplyImuRate(before, w.imuRestore);
          return Failed;
        }
        imuRate := bits;
        return Ok;
      } else if id == 2 {
        var before := gpsRate;
        if !GpsRateOk(bits) {
          return OutOfRange;
        }
        if !gps {
          return NoDevice;
        }
        var rc := GpsSetRate(bits, w.gpsSet);
        if rc != 0 {
          return Failed;
        }
        rc := st.Save(GpsRateTag(), U32(bits), w.heap, w.flashOk);
        if rc != 0 {
          rc := GpsSetRate(before, w.gpsRestore);
          return Failed;
        }
        gpsRate := bits;
        return Ok;
      } else if id == 3 {
        var before := beta;
        if !BetaOk(bits) {
          return OutOfRange;
        }
        ApplyBeta(bits);
        var rc := st.Save(BetaTag(), U32(bits), w.heap, w.flashOk);
        if rc != 0 {
          ApplyBeta(before);
          return Failed;
        }
        beta := bits;
        return Ok;
      }
      return Unknown;
    }
  }

  // ---- Whole runs ----

  datatype Action =
    | Request(id: byte, bits: bv32, w: World)
    | SaveCal(chip: bool, data: seq<byte>, w: World)  // tag 1 or 2
    | Reboot(found: Found)

  function CalTag(chip: bool): Tag {
    if chip then Tag(1) else Tag(2)
  }

  function Step(p: Pico, a: Action): (r: Pico)
    requires |p.img| >= HEADER_LEN
    ensures |r.img| == |p.img|
  {
    match a
    case Request(id, bits, w) => Set(p, id, bits, w).1
    case SaveCal(chip, data, w) =>
      (match TrySave(p.img, CalTag(chip), data, w)
       case None => p
       case Some(img) => p.(img := img))
    case Reboot(found) => Boot(p.img, found)
  }

  function Run(p: Pico, actions: seq<Action>): (r: Pico)
    requires |p.img| >= HEADER_LEN
    ensures |r.img| == |p.img|
    decreases |actions|
  {
    if actions == [] then p else Run(Step(p, actions[0]), actions[1..])
  }

  predicate Consistent(p: Pico)
    requires |p.img| >= HEADER_LEN
  {
    p.values == ReadBack(Contents(p.img))
  }

  // The values the code accepts.
  predicate InRange(v: Values) {
    ImuRateOk(v.imuRate) && GpsRateOk(v.gpsRate) && BetaOk(v.beta)
  }

  lemma TrySaveStores(img: seq<byte>, tag: Tag, data: seq<byte>, w: World)
    requires |img| >= HEADER_LEN && TrySave(img, tag, data, w).Some?
    ensures Contents(TrySave(img, tag, data, w).value) == Contents(img)[tag := data]
  {
    hide Save; hide Contents; hide Fits; hide Erased;
    StoreProofs.SaveRefinesMap(img, tag, data);
  }

  lemma ReadAfterSave(m: Map, tag: Tag, data: seq<byte>, other: Tag, default: bv32)
    ensures ReadWord(m[tag := data], other, default) ==
            if other != tag then ReadWord(m, other, default)
            else if |data| == 4 then ToU32(data) else default
  {
    hide ToU32;
    if other == tag {
      assert m[tag := data][other] == data;
    }
  }

  lemma TagsDiffer()
    ensures ImuRateTag() != GpsRateTag() && GpsRateTag() != BetaTag() && BetaTag() != ImuRateTag()
    ensures forall chip ::
              CalTag(chip) != ImuRateTag() && CalTag(chip) != GpsRateTag() && CalTag(chip) != BetaTag()
  {}

  // What a word stored by one save means to a later start.
  lemma ReadBackAfterSave(m: Map, tag: Tag, data: seq<byte>)
    requires |data| == 4 || (tag != ImuRateTag() && tag != GpsRateTag() && tag != BetaTag())
    ensures var v, v' := ReadBack(m), ReadBack(m[tag := data]);
            && (if tag == ImuRateTag() then v'.imuRate == ToU32(data) else v'.imuRate == v.imuRate)
            && (if tag == GpsRateTag() then v'.gpsRate == ToU32(data) else v'.gpsRate == v.gpsRate)
            && (if tag == BetaTag() then v'.beta == ToU32(data) else v'.beta == v.beta)
  {
    hide ReadWord; hide ImuRateTag; hide GpsRateTag; hide BetaTag; hide ToU32; hide Defaults;
    ReadAfterSave(m, tag, data, ImuRateTag(), Defaults().imuRate);
    ReadAfterSave(m, tag, data, GpsRateTag(), Defaults().gpsRate);
    ReadAfterSave(m, tag, data, BetaTag(), Defaults().beta);
  }

  // The tag, memory field and range of each setting.
  predicate IsSetting(id: byte) {
    id == 1 || id == 2 || id == 3
  }

  function SettingTag(id: byte): Tag
    requires IsSetting(id)
  {
    if id == 1 then ImuRateTag() else if id == 2 then GpsRateTag() else BetaTag()
  }

  function SettingOf(v: Values, id: byte): bv32
    requires IsSetting(id)
  {
    if id == 1 then v.imuRate else if id == 2 then v.gpsRate else v.beta
  }

  // A request that succeeds changes its setting in memory and in flash and
  // nothing else; any other outcome changes neither.
  lemma SetChanges(p: Pico, id: byte, bits: bv32, w: World)
    requires |p.img| >= HEADER_LEN
    ensures var (r, p') := Set(p, id, bits, w);
            if r != Ok then p'.img == p.img && p'.values == p.values
            else IsSetting(id) && Contents(p'.img) == Contents(p.img)[SettingTag(id) := U32(bits)] &&
                 SettingOf(p'.values, id) == bits &&
                 forall other | IsSetting(other) && other != id :: SettingOf(p'.values, other) == SettingOf(p.values, other)
  {
    hide Contents; hide TrySave; hide U32; hide ImuRateOk; hide GpsRateOk; hide BetaOk;
    if IsSetting(id) && TrySave(p.img, SettingTag(id), U32(bits), w).Some? {
      TrySaveStores(p.img, SettingTag(id), U32(bits), w);
    }
  }

  // Memory and flash changed in the same setting.
  lemma SavedConsistent(p: Pico, p': Pico, id: byte, bits: bv32)
    requires |p.img| >= HEADER_LEN && |p'.img| >= HEADER_LEN && Consistent(p) && IsSetting(id)
    requires Contents(p'.img) == Contents(p.img)[SettingTag(id) := U32(bits)]
    requires SettingOf(p'.values, id) == bits
    requires forall other | IsSetting(other) && other != id :: SettingOf(p'.values, other) == SettingOf(p.values, other)
    ensures Consistent(p')
  {
    TagsDiffer();
    U32RoundTrip(bits);
    hide U32; hide ToU32; hide ReadWord; hide ImuRateTag; hide GpsRateTag; hide BetaTag; hide CalTag; hide Contents;
    hide ReadBack;
    ReadBackAfterSave(Contents(p.img), SettingTag(id), U32(bits));
    assert IsSetting(1) && IsSetting(2) && IsSetting(3);
  }

  lemma SetKeeps(p: Pico, id: byte, bits: bv32, w: World)
    requires |p.img| >= HEADER_LEN && Consistent(p)
    ensures Consistent(Set(p, id, bits, w).1)
    ensures InRange(p.values) ==> InRange(Set(p, id, bits, w).1.values)
  {
    SetChanges(p, id, bits, w);
    SetInRange(p, id, bits, w);
    hide U32; hide Contents; hide Set; hide InRange; hide ReadBack; hide SettingTag; hide SettingOf; hide IsSetting;
    if Set(p, id, bits, w).0 == Ok {
      SavedConsistent(p, Set(p, id, bits, w).1, id, bits);
    }
  }

  lemma SetKeepsCal(p: Pico, id: byte, bits: bv32, w: World, chip: bool)
    requires |p.img| >= HEADER_LEN
    ensures StoreProofs.Lookup(Contents(Set(p, id, bits, w).1.img), CalTag(chip)) ==
            StoreProofs.Lookup(Contents(p.img), CalTag(chip))
  {
    SetChanges(p, id, bits, w);
    TagsDiffer();
    hide U32; hide ImuRateTag; hide GpsRateTag; hide BetaTag; hide CalTag; hide Contents;
    hide Set; hide StoreProofs.Lookup;
    if Set(p, id, bits, w).0 == Ok {
      StoreProofs.MapPut(Contents(p.img), SettingTag(id), U32(bits), CalTag(chip));
    }
  }

  lemma SetInRange(p: Pico, id: byte, bits: bv32, w: World)
    requires |p.img| >= HEADER_LEN
    ensures InRange(p.values) ==> InRange(Set(p, id, bits, w).1.values)
  {
    hide TrySave; hide ImuRateOk; hide GpsRateOk; hide BetaOk; hide U32;
  }

  // ---- Devices ----

  // Every device that is there holds the value in memory.
  predicate InSync(p: Pico) {
    && (p.icm ==> p.holds.imuRate == p.values.imuRate)
    && (p.gps ==> p.holds.gpsRate == p.values.gpsRate)
    && p.holds.beta == p.values.beta
  }

  // The requests that leave a device behind: it takes a new rate that is not kept, and
  // the restoring call is refused, or is not made because the GPS receiver did not
  // answer.

  predicate LeavesImu(p: Pico, bits: bv32, w: World)
    requires |p.img| >= HEADER_LEN
  {
    && p.icm && ImuRateOk(bits) && bits != p.values.imuRate
    && w.imuRestore.Refused? && !w.imuSet.Refused?
    && (w.imuSet.Unanswered? || TrySave(p.img, ImuRateTag(), U32(bits), w).None?)
  }

  predicate LeavesGps(p: Pico, bits: bv32, w: World)
    requires |p.img| >= HEADER_LEN
  {
    && p.gps && GpsRateOk(bits) && bits != p.values.gpsRate
    && (w.gpsSet.Unanswered? ||
        (w.gpsSet.Worked? && w.gpsRestore.Refused? && TrySave(p.img, GpsRateTag(), U32(bits), w).None?))
  }

  predicate LeavesBehind(p: Pico, id: byte, bits: bv32, w: World)
    requires |p.img| >= HEADER_LEN
  {
    (id == 1 && LeavesImu(p, bits, w)) || (id == 2 && LeavesGps(p, bits, w))
  }

  lemma ImuInSync(p: Pico, bits: bv32, w: World)
    requires |p.img| >= HEADER_LEN && InSync(p)
    ensures InSync(SetImu(p, bits, w).1) <==> !LeavesImu(p, bits, w)
  {
    hide TrySave; hide U32; hide ImuRateOk;
  }

  lemma GpsInSync(p: Pico, bits: bv32, w: World)
    requires |p.img| >= HEADER_LEN && InSync(p)
    ensures InSync(SetGps(p, bits, w).1) <==> !LeavesGps(p, bits, w)
  {
    hide TrySave; hide U32; hide GpsRateOk;
  }

  lemma BetaInSync(p: Pico, bits: bv32, w: World)
    requires |p.img| >= HEADER_LEN && InSync(p)
    ensures InSync(SetBeta(p, bits, w).1)
  {
    hide TrySave; hide U32; hide BetaOk;
  }

  // Exactly these requests leave a device with another value than memory.
  lemma InSyncIff(p: Pico, id: byte, bits: bv32, w: World)
    requires |p.img| >= HEADER_LEN && InSync(p)
    ensures InSync(Set(p, id, bits, w).1) <==> !LeavesBehind(p, id, bits, w)
  {
    hide InSync; hide SetImu; hide SetGps; hide SetBeta; hide LeavesImu; hide LeavesGps;
    ImuInSync(p, bits, w);
    GpsInSync(p, bits, w);
    BetaInSync(p, bits, w);
  }

  // Such a request: the IMU takes a rate, the flash does not, and the IMU refuses the
  // old rate. The answer is Failed and memory is unchanged, but the IMU is not.
  lemma ImuLeftBehind(p: Pico, bits: bv32)
    requires |p.img| >= HEADER_LEN && InSync(p) && p.icm && ImuRateOk(bits) && bits != p.values.imuRate
    ensures var (r, p') := Set(p, 1, bits, World(Worked, Refused, Worked, Worked, true, false));
            r == Failed && p'.values == p.values && p'.img == p.img && p'.holds.imuRate == bits && !InSync(p')
  {
    hide U32; hide Storage.Accepts;
  }

  // What is left behind stays so only until a request for it succeeds.
  lemma CatchesUp(p: Pico, id: byte, bits: bv32, w: World)
    requires |p.img| >= HEADER_LEN && Set(p, id, bits, w).0 == Ok && IsSetting(id)
    ensures var p' := Set(p, id, bits, w).1;
            if id == 1 then p'.icm ==> p'.holds.imuRate == p'.values.imuRate
            else SettingOf(p'.holds, id) == SettingOf(p'.values, id)
  {
    hide TrySave; hide U32; hide ImuRateOk; hide GpsRateOk; hide BetaOk;
  }

  predicate Harmless(p: Pico, a: Action)
    requires |p.img| >= HEADER_LEN
  {
    match a
    case Request(id, bits, w) => !LeavesBehind(p, id, bits, w)
    case SaveCal(_, _, _) => true
    case Reboot(f) => (f.icm ==> !f.imuSet.Refused?) && (f.gps ==> !f.gpsSet.Refused?)
  }

  predicate AllHarmless(p: Pico, actions: seq<Action>)
    requires |p.img| >= HEADER_LEN
    decreases |actions|
  {
    actions == [] || (Harmless(p, actions[0]) && AllHarmless(Step(p, actions[0]), actions[1..]))
  }

  // Over any run without such a request the devices hold what memory holds.
  lemma {:induction false} RunInSync(p: Pico, actions: seq<Action>)
    requires |p.img| >= HEADER_LEN && InSync(p) && AllHarmless(p, actions)
    ensures InSync(Run(p, actions))
    decreases |actions|
  {
    hide Set; hide LeavesBehind; hide TrySave; hide Contents; hide ReadBack;
    if actions != [] {
      match actions[0]
      case Request(id, bits, w) => InSyncIff(p, id, bits, w); RunInSync(Step(p, actions[0]), actions[1..]);
      case SaveCal(_, _, _) => RunInSync(Step(p, actions[0]), actions[1..]);
      case Reboot(f) => RunInSync(Step(p, actions[0]), actions[1..]);
    }
  }

  // ---- What every run keeps ----

  lemma StepKeeps(p: Pico, a: Action)
    requires |p.img| >= HEADER_LEN && Consistent(p)
    ensures Consistent(Step(p, a)) && (InRange(p.values) ==> InRange(Step(p, a).values))
  {
    hide Set; hide TrySave; hide Contents; hide CalTag; hide ReadBack; hide InRange; hide StoreProofs.Lookup;
    match a
    case Request(id, bits, w) => SetKeeps(p, id, bits, w);
    case SaveCal(chip, data, w) =>
      if TrySave(p.img, CalTag(chip), data, w).Some? {
        TrySaveStores(p.img, CalTag(chip), data, w);
        TagsDiffer();
        CalIsNoSetting(Contents(p.img), chip, data);
      }
    case Reboot(found) =>
  }

  lemma CalIsNoSetting(m: Map, chip: bool, data: seq<byte>)
    ensures ReadBack(m[CalTag(chip) := data]) == ReadBack(m)
  {
    TagsDiffer();
    ReadBackAfterSave(m, CalTag(chip), data);
    hide ReadWord; hide CalTag; hide ImuRateTag; hide GpsRateTag; hide BetaTag;
  }

  // Over any run of requests, failing saves, calibration saves and restarts, memory
  // holds what a start would read back, and accepted values stay in range.
  lemma {:induction false} RunKeeps(p: Pico, actions: seq<Action>)
    requires |p.img| >= HEADER_LEN && Consistent(p)
    ensures var p' := Run(p, actions);
            Consistent(p') && (InRange(p.values) ==> InRange(p'.values))
    decreases |actions|
  {
    hide Step; hide Contents; hide CalTag; hide InRange; hide Consistent; hide StoreProofs.Lookup;
    if actions != [] {
      StepKeeps(p, actions[0]);
      RunKeeps(Step(p, actions[0]), actions[1..]);
    }
  }

  // The data of the last calibration of a chip whose save succeeded in the run, or what
  // there was before.
  function LastCal(p: Pico, actions: seq<Action>, chip: bool, before: Option<seq<byte>>): Option<seq<byte>>
    requires |p.img| >= HEADER_LEN
    decreases |actions|
  {
    if actions == [] then before
    else
      var a := actions[0];
      var saved := a.SaveCal? && a.chip == chip && TrySave(p.img, CalTag(chip), a.data, a.w).Some?;
      LastCal(Step(p, a), actions[1..], chip, if saved then Some(a.data) else before)
  }

  // Over any run the flash holds each chip's calibration as it was saved last: neither
  // settings nor the other chip's calibration disturb it.
  lemma {:induction false} CalibrationKept(p: Pico, actions: seq<Action>, chip: bool)
    requires |p.img| >= HEADER_LEN
    ensures StoreProofs.Lookup(Contents(Run(p, actions).img), CalTag(chip)) ==
            LastCal(p, actions, chip, StoreProofs.Lookup(Contents(p.img), CalTag(chip)))
    decreases |actions|
  {
    hide Step; hide TrySave; hide Contents; hide CalTag; hide StoreProofs.Lookup;
    if actions != [] {
      CalStep(p, actions[0], chip);
      CalibrationKept(Step(p, actions[0]), actions[1..], chip);
    }
  }

  lemma CalStep(p: Pico, a: Action, chip: bool)
    requires |p.img| >= HEADER_LEN
    ensures StoreProofs.Lookup(Contents(Step(p, a).img), CalTag(chip)) ==
            if a.SaveCal? && a.chip == chip && TrySave(p.img, CalTag(chip), a.data, a.w).Some? then Some(a.data)
            else StoreProofs.Lookup(Contents(p.img), CalTag(chip))
  {
    match a {
      case Request(id, bits, w) =>
        hide Set; hide Contents; hide StoreProofs.Lookup;
        SetKeepsCal(p, id, bits, w, chip);
      case SaveCal(other, data, w) =>
        ChipsDiffer(other, chip);
        hide TrySave; hide Contents; hide CalTag; hide StoreProofs.Lookup;
        if TrySave(p.img, CalTag(other), data, w).Some? {
          TrySaveStores(p.img, CalTag(other), data, w);
          StoreProofs.MapPut(Contents(p.img), CalTag(other), data, CalTag(chip));
        }
      case Reboot(f) =>
    }
  }

  lemma ChipsDiffer(a: bool, b: bool)
    ensures CalTag(a) == CalTag(b) <==> a == b
  {}

  // What is in the flash of a device that was only ever written by this code, or
  // not at all: no setting entry, or one in range.
  predicate StoredInRange(m: Map) {
    && (ImuRateTag() in m && |m[ImuRateTag()]| == 4 ==> ImuRateOk(ToU32(m[ImuRateTag()])))
    && (GpsRateTag() in m && |m[GpsRateTag()]| == 4 ==> GpsRateOk(ToU32(m[GpsRateTag()])))
    && (BetaTag() in m && |m[BetaTag()]| == 4 ==> BetaOk(ToU32(m[BetaTag()])))
  }

  // The start does not check what it reads, so the values are in range exactly when
  // the stored ones are.
  lemma BootInRange(img: seq<byte>, f: Found)
    requires |img| >= HEADER_LEN
    ensures InRange(Boot(img, f).values) <==> StoredInRange(Contents(img))
  {
    hide Contents; hide ToU32; hide ImuRateTag; hide GpsRateTag; hide BetaTag;
  }

  // From such a flash the main loop's division by the IMU rate is always defined.
  lemma EveryRunInRange(img: seq<byte>, f: Found, actions: seq<Action>)
    requires |img| >= HEADER_LEN && StoredInRange(Contents(img))
    ensures var v := Run(Boot(img, f), actions).values; InRange(v) && v.imuRate != 0
  {
    BootInRange(img, f);
    RunKeeps(Boot(img, f), actions);
    hide Contents; hide Run; hide ReadBack; hide CalTag;
  }
}
