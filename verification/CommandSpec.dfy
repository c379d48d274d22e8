/**
 The Pico's commands and the calibrations they start. A gyro calibration is answered
 when it ends; every other command at once.
 */
module CommandSpec {
  import opened Bytes
  import opened Vectors
  import opened Calib

  const DEFAULT_SAMPLES := 500
  const SAMPLES_MAX := 65535

  datatype Result = Ok | Unknown | OutOfRange | NoDevice | Failed | Busy

  datatype Reply = Reply(id: byte, result: Result)

  const MAG_BEGIN: byte := 1
  const MAG_END: byte := 2
  const GYRO_CAL: byte := 3
  const SAVE_CAL: byte := 4
  const REBOOT: byte := 5

  // `icm`: there is an ICM-20948. `left`: gyro readings still to collect.
  datatype Pico = Pico(icm: bool, mag: bool, gyro: bool, gyroReply: bool, left: nat, cal: Cal)

  // How saving the calibration of an IMU went: there is no IMU, it was stored, or not.
  datatype Save = Absent | Stored | NotStored

  predicate AllStored(saves: seq<Save>) {
    forall i :: 0 <= i < |saves| ==> saves[i] != NotStored
  }

  type Samples = n: nat | n <= SAMPLES_MAX

  // ---- One command ----

  function BeginGyroCal(p: Pico, samples: nat): Pico {
    p.(gyro := true, left := samples, cal := GyroBegin(p.cal))
  }

  function DoCommand(p: Pico, id: byte, samples: Samples, saves: seq<Save>): (Result, Pico) {
    if id == MAG_BEGIN then
      if !p.icm then (NoDevice, p)
      else if p.mag || p.gyro then (Busy, p)
      else (Ok, p.(mag := true, cal := MagBegin(p.cal)))
    else if id == MAG_END then
      if !p.icm then (NoDevice, p)
      else if !p.mag then (Failed, p)
      else (Ok, p.(mag := false, cal := MagEnd(p.cal)))
    else if id == GYRO_CAL then
      if !p.icm then (NoDevice, p)
      else if p.mag || p.gyro then (Busy, p)
      else (Ok, BeginGyroCal(p, if samples > 0 then samples else DEFAULT_SAMPLES).(gyroReply := true))
    else if id == SAVE_CAL then (if AllStored(saves) then Ok else Failed, p)
    else if id == REBOOT then (Ok, p)
    else (Unknown, p)
  }

  // The state after a command, and its reply if it is answered now.
  function OnCommand(p: Pico, id: byte, samples: Samples, saves: seq<Save>): (Pico, seq<Reply>) {
    var r := DoCommand(p, id, samples, saves);
    (r.1, if id == GYRO_CAL && r.0 == Ok then [] else [Reply(id, r.0)])
  }

  // ---- One pass of the main loop ----

  // What reading the sensor gave; a magnetometer value may be stale.
  datatype Read<T> = Read(value: T) | ReadFailed

  datatype MagReading = MagReading(valid: bool, mag: Vec)

  function MagStep(p: Pico, m: Read<MagReading>): Pico {
    if p.mag && m.Read? && m.value.valid then p.(cal := MagUpdate(p.cal, m.value.mag)) else p
  }

  function GyroDone(p: Pico, result: Result): (Pico, seq<Reply>) {
    (p.(gyro := false, gyroReply := false), if p.gyroReply then [Reply(GYRO_CAL, result)] else [])
  }

  function GyroStep(p: Pico, g: Read<Vec>): (Pico, seq<Reply>) {
    if !p.gyro then (p, [])
    else if p.left == 0 || g.ReadFailed? then GyroDone(p, Failed)
    else
      var q := p.(cal := GyroUpdate(p.cal, g.value), left := p.left - 1);
      if q.left > 0 then (q, []) else GyroDone(q.(cal := GyroEnd(q.cal)), Ok)
  }

  function CalibrationStep(p: Pico, m: Read<MagReading>, g: Read<Vec>): (Pico, seq<Reply>) {
    GyroStep(MagStep(p, m), g)
  }

  // ---- Start ----

  // What a start finds: an ICM-20948, and the calibration in flash.
  datatype Boot = Boot(icm: bool, stored: bool, cal: Cal)

  const Blank := Cal(Same(0.0), Same(0.0), Same(1.0), Same(0.0), 0, Same(FLT_MAX), Same(-FLT_MAX))

  // Without a stored gyro bias the ICM-20948 is calibrated at once.
  function Start(b: Boot): Pico {
    var p := Pico(b.icm, false, false, false, 0, if b.stored then b.cal else Blank);
    if p.icm && p.cal.n == 0 then BeginGyroCal(p, DEFAULT_SAMPLES) else p
  }

  // ---- Whole runs ----

  // A restart follows the reply of a reboot command.
  datatype Event =
    | Command(id: byte, samples: Samples, saves: seq<Save>, boot: Boot)
    | Pass(mag: Read<MagReading>, gyro: Read<Vec>)

  // Commands that came, each with what its handling gave; replies that went; and gyro
  // calibrations a restart cut off.
  datatype Log = Log(commands: seq<Reply>, replies: seq<Reply>, cutOff: nat)

  function Step(s: (Pico, Log), e: Event): (Pico, Log) {
    match e
    case Command(id, samples, saves, boot) =>
      var r := OnCommand(s.0, id, samples, saves);
      var verdict := DoCommand(s.0, id, samples, saves).0;
      var log := s.1.(commands := s.1.commands + [Reply(id, verdict)], replies := s.1.replies + r.1);
      if id == REBOOT then (Start(boot), log.(cutOff := log.cutOff + if s.0.gyroReply then 1 else 0))
      else (r.0, log)
    case Pass(m, g) =>
      var r := CalibrationStep(s.0, m, g);
      (r.0, s.1.(replies := s.1.replies + r.1))
  }

  function Run(s: (Pico, Log), es: seq<Event>): (Pico, Log)
    decreases |es|
  {
    if es == [] then s else Step(Run(s, es[..|es| - 1]), es[|es| - 1])
  }

  predicate Inv(p: Pico) {
    && !(p.mag && p.gyro)
    && (p.mag || p.gyro ==> p.icm)
    && (p.gyroReply ==> p.gyro)
    && (p.gyro ==> p.left > 0 && p.cal.n + p.left <= SAMPLES_MAX)
  }

  lemma StepKeeps(s: (Pico, Log), e: Event)
    requires Inv(s.0)
    ensures Inv(Step(s, e).0)
  {}

  // A gyro calibration that was accepted, or the reply that ends one.
  predicate Calibration(r: Reply) {
    r.id == GYRO_CAL && (r.result == Ok || r.result == Failed)
  }

  function AtOnce(rs: seq<Reply>): seq<Reply>
    decreases |rs|
  {
    if rs == [] then [] else
      var k := |rs| - 1;
      AtOnce(rs[..k]) + (if Calibration(rs[k]) then [] else [rs[k]])
  }

  function Calibrations(rs: seq<Reply>): nat
    decreases |rs|
  {
    if rs == [] then 0 else Calibrations(rs[..|rs| - 1]) + (if Calibration(rs[|rs| - 1]) then 1 else 0)
  }

  // The commands but for accepted gyro calibrations are answered in order, all of them,
  // each with its own result; of the accepted gyro calibrations all but the running one
  // and those cut off have their reply.
  predicate Answered(s: (Pico, Log)) {
    && AtOnce(s.1.replies) == AtOnce(s.1.commands)
    && Calibrations(s.1.commands) == Calibrations(s.1.replies) + s.1.cutOff + (if s.0.gyroReply then 1 else 0)
  }

  lemma AddReply(rs: seq<Reply>, r: Reply)
    ensures AtOnce(rs + [r]) == AtOnce(rs) + (if Calibration(r) then [] else [r])
    ensures Calibrations(rs + [r]) == Calibrations(rs) + (if Calibration(r) then 1 else 0)
  {
    assert (rs + [r])[..|rs|] == rs;
  }

  // Only an accepted gyro calibration leaves a reply owing, and it found none owing.
  lemma PendingAfter(p: Pico, id: byte, samples: Samples, saves: seq<Save>)
    requires Inv(p)
    ensures var r := DoCommand(p, id, samples, saves);
            && (Calibration(Reply(id, r.0)) <==> id == GYRO_CAL && r.0 == Ok)
            && if id == GYRO_CAL && r.0 == Ok then r.1.gyroReply && !p.gyroReply else r.1.gyroReply == p.gyroReply
  {}

  lemma CommandAnswers(s: (Pico, Log), id: byte, samples: Samples, saves: seq<Save>, boot: Boot)
    requires Inv(s.0) && Answered(s)
    ensures Answered(Step(s, Command(id, samples, saves, boot)))
  {
    hide AtOnce; hide Calibrations; hide Calibration; hide DoCommand; hide Inv;
    PendingAfter(s.0, id, samples, saves);
    var verdict := Reply(id, DoCommand(s.0, id, samples, saves).0);
    AddReply(s.1.commands, verdict);
    AddReply(s.1.replies, verdict);
    assert s.1.replies + [] == s.1.replies;
  }

  lemma PassAnswers(s: (Pico, Log), m: Read<MagReading>, g: Read<Vec>)
    requires Answered(s)
    ensures Answered(Step(s, Pass(m, g)))
  {
    hide AtOnce; hide Calibrations; hide GyroUpdate; hide GyroEnd;
    AddReply(s.1.replies, Reply(GYRO_CAL, Ok));
    AddReply(s.1.replies, Reply(GYRO_CAL, Failed));
    assert s.1.replies + [] == s.1.replies;
    assert MagStep(s.0, m).gyroReply == s.0.gyroReply;
  }

  lemma StepAnswers(s: (Pico, Log), e: Event)
    requires Inv(s.0) && Answered(s)
    ensures Answered(Step(s, e))
  {
    hide Step; hide Answered; hide Inv;
    match e {
      case Command(id, samples, saves, boot) => CommandAnswers(s, id, samples, saves, boot);
      case Pass(m, g) => PassAnswers(s, m, g);
    }
  }

  lemma {:induction false} RunAnswers(b: Boot, es: seq<Event>)
    ensures var s := Run((Start(b), Log([], [], 0)), es); Inv(s.0) && Answered(s)
    decreases |es|
  {
    if es != [] {
      RunAnswers(b, es[..|es| - 1]);
      hide Step; hide Answered; hide Inv; hide Start;
      var s := Run((Start(b), Log([], [], 0)), es[..|es| - 1]);
      StepKeeps(s, es[|es| - 1]);
      StepAnswers(s, es[|es| - 1]);
    }
  }

  // ---- A gyro calibration ----

  // The gyro readings of the passes, up to the first that failed.
  function Readings(es: seq<Event>): seq<Vec>
    decreases |es|
  {
    if es == [] then [] else
      var before := Readings(es[..|es| - 1]);
      var e := es[|es| - 1];
      if e.Pass? && e.gyro.Read? then before + [e.gyro.value] else before
  }

  predicate Steady(e: Event) {
    (e.Pass? ==> e.gyro.Read?) && (e.Command? ==> e.id != REBOOT)
  }

  // Commands and passes without a restart and without a failed reading.
  predicate AllSteady(es: seq<Event>) {
    forall i :: 0 <= i < |es| ==> Steady(es[i])
  }

  // Midway: the readings are collected and nothing else of the calibration changes.
  predicate Collecting(p: Pico, start: Pico, rs: seq<Vec>) {
    && p.gyro && p.icm == start.icm && !p.mag && p.gyroReply == start.gyroReply
    && p.left + |rs| == start.left && p.left > 0
    && p.cal == GyroUpdates(start.cal, rs)
  }

  lemma StepCollects(s: (Pico, Log), start: Pico, rs: seq<Vec>, e: Event)
    requires Collecting(s.0, start, rs) && Steady(e)
    requires e.Pass? ==> s.0.left > 1
    ensures Collecting(Step(s, e).0, start, if e.Pass? then rs + [e.gyro.value] else rs)
    ensures e.Pass? ==> Step(s, e).1 == s.1
    ensures e.Command? ==>
              Step(s, e).1.replies == s.1.replies + [Reply(e.id, DoCommand(s.0, e.id, e.samples, e.saves).0)]
  {
    if e.Pass? {
      assert (rs + [e.gyro.value])[..|rs|] == rs;
      hide GyroUpdate;
      assert s.1.replies + [] == s.1.replies;
    }
  }

  lemma {:induction false} RunCollects(s: (Pico, Log), es: seq<Event>)
    requires Inv(s.0) && s.0.gyro && AllSteady(es) && |Readings(es)| < s.0.left
    ensures Collecting(Run(s, es).0, s.0, Readings(es))
    decreases |es|
  {
    if es != [] {
      var before := es[..|es| - 1];
      RunCollects(s, before);
      hide Step;
      StepCollects(Run(s, before), s.0, Readings(before), es[|es| - 1]);
    }
  }

  // An accepted gyro calibration: whatever other commands come, it runs until it has
  // its number of readings, then the bias is their mean, readings corrected with it
  // average to zero, and the reply is sent.
  lemma GyroCalSucceeds(s: (Pico, Log), command: Event, es: seq<Event>, last: Event)
    requires Inv(s.0) && command.Command? && command.id == GYRO_CAL
    requires DoCommand(s.0, command.id, command.samples, command.saves).0 == Ok
    requires AllSteady(es) && last.Pass? && last.gyro.Read?
    requires var n := if command.samples > 0 then command.samples else DEFAULT_SAMPLES;
             |Readings(es)| == n - 1
    ensures var before := Run(Step(s, command), es);
            var done := Step(before, last);
            var rs := Readings(es) + [last.gyro.value];
            && before.0.gyro && !done.0.gyro
            && done.0.cal.gyroBias == Over(Sum(rs), |rs| as real)
            && Sum(Fixed(done.0.cal, rs)) == Same(0.0)
            && done.1.replies == before.1.replies + [Reply(GYRO_CAL, Ok)]
  {
    var begun := Step(s, command);
    var before := Run(begun, es);
    StepKeeps(s, command);
    RunCollects(begun, es);
    var rs := Readings(es) + [last.gyro.value];
    assert rs[..|rs| - 1] == Readings(es);
    hide Readings; hide Run;
    assert begun.0.cal == GyroBegin(s.0.cal);
    assert Step(before, last).0.cal == GyroEnd(GyroUpdates(GyroBegin(s.0.cal), rs));
    GyroCentred(s.0.cal, rs);
  }

  // A failed reading ends it: the bias stays, and the reply says so.
  lemma GyroCalFails(s: (Pico, Log), es: seq<Event>, last: Event)
    requires Inv(s.0) && s.0.gyro && AllSteady(es) && |Readings(es)| < s.0.left
    requires last.Pass? && last.gyro.ReadFailed?
    ensures var before := Run(s, es);
            var done := Step(before, last);
            && before.0.gyro && !done.0.gyro
            && done.0.cal.gyroBias == s.0.cal.gyroBias
            && done.1.replies == before.1.replies + (if s.0.gyroReply then [Reply(GYRO_CAL, Failed)] else [])
  {
    RunCollects(s, es);
    BiasKept(s.0.cal, Readings(es));
    hide Readings; hide Run;
  }

  lemma {:induction false} BiasKept(c: Cal, rs: seq<Vec>)
    ensures GyroUpdates(c, rs).gyroBias == c.gyroBias
    decreases |rs|
  {
    if rs != [] { BiasKept(c, rs[..|rs| - 1]); }
  }
}
