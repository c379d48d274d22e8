/**
 The answer to every command in guards a caller can see, and a magnetometer
 calibration from its first command to its last.
 */
module CommandLaws {
  import opened Bytes
  import opened Vectors
  import opened Calib
  import opened CommandSpec

  // Which answer a command gets, and which commands change anything: those that begin a
  // calibration, when none runs, and the one that ends the magnetometer's.
  lemma VerdictIff(p: Pico, id: byte, samples: Samples, saves: seq<Save>)
    ensures var (r, q) := DoCommand(p, id, samples, saves);
            var free := !p.mag && !p.gyro;
            && (r == NoDevice <==> (id == 1 || id == 2 || id == 3) && !p.icm)
            && (r == Busy <==> (id == 1 || id == 3) && p.icm && !free)
            && (r == Failed <==> (id == 2 && p.icm && !p.mag) || (id == 4 && NotStored in saves))
            && (r == Unknown <==> id < 1 || id > 5)
            && (r == Ok <==> (id == 1 && p.icm && free) || (id == 2 && p.icm && p.mag) ||
                             (id == 3 && p.icm && free) || (id == 4 && NotStored !in saves) || id == 5)
            && (r != Ok || id == 4 || id == 5 ==> q == p)
            && (r == Ok && id == 1 ==> q.mag && !q.gyro)
            && (r == Ok && id == 2 ==> !q.mag && q.gyro == p.gyro)
            && (r == Ok && id == 3 ==> q.gyro && q.gyroReply && !q.mag)
            && (r == Ok && id == 3 ==> q.left == if samples > 0 then samples else 500)
  {
    hide MagBegin; hide MagEnd; hide GyroBegin;
  }

  // ---- A magnetometer calibration ----

  // The magnetometer readings of the passes that are valid.
  function MagReadings(es: seq<Event>): seq<Vec>
    decreases |es|
  {
    if es == [] then [] else
      var before := MagReadings(es[..|es| - 1]);
      var e := es[|es| - 1];
      if e.Pass? && e.mag.Read? && e.mag.value.valid then before + [e.mag.value.mag] else before
  }

  // Any passes and commands but the end of the calibration and a restart.
  predicate Open(es: seq<Event>) {
    forall i :: 0 <= i < |es| ==> es[i].Command? ==> es[i].id != 2 && es[i].id != 5
  }

  predicate Boxed(p: Pico, start: Pico, rs: seq<Vec>) {
    && p.mag && !p.gyro && p.icm && !p.gyroReply
    && p.cal == MagUpdates(MagBegin(start.cal), rs)
  }

  lemma StepBoxes(s: (Pico, Log), start: Pico, rs: seq<Vec>, e: Event)
    requires Boxed(s.0, start, rs) && (e.Command? ==> e.id != 2 && e.id != 5)
    ensures var taken := e.Pass? && e.mag.Read? && e.mag.value.valid;
            Boxed(Step(s, e).0, start, if taken then rs + [e.mag.value.mag] else rs)
  {
    hide MagUpdate; hide MagBegin;
    if e.Pass? && e.mag.Read? && e.mag.value.valid {
      assert (rs + [e.mag.value.mag])[..|rs|] == rs;
    }
  }

  lemma {:induction false} RunBoxes(s: (Pico, Log), start: Pico, es: seq<Event>)
    requires Boxed(s.0, start, []) && Open(es)
    ensures Boxed(Run(s, es).0, start, MagReadings(es))
    decreases |es|
  {
    hide Boxed; hide Step;
    if es != [] {
      var before := es[..|es| - 1];
      RunBoxes(s, start, before);
      StepBoxes(Run(s, before), start, MagReadings(before), es[|es| - 1]);
    }
  }

  // Two readings differ on the axis.
  predicate Differ(rs: seq<Vec>, i: nat)
    requires i < 3
  {
    exists j, k :: 0 <= j < |rs| && 0 <= k < |rs| && Axis(rs[j], i) < Axis(rs[k], i)
  }

  predicate Varied(rs: seq<Vec>) {
    Differ(rs, 0) && Differ(rs, 1) && Differ(rs, 2)
  }

  // Corrected, the readings lie within r on the axis and reach both ends.
  predicate Fills(c: Cal, rs: seq<Vec>, i: nat, r: real)
    requires i < 3
  {
    && (forall k :: 0 <= k < |rs| ==> -r <= Axis(FixMag(c, rs[k]), i) <= r)
    && (exists k :: 0 <= k < |rs| && Axis(FixMag(c, rs[k]), i) == -r)
    && (exists k :: 0 <= k < |rs| && Axis(FixMag(c, rs[k]), i) == r)
  }

  predicate FillsAll(c: Cal, rs: seq<Vec>, r: real) {
    r > 0.0 && Fills(c, rs, 0, r) && Fills(c, rs, 1, r) && Fills(c, rs, 2, r)
  }

  lemma SpreadOn(box: Cal, rs: seq<Vec>, i: nat)
    requires i < 3 && Tight(box, rs, i)
    ensures Differ(rs, i) <==> Axis(box.magMin, i) < Axis(box.magMax, i)
  {
    hide Axis;
    var lo :| 0 <= lo < |rs| && Axis(rs[lo], i) == Axis(box.magMin, i);
    var hi :| 0 <= hi < |rs| && Axis(rs[hi], i) == Axis(box.magMax, i);
  }

  lemma SpreadIs(box: Cal)
    ensures Spread(box) <==>
            Axis(box.magMin, 0) < Axis(box.magMax, 0) && Axis(box.magMin, 1) < Axis(box.magMax, 1) &&
            Axis(box.magMin, 2) < Axis(box.magMax, 2)
  {
    hide Axis;
  }

  lemma VariedSpreads(c: Cal, rs: seq<Vec>)
    requires rs != [] && Finite(rs)
    ensures Varied(rs) <==> Spread(MagUpdates(MagBegin(c), rs))
  {
    hide MagUpdates; hide MagBegin; hide Axis; hide Spread; hide Tight; hide Differ; hide Finite;
    var box := MagUpdates(MagBegin(c), rs);
    MagCollects(c, rs, 0);
    MagCollects(c, rs, 1);
    MagCollects(c, rs, 2);
    SpreadOn(box, rs, 0);
    SpreadOn(box, rs, 1);
    SpreadOn(box, rs, 2);
    SpreadIs(box);
  }

  lemma SpreadFills(c: Cal, rs: seq<Vec>)
    requires rs != [] && Finite(rs) && Spread(MagUpdates(MagBegin(c), rs))
    ensures exists r: real :: FillsAll(MagEnd(MagUpdates(MagBegin(c), rs)), rs, r)
  {
    hide MagUpdates; hide MagBegin; hide Axis; hide Spread; hide MagEnd; hide FixMag; hide Finite; hide Average;
    MagCentred(c, rs, 0);
    MagCentred(c, rs, 1);
    MagCentred(c, rs, 2);
    var box := MagUpdates(MagBegin(c), rs);
    assert FillsAll(MagEnd(box), rs, Average(box));
  }

  // A magnetometer calibration begun and ended by commands, whatever else comes between:
  // with readings that differ on every axis, the corrected readings fill the same range
  // around zero on every axis; otherwise offset and scale stay.
  lemma MagCalApplies(s: (Pico, Log), begin: Event, es: seq<Event>, end: Event)
    requires s.0.icm && !s.0.mag && !s.0.gyro && !s.0.gyroReply && Open(es)
    requires begin.Command? && begin.id == 1 && end.Command? && end.id == 2
    requires MagReadings(es) != [] && Finite(MagReadings(es))
    ensures var begun := Step(s, begin);
            var before := Run(begun, es);
            var done := Step(before, end);
            var rs := MagReadings(es);
            && begun.1.replies == s.1.replies + [Reply(1, Ok)]
            && done.1.replies == before.1.replies + [Reply(2, Ok)] && !done.0.mag
            && (Varied(rs) ==> exists r: real :: FillsAll(done.0.cal, rs, r))
            && (!Varied(rs) ==> done.0.cal.magOffset == s.0.cal.magOffset && done.0.cal.magScale == s.0.cal.magScale)
            && done.0.cal.gyroBias == s.0.cal.gyroBias
  {
    var begun := Step(s, begin);
    BeginBoxes(s, begin);
    var rs := MagReadings(es);
    var box := MagUpdates(MagBegin(s.0.cal), rs);
    hide Step; hide Boxed; hide MagReadings; hide MagUpdates; hide MagEnd; hide MagBegin; hide Varied; hide Finite;
    hide Spread; hide FillsAll; hide Open;
    RunBoxes(begun, s.0, es);
    EndApplies(Run(begun, es), end, s.0, rs);
    VariedSpreads(s.0.cal, rs);
    BoxKeeps(s.0.cal, rs);
    EndKeeps(box);
    if Varied(rs) { SpreadFills(s.0.cal, rs); }
  }

  lemma BeginBoxes(s: (Pico, Log), begin: Event)
    requires s.0.icm && !s.0.mag && !s.0.gyro && !s.0.gyroReply && begin.Command? && begin.id == 1
    ensures var begun := Step(s, begin);
            Boxed(begun.0, s.0, []) && begun.1.replies == s.1.replies + [Reply(1, Ok)]
  {
    hide MagBegin;
  }

  lemma EndApplies(s: (Pico, Log), end: Event, start: Pico, rs: seq<Vec>)
    requires Boxed(s.0, start, rs) && end.Command? && end.id == 2
    ensures var done := Step(s, end);
            done.0.cal == MagEnd(MagUpdates(MagBegin(start.cal), rs)) && !done.0.mag &&
            done.1.replies == s.1.replies + [Reply(2, Ok)]
  {
    hide MagBegin; hide MagEnd; hide MagUpdates;
  }

  lemma {:induction false} BoxKeeps(c: Cal, rs: seq<Vec>)
    ensures var box := MagUpdates(MagBegin(c), rs);
            box.magOffset == c.magOffset && box.magScale == c.magScale && box.gyroBias == c.gyroBias
    decreases |rs|
  {
    if rs != [] { BoxKeeps(c, rs[..|rs| - 1]); }
  }

  lemma EndKeeps(box: Cal)
    ensures MagEnd(box).gyroBias == box.gyroBias
    ensures !Spread(box) ==> MagEnd(box).magOffset == box.magOffset && MagEnd(box).magScale == box.magScale
  {
    hide Average; hide Radius; hide Centre;
  }

  // ---- Starts ----

  // A start, also one by command 5, has the stored calibration or none: no offset, scale
  // one. Exactly an ICM-20948 whose bias was never measured is calibrated at once, with
  // 500 readings and without a reply.
  lemma StartIs(s: (Pico, Log), samples: Samples, saves: seq<Save>, b: Boot)
    ensures var p := Step(s, Command(5, samples, saves, b)).0;
            var zero, one := Vec(0.0, 0.0, 0.0), Vec(1.0, 1.0, 1.0);
            && p.icm == b.icm && !p.mag && !p.gyroReply
            && (p.gyro <==> b.icm && (b.stored ==> b.cal.n == 0)) && (p.gyro ==> p.left == 500 && p.cal.n == 0)
            && (if b.stored then p.cal.gyroBias == b.cal.gyroBias && p.cal.magOffset == b.cal.magOffset &&
                                 p.cal.magScale == b.cal.magScale
                else p.cal.gyroBias == zero && p.cal.magOffset == zero && p.cal.magScale == one)
  {}

  // The calibration of a start: after its 500 readings the bias is their mean, and no
  // reply is sent.
  lemma BootCalSucceeds(b: Boot, log: Log, es: seq<Event>, last: Event)
    requires Start(b).gyro && AllSteady(es) && |Readings(es)| == 499 && last.Pass? && last.gyro.Read?
    ensures var before := Run((Start(b), log), es);
            var done := Step(before, last);
            var rs := Readings(es) + [last.gyro.value];
            && before.0.gyro && !done.0.gyro && done.1.replies == before.1.replies
            && done.0.cal.gyroBias == Over(Sum(rs), 500.0) && Sum(Fixed(done.0.cal, rs)) == Same(0.0)
  {
    var begun := (Start(b), log);
    RunCollects(begun, es);
    var before := Run(begun, es);
    var rs := Readings(es) + [last.gyro.value];
    assert rs[..|rs| - 1] == Readings(es);
    var c: Cal := if b.stored then b.cal else Blank;
    assert Start(b).cal == GyroBegin(c);
    hide Readings; hide Run;
    assert Step(before, last).0.cal == GyroEnd(GyroUpdates(GyroBegin(c), rs));
    assert before.1.replies + [] == before.1.replies;
    GyroCentred(c, rs);
  }
}
