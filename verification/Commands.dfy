/**
 The Pico's command handler and calibration step as the code keeps them: flags, a
 countdown of readings and a calibrator.
 */
module Commands {
  import opened Bytes
  import opened Vectors
  import opened Calib
  import opened CommandSpec

  class PicoCommands {
    const icm: bool
    const cal: Calibrator
    var magCalRunning: bool
    var gyroCalRunning: bool
    var gyroCalReply: bool
    var gyroCalLeft: nat

    ghost function Value(): Pico
      reads this, cal
    {
      Pico(icm, magCalRunning, gyroCalRunning, gyroCalReply, gyroCalLeft, cal.Value())
    }

    constructor (icm: bool, cal: Calibrator)
      ensures this.icm == icm && this.cal == cal
      ensures Value() == Pico(icm, false, false, false, 0, cal.Value())
    {
      this.icm, this.cal := icm, cal;
      magCalRunning, gyroCalRunning, gyroCalReply, gyroCalLeft := false, false, false, 0;
    }

    // The first gyro calibration after a start, without a command.
    method CalibrateAtBoot()
      modifies this, cal
      ensures Value() == if icm && old(cal.n) == 0 then BeginGyroCal(old(Value()), DEFAULT_SAMPLES) else old(Value())
      ensures old(Value()) == Pico(icm, false, false, false, 0, old(cal.Value())) ==>
                Value() == Start(Boot(icm, true, old(cal.Value())))
    {
      if icm && cal.n == 0 {
        var rc := GyroBegin(DEFAULT_SAMPLES);
        if rc == 0 {
          gyroCalRunning := true;
        }
      }
    }

    method GyroBegin(samples: nat) returns (rc: int)
      modifies this, cal
      ensures samples == 0 ==> rc == -1 && Value() == old(Value())
      ensures samples > 0 ==> rc == 0 && Value() == old(Value()).(left := samples, cal := Calib.GyroBegin(old(cal.Value())))
    {
      if samples == 0 {
        return -1;
      }
      cal.BeginGyro();
      gyroCalLeft := samples;
      return 0;
    }

    method DoCommand(id: byte, samples: Samples, saves: seq<Save>) returns (r: Result)
      modifies this, cal
      ensures (r, Value()) == CommandSpec.DoCommand(old(Value()), id, samples, saves)
    {
      if id == MAG_BEGIN {
        if !icm {
          return NoDevice;
        }
        if magCalRunning || gyroCalRunning {
          return Busy;
        }
        cal.BeginMag();
        magCalRunning := true;
        return Ok;
      } else if id == MAG_END {
        if !icm {
          return NoDevice;
        }
        if !magCalRunning {
          return Failed;
        }
        magCalRunning := false;
        cal.EndMag();
        return Ok;
      } else if id == GYRO_CAL {
        if !icm {
          return NoDevice;
        }
        if magCalRunning || gyroCalRunning {
          return Busy;
        }
        var n := if samples > 0 then samples else DEFAULT_SAMPLES;
        var rc := GyroBegin(n);
        if rc != 0 {
          return Failed;
        }
        gyroCalRunning := true;
        gyroCalReply := true;
        return Ok;
      } else if id == SAVE_CAL {
        r := SaveCal(saves);
      } else if id == REBOOT {
        return Ok;
      } else {
        return Unknown;
      }
    }

    // Every IMU is saved, whatever happens to the others.
    method SaveCal(saves: seq<Save>) returns (r: Result)
      ensures r == if AllStored(saves) then Ok else Failed
    {
      r := Ok;
      for i := 0 to |saves|
        invariant r == if AllStored(saves[..i]) then Ok else Failed
      {
        if saves[i] == NotStored {
          r := Failed;
        }
        assert saves[..i + 1][..i] == saves[..i];
        assert saves[..i + 1][i] == saves[i];
      }
      assert saves[..|saves|] == saves;
    }

    method OnCommand(id: byte, samples: Samples, saves: seq<Save>) returns (replies: seq<Reply>)
      modifies this, cal
      ensures (Value(), replies) == CommandSpec.OnCommand(old(Value()), id, samples, saves)
    {
      var result := DoCommand(id, samples, saves);
      if id == GYRO_CAL && result == Ok {
        return [];
      }
      return [Reply(id, result)];
    }

    // 1 done, 0 collecting, -1 error
    method GyroUpdate(g: Read<Vec>) returns (rc: int)
      modifies this, cal
      ensures gyroCalRunning == old(gyroCalRunning) && gyroCalReply == old(gyroCalReply) && magCalRunning == old(magCalRunning)
      ensures old(gyroCalLeft) == 0 || g.ReadFailed? ==> rc == -1 && Value() == old(Value())
      ensures old(gyroCalLeft) > 0 && g.Read? ==>
                var c := Calib.GyroUpdate(old(cal.Value()), g.value);
                && gyroCalLeft == old(gyroCalLeft) - 1
                && rc == (if gyroCalLeft > 0 then 0 else 1)
                && cal.Value() == if gyroCalLeft > 0 then c else GyroEnd(c)
    {
      if gyroCalLeft == 0 || g.ReadFailed? {
        return -1;
      }
      cal.UpdateGyro(g.value);
      gyroCalLeft := gyroCalLeft - 1;
      if gyroCalLeft > 0 {
        return 0;
      }
      cal.EndGyro();
      return 1;
    }

    method CalibrationStep(m: Read<MagReading>, g: Read<Vec>) returns (replies: seq<Reply>)
      modifies this, cal
      ensures (Value(), replies) == CommandSpec.CalibrationStep(old(Value()), m, g)
    {
      replies := [];
      if magCalRunning {
        if m.Read? && m.value.valid {
          cal.UpdateMag(m.value.mag);
        }
      }
      if !gyroCalRunning {
        return;
      }
      var rc := GyroUpdate(g);
      if rc == 0 {
        return;
      }
      gyroCalRunning := false;
      var result := if rc == 1 then Ok else Failed;
      if gyroCalReply {
        replies := [Reply(GYRO_CAL, result)];
        gyroCalReply := false;
      }
    }
  }
}
