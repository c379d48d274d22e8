/**
 Calibration of the ICM-20948: the gyro bias is the mean of the readings at rest, the
 magnetometer correction centres and equalises the box of its readings. Floats are
 modelled as real numbers.
 */
module Calib {
  import opened Vectors

  const FLT_MAX: real := 340282346638528859811704183484516925440.0

  datatype Cal = Cal(gyroBias: Vec, magOffset: Vec, magScale: Vec, accSum: Vec, n: nat, magMin: Vec, magMax: Vec)

  // ---- The steps of a calibration ----

  function GyroBegin(c: Cal): Cal {
    c.(accSum := Same(0.0), n := 0)
  }

  function GyroUpdate(c: Cal, gyro: Vec): Cal {
    c.(accSum := Add(c.accSum, gyro), n := c.n + 1)
  }

  function GyroEnd(c: Cal): Cal {
    if c.n == 0 then c else c.(gyroBias := Over(c.accSum, c.n as real))
  }

  function MagBegin(c: Cal): Cal {
    c.(magMin := Same(FLT_MAX), magMax := Same(-FLT_MAX))
  }

  function Lower(a: real, b: real): real { if b < a then b else a }

  function Higher(a: real, b: real): real { if b > a then b else a }

  function MagUpdate(c: Cal, mag: Vec): Cal {
    c.(magMin := Vec(Lower(c.magMin.x, mag.x), Lower(c.magMin.y, mag.y), Lower(c.magMin.z, mag.z)),
       magMax := Vec(Higher(c.magMax.x, mag.x), Higher(c.magMax.y, mag.y), Higher(c.magMax.z, mag.z)))
  }

  function Radius(c: Cal, i: nat): real
    requires i < 3
  {
    (Axis(c.magMax, i) - Axis(c.magMin, i)) / 2.0
  }

  function Centre(c: Cal, i: nat): real
    requires i < 3
  {
    (Axis(c.magMax, i) + Axis(c.magMin, i)) / 2.0
  }

  // Every axis saw two different values.
  predicate Spread(c: Cal) {
    forall i :: 0 <= i < 3 ==> Axis(c.magMin, i) < Axis(c.magMax, i)
  }

  function Average(c: Cal): real {
    (Radius(c, 0) + Radius(c, 1) + Radius(c, 2)) / 3.0
  }

  function MagEnd(c: Cal): Cal {
    if !Spread(c) then c
    else
      assert Axis(c.magMin, 0) < Axis(c.magMax, 0) && Axis(c.magMin, 1) < Axis(c.magMax, 1) && Axis(c.magMin, 2) < Axis(c.magMax, 2);
      c.(magOffset := Vec(Centre(c, 0), Centre(c, 1), Centre(c, 2)),
         magScale := Vec(Average(c) / Radius(c, 0), Average(c) / Radius(c, 1), Average(c) / Radius(c, 2)))
  }

  function FixGyro(c: Cal, gyro: Vec): Vec {
    Sub(gyro, c.gyroBias)
  }

  function Fix(v: real, offset: real, scale: real): real { (v - offset) * scale }

  function FixMag(c: Cal, mag: Vec): Vec {
    Vec(Fix(mag.x, c.magOffset.x, c.magScale.x), Fix(mag.y, c.magOffset.y, c.magScale.y),
        Fix(mag.z, c.magOffset.z, c.magScale.z))
  }

  // ---- Gyro: the mean ----

  function Sum(rs: seq<Vec>): Vec
    decreases |rs|
  {
    if rs == [] then Same(0.0) else Add(Sum(rs[..|rs| - 1]), rs[|rs| - 1])
  }

  function GyroUpdates(c: Cal, rs: seq<Vec>): Cal
    decreases |rs|
  {
    if rs == [] then c else GyroUpdate(GyroUpdates(c, rs[..|rs| - 1]), rs[|rs| - 1])
  }

  lemma {:induction false} GyroCollects(c: Cal, rs: seq<Vec>)
    ensures GyroUpdates(GyroBegin(c), rs) == c.(accSum := Sum(rs), n := |rs|)
    decreases |rs|
  {
    if rs != [] { GyroCollects(c, rs[..|rs| - 1]); }
  }

  function Fixed(c: Cal, rs: seq<Vec>): (out: seq<Vec>)
    ensures |out| == |rs|
    decreases |rs|
  {
    if rs == [] then [] else Fixed(c, rs[..|rs| - 1]) + [FixGyro(c, rs[|rs| - 1])]
  }

  lemma {:induction false} FixedSum(c: Cal, rs: seq<Vec>)
    ensures Add(Sum(Fixed(c, rs)), Times(c.gyroBias, |rs| as real)) == Sum(rs)
    decreases |rs|
  {
    if rs != [] {
      var k := |rs| - 1;
      FixedSum(c, rs[..k]);
      var f := Fixed(c, rs);
      assert f[..k] == Fixed(c, rs[..k]);
      TimesNext(c.gyroBias, k);
      hide Times; hide Add; hide Sub;
      Regroup(Sum(Fixed(c, rs[..k])), rs[k], c.gyroBias, Times(c.gyroBias, k as real));
    }
  }

  // (a + (r - b)) + (t + b) == (a + t) + r
  lemma Regroup(a: Vec, r: Vec, b: Vec, t: Vec)
    ensures Add(Add(a, Sub(r, b)), Add(t, b)) == Add(Add(a, t), r)
  {}

  // After a calibration the readings it used average to zero.
  lemma GyroCentred(c: Cal, rs: seq<Vec>)
    requires rs != []
    ensures var done := GyroEnd(GyroUpdates(GyroBegin(c), rs));
            done.gyroBias == Over(Sum(rs), |rs| as real) && Sum(Fixed(done, rs)) == Same(0.0)
  {
    GyroCollects(c, rs);
    var done := GyroEnd(GyroUpdates(GyroBegin(c), rs));
    FixedSum(done, rs);
    OverTimes(Sum(rs), |rs| as real);
    hide Sum; hide Fixed; hide Over; hide Times;
  }

  // Without a reading it changes no bias.
  lemma NothingCollected(c: Cal)
    ensures GyroEnd(GyroBegin(c)).gyroBias == c.gyroBias
  {}

  // ---- Magnetometer: the box ----

  function MagUpdates(c: Cal, rs: seq<Vec>): Cal
    decreases |rs|
  {
    if rs == [] then c else MagUpdate(MagUpdates(c, rs[..|rs| - 1]), rs[|rs| - 1])
  }

  predicate Finite(rs: seq<Vec>) {
    forall k, i :: 0 <= k < |rs| && 0 <= i < 3 ==> -FLT_MAX <= Axis(rs[k], i) <= FLT_MAX
  }

  // Bounds of the readings on an axis, reached by some of them.
  predicate Tight(c: Cal, rs: seq<Vec>, i: nat)
    requires i < 3
  {
    && (forall k :: 0 <= k < |rs| ==> Axis(c.magMin, i) <= Axis(rs[k], i) <= Axis(c.magMax, i))
    && (exists k :: 0 <= k < |rs| && Axis(rs[k], i) == Axis(c.magMin, i))
    && (exists k :: 0 <= k < |rs| && Axis(rs[k], i) == Axis(c.magMax, i))
  }

  lemma MagUpdateAxis(c: Cal, r: Vec, i: nat)
    requires i < 3
    ensures Axis(MagUpdate(c, r).magMin, i) == Lower(Axis(c.magMin, i), Axis(r, i))
    ensures Axis(MagUpdate(c, r).magMax, i) == Higher(Axis(c.magMax, i), Axis(r, i))
  {}

  lemma {:induction false} MagCollects(c: Cal, rs: seq<Vec>, i: nat)
    requires rs != [] && Finite(rs) && i < 3
    ensures Tight(MagUpdates(MagBegin(c), rs), rs, i)
    decreases |rs|
  {
    var k := |rs| - 1;
    var before := MagUpdates(MagBegin(c), rs[..k]);
    MagUpdateAxis(before, rs[k], i);
    assert MagUpdates(MagBegin(c), rs) == MagUpdate(before, rs[k]);
    hide MagUpdate; hide MagUpdates;
    if k == 0 {
      assert before == MagBegin(c) by { hide *; EmptyMag(c, rs[..k]); }
      assert Axis(rs[0], i) == Axis(MagUpdate(before, rs[k]).magMin, i);
    } else {
      assert Finite(rs[..k]);
      MagCollects(c, rs[..k], i);
      TightNext(before, rs, i);
    }
  }

  lemma EmptyMag(c: Cal, rs: seq<Vec>)
    requires rs == []
    ensures MagUpdates(MagBegin(c), rs) == MagBegin(c)
  {}

  lemma TightNext(c: Cal, rs: seq<Vec>, i: nat)
    requires |rs| > 1 && i < 3 && Tight(c, rs[..|rs| - 1], i)
    ensures Tight(MagUpdate(c, rs[|rs| - 1]), rs, i)
  {
    var k := |rs| - 1;
    MagUpdateAxis(c, rs[k], i);
    var lo :| 0 <= lo < k && Axis(rs[..k][lo], i) == Axis(c.magMin, i);
    var hi :| 0 <= hi < k && Axis(rs[..k][hi], i) == Axis(c.magMax, i);
    hide MagUpdate; hide Axis;
    var d := MagUpdate(c, rs[k]);
    forall j | 0 <= j < |rs| ensures Axis(d.magMin, i) <= Axis(rs[j], i) <= Axis(d.magMax, i) {
      if j < k { assert rs[..k][j] == rs[j]; }
    }
    assert Axis(rs[if Axis(rs[k], i) < Axis(c.magMin, i) then k else lo], i) == Axis(d.magMin, i);
    assert Axis(rs[if Axis(rs[k], i) > Axis(c.magMax, i) then k else hi], i) == Axis(d.magMax, i);
  }

  lemma Scaled(d: real, radius: real, avg: real)
    requires 0.0 < radius && 0.0 < avg && -radius <= d <= radius
    ensures -avg <= d * (avg / radius) <= avg
    ensures d == radius ==> d * (avg / radius) == avg
    ensures d == -radius ==> d * (avg / radius) == -avg
  {
    var k := avg / radius;
    MulDiv(avg, radius);
    assert k > 0.0;
    assert (radius - d) * k >= 0.0 && (radius + d) * k >= 0.0;
    assert (radius - d) * k == radius * k - d * k && (radius + d) * k == radius * k + d * k;
  }

  lemma FixBounds(v: real, centre: real, radius: real, avg: real)
    requires 0.0 < radius && 0.0 < avg && -radius <= v - centre <= radius
    ensures -avg <= Fix(v, centre, avg / radius) <= avg
    ensures v - centre == radius ==> Fix(v, centre, avg / radius) == avg
    ensures v - centre == -radius ==> Fix(v, centre, avg / radius) == -avg
  {
    Scaled(v - centre, radius, avg);
  }

  // Half the average width of the box.
  lemma AverageIs(c: Cal)
    ensures Average(c) ==
            ((c.magMax.x - c.magMin.x) + (c.magMax.y - c.magMin.y) + (c.magMax.z - c.magMin.z)) / 6.0
  {}

  // After a calibration every reading it used is within the average radius on each
  // axis, and on each axis some reading is at either end.
  lemma MagCentred(c: Cal, rs: seq<Vec>, i: nat)
    requires rs != [] && Finite(rs) && i < 3
    ensures var box := MagUpdates(MagBegin(c), rs);
            var done, avg := MagEnd(box), Average(box);
            Spread(box) ==>
              && avg > 0.0
              && 6.0 * avg == (box.magMax.x - box.magMin.x) + (box.magMax.y - box.magMin.y) + (box.magMax.z - box.magMin.z)
              && (forall k :: 0 <= k < |rs| ==> -avg <= Axis(FixMag(done, rs[k]), i) <= avg)
              && (exists k :: 0 <= k < |rs| && Axis(FixMag(done, rs[k]), i) == -avg)
              && (exists k :: 0 <= k < |rs| && Axis(FixMag(done, rs[k]), i) == avg)
  {
    var box := MagUpdates(MagBegin(c), rs);
    MagCollects(c, rs, i);
    AverageIs(box);
    hide MagUpdates;
    if Spread(box) {
      var done, avg := MagEnd(box), Average(box);
      assert Radius(box, 0) > 0.0 && Radius(box, 1) > 0.0 && Radius(box, 2) > 0.0;
      forall k | 0 <= k < |rs|
        ensures -avg <= Axis(FixMag(done, rs[k]), i) <= avg
        ensures Axis(rs[k], i) == Axis(box.magMin, i) ==> Axis(FixMag(done, rs[k]), i) == -avg
        ensures Axis(rs[k], i) == Axis(box.magMax, i) ==> Axis(FixMag(done, rs[k]), i) == avg
      {
        FixedAxis(box, rs[k], i);
      }
      var lo :| 0 <= lo < |rs| && Axis(rs[lo], i) == Axis(box.magMin, i);
      var hi :| 0 <= hi < |rs| && Axis(rs[hi], i) == Axis(box.magMax, i);
      assert Axis(FixMag(done, rs[lo]), i) == -avg && Axis(FixMag(done, rs[hi]), i) == avg;
    }
  }

  lemma FixedAxis(box: Cal, r: Vec, i: nat)
    requires i < 3 && Spread(box) && Axis(box.magMin, i) <= Axis(r, i) <= Axis(box.magMax, i)
    ensures var x, avg := Axis(FixMag(MagEnd(box), r), i), Average(box);
            && 0.0 < avg && -avg <= x <= avg
            && (Axis(r, i) == Axis(box.magMin, i) ==> x == -avg)
            && (Axis(r, i) == Axis(box.magMax, i) ==> x == avg)
  {
    FixMagAxis(box, r, i);
    CentreBounds(box, Axis(r, i), i);
    hide MagEnd; hide FixMag; hide Centre; hide Radius; hide Average; hide Axis; hide Spread; hide Fix;
    FixBounds(Axis(r, i), Centre(box, i), Radius(box, i), Average(box));
  }

  lemma CentreBounds(box: Cal, v: real, i: nat)
    requires i < 3 && Spread(box) && Axis(box.magMin, i) <= v <= Axis(box.magMax, i)
    ensures Average(box) > 0.0 && -Radius(box, i) <= v - Centre(box, i) <= Radius(box, i)
    ensures v == Axis(box.magMin, i) ==> v - Centre(box, i) == -Radius(box, i)
    ensures v == Axis(box.magMax, i) ==> v - Centre(box, i) == Radius(box, i)
  {
    assert Radius(box, 0) > 0.0 && Radius(box, 1) > 0.0 && Radius(box, 2) > 0.0;
  }

  lemma FixMagAxis(box: Cal, r: Vec, i: nat)
    requires i < 3 && Spread(box)
    ensures Radius(box, i) > 0.0
    ensures Axis(FixMag(MagEnd(box), r), i) == Fix(Axis(r, i), Centre(box, i), Average(box) / Radius(box, i))
  {
    assert Radius(box, 0) > 0.0 && Radius(box, 1) > 0.0 && Radius(box, 2) > 0.0;
    hide Centre; hide Average; hide Radius; hide Fix;
  }

  // ---- As the code keeps it ----

  class Calibrator {
    var gyroBias: Vec
    var magOffset: Vec
    var magScale: Vec
    var accSum: Vec
    var n: nat
    var magMin: Vec
    var magMax: Vec

    ghost function Value(): Cal
      reads this
    {
      Cal(gyroBias, magOffset, magScale, accSum, n, magMin, magMax)
    }

    constructor ()
      ensures Value() == Cal(Same(0.0), Same(0.0), Same(1.0), Same(0.0), 0, Same(FLT_MAX), Same(-FLT_MAX))
    {
      gyroBias, magOffset, magScale, accSum := Same(0.0), Same(0.0), Same(1.0), Same(0.0);
      magMin, magMax := Same(FLT_MAX), Same(-FLT_MAX);
      n := 0;
    }

    // The readings corrected, axis by axis.
    method Apply(gyro: Vec, mag: Vec) returns (g: Vec, m: Vec)
      ensures g == FixGyro(Value(), gyro) && m == FixMag(Value(), mag)
    {
      g, m := gyro, mag;
      for i := 0 to 3
        invariant forall j :: 0 <= j < i ==> Axis(g, j) == Axis(gyro, j) - Axis(gyroBias, j)
        invariant forall j :: 0 <= j < i ==> Axis(m, j) == Fix(Axis(mag, j), Axis(magOffset, j), Axis(magScale, j))
        invariant forall j :: i <= j < 3 ==> Axis(g, j) == Axis(gyro, j) && Axis(m, j) == Axis(mag, j)
      {
        g := With(g, i, Axis(g, i) - Axis(gyroBias, i));
        m := With(m, i, Fix(Axis(m, i), Axis(magOffset, i), Axis(magScale, i)));
      }
      assert Axis(g, 0) == g.x && Axis(g, 1) == g.y && Axis(g, 2) == g.z;
      assert Axis(m, 0) == m.x && Axis(m, 1) == m.y && Axis(m, 2) == m.z;
    }

    method BeginGyro()
      modifies this
      ensures Value() == GyroBegin(old(Value()))
    {
      accSum := Same(0.0);
      n := 0;
    }

    method UpdateGyro(gyro: Vec)
      modifies this
      ensures Value() == GyroUpdate(old(Value()), gyro)
    {
      for i := 0 to 3
        invariant forall j :: 0 <= j < i ==> Axis(accSum, j) == Axis(old(accSum), j) + Axis(gyro, j)
        invariant forall j :: i <= j < 3 ==> Axis(accSum, j) == Axis(old(accSum), j)
        invariant Value() == old(Value()).(accSum := accSum)
      {
        accSum := With(accSum, i, Axis(accSum, i) + Axis(gyro, i));
      }
      n := n + 1;
      assert Axis(accSum, 0) == accSum.x && Axis(accSum, 1) == accSum.y && Axis(accSum, 2) == accSum.z;
    }

    method EndGyro()
      modifies this
      ensures Value() == GyroEnd(old(Value()))
    {
      if n == 0 {
        return;
      }
      for i := 0 to 3
        invariant Value() == old(Value()).(gyroBias := gyroBias)
        invariant n > 0 && forall j :: 0 <= j < i ==> Axis(gyroBias, j) == Axis(accSum, j) / (n as real)
      {
        gyroBias := With(gyroBias, i, Axis(accSum, i) / (n as real));
      }
      assert Axis(gyroBias, 0) == gyroBias.x && Axis(gyroBias, 1) == gyroBias.y && Axis(gyroBias, 2) == gyroBias.z;
    }

    method BeginMag()
      modifies this
      ensures Value() == MagBegin(old(Value()))
    {
      magMin, magMax := Same(FLT_MAX), Same(-FLT_MAX);
    }

    method UpdateMag(mag: Vec)
      modifies this
      ensures Value() == MagUpdate(old(Value()), mag)
    {
      for i := 0 to 3
        invariant forall j :: 0 <= j < i ==> Axis(magMin, j) == Lower(Axis(old(magMin), j), Axis(mag, j))
        invariant forall j :: 0 <= j < i ==> Axis(magMax, j) == Higher(Axis(old(magMax), j), Axis(mag, j))
        invariant forall j :: i <= j < 3 ==> Axis(magMin, j) == Axis(old(magMin), j)
        invariant forall j :: i <= j < 3 ==> Axis(magMax, j) == Axis(old(magMax), j)
        invariant Value() == old(Value()).(magMin := magMin, magMax := magMax)
      {
        if Axis(mag, i) < Axis(magMin, i) {
          magMin := With(magMin, i, Axis(mag, i));
        }
        if Axis(mag, i) > Axis(magMax, i) {
          magMax := With(magMax, i, Axis(mag, i));
        }
      }
      assert Axis(magMin, 0) == magMin.x && Axis(magMin, 1) == magMin.y && Axis(magMin, 2) == magMin.z;
      assert Axis(magMax, 0) == magMax.x && Axis(magMax, 1) == magMax.y && Axis(magMax, 2) == magMax.z;
    }

    method EndMag()
      modifies this
      ensures Value() == MagEnd(old(Value()))
    {
      ghost var c := Value();
      var radius, avg := Same(0.0), 0.0;
      for i := 0 to 3
        invariant forall j :: 0 <= j < i ==> Axis(magMin, j) < Axis(magMax, j) && Axis(radius, j) == Radius(c, j)
        invariant avg == (if i > 0 then Radius(c, 0) else 0.0) + (if i > 1 then Radius(c, 1) else 0.0)
                       + (if i > 2 then Radius(c, 2) else 0.0)
        invariant Value() == c
      {
        if Axis(magMax, i) <= Axis(magMin, i) {
          return;
        }
        radius := With(radius, i, (Axis(magMax, i) - Axis(magMin, i)) / 2.0);
        avg := avg + Axis(radius, i);
      }
      avg := avg / 3.0;
      for i := 0 to 3
        invariant forall j :: 0 <= j < i ==> Axis(magOffset, j) == Centre(c, j)
        invariant forall j :: 0 <= j < i ==> Axis(magScale, j) == avg / Axis(radius, j)
        invariant Value() == c.(magOffset := magOffset, magScale := magScale)
      {
        magOffset := With(magOffset, i, (Axis(magMax, i) + Axis(magMin, i)) / 2.0);
        magScale := With(magScale, i, avg / Axis(radius, i));
      }
      assert Axis(magOffset, 0) == magOffset.x && Axis(magOffset, 1) == magOffset.y && Axis(magOffset, 2) == magOffset.z;
      assert Axis(magScale, 0) == magScale.x && Axis(magScale, 1) == magScale.y && Axis(magScale, 2) == magScale.z;
    }
  }
}
