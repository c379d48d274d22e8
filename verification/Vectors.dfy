// Three-component vectors over the reals, shared by calibration and rotation.
module Vectors {
  datatype Vec = Vec(x: real, y: real, z: real)

  function Axis(v: Vec, i: nat): real
    requires i < 3
  {
    if i == 0 then v.x else if i == 1 then v.y else v.z
  }

  function With(v: Vec, i: nat, a: real): Vec
    requires i < 3
  {
    if i == 0 then v.(x := a) else if i == 1 then v.(y := a) else v.(z := a)
  }

  function Same(a: real): Vec { Vec(a, a, a) }

  function Add(a: Vec, b: Vec): Vec { Vec(a.x + b.x, a.y + b.y, a.z + b.z) }

  function Sub(a: Vec, b: Vec): Vec { Vec(a.x - b.x, a.y - b.y, a.z - b.z) }

  function Times(v: Vec, k: real): Vec { Vec(v.x * k, v.y * k, v.z * k) }

  function Over(v: Vec, d: real): Vec
    requires d != 0.0
  {
    Vec(v.x / d, v.y / d, v.z / d)
  }

  lemma MulDiv(x: real, d: real)
    requires d != 0.0
    ensures x / d * d == x
  {}

  lemma OverTimes(v: Vec, d: real)
    requires d != 0.0
    ensures Times(Over(v, d), d) == v
  {
    MulDiv(v.x, d);
    MulDiv(v.y, d);
    MulDiv(v.z, d);
  }

  lemma MulNext(x: real, k: nat)
    ensures x * ((k + 1) as real) == x * (k as real) + x
  {
    assert (k + 1) as real == k as real + 1.0;
  }

  lemma TimesNext(v: Vec, k: nat)
    ensures Times(v, (k + 1) as real) == Add(Times(v, k as real), v)
  {
    MulNext(v.x, k);
    MulNext(v.y, k);
    MulNext(v.z, k);
  }
}
