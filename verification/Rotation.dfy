/**
 Rotation matrices and quaternions over exact reals: the matrix-to-quaternion
 conversion in its four branches, composition, and the change from chip frame to boat
 frame.
 */
module Rotation {
  import opened Vectors

  // Rows a, b, c.
  datatype Mat = Mat(a1: real, a2: real, a3: real, b1: real, b2: real, b3: real, c1: real, c2: real, c3: real)

  datatype Quat = Quat(w: real, x: real, y: real, z: real)

  datatype Part = W | X | Y | Z

  function PartOf(q: Quat, i: Part): real {
    match i
    case W => q.w
    case X => q.x
    case Y => q.y
    case Z => q.z
  }

  function Apply(m: Mat, v: Vec): Vec {
    Vec(m.a1 * v.x + m.a2 * v.y + m.a3 * v.z, m.b1 * v.x + m.b2 * v.y + m.b3 * v.z,
        m.c1 * v.x + m.c2 * v.y + m.c3 * v.z)
  }

  function Mul(x: real, y: real): real { x * y }

  lemma MulCommutes(x: real, y: real)
    ensures Mul(x, y) == Mul(y, x)
  {}

  // The rotation of a unit quaternion.
  function Rot(q: Quat): Mat {
    var ww, xx, yy, zz := Mul(q.w, q.w), Mul(q.x, q.x), Mul(q.y, q.y), Mul(q.z, q.z);
    var wx, wy, wz, xy, xz, yz := Mul(q.w, q.x), Mul(q.w, q.y), Mul(q.w, q.z), Mul(q.x, q.y), Mul(q.x, q.z), Mul(q.y, q.z);
    Mat(ww + xx - yy - zz, 2.0 * (xy - wz), 2.0 * (xz + wy),
        2.0 * (xy + wz), ww - xx + yy - zz, 2.0 * (yz - wx),
        2.0 * (xz - wy), 2.0 * (yz + wx), ww - xx - yy + zz)
  }

  function Norm2(q: Quat): real { Mul(q.w, q.w) + Mul(q.x, q.x) + Mul(q.y, q.y) + Mul(q.z, q.z) }

  // ---- Matrix to quaternion ----

  function Trace(m: Mat): real { m.a1 + m.b2 + m.c3 }

  // The branch that is taken.
  function Largest(m: Mat): Part {
    if Trace(m) > 0.0 then W
    else if m.a1 > m.b2 && m.a1 > m.c3 then X
    else if m.b2 > m.c3 then Y
    else Z
  }

  // What the square root is taken of.
  function Pivot(m: Mat): real {
    match Largest(m)
    case W => Trace(m) + 1.0
    case X => 1.0 + m.a1 - m.b2 - m.c3
    case Y => 1.0 + m.b2 - m.a1 - m.c3
    case Z => 1.0 + m.c3 - m.a1 - m.b2
  }

  // The conversion, given the square root.
  function RotToQuat(m: Mat, root: real): Quat
    requires root != 0.0
  {
    var s := root * 2.0;
    match Largest(m)
    case W => Quat(0.25 * s, (m.c2 - m.b3) / s, (m.a3 - m.c1) / s, (m.b1 - m.a2) / s)
    case X => Quat((m.c2 - m.b3) / s, 0.25 * s, (m.a2 + m.b1) / s, (m.a3 + m.c1) / s)
    case Y => Quat((m.a3 - m.c1) / s, (m.a2 + m.b1) / s, 0.25 * s, (m.b3 + m.c2) / s)
    case Z => Quat((m.b1 - m.a2) / s, (m.a3 + m.c1) / s, (m.b3 + m.c2) / s, 0.25 * s)
  }

  // What the square root of the pivot is: positive, since the pivot is at least 1.
  predicate IsRoot(root: real, of: real) {
    root > 0.0 && root * root == of
  }

  // Whatever the matrix, the branches pick an argument of at least 1.
  lemma PivotAtLeastOne(m: Mat)
    ensures Pivot(m) >= 1.0
  {}

  // ---- The products of components ----

  // Four times the products of two components of the quaternion, read off the matrix.
  function WW(m: Mat): real { 1.0 + m.a1 + m.b2 + m.c3 }
  function XX(m: Mat): real { 1.0 + m.a1 - m.b2 - m.c3 }
  function YY(m: Mat): real { 1.0 - m.a1 + m.b2 - m.c3 }
  function ZZ(m: Mat): real { 1.0 - m.a1 - m.b2 + m.c3 }
  function WX(m: Mat): real { m.c2 - m.b3 }
  function WY(m: Mat): real { m.a3 - m.c1 }
  function WZ(m: Mat): real { m.b1 - m.a2 }
  function XY(m: Mat): real { m.a2 + m.b1 }
  function XZ(m: Mat): real { m.a3 + m.c1 }
  function YZ(m: Mat): real { m.b3 + m.c2 }

  function Product(m: Mat, i: Part, j: Part): real {
    match (i, j)
    case (W, W) => WW(m) case (W, X) => WX(m) case (W, Y) => WY(m) case (W, Z) => WZ(m)
    case (X, W) => WX(m) case (X, X) => XX(m) case (X, Y) => XY(m) case (X, Z) => XZ(m)
    case (Y, W) => WY(m) case (Y, X) => XY(m) case (Y, Y) => YY(m) case (Y, Z) => YZ(m)
    case (Z, W) => WZ(m) case (Z, X) => XZ(m) case (Z, Y) => YZ(m) case (Z, Z) => ZZ(m)
  }

  lemma Symmetric(m: Mat, i: Part, j: Part)
    ensures Product(m, i, j) == Product(m, j, i)
  {}

  predicate RankAt(m: Mat, i: Part, j: Part, k: Part) {
    Mul(Product(m, i, j), Product(m, k, k)) == Mul(Product(m, i, k), Product(m, j, k))
  }

  // The ten products have rank one, so they are those of one quaternion.
  predicate Ranked(m: Mat) {
    forall i: Part, j: Part, k: Part :: RankAt(m, i, j, k)
  }

  lemma RankSwapped(m: Mat, i: Part, j: Part, k: Part)
    ensures RankAt(m, i, j, k) == RankAt(m, j, i, k)
  {
    hide Product; hide Mul;
    Symmetric(m, i, j);
    MulCommutes(Product(m, i, k), Product(m, j, k));
  }

  lemma RankSame(m: Mat, i: Part, k: Part)
    ensures RankAt(m, k, i, k)
  {
    hide Product;
    Symmetric(m, i, k);
  }

  lemma Parts(i: Part)
    ensures i == W || i == X || i == Y || i == Z
  {}

  lemma RankedBy(m: Mat, k: Part, p: Part, q: Part, r: Part)
    requires {k, p, q, r} == {W, X, Y, Z}
    requires RankAt(m, p, p, k) && RankAt(m, p, q, k) && RankAt(m, p, r, k)
    requires RankAt(m, q, q, k) && RankAt(m, q, r, k) && RankAt(m, r, r, k)
    ensures forall i: Part, j: Part :: RankAt(m, i, j, k)
  {
    hide RankAt;
    forall i: Part, j: Part ensures RankAt(m, i, j, k) {
      Parts(i);
      Parts(j);
      assert i in {k, p, q, r} && j in {k, p, q, r};
      RankSwapped(m, i, j, k);
      RankSame(m, i, k);
      RankSame(m, j, k);
    }
  }

  // ---- Proper rotations ----

  function Row(m: Mat, i: nat): Vec
    requires i < 3
  {
    if i == 0 then Vec(m.a1, m.a2, m.a3) else if i == 1 then Vec(m.b1, m.b2, m.b3) else Vec(m.c1, m.c2, m.c3)
  }

  function Dot(u: Vec, v: Vec): real { u.x * v.x + u.y * v.y + u.z * v.z }

  function Cross(u: Vec, v: Vec): Vec {
    Vec(u.y * v.z - u.z * v.y, u.z * v.x - u.x * v.z, u.x * v.y - u.y * v.x)
  }

  // Orthonormal and right-handed.
  predicate Frame(u: Vec, v: Vec, w: Vec) {
    && Dot(u, u) == 1.0 && Dot(v, v) == 1.0 && Dot(w, w) == 1.0
    && Dot(u, v) == 0.0 && Dot(v, w) == 0.0 && Dot(w, u) == 0.0
    && Dot(u, Cross(v, w)) == 1.0
  }

  predicate Proper(m: Mat) {
    Frame(Row(m, 0), Row(m, 1), Row(m, 2))
  }

  function Sq(x: real): real { x * x }

  lemma PositiveSquare(x: real)
    requires x > 0.0
    ensures Sq(x) > 0.0
  {
    assert Sq(x) >= 0.0;
    assert Sq(x) / x == x;
  }

  lemma NegatedSquare(x: real)
    ensures Sq(-x) == Sq(x)
  {}

  lemma NonzeroSquare(x: real)
    requires x != 0.0
    ensures Sq(x) > 0.0
  {
    hide Sq;
    NegatedSquare(x);
    PositiveSquare(if x > 0.0 then x else -x);
  }

  lemma SquaresZero(v: Vec)
    requires Dot(v, v) == 0.0
    ensures v == Vec(0.0, 0.0, 0.0)
  {
    assert Sq(v.x) + Sq(v.y) + Sq(v.z) == 0.0;
    assert Sq(v.x) >= 0.0 && Sq(v.y) >= 0.0 && Sq(v.z) >= 0.0;
    hide Sq; hide Dot;
    if v.x != 0.0 { NonzeroSquare(v.x); }
    if v.y != 0.0 { NonzeroSquare(v.y); }
    if v.z != 0.0 { NonzeroSquare(v.z); }
  }

  lemma SubSquare(u: Vec, v: Vec)
    ensures Dot(Sub(u, v), Sub(u, v)) == Dot(u, u) - 2.0 * Dot(u, v) + Dot(v, v)
  {}

  // Two unit vectors at angle zero are equal.
  lemma SameUnit(u: Vec, v: Vec)
    requires Dot(u, u) == 1.0 && Dot(v, v) == 1.0 && Dot(u, v) == 1.0
    ensures u == v
  {
    SubSquare(u, v);
    hide Dot;
    SquaresZero(Sub(u, v));
  }

  lemma Lagrange(u: Vec, v: Vec)
    ensures Dot(Cross(u, v), Cross(u, v)) == Dot(u, u) * Dot(v, v) - Dot(u, v) * Dot(u, v)
  {}

  lemma CrossTurned(u: Vec, v: Vec, w: Vec)
    ensures Dot(u, Cross(v, w)) == Dot(v, Cross(w, u))
  {}

  // Each axis of a frame is the cross product of the others.
  lemma AxisIsCross(u: Vec, v: Vec, w: Vec)
    requires Frame(u, v, w)
    ensures u == Cross(v, w) && Frame(v, w, u)
  {
    Lagrange(v, w);
    CrossTurned(u, v, w);
    hide Dot; hide Cross;
    SameUnit(u, Cross(v, w));
  }

  // An entry and its cofactor.
  predicate Minor(e: real, p: real, q: real, r: real, s: real) { e == p * q - r * s }

  // Rows and columns are orthonormal, and each entry is its cofactor.
  predicate Facts(m: Mat) {
    && (var a, b, c := Vec(m.a1, m.a2, m.a3), Vec(m.b1, m.b2, m.b3), Vec(m.c1, m.c2, m.c3);
        && Dot(a, a) == 1.0 && Dot(b, b) == 1.0 && Dot(c, c) == 1.0
        && Dot(a, b) == 0.0 && Dot(b, c) == 0.0 && Dot(c, a) == 0.0)
    && (var x, y, z := Vec(m.a1, m.b1, m.c1), Vec(m.a2, m.b2, m.c2), Vec(m.a3, m.b3, m.c3);
        && Dot(x, x) == 1.0 && Dot(y, y) == 1.0 && Dot(z, z) == 1.0
        && Dot(x, y) == 0.0 && Dot(y, z) == 0.0 && Dot(z, x) == 0.0)
    && Minor(m.a1, m.b2, m.c3, m.b3, m.c2) && Minor(m.a2, m.b3, m.c1, m.b1, m.c3) && Minor(m.a3, m.b1, m.c2, m.b2, m.c1)
    && Minor(m.b1, m.c2, m.a3, m.c3, m.a2) && Minor(m.b2, m.c3, m.a1, m.c1, m.a3) && Minor(m.b3, m.c1, m.a2, m.c2, m.a1)
    && Minor(m.c1, m.a2, m.b3, m.a3, m.b2) && Minor(m.c2, m.a3, m.b1, m.a1, m.b3) && Minor(m.c3, m.a1, m.b2, m.a2, m.b1)
  }

  lemma CrossMinors(u: Vec, v: Vec, w: Vec)
    requires u == Cross(v, w)
    ensures Minor(u.x, v.y, w.z, v.z, w.y) && Minor(u.y, v.z, w.x, v.x, w.z) && Minor(u.z, v.x, w.y, v.y, w.x)
  {}

  // Three rows with columns (x, y, z) of entries.
  lemma ColumnSquare(a: Vec, b: Vec, c: Vec)
    requires a == Cross(b, c) && b == Cross(c, a) && c == Cross(a, b) && Dot(a, Cross(b, c)) == 1.0
    ensures Dot(Vec(a.x, b.x, c.x), Vec(a.x, b.x, c.x)) == 1.0
  {
    var d, e, f := Cross(b, c), Cross(c, a), Cross(a, b);
    assert a.x * d.x + b.x * e.x + c.x * f.x == Dot(a, d);
  }

  lemma ColumnProduct(a: Vec, b: Vec, c: Vec)
    requires a == Cross(b, c) && b == Cross(c, a) && c == Cross(a, b)
    ensures Dot(Vec(a.x, b.x, c.x), Vec(a.y, b.y, c.y)) == 0.0
  {
    var d, e, f := Cross(b, c), Cross(c, a), Cross(a, b);
    assert d.x * a.y + e.x * b.y + f.x * c.y == 0.0;
  }

  // The axes renamed: y for x, z for y, x for z.
  function Spin(v: Vec): Vec { Vec(v.y, v.z, v.x) }

  lemma CrossSpin(u: Vec, v: Vec)
    ensures Cross(Spin(u), Spin(v)) == Spin(Cross(u, v))
  {}

  lemma DotSpin(u: Vec, v: Vec)
    ensures Dot(Spin(u), Spin(v)) == Dot(u, v)
  {}

  lemma SpinFrame(a: Vec, b: Vec, c: Vec)
    requires a == Cross(b, c) && b == Cross(c, a) && c == Cross(a, b) && Dot(a, Cross(b, c)) == 1.0
    ensures var p, q, r := Spin(a), Spin(b), Spin(c);
            p == Cross(q, r) && q == Cross(r, p) && r == Cross(p, q) && Dot(p, Cross(q, r)) == 1.0
  {
    hide Dot; hide Cross; hide Spin;
    CrossSpin(b, c);
    CrossSpin(c, a);
    CrossSpin(a, b);
    DotSpin(a, Cross(b, c));
  }

  // The first column is a unit and orthogonal to the second; so are the others, by
  // renaming the axes.
  lemma ColumnsOf(a: Vec, b: Vec, c: Vec)
    requires a == Cross(b, c) && b == Cross(c, a) && c == Cross(a, b) && Dot(a, Cross(b, c)) == 1.0
    ensures var x, y, z := Vec(a.x, b.x, c.x), Vec(a.y, b.y, c.y), Vec(a.z, b.z, c.z);
            && Dot(x, x) == 1.0 && Dot(y, y) == 1.0 && Dot(z, z) == 1.0
            && Dot(x, y) == 0.0 && Dot(y, z) == 0.0 && Dot(z, x) == 0.0
  {
    hide Dot; hide Cross;
    ColumnSquare(a, b, c);
    ColumnProduct(a, b, c);
    SpinFrame(a, b, c);
    ColumnSquare(Spin(a), Spin(b), Spin(c));
    ColumnProduct(Spin(a), Spin(b), Spin(c));
    SpinFrame(Spin(a), Spin(b), Spin(c));
    ColumnSquare(Spin(Spin(a)), Spin(Spin(b)), Spin(Spin(c)));
    ColumnProduct(Spin(Spin(a)), Spin(Spin(b)), Spin(Spin(c)));
  }

  lemma ProperFacts(m: Mat)
    requires Proper(m)
    ensures Facts(m)
  {
    hide Dot; hide Cross; hide Minor;
    var a, b, c := Row(m, 0), Row(m, 1), Row(m, 2);
    AxisIsCross(a, b, c);
    AxisIsCross(b, c, a);
    AxisIsCross(c, a, b);
    CrossMinors(a, b, c);
    CrossMinors(b, c, a);
    CrossMinors(c, a, b);
    ColumnsOf(a, b, c);
  }

  // Rows and columns renamed: 2 for 1, 3 for 2, 1 for 3.
  function Turn(m: Mat): Mat { Mat(m.b2, m.b3, m.b1, m.c2, m.c3, m.c1, m.a2, m.a3, m.a1) }

  lemma TurnFacts(m: Mat)
    requires Facts(m)
    ensures Facts(Turn(m))
  {
    hide Dot; hide Minor;
    var a, b, c := Vec(m.a1, m.a2, m.a3), Vec(m.b1, m.b2, m.b3), Vec(m.c1, m.c2, m.c3);
    var x, y, z := Vec(m.a1, m.b1, m.c1), Vec(m.a2, m.b2, m.c2), Vec(m.a3, m.b3, m.c3);
    DotSpin(a, a); DotSpin(b, b); DotSpin(c, c); DotSpin(a, b); DotSpin(b, c); DotSpin(c, a);
    DotSpin(x, x); DotSpin(y, y); DotSpin(z, z); DotSpin(x, y); DotSpin(y, z); DotSpin(z, x);
  }

  function Next(i: Part): Part {
    match i case W => W case X => Y case Y => Z case Z => X
  }

  lemma TurnProduct(m: Mat, i: Part, j: Part)
    ensures Product(Turn(m), i, j) == Product(m, Next(i), Next(j))
  {}

  lemma TurnRank(m: Mat, i: Part, j: Part, k: Part)
    ensures RankAt(Turn(m), i, j, k) == RankAt(m, Next(i), Next(j), Next(k))
  {
    hide Product; hide Turn; hide Mul; hide Next;
    TurnProduct(m, i, j);
    TurnProduct(m, k, k);
    TurnProduct(m, i, k);
    TurnProduct(m, j, k);
  }

  // ---- The identities between the entries of a proper rotation ----

  // Each is stated over plain numbers, where it is cheap, and then over the facts.

  lemma DiagonalWXPlain(a1: real, a2: real, a3: real, b1: real, b2: real, b3: real, c1: real, c2: real, c3: real)
    requires a1 == b2 * c3 - b3 * c2
    requires b1 * b1 + b2 * b2 + b3 * b3 == 1.0
    requires c1 * c1 + c2 * c2 + c3 * c3 == 1.0
    requires a1 * a1 + b1 * b1 + c1 * c1 == 1.0
    ensures Mul(1.0 + a1 - b2 - c3, 1.0 + a1 + b2 + c3) == Mul(c2 - b3, c2 - b3)
  {}

  lemma DiagonalWX(a1: real, a2: real, a3: real, b1: real, b2: real, b3: real, c1: real, c2: real, c3: real)
    requires Minor(a1, b2, c3, b3, c2)
    requires Dot(Vec(b1, b2, b3), Vec(b1, b2, b3)) == 1.0
    requires Dot(Vec(c1, c2, c3), Vec(c1, c2, c3)) == 1.0
    requires Dot(Vec(a1, b1, c1), Vec(a1, b1, c1)) == 1.0
    ensures Mul(1.0 + a1 - b2 - c3, 1.0 + a1 + b2 + c3) == Mul(c2 - b3, c2 - b3)
  {
    hide Mul;
    DiagonalWXPlain(a1, a2, a3, b1, b2, b3, c1, c2, c3);
  }

  lemma DiagonalXYPlain(a1: real, a2: real, a3: real, b1: real, b2: real, b3: real, c1: real, c2: real, c3: real)
    requires c3 == a1 * b2 - a2 * b1
    requires a2 * a2 + b2 * b2 + c2 * c2 == 1.0
    requires a1 * a1 + b1 * b1 + c1 * c1 == 1.0
    requires c1 * c1 + c2 * c2 + c3 * c3 == 1.0
    ensures Mul(1.0 - a1 + b2 - c3, 1.0 + a1 - b2 - c3) == Mul(a2 + b1, a2 + b1)
  {}

  lemma DiagonalXY(a1: real, a2: real, a3: real, b1: real, b2: real, b3: real, c1: real, c2: real, c3: real)
    requires Minor(c3, a1, b2, a2, b1)
    requires Dot(Vec(a2, b2, c2), Vec(a2, b2, c2)) == 1.0
    requires Dot(Vec(a1, b1, c1), Vec(a1, b1, c1)) == 1.0
    requires Dot(Vec(c1, c2, c3), Vec(c1, c2, c3)) == 1.0
    ensures Mul(1.0 - a1 + b2 - c3, 1.0 + a1 - b2 - c3) == Mul(a2 + b1, a2 + b1)
  {
    hide Mul;
    DiagonalXYPlain(a1, a2, a3, b1, b2, b3, c1, c2, c3);
  }

  lemma CornerWPlain(a1: real, a2: real, a3: real, b1: real, b2: real, b3: real, c1: real, c2: real, c3: real)
    requires b1 == c2 * a3 - c3 * a2 && a2 == b3 * c1 - b1 * c3
    requires a1 * a2 + b1 * b2 + c1 * c2 == 0.0
    requires a1 * b1 + a2 * b2 + a3 * b3 == 0.0
    ensures Mul(a2 + b1, 1.0 + a1 + b2 + c3) == Mul(c2 - b3, a3 - c1)
  {}

  lemma CornerW(a1: real, a2: real, a3: real, b1: real, b2: real, b3: real, c1: real, c2: real, c3: real)
    requires Minor(b1, c2, a3, c3, a2) && Minor(a2, b3, c1, b1, c3)
    requires Dot(Vec(a1, b1, c1), Vec(a2, b2, c2)) == 0.0
    requires Dot(Vec(a1, a2, a3), Vec(b1, b2, b3)) == 0.0
    ensures Mul(a2 + b1, 1.0 + a1 + b2 + c3) == Mul(c2 - b3, a3 - c1)
  {
    hide Mul;
    CornerWPlain(a1, a2, a3, b1, b2, b3, c1, c2, c3);
  }

  lemma CornerXWYPlain(a1: real, a2: real, a3: real, b1: real, b2: real, b3: real, c1: real, c2: real, c3: real)
    requires a3 == b1 * c2 - b2 * c1 && c1 == a2 * b3 - a3 * b2
    requires c1 * a1 + c2 * a2 + c3 * a3 == 0.0
    requires a3 * a1 + b3 * b1 + c3 * c1 == 0.0
    ensures Mul(a3 - c1, 1.0 + a1 - b2 - c3) == Mul(c2 - b3, a2 + b1)
  {}

  lemma CornerXWY(a1: real, a2: real, a3: real, b1: real, b2: real, b3: real, c1: real, c2: real, c3: real)
    requires Minor(a3, b1, c2, b2, c1) && Minor(c1, a2, b3, a3, b2)
    requires Dot(Vec(c1, c2, c3), Vec(a1, a2, a3)) == 0.0
    requires Dot(Vec(a3, b3, c3), Vec(a1, b1, c1)) == 0.0
    ensures Mul(a3 - c1, 1.0 + a1 - b2 - c3) == Mul(c2 - b3, a2 + b1)
  {
    hide Mul;
    CornerXWYPlain(a1, a2, a3, b1, b2, b3, c1, c2, c3);
  }

  lemma CornerXWZPlain(a1: real, a2: real, a3: real, b1: real, b2: real, b3: real, c1: real, c2: real, c3: real)
    requires b1 == c2 * a3 - c3 * a2 && a2 == b3 * c1 - b1 * c3
    requires a1 * a2 + b1 * b2 + c1 * c2 == 0.0
    requires a1 * b1 + a2 * b2 + a3 * b3 == 0.0
    ensures Mul(b1 - a2, 1.0 + a1 - b2 - c3) == Mul(c2 - b3, a3 + c1)
  {}

  lemma CornerXWZ(a1: real, a2: real, a3: real, b1: real, b2: real, b3: real, c1: real, c2: real, c3: real)
    requires Minor(b1, c2, a3, c3, a2) && Minor(a2, b3, c1, b1, c3)
    requires Dot(Vec(a1, b1, c1), Vec(a2, b2, c2)) == 0.0
    requires Dot(Vec(a1, a2, a3), Vec(b1, b2, b3)) == 0.0
    ensures Mul(b1 - a2, 1.0 + a1 - b2 - c3) == Mul(c2 - b3, a3 + c1)
  {
    hide Mul;
    CornerXWZPlain(a1, a2, a3, b1, b2, b3, c1, c2, c3);
  }

  lemma CornerXYZPlain(a1: real, a2: real, a3: real, b1: real, b2: real, b3: real, c1: real, c2: real, c3: real)
    requires b3 == c1 * a2 - c2 * a1 && c2 == a3 * b1 - a1 * b3
    requires a2 * a3 + b2 * b3 + c2 * c3 == 0.0
    requires b1 * c1 + b2 * c2 + b3 * c3 == 0.0
    ensures Mul(b3 + c2, 1.0 + a1 - b2 - c3) == Mul(a2 + b1, a3 + c1)
  {}

  lemma CornerXYZ(a1: real, a2: real, a3: real, b1: real, b2: real, b3: real, c1: real, c2: real, c3: real)
    requires Minor(b3, c1, a2, c2, a1) && Minor(c2, a3, b1, a1, b3)
    requires Dot(Vec(a2, b2, c2), Vec(a3, b3, c3)) == 0.0
    requires Dot(Vec(b1, b2, b3), Vec(c1, c2, c3)) == 0.0
    ensures Mul(b3 + c2, 1.0 + a1 - b2 - c3) == Mul(a2 + b1, a3 + c1)
  {
    hide Mul;
    CornerXYZPlain(a1, a2, a3, b1, b2, b3, c1, c2, c3);
  }

  // The six identities for one naming of the axes.
  lemma Identities(m: Mat)
    requires Facts(m)
    ensures RankAt(m, X, X, W) && RankAt(m, Y, Y, X) && RankAt(m, X, Y, W)
    ensures RankAt(m, W, Y, X) && RankAt(m, W, Z, X) && RankAt(m, Y, Z, X)
  {
    hide Dot; hide Minor; hide Mul;
    DiagonalWX(m.a1, m.a2, m.a3, m.b1, m.b2, m.b3, m.c1, m.c2, m.c3);
    DiagonalXY(m.a1, m.a2, m.a3, m.b1, m.b2, m.b3, m.c1, m.c2, m.c3);
    CornerW(m.a1, m.a2, m.a3, m.b1, m.b2, m.b3, m.c1, m.c2, m.c3);
    CornerXWY(m.a1, m.a2, m.a3, m.b1, m.b2, m.b3, m.c1, m.c2, m.c3);
    CornerXWZ(m.a1, m.a2, m.a3, m.b1, m.b2, m.b3, m.c1, m.c2, m.c3);
    CornerXYZ(m.a1, m.a2, m.a3, m.b1, m.b2, m.b3, m.c1, m.c2, m.c3);
  }

  lemma FactsRanked(m: Mat)
    requires Facts(m)
    ensures Ranked(m)
  {
    hide Facts; hide RankAt; hide Turn;
    var n := Turn(m);
    var o := Turn(n);
    TurnFacts(m);
    TurnFacts(n);
    Identities(m);
    Identities(n);
    Identities(o);
    forall i: Part, j: Part, k: Part
      ensures RankAt(n, i, j, k) == RankAt(m, Next(i), Next(j), Next(k))
      ensures RankAt(o, i, j, k) == RankAt(m, Next(Next(i)), Next(Next(j)), Next(Next(k)))
    {
      TurnRank(m, i, j, k);
      TurnRank(n, i, j, k);
      TurnRank(m, Next(i), Next(j), Next(k));
    }
    DiagonalSwapped(m);
    RankSwapped(m, Z, X, W);
    RankSwapped(m, W, Z, Y);
    RankSwapped(m, Z, X, Y);
    RankSwapped(m, X, Y, Z);
    RankedBy(m, W, X, Y, Z);
    RankedBy(m, X, W, Y, Z);
    RankedBy(m, Y, W, X, Z);
    RankedBy(m, Z, W, X, Y);
    forall i: Part, j: Part, k: Part ensures RankAt(m, i, j, k) {
      Parts(k);
    }
  }

  // A square identity serves both pivots.
  lemma DiagonalSwapped(m: Mat)
    ensures forall i: Part, k: Part :: RankAt(m, i, i, k) == RankAt(m, k, k, i)
  {
    hide Product;
    forall i: Part, k: Part ensures RankAt(m, i, i, k) == RankAt(m, k, k, i) {
      Symmetric(m, i, k);
    }
  }

  lemma ProperRanked(m: Mat)
    requires Proper(m)
    ensures Ranked(m)
  {
    hide Proper; hide Facts; hide Ranked;
    ProperFacts(m);
    FactsRanked(m);
  }

  // ---- The conversion is exact ----

  lemma PivotIs(m: Mat)
    ensures Pivot(m) == Product(m, Largest(m), Largest(m)) >= 1.0
  {
    PivotAtLeastOne(m);
  }

  function Half(x: real, root: real): real
    requires root != 0.0
  {
    x / (root * 2.0)
  }

  lemma HalfSelf(root: real, pivot: real)
    requires IsRoot(root, pivot)
    ensures Half(pivot, root) == 0.25 * (root * 2.0)
  {
    assert pivot == (0.25 * (root * 2.0)) * (root * 2.0);
  }

  // Each component is a product divided by twice the root.
  lemma PartIs(m: Mat, root: real, i: Part)
    requires IsRoot(root, Pivot(m))
    ensures PartOf(RotToQuat(m, root), i) == Half(Product(m, i, Largest(m)), root)
  {
    PivotIs(m);
    HalfSelf(root, Pivot(m));
    Parts(i);
    hide Pivot; hide IsRoot;
  }

  lemma Cancel(u: real, v: real, k: real)
    requires k != 0.0 && u * k == v * k
    ensures u == v
  {
    assert u == u * k / k;
    assert v == v * k / k;
  }

  lemma Quotient(a: real, b: real, ab: real, kk: real, r: real)
    requires IsRoot(r, kk) && kk >= 1.0 && Mul(ab, kk) == Mul(a, b)
    ensures 4.0 * Mul(Half(a, r), Half(b, r)) == ab
  {
    var x, y := a / (r * 2.0), b / (r * 2.0);
    assert a == x * (r * 2.0) && b == y * (r * 2.0);
    assert a * b == 4.0 * x * y * (r * r);
    Cancel(4.0 * x * y, ab, kk);
  }

  // The products of the computed components are those read off the matrix.
  lemma QuatProducts(m: Mat, root: real, i: Part, j: Part)
    requires Ranked(m) && IsRoot(root, Pivot(m))
    ensures 4.0 * Mul(PartOf(RotToQuat(m, root), i), PartOf(RotToQuat(m, root), j)) == Product(m, i, j)
  {
    hide Product; hide RotToQuat; hide Pivot; hide Largest; hide PartOf; hide Mul; hide Half;
    var k := Largest(m);
    assert root != 0.0;
    hide IsRoot;
    PartIs(m, root, i);
    PartIs(m, root, j);
    PivotIs(m);
    assert RankAt(m, i, j, k);
    Quotient(Product(m, i, k), Product(m, j, k), Product(m, i, j), Product(m, k, k), root);
  }

  lemma ProductsGive(m: Mat, q: Quat)
    requires forall i: Part, j: Part :: 4.0 * Mul(PartOf(q, i), PartOf(q, j)) == Product(m, i, j)
    ensures Norm2(q) == 1.0 && Rot(q) == m
  {
    hide Mul;
    assert PartOf(q, W) == q.w && PartOf(q, X) == q.x && PartOf(q, Y) == q.y && PartOf(q, Z) == q.z;
    hide PartOf;
  }

  // For every proper rotation the result is a unit quaternion with that rotation.
  lemma RotToQuatExact(m: Mat, root: real)
    requires Proper(m) && IsRoot(root, Pivot(m))
    ensures Norm2(RotToQuat(m, root)) == 1.0 && Rot(RotToQuat(m, root)) == m
  {
    ProperRanked(m);
    assert root != 0.0;
    hide *;
    var q := RotToQuat(m, root);
    forall i: Part, j: Part ensures 4.0 * Mul(PartOf(q, i), PartOf(q, j)) == Product(m, i, j) {
      QuatProducts(m, root, i, j);
    }
    ProductsGive(m, q);
  }

  function Negated(q: Quat): Quat { Quat(-q.w, -q.x, -q.y, -q.z) }

  lemma UnitProduct(p: Quat, i: Part, j: Part)
    requires Norm2(p) == 1.0
    ensures Product(Rot(p), i, j) == 4.0 * Mul(PartOf(p, i), PartOf(p, j))
  {
    hide Mul;
    MulCommutes(PartOf(p, i), PartOf(p, j));
    Parts(i);
    Parts(j);
  }

  lemma MulExchange(a: real, b: real, c: real)
    ensures Mul(4.0 * Mul(a, b), 4.0 * Mul(c, c)) == Mul(4.0 * Mul(a, c), 4.0 * Mul(b, c))
  {}

  lemma UnitRanked(p: Quat)
    requires Norm2(p) == 1.0
    ensures Ranked(Rot(p))
  {
    hide Product; hide PartOf; hide Rot; hide Norm2; hide Mul;
    forall i: Part, j: Part, k: Part ensures RankAt(Rot(p), i, j, k) {
      UnitProduct(p, i, j);
      UnitProduct(p, k, k);
      UnitProduct(p, i, k);
      UnitProduct(p, j, k);
      MulExchange(PartOf(p, i), PartOf(p, j), PartOf(p, k));
    }
  }

  lemma SameSquares(a: real, b: real)
    requires Mul(a, a) == Mul(b, b)
    ensures a == b || a == -b
  {
    assert (a - b) * (a + b) == 0.0;
    if a != b { Cancel(a + b, 0.0, a - b); }
  }

  lemma SameScaled(a: real, b: real, c: real, d: real)
    requires Mul(a, b) == Mul(c, d) && d != 0.0 && (b == d || b == -d)
    ensures a == if b == d then c else -c
  {
    if b == d { Cancel(a, c, d); } else { Cancel(-a, c, d); }
  }

  lemma SomeNonzero(p: Quat) returns (k: Part)
    requires Norm2(p) == 1.0
    ensures PartOf(p, k) != 0.0
  {
    k := if p.w != 0.0 then W else if p.x != 0.0 then X else if p.y != 0.0 then Y else Z;
  }

  // Equal products of components: equal up to the sign.
  lemma ProductsFixSign(q: Quat, p: Quat)
    requires Norm2(p) == 1.0
    requires forall i: Part, j: Part :: Mul(PartOf(q, i), PartOf(q, j)) == Mul(PartOf(p, i), PartOf(p, j))
    ensures q == p || q == Negated(p)
  {
    var k := SomeNonzero(p);
    hide Mul; hide Norm2;
    SameSquares(PartOf(q, k), PartOf(p, k));
    var same := PartOf(q, k) == PartOf(p, k);
    forall i: Part ensures PartOf(q, i) == if same then PartOf(p, i) else -PartOf(p, i) {
      SameScaled(PartOf(q, i), PartOf(q, k), PartOf(p, i), PartOf(p, k));
    }
    assert PartOf(q, W) == q.w && PartOf(q, X) == q.x && PartOf(q, Y) == q.y && PartOf(q, Z) == q.z;
    assert PartOf(p, W) == p.w && PartOf(p, X) == p.x && PartOf(p, Y) == p.y && PartOf(p, Z) == p.z;
  }

  // From the matrix of a unit quaternion the conversion gives it back, or its negative.
  lemma RotToQuatInverts(p: Quat, root: real)
    requires Norm2(p) == 1.0 && IsRoot(root, Pivot(Rot(p)))
    ensures RotToQuat(Rot(p), root) == p || RotToQuat(Rot(p), root) == Negated(p)
  {
    UnitRanked(p);
    assert root != 0.0;
    hide *;
    var q := RotToQuat(Rot(p), root);
    forall i: Part, j: Part ensures Mul(PartOf(q, i), PartOf(q, j)) == Mul(PartOf(p, i), PartOf(p, j)) {
      QuatProducts(Rot(p), root, i, j);
      UnitProduct(p, i, j);
    }
    ProductsFixSign(q, p);
  }

  // ---- Composition ----

  function QuatMul(a: Quat, b: Quat): Quat {
    Quat(a.w * b.w - a.x * b.x - a.y * b.y - a.z * b.z,
         a.w * b.x + a.x * b.w + a.y * b.z - a.z * b.y,
         a.w * b.y - a.x * b.z + a.y * b.w + a.z * b.x,
         a.w * b.z + a.x * b.y - a.y * b.x + a.z * b.w)
  }

  function Conj(q: Quat): Quat { Quat(q.w, -q.x, -q.y, -q.z) }

  function Pure(v: Vec): Quat { Quat(0.0, v.x, v.y, v.z) }

  function Tri(x: real, y: real, z: real): real { x * y * z }

  lemma Distribute(e: real, t1: real, t2: real, t3: real, t4: real, k: real)
    requires e == t1 + t2 + t3 + t4
    ensures e * k == t1 * k + t2 * k + t3 * k + t4 * k
  {}

  lemma Entries(a: Quat, b: Quat)
    ensures QuatMul(a, b).w == Mul(a.w, b.w) - Mul(a.x, b.x) - Mul(a.y, b.y) - Mul(a.z, b.z)
    ensures QuatMul(a, b).x == Mul(a.w, b.x) + Mul(a.x, b.w) + Mul(a.y, b.z) - Mul(a.z, b.y)
    ensures QuatMul(a, b).y == Mul(a.w, b.y) - Mul(a.x, b.z) + Mul(a.y, b.w) + Mul(a.z, b.x)
    ensures QuatMul(a, b).z == Mul(a.w, b.z) + Mul(a.x, b.y) - Mul(a.y, b.x) + Mul(a.z, b.w)
  {}

  lemma TimesOne(e: real, p1: real, q1: real, p2: real, q2: real, p3: real, q3: real, p4: real, q4: real, k: real)
    requires e == Mul(p1, q1) - Mul(p2, q2) - Mul(p3, q3) - Mul(p4, q4)
    ensures Mul(e, k) == Tri(p1, q1, k) - Tri(p2, q2, k) - Tri(p3, q3, k) - Tri(p4, q4, k)
    ensures Mul(k, e) == Tri(k, p1, q1) - Tri(k, p2, q2) - Tri(k, p3, q3) - Tri(k, p4, q4)
  {
    Distribute(e, p1 * q1, -(p2 * q2), -(p3 * q3), -(p4 * q4), k);
  }

  lemma TimesThree(e: real, p1: real, q1: real, p2: real, q2: real, p3: real, q3: real, p4: real, q4: real, k: real)
    requires e == Mul(p1, q1) + Mul(p2, q2) + Mul(p3, q3) - Mul(p4, q4)
    ensures Mul(e, k) == Tri(p1, q1, k) + Tri(p2, q2, k) + Tri(p3, q3, k) - Tri(p4, q4, k)
    ensures Mul(k, e) == Tri(k, p1, q1) + Tri(k, p2, q2) + Tri(k, p3, q3) - Tri(k, p4, q4)
  {
    Distribute(e, p1 * q1, p2 * q2, p3 * q3, -(p4 * q4), k);
  }

  lemma TimesQuat(a: Quat, b: Quat, k: real)
    ensures Mul(QuatMul(a, b).w, k) == Tri(a.w, b.w, k) - Tri(a.x, b.x, k) - Tri(a.y, b.y, k) - Tri(a.z, b.z, k)
    ensures Mul(QuatMul(a, b).x, k) == Tri(a.w, b.x, k) + Tri(a.x, b.w, k) + Tri(a.y, b.z, k) - Tri(a.z, b.y, k)
    ensures Mul(QuatMul(a, b).y, k) == Tri(a.w, b.y, k) + Tri(a.y, b.w, k) + Tri(a.z, b.x, k) - Tri(a.x, b.z, k)
    ensures Mul(QuatMul(a, b).z, k) == Tri(a.w, b.z, k) + Tri(a.z, b.w, k) + Tri(a.x, b.y, k) - Tri(a.y, b.x, k)
    ensures Mul(k, QuatMul(a, b).w) == Tri(k, a.w, b.w) - Tri(k, a.x, b.x) - Tri(k, a.y, b.y) - Tri(k, a.z, b.z)
    ensures Mul(k, QuatMul(a, b).x) == Tri(k, a.w, b.x) + Tri(k, a.x, b.w) + Tri(k, a.y, b.z) - Tri(k, a.z, b.y)
    ensures Mul(k, QuatMul(a, b).y) == Tri(k, a.w, b.y) + Tri(k, a.y, b.w) + Tri(k, a.z, b.x) - Tri(k, a.x, b.z)
    ensures Mul(k, QuatMul(a, b).z) == Tri(k, a.w, b.z) + Tri(k, a.z, b.w) + Tri(k, a.x, b.y) - Tri(k, a.y, b.x)
  {
    hide Mul; hide Tri; hide QuatMul;
    Entries(a, b);
    TimesOne(QuatMul(a, b).w, a.w, b.w, a.x, b.x, a.y, b.y, a.z, b.z, k);
    TimesThree(QuatMul(a, b).x, a.w, b.x, a.x, b.w, a.y, b.z, a.z, b.y, k);
    TimesThree(QuatMul(a, b).y, a.w, b.y, a.y, b.w, a.z, b.x, a.x, b.z, k);
    TimesThree(QuatMul(a, b).z, a.w, b.z, a.z, b.w, a.x, b.y, a.y, b.x, k);
  }

  lemma QuatMulAssoc(a: Quat, b: Quat, c: Quat)
    ensures QuatMul(QuatMul(a, b), c) == QuatMul(a, QuatMul(b, c))
  {
    hide QuatMul; hide Mul; hide Tri;
    Entries(QuatMul(a, b), c);
    Entries(a, QuatMul(b, c));
    TimesQuat(a, b, c.w);
    TimesQuat(a, b, c.x);
    TimesQuat(a, b, c.y);
    TimesQuat(a, b, c.z);
    TimesQuat(b, c, a.w);
    TimesQuat(b, c, a.x);
    TimesQuat(b, c, a.y);
    TimesQuat(b, c, a.z);
  }

  lemma MulSigns(x: real, y: real)
    ensures Mul(x, y) == Mul(y, x) && Mul(-x, -y) == Mul(y, x)
    ensures Mul(-x, y) == -Mul(y, x) && Mul(x, -y) == -Mul(y, x)
  {}

  lemma PartSigns(k: real, q: Quat)
    ensures Mul(k, q.w) == Mul(q.w, k) && Mul(-k, q.w) == -Mul(q.w, k)
    ensures Mul(k, -q.x) == -Mul(q.x, k) && Mul(-k, -q.x) == Mul(q.x, k)
    ensures Mul(k, -q.y) == -Mul(q.y, k) && Mul(-k, -q.y) == Mul(q.y, k)
    ensures Mul(k, -q.z) == -Mul(q.z, k) && Mul(-k, -q.z) == Mul(q.z, k)
  {
    hide Mul;
    MulSigns(k, q.w);
    MulSigns(k, q.x);
    MulSigns(k, q.y);
    MulSigns(k, q.z);
  }

  lemma ConjOfMul(a: Quat, b: Quat)
    ensures Conj(QuatMul(a, b)) == QuatMul(Conj(b), Conj(a))
  {
    hide QuatMul; hide Mul;
    Entries(a, b);
    Entries(Conj(b), Conj(a));
    PartSigns(b.w, a);
    PartSigns(b.x, a);
    PartSigns(b.y, a);
    PartSigns(b.z, a);
  }

  // ---- Norms multiply ----

  lemma EntriesConj(p: Quat, q: Quat)
    ensures QuatMul(p, Conj(q)).w == Mul(p.w, q.w) + Mul(p.x, q.x) + Mul(p.y, q.y) + Mul(p.z, q.z)
    ensures QuatMul(p, Conj(q)).x == Mul(p.x, q.w) - Mul(p.w, q.x) - Mul(p.y, q.z) + Mul(p.z, q.y)
    ensures QuatMul(p, Conj(q)).y == Mul(p.y, q.w) - Mul(p.w, q.y) + Mul(p.x, q.z) - Mul(p.z, q.x)
    ensures QuatMul(p, Conj(q)).z == Mul(p.z, q.w) - Mul(p.w, q.z) - Mul(p.x, q.y) + Mul(p.y, q.x)
  {}

  function Real(k: real): Quat { Quat(k, 0.0, 0.0, 0.0) }

  lemma TimesConj(q: Quat)
    ensures QuatMul(q, Conj(q)) == Real(Norm2(q))
  {
    hide QuatMul; hide Mul;
    EntriesConj(q, q);
    MulCommutes(q.w, q.x);
    MulCommutes(q.w, q.y);
    MulCommutes(q.w, q.z);
    MulCommutes(q.x, q.y);
    MulCommutes(q.x, q.z);
    MulCommutes(q.y, q.z);
  }

  lemma RealMoves(q: Quat, k: real)
    ensures QuatMul(q, Real(k)) == QuatMul(Real(k), q)
  {}

  lemma RealTimesReal(j: real, k: real)
    ensures QuatMul(Real(j), Real(k)) == Real(j * k)
  {}

  lemma NormOfMul(a: Quat, b: Quat)
    ensures Norm2(QuatMul(a, b)) == Norm2(a) * Norm2(b)
  {
    hide QuatMul; hide Conj; hide Norm2;
    var ab, a', b' := QuatMul(a, b), Conj(a), Conj(b);
    TimesConj(ab);
    TimesConj(a);
    TimesConj(b);
    // (ab)(ab)* == a (b b*) a* == (b b*)(a a*)
    ConjOfMul(a, b);
    QuatMulAssoc(ab, b', a');
    QuatMulAssoc(a, b, b');
    RealMoves(a, Norm2(b));
    QuatMulAssoc(Real(Norm2(b)), a, a');
    RealTimesReal(Norm2(b), Norm2(a));
  }

  // ---- Rotating a vector is multiplying from both sides ----

  lemma ApplyTerms(m: Mat, v: Vec)
    ensures Apply(m, v).x == Mul(m.a1, v.x) + Mul(m.a2, v.y) + Mul(m.a3, v.z)
    ensures Apply(m, v).y == Mul(m.b1, v.x) + Mul(m.b2, v.y) + Mul(m.b3, v.z)
    ensures Apply(m, v).z == Mul(m.c1, v.x) + Mul(m.c2, v.y) + Mul(m.c3, v.z)
  {}

  lemma EntriesPure(q: Quat, v: Vec)
    ensures QuatMul(q, Pure(v)).w == -Mul(q.x, v.x) - Mul(q.y, v.y) - Mul(q.z, v.z)
    ensures QuatMul(q, Pure(v)).x == Mul(q.w, v.x) + Mul(q.y, v.z) - Mul(q.z, v.y)
    ensures QuatMul(q, Pure(v)).y == Mul(q.w, v.y) + Mul(q.z, v.x) - Mul(q.x, v.z)
    ensures QuatMul(q, Pure(v)).z == Mul(q.w, v.z) + Mul(q.x, v.y) - Mul(q.y, v.x)
  {}

  lemma TimesNegative(e: real, p1: real, q1: real, p2: real, q2: real, p3: real, q3: real, k: real)
    requires e == -Mul(p1, q1) - Mul(p2, q2) - Mul(p3, q3)
    ensures Mul(e, k) == -Tri(p1, k, q1) - Tri(p2, k, q2) - Tri(p3, k, q3)
  {
    Distribute(e, -(p1 * q1), -(p2 * q2), -(p3 * q3), 0.0, k);
  }

  lemma TimesMixed(e: real, p1: real, q1: real, p2: real, q2: real, p3: real, q3: real, k: real)
    requires e == Mul(p1, q1) + Mul(p2, q2) - Mul(p3, q3)
    ensures Mul(e, k) == Tri(p1, k, q1) + Tri(p2, k, q2) - Tri(p3, k, q3)
  {
    Distribute(e, p1 * q1, p2 * q2, -(p3 * q3), 0.0, k);
  }

  lemma TimesPure(q: Quat, v: Vec, k: real)
    ensures Mul(QuatMul(q, Pure(v)).w, k) == -Tri(q.x, k, v.x) - Tri(q.y, k, v.y) - Tri(q.z, k, v.z)
    ensures Mul(QuatMul(q, Pure(v)).x, k) == Tri(q.w, k, v.x) + Tri(q.y, k, v.z) - Tri(q.z, k, v.y)
    ensures Mul(QuatMul(q, Pure(v)).y, k) == Tri(q.w, k, v.y) + Tri(q.z, k, v.x) - Tri(q.x, k, v.z)
    ensures Mul(QuatMul(q, Pure(v)).z, k) == Tri(q.w, k, v.z) + Tri(q.x, k, v.y) - Tri(q.y, k, v.x)
  {
    hide Mul; hide Tri; hide QuatMul;
    EntriesPure(q, v);
    var p := QuatMul(q, Pure(v));
    TimesNegative(p.w, q.x, v.x, q.y, v.y, q.z, v.z, k);
    TimesMixed(p.x, q.w, v.x, q.y, v.z, q.z, v.y, k);
    TimesMixed(p.y, q.w, v.y, q.z, v.x, q.x, v.z, k);
    TimesMixed(p.z, q.w, v.z, q.x, v.y, q.y, v.x, k);
  }

  lemma TimesFour(e: real, p: real, q: real, r: real, s: real, k: real)
    requires e == Mul(p, p) + Mul(q, q) - Mul(r, r) - Mul(s, s)
    ensures Mul(e, k) == Tri(p, p, k) + Tri(q, q, k) - Tri(r, r, k) - Tri(s, s, k)
  {
    Distribute(e, p * p, q * q, -(r * r), -(s * s), k);
  }

  lemma TimesDiagonal(q: Quat, k: real)
    ensures Mul(Rot(q).a1, k) == Tri(q.w, q.w, k) + Tri(q.x, q.x, k) - Tri(q.y, q.y, k) - Tri(q.z, q.z, k)
    ensures Mul(Rot(q).b2, k) == Tri(q.w, q.w, k) + Tri(q.y, q.y, k) - Tri(q.x, q.x, k) - Tri(q.z, q.z, k)
    ensures Mul(Rot(q).c3, k) == Tri(q.w, q.w, k) + Tri(q.z, q.z, k) - Tri(q.x, q.x, k) - Tri(q.y, q.y, k)
  {
    hide Mul; hide Tri;
    TimesFour(Rot(q).a1, q.w, q.x, q.y, q.z, k);
    TimesFour(Rot(q).b2, q.w, q.y, q.x, q.z, k);
    TimesFour(Rot(q).c3, q.w, q.z, q.x, q.y, k);
  }

  // Twice the sum or difference of two products.
  lemma TimesTwo(e: real, p: real, q: real, r: real, s: real, k: real)
    ensures e == 2.0 * (Mul(p, q) + Mul(r, s)) ==> Mul(e, k) == 2.0 * Tri(p, q, k) + 2.0 * Tri(r, s, k)
    ensures e == 2.0 * (Mul(p, q) - Mul(r, s)) ==> Mul(e, k) == 2.0 * Tri(p, q, k) - 2.0 * Tri(r, s, k)
  {
    if e == 2.0 * (Mul(p, q) + Mul(r, s)) {
      Distribute(e, 0.0, 0.0, 2.0 * (p * q), 2.0 * (r * s), k);
    }
    if e == 2.0 * (Mul(p, q) - Mul(r, s)) {
      Distribute(e, 0.0, 0.0, 2.0 * (p * q), -2.0 * (r * s), k);
    }
  }

  lemma TimesCorners(q: Quat, k: real)
    ensures Mul(Rot(q).a2, k) == 2.0 * Tri(q.x, q.y, k) - 2.0 * Tri(q.w, q.z, k)
    ensures Mul(Rot(q).b1, k) == 2.0 * Tri(q.x, q.y, k) + 2.0 * Tri(q.w, q.z, k)
    ensures Mul(Rot(q).a3, k) == 2.0 * Tri(q.x, q.z, k) + 2.0 * Tri(q.w, q.y, k)
    ensures Mul(Rot(q).c1, k) == 2.0 * Tri(q.x, q.z, k) - 2.0 * Tri(q.w, q.y, k)
    ensures Mul(Rot(q).b3, k) == 2.0 * Tri(q.y, q.z, k) - 2.0 * Tri(q.w, q.x, k)
    ensures Mul(Rot(q).c2, k) == 2.0 * Tri(q.y, q.z, k) + 2.0 * Tri(q.w, q.x, k)
  {
    hide Mul; hide Tri;
    TimesTwo(Rot(q).a2, q.x, q.y, q.w, q.z, k);
    TimesTwo(Rot(q).b1, q.x, q.y, q.w, q.z, k);
    TimesTwo(Rot(q).a3, q.x, q.z, q.w, q.y, k);
    TimesTwo(Rot(q).c1, q.x, q.z, q.w, q.y, k);
    TimesTwo(Rot(q).b3, q.y, q.z, q.w, q.x, k);
    TimesTwo(Rot(q).c2, q.y, q.z, q.w, q.x, k);
  }

  lemma TriSwapped(q: Quat, k: real)
    ensures Tri(q.w, q.x, k) == Tri(q.x, q.w, k) && Tri(q.w, q.y, k) == Tri(q.y, q.w, k)
    ensures Tri(q.w, q.z, k) == Tri(q.z, q.w, k) && Tri(q.x, q.y, k) == Tri(q.y, q.x, k)
    ensures Tri(q.x, q.z, k) == Tri(q.z, q.x, k) && Tri(q.y, q.z, k) == Tri(q.z, q.y, k)
  {}

  lemma RotIsSandwich(q: Quat, v: Vec)
    ensures Pure(Apply(Rot(q), v)) == QuatMul(QuatMul(q, Pure(v)), Conj(q))
  {
    hide QuatMul; hide Mul; hide Tri; hide Rot; hide Apply;
    ApplyTerms(Rot(q), v);
    TimesDiagonal(q, v.x);
    TimesDiagonal(q, v.y);
    TimesDiagonal(q, v.z);
    TimesCorners(q, v.x);
    TimesCorners(q, v.y);
    TimesCorners(q, v.z);
    TriSwapped(q, v.x);
    TriSwapped(q, v.y);
    TriSwapped(q, v.z);
    EntriesConj(QuatMul(q, Pure(v)), q);
    TimesPure(q, v, q.w);
    TimesPure(q, v, q.x);
    TimesPure(q, v, q.y);
    TimesPure(q, v, q.z);
  }

  // Composing quaternions composes their rotations.
  lemma RotOfMul(a: Quat, b: Quat, v: Vec)
    ensures Apply(Rot(QuatMul(a, b)), v) == Apply(Rot(a), Apply(Rot(b), v))
  {
    var ab, pv := QuatMul(a, b), Pure(v);
    var inner := Apply(Rot(b), v);
    hide QuatMul; hide Rot; hide Apply; hide Conj;
    RotIsSandwich(ab, v);
    RotIsSandwich(b, v);
    RotIsSandwich(a, inner);
    ConjOfMul(a, b);
    // (ab) v (ab)* == a (b v b*) a*
    QuatMulAssoc(a, b, pv);
    QuatMulAssoc(QuatMul(a, QuatMul(b, pv)), Conj(b), Conj(a));
    QuatMulAssoc(a, QuatMul(b, pv), Conj(b));
    assert Pure(Apply(Rot(ab), v)) == Pure(Apply(Rot(a), inner));
  }

  lemma ConjInverts(q: Quat)
    requires Norm2(q) == 1.0
    ensures QuatMul(Conj(q), q) == Quat(1.0, 0.0, 0.0, 0.0)
  {}

  lemma RotOfOne(v: Vec)
    ensures Apply(Rot(Quat(1.0, 0.0, 0.0, 0.0)), v) == v
  {}

  // The orientation the driver reports, from the chip's: q * conj(r).
  function BoatQuat(chip: Quat, mount: Mat, root: real): Quat
    requires root != 0.0
  {
    QuatMul(chip, Conj(RotToQuat(mount, root)))
  }

  // A reading rotated into the boat frame and turned by the boat's orientation is the
  // chip's reading turned by the chip's orientation, for every mounting rotation.
  lemma FrameChange(chip: Quat, mount: Mat, root: real, v: Vec)
    requires Proper(mount) && IsRoot(root, Pivot(mount))
    ensures Apply(Rot(BoatQuat(chip, mount, root)), Apply(mount, v)) == Apply(Rot(chip), v)
    ensures Norm2(BoatQuat(chip, mount, root)) == Norm2(chip)
  {
    RotToQuatExact(mount, root);
    assert root != 0.0;
    var r := RotToQuat(mount, root);
    hide Proper; hide IsRoot; hide Pivot; hide RotToQuat; hide Rot; hide Apply; hide QuatMul;
    ConjNorm(r);
    NormOfMul(chip, Conj(r));
    hide Conj; hide Norm2;
    RotOfMul(chip, Conj(r), Apply(mount, v));
    RotOfMul(Conj(r), r, v);
    ConjInverts(r);
    RotOfOne(v);
  }

  lemma ConjNorm(q: Quat)
    ensures Norm2(Conj(q)) == Norm2(q)
  {}

  // ---- In place, as the code does it ----

  // Row by row into a copy, then back over the vector.
  method Rotate(m: Mat, v: array<real>)
    requires v.Length == 3
    modifies v
    ensures Vec(v[0], v[1], v[2]) == Apply(m, old(Vec(v[0], v[1], v[2])))
  {
    var r := new real[3];
    var i := 0;
    while i < 3
      invariant 0 <= i <= 3
      invariant v[..] == old(v[..])
      invariant forall j :: 0 <= j < i ==> r[j] == Axis(Apply(m, Vec(v[0], v[1], v[2])), j)
    {
      var row := Row(m, i);
      r[i] := row.x * v[0] + row.y * v[1] + row.z * v[2];
      i := i + 1;
    }
    v[0] := r[0];
    v[1] := r[1];
    v[2] := r[2];
  }
}
