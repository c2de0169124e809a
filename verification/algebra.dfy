/**
 Homogeneous-transform algebra over the reals.

 The plain kinematics path works on full 4x4 homogeneous matrices; the batched
 path keeps only the top three rows, split into a 3x3 rotation and a 3x1
 translation. Both shapes, and the bridge between them, live here.
 Dimensions are fixed, so every product is written out term by term.
 */
module Algebra {

  type Vec3 = v: seq<real> | |v| == 3 witness [0.0, 0.0, 0.0]
  type Row4 = r: seq<real> | |r| == 4 witness [0.0, 0.0, 0.0, 0.0]
  type Mat3 = m: seq<Vec3> | |m| == 3 witness [ZeroVec3, ZeroVec3, ZeroVec3]
  type Mat4 = m: seq<Row4> | |m| == 4 witness [BottomRow, BottomRow, BottomRow, BottomRow]

  const ZeroVec3: Vec3 := [0.0, 0.0, 0.0]

  /** The top three rows of a homogeneous transform, kept as a rotation block
      and a translation column (the batched path's `(jr, jt)` pair). */
  datatype RigidPose = RigidPose(rot: Mat3, trans: Vec3)

  const BottomRow: Row4 := [0.0, 0.0, 0.0, 1.0]

  function Identity4(): Mat4 {
    [[1.0, 0.0, 0.0, 0.0], [0.0, 1.0, 0.0, 0.0], [0.0, 0.0, 1.0, 0.0], BottomRow]
  }

  /** A transform whose last row is `0 0 0 1`. */
  predicate Homogeneous(m: Mat4) {
    m[3] == BottomRow
  }

  function Mul4(a: Mat4, b: Mat4): Mat4 {
    seq(4, i requires 0 <= i < 4 =>
      seq(4, j requires 0 <= j < 4 =>
        a[i][0] * b[0][j] + a[i][1] * b[1][j] + a[i][2] * b[2][j] + a[i][3] * b[3][j]))
  }

  function Mul3(a: Mat3, b: Mat3): Mat3 {
    seq(3, i requires 0 <= i < 3 =>
      seq(3, j requires 0 <= j < 3 => a[i][0] * b[0][j] + a[i][1] * b[1][j] + a[i][2] * b[2][j]))
  }

  function MulVec3(a: Mat3, v: Vec3): Vec3 {
    seq(3, i requires 0 <= i < 3 => a[i][0] * v[0] + a[i][1] * v[1] + a[i][2] * v[2])
  }

  function AddVec3(u: Vec3, v: Vec3): Vec3 {
    seq(3, i requires 0 <= i < 3 => u[i] + v[i])
  }

  /** The upper-left 3x3 block (`m[0:3, 0:3]`). */
  function Rotation(m: Mat4): Mat3 {
    seq(3, i requires 0 <= i < 3 => m[i][..3])
  }

  /** The last column of the top three rows (`m[0:3, 3]`). */
  function Translation(m: Mat4): Vec3 {
    seq(3, i requires 0 <= i < 3 => m[i][3])
  }

  function TopRows(m: Mat4): RigidPose {
    RigidPose(Rotation(m), Translation(m))
  }

  /** `R·p + t` with the rotation and translation of a 4x4 transform. */
  function Apply(m: Mat4, p: Vec3): Vec3 {
    AddVec3(MulVec3(Rotation(m), p), Translation(m))
  }

  /** `jr·p + jt` with a split pose. */
  function ApplyPose(q: RigidPose, p: Vec3): Vec3 {
    AddVec3(MulVec3(q.rot, p), q.trans)
  }

  /** The batched composition with a split pose `o`:
      `jt := jr·ot + jt; jr := jr·or`, both reading the old `jr`. */
  function ThenPose(q: RigidPose, o: RigidPose): RigidPose {
    RigidPose(Mul3(q.rot, o.rot), AddVec3(MulVec3(q.rot, o.trans), q.trans))
  }

  /** The batched right-multiplication by the top three rows of `m`. */
  function Then(q: RigidPose, m: Mat4): RigidPose {
    ThenPose(q, TopRows(m))
  }

  /** Affine composition of a translation and a rotation with unit zoom. */
  function Compose(t: Vec3, r: Mat3): Mat4 {
    [r[0] + [t[0]], r[1] + [t[1]], r[2] + [t[2]], BottomRow]
  }

  /** Rotation about the z axis by an angle whose cosine is `c` and sine `s`,
      with zero translation. */
  function RotZ(c: real, s: real): Mat4 {
    [[c, -s, 0.0, 0.0], [s, c, 0.0, 0.0], [0.0, 0.0, 1.0, 0.0], BottomRow]
  }

  lemma MulIdentityRight(m: Mat4)
    ensures Mul4(m, Identity4()) == m
  {
    var p := Mul4(m, Identity4());
    forall i | 0 <= i < 4
      ensures p[i] == m[i]
    {
      assert p[i][0] == m[i][0] && p[i][1] == m[i][1] && p[i][2] == m[i][2] && p[i][3] == m[i][3];
    }
  }

  lemma HomogeneousProduct(a: Mat4, b: Mat4)
    requires Homogeneous(a) && Homogeneous(b)
    ensures Homogeneous(Mul4(a, b))
  {
    var p := Mul4(a, b);
    assert p[3][0] == 0.0 && p[3][1] == 0.0 && p[3][2] == 0.0 && p[3][3] == 1.0;
  }

  /** Right-multiplying the split pose by a homogeneous `m` gives exactly the
      top three rows of the full 4x4 product. */
  lemma TopRowsOfProduct(a: Mat4, m: Mat4)
    requires Homogeneous(m)
    ensures TopRows(Mul4(a, m)) == Then(TopRows(a), m)
  {
    var p := Mul4(a, m);
    var q := Then(TopRows(a), m);
    forall i | 0 <= i < 3
      ensures Rotation(p)[i] == q.rot[i]
    {
      assert Rotation(p)[i][0] == q.rot[i][0];
      assert Rotation(p)[i][1] == q.rot[i][1];
      assert Rotation(p)[i][2] == q.rot[i][2];
    }
    forall i | 0 <= i < 3
      ensures Translation(p)[i] == q.trans[i]
    {
    }
  }

  /** Composing a translation and a rotation, then splitting the result,
      returns the two parts unchanged. */
  lemma ComposeSplit(t: Vec3, r: Mat3)
    ensures Homogeneous(Compose(t, r))
    ensures TopRows(Compose(t, r)) == RigidPose(r, t)
  {
    var m := Compose(t, r);
    forall i | 0 <= i < 3
      ensures Rotation(m)[i] == r[i]
    {
      assert m[i] == r[i] + [t[i]];
    }
  }
}
