/**
 Denavit-Hartenberg joint transforms.

 A joint with angle `theta` and DH parameters `d`, `r`, `alpha` contributes
 `Z · X`, where `Z` rotates about z by `theta` and lifts along z by `d`, and
 `X` shifts along x by `r` and rotates about x by `alpha`. The plain path
 builds `Z` entry by entry; the batched path builds it as
 `cos(theta)·Zc + sin(theta)·Zs + Z0` from three constant matrices.
 */
module Denavit {
  import opened Algebra

  /** The elementary functions the source takes from its numeric libraries.
      They are left uninterpreted: the caller supplies them. */
  datatype Elementary = Elementary(cos: real -> real, sin: real -> real, sigmoid: real -> real)

  /** The three matrices `DH2trans` returns: the joint transform and its two factors. */
  datatype DHResult = DHResult(tr: Mat4, z: Mat4, x: Mat4)

  function ZPart(e: Elementary, theta: real, d: real): Mat4 {
    var c := e.cos(theta);
    var s := e.sin(theta);
    [[c, -s, 0.0, 0.0], [s, c, 0.0, 0.0], [0.0, 0.0, 1.0, d], BottomRow]
  }

  /** `cos` and `sin` obey the angle-addition laws at `x` and `y`. */
  ghost predicate AddsAngles(e: Elementary, x: real, y: real) {
    && e.cos(x + y) == e.cos(x) * e.cos(y) - e.sin(x) * e.sin(y)
    && e.sin(x + y) == e.sin(x) * e.cos(y) + e.cos(x) * e.sin(y)
  }

  /** A rotation by `m` about z in front of the z part turns it by `m` more:
      folding a rotation into a link's offset adds to its joint's angle. */
  lemma RotZTurnsZPart(e: Elementary, m: real, theta: real, d: real)
    requires AddsAngles(e, m, theta)
    ensures Mul4(RotZ(e.cos(m), e.sin(m)), ZPart(e, theta, d)) == ZPart(e, m + theta, d)
  {
    var p := Mul4(RotZ(e.cos(m), e.sin(m)), ZPart(e, theta, d));
    var z := ZPart(e, m + theta, d);
    assert p[0][0] == z[0][0] && p[0][1] == z[0][1] && p[0][2] == z[0][2] && p[0][3] == z[0][3];
    assert p[1][0] == z[1][0] && p[1][1] == z[1][1] && p[1][2] == z[1][2] && p[1][3] == z[1][3];
    assert p[0] == z[0] && p[1] == z[1] && p[2] == z[2] && p[3] == z[3];
  }

  function XPart(e: Elementary, r: real, alpha: real): Mat4 {
    var ca := e.cos(alpha);
    var sa := e.sin(alpha);
    [[1.0, 0.0, 0.0, r], [0.0, ca, -sa, 0.0], [0.0, sa, ca, 0.0], BottomRow]
  }

  /** The plain joint transform: `Z`, `X` and their product. */
  function DH2Trans(e: Elementary, theta: real, d: real, r: real, alpha: real): (res: DHResult)
    ensures Homogeneous(res.z) && Homogeneous(res.x) && Homogeneous(res.tr)
  {
    var z := ZPart(e, theta, d);
    var x := XPart(e, r, alpha);
    HomogeneousProduct(z, x);
    DHResult(Mul4(z, x), z, x)
  }

  /** The textbook Denavit-Hartenberg matrix, multiplied out. */
  function DHMatrix(e: Elementary, theta: real, d: real, r: real, alpha: real): Mat4 {
    var c, s := e.cos(theta), e.sin(theta);
    var ca, sa := e.cos(alpha), e.sin(alpha);
    [[c, -s * ca, s * sa, r * c],
     [s, c * ca, -c * sa, r * s],
     [0.0, sa, ca, d],
     BottomRow]
  }

  /** `Z · X` is the closed-form DH matrix: the joint transform factors as the
      rotation-about-z part followed by the rotation-about-x part. */
  lemma DH2TransFactors(e: Elementary, theta: real, d: real, r: real, alpha: real)
    ensures DH2Trans(e, theta, d, r, alpha).tr == DHMatrix(e, theta, d, r, alpha)
  {
    var t := DH2Trans(e, theta, d, r, alpha).tr;
    var m := DHMatrix(e, theta, d, r, alpha);
    forall i | 0 <= i < 4
      ensures t[i] == m[i]
    {
      DH2TransFactorsRow(e, theta, d, r, alpha, i);
    }
  }

  lemma DH2TransFactorsRow(e: Elementary, theta: real, d: real, r: real, alpha: real, i: nat)
    requires i < 4
    ensures Mul4(ZPart(e, theta, d), XPart(e, r, alpha))[i] == DHMatrix(e, theta, d, r, alpha)[i]
  {
    var t := Mul4(ZPart(e, theta, d), XPart(e, r, alpha));
    var m := DHMatrix(e, theta, d, r, alpha);
    assert t[i][0] == m[i][0];
    assert t[i][1] == m[i][1];
    assert t[i][2] == m[i][2];
    assert t[i][3] == m[i][3];
  }

  function Scale4(k: real, m: Mat4): Mat4 {
    seq(4, i requires 0 <= i < 4 => seq(4, j requires 0 <= j < 4 => k * m[i][j]))
  }

  function Add4(a: Mat4, b: Mat4): Mat4 {
    seq(4, i requires 0 <= i < 4 => seq(4, j requires 0 <= j < 4 => a[i][j] + b[i][j]))
  }

  const Zc: Mat4 := [[1.0, 0.0, 0.0, 0.0], [0.0, 1.0, 0.0, 0.0], [0.0, 0.0, 0.0, 0.0], [0.0, 0.0, 0.0, 0.0]]
  const Zs: Mat4 := [[0.0, -1.0, 0.0, 0.0], [1.0, 0.0, 0.0, 0.0], [0.0, 0.0, 0.0, 0.0], [0.0, 0.0, 0.0, 0.0]]

  function Z0(d: real): Mat4 {
    [[0.0, 0.0, 0.0, 0.0], [0.0, 0.0, 0.0, 0.0], [0.0, 0.0, 1.0, d], BottomRow]
  }

  /** The batched joint transform for one batch element: `Z` is assembled
      from the constant basis matrices. */
  function DH2TransBatched(e: Elementary, theta: real, d: real, r: real, alpha: real): DHResult {
    var z := Add4(Add4(Scale4(e.cos(theta), Zc), Scale4(e.sin(theta), Zs)), Z0(d));
    var x := XPart(e, r, alpha);
    DHResult(Mul4(z, x), z, x)
  }

  /** The batched construction yields the same three matrices as the plain one. */
  lemma BatchedDHAgrees(e: Elementary, theta: real, d: real, r: real, alpha: real)
    ensures DH2TransBatched(e, theta, d, r, alpha) == DH2Trans(e, theta, d, r, alpha)
  {
    var zb := DH2TransBatched(e, theta, d, r, alpha).z;
    var zp := ZPart(e, theta, d);
    forall i | 0 <= i < 4
      ensures zb[i] == zp[i]
    {
      assert zb[i][0] == zp[i][0] && zb[i][1] == zp[i][1] && zb[i][2] == zp[i][2] && zb[i][3] == zp[i][3];
    }
  }
}
