/**
 The hand as a whole (`Hand`): the degree-of-freedom count and joint bounds
 of the palm's tree, the state assembled when a hand is created, and the
 actuation handling of `Hand.forward_kinematics` (eigengrasp expansion and
 the joint-limit map) in front of the palm's forward kinematics.
 */
module HandModel {
  import opened Algebra
  import opened Denavit
  import opened Links
  import opened Kinematics
  import opened Eigengrasp
  import opened Results
  import Rewrites

  /** `nr_dof`: one more than the largest joint id of the tree. Every joint
      reads an entry below it, and it is the least such count. */
  function NrDof(palm: Link): (n: nat)
    ensures n >= 1
    ensures IdsBelow(JointsOf(palm), n)
    ensures n == 1 || exists j | j in JointsOf(palm) :: j.id == n - 1
  {
    MaxDofId(palm) + 1
  }

  /** `Hand.lb_ub`: zero-filled bounds of length `nr_dof`, then every joint's
      range written at its id in pre-order. An id no joint reads keeps
      `[0, 0]`; a shared id takes the range of the last joint written. */
  function HandLbUb(palm: Link): (b: Bounds)
    ensures |b.lb| == NrDof(palm) && |b.ub| == NrDof(palm)
    ensures forall k: nat | k < NrDof(palm) ::
      || (Unbound(JointsOf(palm), k) && b.lb[k] == 0.0 && b.ub[k] == 0.0)
      || (exists i :: LastWriter(JointsOf(palm), k, i) && b.lb[k] == JointsOf(palm)[i].min && b.ub[k] == JointsOf(palm)[i].max)
  {
    var n := NrDof(palm);
    LbUb(palm, Bounds(Zeros(n), Zeros(n)))
  }

  /** The state a hand keeps after construction. */
  datatype Hand = Hand(
    palm: Link,
    eigen: Option<Eigen>,
    useJointLimit: bool,
    useEigen: bool,
    contacts: seq<Vec3>,
    isWatertight: bool,
    linkNum: nat)

  /** A hand as construction leaves it: the eigengrasp state, when present,
      is well formed, spans the hand's joints and has sound bounds, and the
      eigengrasp path is only switched on when that state exists. */
  ghost predicate Valid(h: Hand) {
    && (h.useEigen ==> h.eigen.Some?)
    && (h.eigen.Some? ==>
          var b := HandLbUb(h.palm);
          && WellFormed(h.eigen.value)
          && |h.eigen.value.origin| == NrDof(h.palm)
          && SoundBounds(h.eigen.value, b.lb, b.ub))
  }

  /** Construction from a parsed tree and, when the eigengrasp directory
      holds a file, its parsed contents. Without a file the eigengrasp count
      stays 0 and the eigengrasp path is switched off; a malformed file or a
      link without a mesh fails construction. Contacts and the watertight
      flag come from `build_contacts` and `watertight_check` as written. */
  function Assemble(palm: Link, eigenFile: Option<EigenFile>, useJointLimit: bool, useEigen: bool): (r: Result<Hand>)
    ensures r.Success? ==> Valid(r.value) && r.value.palm == palm && r.value.useJointLimit == useJointLimit
    ensures r.Success? ==> r.value.contacts == palm.effectors && r.value.linkNum == |Flatten(palm)|
    ensures r.Success? ==> WatertightCheck(palm) == Success(r.value.isWatertight)
    ensures eigenFile.None? && r.Success? ==> r.value.eigen == None && !r.value.useEigen
    ensures eigenFile.Some? && r.Success? ==>
      var read := ReadEigenGrasp(eigenFile.value, HandLbUb(palm).lb, HandLbUb(palm).ub);
      && read.Success?
      && r.value.eigen == Some(read.value)
      && r.value.useEigen == useEigen
    ensures r.Failure? <==>
      || (eigenFile.Some? && ReadEigenGrasp(eigenFile.value, HandLbUb(palm).lb, HandLbUb(palm).ub).Failure?)
      || WatertightCheck(palm).Failure?
  {
    var contacts := BuildContacts(palm);
    var b := HandLbUb(palm);
    var eigen :- if eigenFile.None? then Success(None)
                 else var eg :- ReadEigenGrasp(eigenFile.value, b.lb, b.ub); Success(Some(eg));
    var watertight :- WatertightCheck(palm);
    Success(Hand(palm, eigen, useJointLimit, useEigen && eigen.Some?, contacts, watertight, LinkCount(palm)))
  }

  /** What construction leaves in the hand, against the whole-tree reading:
      it fails exactly when the eigengrasp file is malformed or some link has
      no mesh; the watertight flag is that of the last link in pre-order, so
      it is implied by, but does not imply, every link being watertight; and
      the contacts are a prefix of all end effectors, equal to them exactly
      when the palm's descendants carry none. */
  lemma AssembleAgainstWholeTree(palm: Link, eigenFile: Option<EigenFile>, useJointLimit: bool, useEigen: bool)
    ensures var r := Assemble(palm, eigenFile, useJointLimit, useEigen);
            r.Failure? <==>
              || (eigenFile.Some? && ReadEigenGrasp(eigenFile.value, HandLbUb(palm).lb, HandLbUb(palm).ub).Failure?)
              || !AllHaveMesh(Flatten(palm))
    ensures var r := Assemble(palm, eigenFile, useJointLimit, useEigen);
            r.Success? ==>
              && r.value.isWatertight == Flatten(palm)[|Flatten(palm)| - 1].mesh.value.watertight
              && (Every(Flatten(palm), IsWatertight) ==> r.value.isWatertight)
    ensures var r := Assemble(palm, eigenFile, useJointLimit, useEigen);
            r.Success? ==>
              && r.value.contacts <= AllEffectors(palm)
              && (r.value.contacts == AllEffectors(palm) <==> AllEffectorsOf(palm.children) == [])
  {
    WatertightCheckIsLastLink(palm);
    var r := Assemble(palm, eigenFile, useJointLimit, useEigen);
    if r.Success? {
      var fl := Flatten(palm);
      assert fl[0] == palm;
      if Every(fl, IsWatertight) {
        assert IsWatertight(fl[|fl| - 1]);
      }
    }
  }

  function Sigmoid(e: Elementary, x: real): real {
    e.sigmoid(x)
  }

  function Sigmoids(e: Elementary, xs: seq<real>): (r: seq<real>)
    ensures |r| == |xs|
  {
    seq(|xs|, i requires 0 <= i < |xs| => Sigmoid(e, xs[i]))
  }

  /** The sigmoid maps every real strictly into `(0, 1)`. */
  ghost predicate SigmoidInUnit(e: Elementary) {
    forall x :: 0.0 < Sigmoid(e, x) < 1.0
  }

  predicate EigenActive(h: Hand) {
    h.useEigen && h.eigen.Some?
  }

  /** The joint vector `Hand.forward_kinematics` hands to the palm. With the
      eigengrasp path on, the actuation holds one coefficient per direction,
      squashed into the coefficient bounds under joint limits, then expanded
      to joint space; otherwise it holds one value per joint, squashed into
      the joint bounds under joint limits, or used as given. */
  function JointVector(e: Elementary, h: Hand, dofs: seq<real>): (r: Result<seq<real>>)
    requires Valid(h)
    ensures EigenActive(h) ==> (r.Failure? <==> |dofs| != 2)
    ensures !EigenActive(h) && h.useJointLimit ==> (r.Failure? <==> |dofs| != NrDof(h.palm))
    ensures !EigenActive(h) && !h.useJointLimit ==> r == Success(dofs)
    ensures r.Failure? ==> r.error == ArgumentMismatch
    ensures r.Success? && (EigenActive(h) || h.useJointLimit) ==> |r.value| == NrDof(h.palm)
    ensures r.Success? && EigenActive(h) ==>
      var eg := h.eigen.value;
      && |dofs| == 2
      && r.value == Expand(eg, if h.useJointLimit then SquashAll(Sigmoids(e, dofs), eg.lb, eg.ub) else dofs)
    ensures r.Success? && !EigenActive(h) && h.useJointLimit ==>
      var b := HandLbUb(h.palm);
      && |dofs| == |b.lb|
      && r.value == SquashAll(Sigmoids(e, dofs), b.lb, b.ub)
  {
    if EigenActive(h) then
      var eg := h.eigen.value;
      if |dofs| != eg.count then Failure(ArgumentMismatch)
      else
        var c := if h.useJointLimit then SquashAll(Sigmoids(e, dofs), eg.lb, eg.ub) else dofs;
        Success(Expand(eg, c))
    else if h.useJointLimit then
      var b := HandLbUb(h.palm);
      if |dofs| != |b.lb| then Failure(ArgumentMismatch)
      else Success(SquashAll(Sigmoids(e, dofs), b.lb, b.ub))
    else Success(dofs)
  }

  /** Under joint limits off the eigengrasp path, every joint whose range is
      not a point gets a value strictly inside it. */
  lemma JointLimitedInside(e: Elementary, h: Hand, dofs: seq<real>)
    requires Valid(h) && !EigenActive(h) && h.useJointLimit && SigmoidInUnit(e)
    requires JointVector(e, h, dofs).Success?
    ensures var v := JointVector(e, h, dofs).value;
            var b := HandLbUb(h.palm);
            forall k | 0 <= k < |v| && b.lb[k] < b.ub[k] :: b.lb[k] < v[k] < b.ub[k]
  {
    var b := HandLbUb(h.palm);
    var s := Sigmoids(e, dofs);
    assert JointVector(e, h, dofs).value == SquashAll(s, b.lb, b.ub);
    assert forall k | 0 <= k < |s| :: 0.0 < s[k] < 1.0 by {
      forall k | 0 <= k < |s|
        ensures 0.0 < s[k] < 1.0
      {
        assert s[k] == Sigmoid(e, dofs[k]);
      }
    }
  }

  /** Under joint limits on the eigengrasp path, the joint vector is the
      expansion of coefficients that lie strictly inside each direction's
      bounds (whenever those bounds are not a point). */
  lemma EigenCoefficientsInside(e: Elementary, h: Hand, dofs: seq<real>)
    requires Valid(h) && EigenActive(h) && h.useJointLimit && SigmoidInUnit(e)
    requires |dofs| == 2
    ensures JointVector(e, h, dofs).Success?
    ensures var eg := h.eigen.value;
            exists c: seq<real> | |c| == 2 ::
              && JointVector(e, h, dofs).value == Expand(eg, c)
              && forall k | 0 <= k < 2 && eg.lb[k] < eg.ub[k] :: eg.lb[k] < c[k] < eg.ub[k]
  {
    var eg := h.eigen.value;
    var s := Sigmoids(e, dofs);
    var c := SquashAll(s, eg.lb, eg.ub);
    forall k | 0 <= k < 2
      ensures 0.0 < s[k] < 1.0
    {
      assert s[k] == Sigmoid(e, dofs[k]);
    }
    assert JointVector(e, h, dofs).value == Expand(eg, c);
  }

  /** `Hand.forward_kinematics` given the root pose as a translation and a
      rotation (the quaternion or Euler-angle conversion is not modelled):
      compute the joint vector, then pose the palm's tree. The palm has no
      parent, so a palm with joints fails; a joint reading past the end of
      the joint vector fails. On the eigengrasp and joint-limit paths the
      joint vector is squeezed, so with a single dof it becomes a scalar and
      the first joint that reads it fails. */
  function ForwardKinematics(e: Elementary, h: Hand, t: Vec3, rot: Mat3, dofs: seq<real>): (r: Result<Frames>)
    requires Valid(h)
    ensures r.Success? ==> Fits(h.palm, r.value) && r.value.transform == Compose(t, rot)
    ensures r.Success? ==>
      && JointVector(e, h, dofs).Success?
      && DofsCover(JointsOf(h.palm), JointVector(e, h, dofs).value)
      && r.value == Pose(e, h.palm, Compose(t, rot), Compose(t, rot), JointVector(e, h, dofs).value)
    ensures && JointVector(e, h, dofs).Success? && h.palm.joints == [] && !EigenActive(h) && !h.useJointLimit
            ==> (r.Success? <==> DofsCover(JointsOf(h.palm), dofs))
    ensures r.Success? ==> JointVector(e, h, dofs).Success? && h.palm.joints == []
    ensures && JointVector(e, h, dofs).Success? && h.palm.joints == [] && (EigenActive(h) || h.useJointLimit)
            && (NrDof(h.palm) > 1 || JointsOf(h.palm) == [])
            ==> r.Success?
    ensures && JointVector(e, h, dofs).Success? && h.palm.joints == [] && (EigenActive(h) || h.useJointLimit)
            && NrDof(h.palm) == 1 && JointsOf(h.palm) != []
            ==> r == Failure(IndexOutOfRange)
    ensures r.Failure? && JointVector(e, h, dofs).Success? && h.palm.joints == [] ==> r.error == IndexOutOfRange
  {
    var v :- JointVector(e, h, dofs);
    if h.palm.joints != [] then Failure(NoParent)
    else if (EigenActive(h) || h.useJointLimit) && |v| == 1 && JointsOf(h.palm) != [] then Failure(IndexOutOfRange)
    else if !DofsCover(JointsOf(h.palm), v) then Failure(IndexOutOfRange)
    else
      var root := Compose(t, rot);
      Success(Pose(e, h.palm, root, root, v))
  }

  /** On a successful call, every end effector of the tree is placed by its
      own link's frame, in pre-order, and every jointless link sits at the
      root pose. */
  lemma ForwardKinematicsPlacesEffectors(e: Elementary, h: Hand, t: Vec3, rot: Mat3, dofs: seq<real>)
    requires Valid(h) && ForwardKinematics(e, h, t, rot, dofs).Success?
    ensures var f := ForwardKinematics(e, h, t, rot, dofs).value;
            && |PreOrder(f)| == |Flatten(h.palm)|
            && EndEffectorsAll(h.palm, f) == Gather(Flatten(h.palm), PreOrder(f))
            && |EndEffectorsAll(h.palm, f)| == |AllEffectors(h.palm)|
            && JointlessAtRoot(Flatten(h.palm), PreOrder(f), Compose(t, rot))
  {
    var f := ForwardKinematics(e, h, t, rot, dofs).value;
    var v := JointVector(e, h, dofs).value;
    var root := Compose(t, rot);
    assert f == Pose(e, h.palm, root, root, v);
    PreOrderSize(h.palm, f);
    EndEffectorsArePreOrder(h.palm, f);
    EndEffectorCount(h.palm, f);
    JointlessLinksGetRoot(e, h.palm, root, root, v);
  }

  /** Each finger mounted on the palm is posed from the root pose itself:
      its frame is `root · offset · DH_1 · DH_2 ...` at the values of the
      joint vector. */
  lemma ForwardKinematicsFingerFrames(e: Elementary, h: Hand, t: Vec3, rot: Mat3, dofs: seq<real>, i: nat)
    requires Valid(h) && ForwardKinematics(e, h, t, rot, dofs).Success?
    requires i < |h.palm.children| && h.palm.children[i].joints != []
    ensures var v := JointVector(e, h, dofs).value;
            var c := h.palm.children[i];
            && DofsCover(c.joints, v)
            && ForwardKinematics(e, h, t, rot, dofs).value.children[i].transform
               == ChainDH(e, Mul4(Compose(t, rot), c.offset), c.joints, v)
  {
    var v := JointVector(e, h, dofs).value;
    var root := Compose(t, rot);
    Rewrites.PoseAllAt(e, h.palm.children, root, root, v, i);
    JointedFrame(e, h.palm.children[i], root, root, v);
  }
}
