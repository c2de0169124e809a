/**
 Forward kinematics of the link tree.

 The plain path (`Link.forward_kinematics`) gives every link a full 4x4
 world transform; the model returns them as a `Frames` tree shaped like the
 link tree instead of storing them in the links. The batched path
 (`Link.forward`) carries split (rotation, translation) poses and returns the
 world-space end-effector points and the per-link poses in pre-order.
 */
module Kinematics {
  import opened Algebra
  import opened Denavit
  import opened Links
  import opened Results

  // ---------------------------------------------------------------------------
  // One joint

  /** The source's clamp: `max` against the lower bound first, then `min`
      against the upper bound. */
  function Clamp(v: real, lo: real, hi: real): (r: real)
    ensures lo <= hi ==> lo <= r <= hi
    ensures lo <= v <= hi ==> r == v
    ensures lo > hi ==> r == hi
    ensures v < lo <= hi ==> r == lo
    ensures lo <= hi < v ==> r == hi
  {
    var t := if v < lo then lo else v;
    if t < hi then t else hi
  }

  predicate DofsCover(js: seq<Joint>, dofs: seq<real>) {
    IdsBelow(js, |dofs|)
  }

  /** The angle fed to the DH transform: the clamped actuation value, scaled
      by the coupling multiplier and shifted by the angle offset. */
  function JointAngle(j: Joint, dofs: seq<real>): real
    requires j.id < |dofs|
  {
    Clamp(dofs[j.id], j.min, j.max) * j.mul + j.trans
  }

  function JointTransform(e: Elementary, j: Joint, dofs: seq<real>): Mat4
    requires j.id < |dofs|
  {
    DH2Trans(e, JointAngle(j, dofs), j.d, j.r, j.alpha).tr
  }

  /** Right-multiplies `m` by each joint's transform in order. */
  function Chain(e: Elementary, m: Mat4, js: seq<Joint>, dofs: seq<real>): Mat4
    requires DofsCover(js, dofs)
    decreases js
  {
    if js == [] then m else Chain(e, Mul4(m, JointTransform(e, js[0], dofs)), js[1..], dofs)
  }

  /** The world transform of one link given its parent's: the root pose for a
      link without joints, otherwise `parent · offset · DH_1 · DH_2 ...`. */
  function LocalFrame(e: Elementary, l: Link, parent: Mat4, root: Mat4, dofs: seq<real>): Mat4
    requires DofsCover(l.joints, dofs)
  {
    if l.joints == [] then root else Chain(e, Mul4(parent, l.offset), l.joints, dofs)
  }

  // ---------------------------------------------------------------------------
  // Plain path over the tree

  /** World transforms, one per link, arranged like the link tree. */
  datatype Frames = Frames(transform: Mat4, children: seq<Frames>)

  /** `f` has exactly the shape of `l`. */
  predicate Fits(l: Link, f: Frames)
    decreases l
  {
    && |f.children| == |l.children|
    && forall i | 0 <= i < |l.children| :: Fits(l.children[i], f.children[i])
  }

  /** `Link.forward_kinematics`: the link's own transform, then each child
      evaluated against it, in order. */
  function Pose(e: Elementary, l: Link, parent: Mat4, root: Mat4, dofs: seq<real>): (f: Frames)
    requires DofsCover(JointsOf(l), dofs)
    ensures Fits(l, f)
    decreases l
  {
    var t := LocalFrame(e, l, parent, root, dofs);
    Frames(t, PoseAll(e, l.children, t, root, dofs))
  }

  function PoseAll(e: Elementary, cs: seq<Link>, parent: Mat4, root: Mat4, dofs: seq<real>): (fs: seq<Frames>)
    requires DofsCover(JointsOfAll(cs), dofs)
    ensures |fs| == |cs|
    ensures forall i | 0 <= i < |cs| :: Fits(cs[i], fs[i])
    decreases cs
  {
    if cs == [] then []
    else [Pose(e, cs[0], parent, root, dofs)] + PoseAll(e, cs[1..], parent, root, dofs)
  }

  /** The transforms of a frames tree in pre-order. */
  function PreOrder(f: Frames): seq<Mat4>
    decreases f
  {
    [f.transform] + PreOrderAll(f.children)
  }

  function PreOrderAll(fs: seq<Frames>): seq<Mat4>
    decreases fs
  {
    if fs == [] then [] else PreOrder(fs[0]) + PreOrderAll(fs[1..])
  }

  lemma {:induction false} PreOrderSize(l: Link, f: Frames)
    requires Fits(l, f)
    ensures |PreOrder(f)| == |Flatten(l)|
    decreases l
  {
    PreOrderSizeAll(l.children, f.children);
  }

  lemma {:induction false} PreOrderSizeAll(cs: seq<Link>, fs: seq<Frames>)
    requires |cs| == |fs|
    requires forall i | 0 <= i < |cs| :: Fits(cs[i], fs[i])
    ensures |PreOrderAll(fs)| == |FlattenAll(cs)|
    decreases cs
  {
    if cs != [] {
      PreOrderSize(cs[0], fs[0]);
      PreOrderSizeAll(cs[1..], fs[1..]);
    }
  }

  // ---------------------------------------------------------------------------
  // End effectors on the plain path (`Link.get_end_effector_all`)

  function ApplyAll(m: Mat4, ps: seq<Vec3>): (qs: seq<Vec3>) {
    seq(|ps|, i requires 0 <= i < |ps| => Apply(m, ps[i]))
  }

  /** Each point of the link, moved by the link's world transform, followed by
      the points of the children in order. */
  function EndEffectorsAll(l: Link, f: Frames): seq<Vec3>
    requires Fits(l, f)
    decreases l
  {
    ApplyAll(f.transform, l.effectors) + EndEffectorsAllOf(l.children, f.children)
  }

  function EndEffectorsAllOf(cs: seq<Link>, fs: seq<Frames>): seq<Vec3>
    requires |cs| == |fs|
    requires forall i | 0 <= i < |cs| :: Fits(cs[i], fs[i])
    decreases cs
  {
    if cs == [] then [] else EndEffectorsAll(cs[0], fs[0]) + EndEffectorsAllOf(cs[1..], fs[1..])
  }

  /** The reference gathering: walk a pre-order list of links with their
      transforms and move each link's points by its own transform. */
  function Gather(ls: seq<Link>, ts: seq<Mat4>): seq<Vec3>
    requires |ls| == |ts|
  {
    if ls == [] then [] else ApplyAll(ts[0], ls[0].effectors) + Gather(ls[1..], ts[1..])
  }

  lemma {:induction false} GatherAppend(ls: seq<Link>, ts: seq<Mat4>, ls': seq<Link>, ts': seq<Mat4>)
    requires |ls| == |ts| && |ls'| == |ts'|
    ensures Gather(ls + ls', ts + ts') == Gather(ls, ts) + Gather(ls', ts')
    decreases |ls|
  {
    if ls == [] {
      assert ls + ls' == ls' && ts + ts' == ts';
    } else {
      assert (ls + ls')[1..] == ls[1..] + ls' && (ts + ts')[1..] == ts[1..] + ts';
      assert (ls + ls')[0] == ls[0] && (ts + ts')[0] == ts[0];
      GatherAppend(ls[1..], ts[1..], ls', ts');
    }
  }

  /** The recursive collection yields, in pre-order, every end-effector point
      of the subtree moved by the transform of the link that owns it. */
  lemma {:induction false} EndEffectorsArePreOrder(l: Link, f: Frames)
    requires Fits(l, f)
    ensures |PreOrder(f)| == |Flatten(l)|
    ensures EndEffectorsAll(l, f) == Gather(Flatten(l), PreOrder(f))
    decreases l
  {
    PreOrderSize(l, f);
    EndEffectorsArePreOrderAll(l.children, f.children);
    PreOrderSizeAll(l.children, f.children);
    GatherAppend([l], [f.transform], FlattenAll(l.children), PreOrderAll(f.children));
  }

  lemma {:induction false} EndEffectorsArePreOrderAll(cs: seq<Link>, fs: seq<Frames>)
    requires |cs| == |fs|
    requires forall i | 0 <= i < |cs| :: Fits(cs[i], fs[i])
    ensures |PreOrderAll(fs)| == |FlattenAll(cs)|
    ensures EndEffectorsAllOf(cs, fs) == Gather(FlattenAll(cs), PreOrderAll(fs))
    decreases cs
  {
    PreOrderSizeAll(cs, fs);
    if cs != [] {
      EndEffectorsArePreOrder(cs[0], fs[0]);
      EndEffectorsArePreOrderAll(cs[1..], fs[1..]);
      GatherAppend(Flatten(cs[0]), PreOrder(fs[0]), FlattenAll(cs[1..]), PreOrderAll(fs[1..]));
    }
  }

  /** One world-space point per local end-effector point of the subtree. */
  lemma {:induction false} EndEffectorCount(l: Link, f: Frames)
    requires Fits(l, f)
    ensures |EndEffectorsAll(l, f)| == |AllEffectors(l)|
    decreases l
  {
    EndEffectorCountAll(l.children, f.children);
  }

  lemma {:induction false} EndEffectorCountAll(cs: seq<Link>, fs: seq<Frames>)
    requires |cs| == |fs|
    requires forall i | 0 <= i < |cs| :: Fits(cs[i], fs[i])
    ensures |EndEffectorsAllOf(cs, fs)| == |AllEffectorsOf(cs)|
    decreases cs
  {
    if cs != [] {
      EndEffectorCount(cs[0], fs[0]);
      EndEffectorCountAll(cs[1..], fs[1..]);
    }
  }

  // ---------------------------------------------------------------------------
  // Properties of the plain path

  /** `ls[i]` is posed by `ts[i]`, and every link without joints sits at `root`. */
  predicate JointlessAtRoot(ls: seq<Link>, ts: seq<Mat4>, root: Mat4) {
    && |ls| == |ts|
    && forall i | 0 <= i < |ls| :: ls[i].joints == [] ==> ts[i] == root
  }

  lemma JointlessAtRootAppend(ls: seq<Link>, ts: seq<Mat4>, ls': seq<Link>, ts': seq<Mat4>, root: Mat4)
    requires JointlessAtRoot(ls, ts, root) && JointlessAtRoot(ls', ts', root)
    ensures JointlessAtRoot(ls + ls', ts + ts', root)
  {
    forall i | 0 <= i < |ls + ls'| && (ls + ls')[i].joints == []
      ensures (ts + ts')[i] == root
    {
      if i < |ls| {
        assert (ls + ls')[i] == ls[i] && (ts + ts')[i] == ts[i];
      } else {
        assert (ls + ls')[i] == ls'[i - |ls|] && (ts + ts')[i] == ts'[i - |ls|];
      }
    }
  }

  /** Every link without joints, wherever it sits in the tree, is given the
      root pose itself (not its parent's transform). */
  lemma {:induction false} JointlessLinksGetRoot(e: Elementary, l: Link, parent: Mat4, root: Mat4, dofs: seq<real>)
    requires DofsCover(JointsOf(l), dofs)
    ensures JointlessAtRoot(Flatten(l), PreOrder(Pose(e, l, parent, root, dofs)), root)
    decreases l
  {
    var f := Pose(e, l, parent, root, dofs);
    JointlessLinksGetRootAll(e, l.children, f.transform, root, dofs);
    assert JointlessAtRoot([l], [f.transform], root);
    JointlessAtRootAppend([l], [f.transform], FlattenAll(l.children), PreOrderAll(f.children), root);
  }

  lemma {:induction false} JointlessLinksGetRootAll(e: Elementary, cs: seq<Link>, parent: Mat4, root: Mat4, dofs: seq<real>)
    requires DofsCover(JointsOfAll(cs), dofs)
    ensures JointlessAtRoot(FlattenAll(cs), PreOrderAll(PoseAll(e, cs, parent, root, dofs)), root)
    decreases cs
  {
    if cs != [] {
      var fs := PoseAll(e, cs, parent, root, dofs);
      JointlessLinksGetRoot(e, cs[0], parent, root, dofs);
      JointlessLinksGetRootAll(e, cs[1..], parent, root, dofs);
      assert fs[1..] == PoseAll(e, cs[1..], parent, root, dofs);
      JointlessAtRootAppend(Flatten(cs[0]), PreOrder(fs[0]), FlattenAll(cs[1..]), PreOrderAll(fs[1..]), root);
    }
  }

  /** The joint chain written with the multiplied-out DH matrix. */
  function ChainDH(e: Elementary, m: Mat4, js: seq<Joint>, dofs: seq<real>): Mat4
    requires DofsCover(js, dofs)
    decreases js
  {
    if js == [] then m
    else
      var j := js[0];
      ChainDH(e, Mul4(m, DHMatrix(e, JointAngle(j, dofs), j.d, j.r, j.alpha)), js[1..], dofs)
  }

  /** A jointed link's transform is `parent · offset · DH_1 · DH_2 ...`, in the
      order of its joint records, with each DH the closed-form matrix of its
      clamped, coupled angle. */
  lemma {:induction false} JointedFrame(e: Elementary, l: Link, parent: Mat4, root: Mat4, dofs: seq<real>)
    requires DofsCover(JointsOf(l), dofs)
    requires l.joints != []
    ensures Pose(e, l, parent, root, dofs).transform == ChainDH(e, Mul4(parent, l.offset), l.joints, dofs)
  {
    ChainIsChainDH(e, Mul4(parent, l.offset), l.joints, dofs);
  }

  lemma {:induction false} ChainIsChainDH(e: Elementary, m: Mat4, js: seq<Joint>, dofs: seq<real>)
    requires DofsCover(js, dofs)
    ensures Chain(e, m, js, dofs) == ChainDH(e, m, js, dofs)
    decreases js
  {
    if js != [] {
      var j := js[0];
      DH2TransFactors(e, JointAngle(j, dofs), j.d, j.r, j.alpha);
      ChainIsChainDH(e, Mul4(m, JointTransform(e, j, dofs)), js[1..], dofs);
    }
  }

  /** The chain test: a palm at the identity pose with one finger link whose
      single joint has `d = 0`, `r = 1`, `alpha = 0` and range `[0, pi/2]`,
      driven to `pi/2`, puts the finger's origin at `(0, 1, 0)`. */
  lemma QuarterTurnChain(e: Elementary, halfPi: real, m: Mesh)
    requires 0.0 < halfPi
    requires e.cos(halfPi) == 0.0 && e.sin(halfPi) == 1.0
    requires e.cos(0.0) == 1.0 && e.sin(0.0) == 0.0
    ensures
      var j := Joint(0, 1.0, 0.0, 0.0, 1.0, 0.0, 0.0, halfPi);
      var finger := Link(Some(m), Identity4(), TopRows(Identity4()), [j], [], []);
      var palm := Link(Some(m), Identity4(), TopRows(Identity4()), [], [], [finger]);
      && JointsOf(palm) == [j]
      && var f := Pose(e, palm, Identity4(), Identity4(), [halfPi]);
         |f.children| == 1 && Translation(f.children[0].transform) == [0.0, 1.0, 0.0]
  {
    var j := Joint(0, 1.0, 0.0, 0.0, 1.0, 0.0, 0.0, halfPi);
    var finger := Link(Some(m), Identity4(), TopRows(Identity4()), [j], [], []);
    var palm := Link(Some(m), Identity4(), TopRows(Identity4()), [], [], [finger]);
    var dofs := [halfPi];
    assert JointsOf(finger) == [j];
    assert JointsOfAll([finger]) == [j];
    assert JointsOf(palm) == [j];
    assert JointAngle(j, dofs) == halfPi;
    MulIdentityRight(Identity4());
    var jt := JointTransform(e, j, dofs);
    assert [j][1..] == [];
    assert Chain(e, Mul4(Identity4(), Identity4()), [j], dofs) == Chain(e, Mul4(Identity4(), jt), [], dofs);
    var t := LocalFrame(e, finger, Identity4(), Identity4(), dofs);
    assert t == Mul4(Identity4(), jt);
    DH2TransFactors(e, halfPi, 0.0, 1.0, 0.0);
    var f := Pose(e, palm, Identity4(), Identity4(), dofs);
    assert f.children == PoseAll(e, [finger], Identity4(), Identity4(), dofs);
    assert f.children[0].transform == t;
    assert t[0][3] == 0.0 && t[1][3] == 1.0 && t[2][3] == 0.0;
  }

  // ---------------------------------------------------------------------------
  // Batched path (`Link.forward`, one batch element)

  /** The world-space points and the per-link poses, both in pre-order. */
  datatype Batch = Batch(points: seq<Vec3>, frames: seq<RigidPose>)

  function JointTransformBatched(e: Elementary, j: Joint, dofs: seq<real>): Mat4
    requires j.id < |dofs|
  {
    DH2TransBatched(e, JointAngle(j, dofs), j.d, j.r, j.alpha).tr
  }

  /** Applies each joint to the split pose in order. */
  function ChainPose(e: Elementary, q: RigidPose, js: seq<Joint>, dofs: seq<real>): RigidPose
    requires DofsCover(js, dofs)
    decreases js
  {
    if js == [] then q else ChainPose(e, Then(q, JointTransformBatched(e, js[0], dofs)), js[1..], dofs)
  }

  /** The split pose of one link: the root pose without joints, otherwise the
      parent composed with the cached offset rows and then each joint. */
  function LocalPose(e: Elementary, l: Link, parent: RigidPose, root: RigidPose, dofs: seq<real>): RigidPose
    requires DofsCover(l.joints, dofs)
  {
    if l.joints == [] then root else ChainPose(e, ThenPose(parent, l.offsetTop), l.joints, dofs)
  }

  function ApplyPoseAll(q: RigidPose, ps: seq<Vec3>): seq<Vec3> {
    seq(|ps|, i requires 0 <= i < |ps| => ApplyPose(q, ps[i]))
  }

  /** `Link.forward`: this link's points and pose, then the children's
      results concatenated in order. */
  function Forward(e: Elementary, l: Link, parent: RigidPose, root: RigidPose, dofs: seq<real>): (b: Batch)
    requires DofsCover(JointsOf(l), dofs)
    ensures |b.frames| == |Flatten(l)|
    ensures |b.points| == |AllEffectors(l)|
    decreases l
  {
    var q := LocalPose(e, l, parent, root, dofs);
    var rest := ForwardAll(e, l.children, q, root, dofs);
    Batch(ApplyPoseAll(q, l.effectors) + rest.points, [q] + rest.frames)
  }

  function ForwardAll(e: Elementary, cs: seq<Link>, parent: RigidPose, root: RigidPose, dofs: seq<real>): (b: Batch)
    requires DofsCover(JointsOfAll(cs), dofs)
    ensures |b.frames| == |FlattenAll(cs)|
    ensures |b.points| == |AllEffectorsOf(cs)|
    decreases cs
  {
    if cs == [] then Batch([], [])
    else
      var a := Forward(e, cs[0], parent, root, dofs);
      var rest := ForwardAll(e, cs[1..], parent, root, dofs);
      Batch(a.points + rest.points, a.frames + rest.frames)
  }

  // ---------------------------------------------------------------------------
  // The two paths agree

  /** Every offset in the subtree is homogeneous and its cached top rows
      match it. */
  predicate AllSynced(l: Link)
    decreases l
  {
    && Homogeneous(l.offset)
    && l.offsetTop == TopRows(l.offset)
    && forall i | 0 <= i < |l.children| :: AllSynced(l.children[i])
  }

  function TopRowsAll(ts: seq<Mat4>): seq<RigidPose> {
    seq(|ts|, i requires 0 <= i < |ts| => TopRows(ts[i]))
  }

  lemma {:induction false} ChainAgrees(e: Elementary, m: Mat4, js: seq<Joint>, dofs: seq<real>)
    requires DofsCover(js, dofs)
    ensures TopRows(Chain(e, m, js, dofs)) == ChainPose(e, TopRows(m), js, dofs)
    decreases js
  {
    if js != [] {
      var j := js[0];
      var jt := JointTransform(e, j, dofs);
      BatchedDHAgrees(e, JointAngle(j, dofs), j.d, j.r, j.alpha);
      TopRowsOfProduct(m, jt);
      ChainAgrees(e, Mul4(m, jt), js[1..], dofs);
    }
  }

  /** One link: its split pose is the top three rows of its plain transform. */
  lemma LocalPoseAgrees(e: Elementary, l: Link, parent: Mat4, root: Mat4, dofs: seq<real>)
    requires DofsCover(l.joints, dofs)
    requires Homogeneous(l.offset) && l.offsetTop == TopRows(l.offset)
    ensures LocalPose(e, l, TopRows(parent), TopRows(root), dofs) == TopRows(LocalFrame(e, l, parent, root, dofs))
  {
    if l.joints != [] {
      TopRowsOfProduct(parent, l.offset);
      ChainAgrees(e, Mul4(parent, l.offset), l.joints, dofs);
    }
  }

  lemma ApplyPoseAllTopRows(m: Mat4, ps: seq<Vec3>)
    ensures ApplyPoseAll(TopRows(m), ps) == ApplyAll(m, ps)
  {
  }

  lemma TopRowsAllAppend(a: seq<Mat4>, z: seq<Mat4>)
    ensures TopRowsAll(a + z) == TopRowsAll(a) + TopRowsAll(z)
  {
  }

  /** For one batch element, the batched pass returns the top three rows of
      every plain world transform, in pre-order, and the same end-effector
      points as the plain collection, provided the cached offset rows are in
      step with the offsets. */
  lemma {:induction false} BatchedAgreesWithPlain(e: Elementary, l: Link, parent: Mat4, root: Mat4, dofs: seq<real>)
    requires DofsCover(JointsOf(l), dofs)
    requires AllSynced(l)
    ensures var f := Pose(e, l, parent, root, dofs);
            var b := Forward(e, l, TopRows(parent), TopRows(root), dofs);
            b.frames == TopRowsAll(PreOrder(f)) && b.points == EndEffectorsAll(l, f)
    decreases l
  {
    var t := LocalFrame(e, l, parent, root, dofs);
    var q := LocalPose(e, l, TopRows(parent), TopRows(root), dofs);
    LocalPoseAgrees(e, l, parent, root, dofs);
    var fs := PoseAll(e, l.children, t, root, dofs);
    var rest := ForwardAll(e, l.children, q, TopRows(root), dofs);
    BatchedAgreesWithPlainAll(e, l.children, t, root, dofs);
    ApplyPoseAllTopRows(t, l.effectors);
    TopRowsAllAppend([t], PreOrderAll(fs));
    assert Pose(e, l, parent, root, dofs) == Frames(t, fs);
    assert Forward(e, l, TopRows(parent), TopRows(root), dofs)
        == Batch(ApplyPoseAll(q, l.effectors) + rest.points, [q] + rest.frames);
  }

  lemma {:induction false} BatchedAgreesWithPlainAll(e: Elementary, cs: seq<Link>, parent: Mat4, root: Mat4, dofs: seq<real>)
    requires DofsCover(JointsOfAll(cs), dofs)
    requires forall i | 0 <= i < |cs| :: AllSynced(cs[i])
    ensures var fs := PoseAll(e, cs, parent, root, dofs);
            var b := ForwardAll(e, cs, TopRows(parent), TopRows(root), dofs);
            b.frames == TopRowsAll(PreOrderAll(fs)) && b.points == EndEffectorsAllOf(cs, fs)
    decreases cs
  {
    if cs != [] {
      var fs := PoseAll(e, cs, parent, root, dofs);
      BatchedAgreesWithPlain(e, cs[0], parent, root, dofs);
      BatchedAgreesWithPlainAll(e, cs[1..], parent, root, dofs);
      assert fs[1..] == PoseAll(e, cs[1..], parent, root, dofs);
      TopRowsAllAppend(PreOrder(fs[0]), PreOrderAll(fs[1..]));
    }
  }
}
